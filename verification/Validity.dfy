/** The argument validator admits exactly the legal Solidity values of each type. */
module Validity {
  import opened Basics
  import opened AbiTypes
  import opened NormalForm
  import opened Claim
  import opened Commute

  /** v is a legal value of type t for an external call the harness can express. */
  predicate InDomain(e: Env, v: Val, t: Ty, ext: bool)
    decreases e.Height(t), 0
  {
    match t
    case TBytes => v.VBytes?
    case TBool => v.VWord? && v.n < 2
    case TUint(n) => v.VWord? && v.n < Pow2(n)
    case TInt(n) => var half: int := Pow2(n - 1); v.VInt? && -half <= v.z < half
    case TAddress => v.VWord? && v.n < TWO160
    case TInterface => v.VInt? && 0 <= v.z < TWO160
    case TFixedBytes(n) => n == 32 && v.VWord? && v.n < TWO256
    case TEnum(s) => s in e.enums && v.VWord? && v.n < e.enums[s]
    case TFunction(external) => ext && external && v.VFn? && v.addr < TWO160 && v.sel < TWO32
    case TArray(_) => v.VList? && |v.xs| <= MAX_ARRAY_ARG_LEN && AllInDomain(e, v.xs, Fields(e, t, |v.xs|), ext)
    case TFixedArray(_, _) => v.VList? && AllInDomain(e, v.xs, Fields(e, t, |v.xs|), ext)
    case TStruct(s) => s in e.structs && v.VTuple? && AllInDomain(e, v.xs, Fields(e, t, |v.xs|), ext)
    case _ => false
  }

  predicate AllInDomain(e: Env, vs: seq<Val>, ts: seq<Ty>, ext: bool)
    decreases e.HeightAll(ts), 1
  {
    |vs| == |ts| && forall i :: 0 <= i < |vs| ==> InDomain(e, vs[i], ts[i], ext)
  }

  lemma ScalarInDomain(e: Env, a: Arg, t: Ty, ext: bool)
    requires Accepted(e, a, t, ext) && !Composite(e, t) && !t.TFunction?
    ensures InDomain(e, ScalarMeaning(a, t), t, ext)
  {
    hide AllInDomain, ArgDomains, FunctionDomain;
  }

  /** Whatever the validator accepts is a legal value. */
  lemma {:induction false} AcceptedInDomain(e: Env, a: Arg, t: Ty, ext: bool)
    requires Accepted(e, a, t, ext)
    ensures InDomain(e, Meaning(e, a, t, ext), t, ext)
    decreases e.Height(t)
  {
    if Composite(e, t) {
      var ts := Fields(e, t, |a.elems|);
      DomainsLegal(e, a.elems, ts, ext, |ts|);
      var vs := MeaningAll(e, a.elems, ts, ext);
      forall i | 0 <= i < |ts|
        ensures InDomain(e, vs[i], ts[i], ext)
      {
        AcceptedInDomain(e, a.elems[i], ts[i], ext);
      }
      CompositeInDomain(e, a, t, ext, vs);
    } else if !t.TFunction? {
      ScalarInDomain(e, a, t, ext);
    }
  }

  lemma CompositeInDomain(e: Env, a: Arg, t: Ty, ext: bool, vs: seq<Val>)
    requires Accepted(e, a, t, ext) && Composite(e, t) && AllInDomain(e, vs, Fields(e, t, |a.elems|), ext)
    ensures InDomain(e, if t.TStruct? then VTuple(vs) else VList(vs), t, ext)
  {
    hide AllInDomain, ArgDomains;
    var ts := Fields(e, t, |a.elems|);
    assert |vs| == |ts| by { SameLength(e, vs, ts, ext); }
    assert Fields(e, t, |vs|) == ts;
  }

  lemma SameLength(e: Env, vs: seq<Val>, ts: seq<Ty>, ext: bool)
    requires AllInDomain(e, vs, ts, ext)
    ensures |vs| == |ts|
  {
  }

  /** A claim form for a legal value. */
  function ArgFor(e: Env, v: Val, t: Ty): Arg
    decreases v
  {
    match v
    case VBytes(bs) => ABytes(bs)
    case VWord(n) => AWord(n)
    case VInt(z) => if t.TInt? then ASigned(z) else AWord(z)
    case VFn(addr, sel) => AList([AWord(addr), AWord(sel)])
    case VList(xs) => AList(ArgsFor(e, xs, if Composite(e, t) then Fields(e, t, |xs|) else []))
    case VTuple(xs) => AList(ArgsFor(e, xs, if Composite(e, t) then Fields(e, t, |xs|) else []))
  }

  function ArgsFor(e: Env, vs: seq<Val>, ts: seq<Ty>): (args: seq<Arg>)
    ensures |args| == |vs|
    ensures |ts| == |vs| ==> forall i :: 0 <= i < |vs| ==> args[i] == ArgFor(e, vs[i], ts[i])
    decreases vs
  {
    seq(|vs|, i requires 0 <= i < |vs| => ArgFor(e, vs[i], if i < |ts| then ts[i] else TBytes))
  }

  lemma ScalarExpressible(e: Env, v: Val, t: Ty, ext: bool)
    requires InDomain(e, v, t, ext) && !Composite(e, t)
    ensures Accepted(e, ArgFor(e, v, t), t, ext) && Meaning(e, ArgFor(e, v, t), t, ext) == v
  {
  }

  /** Every legal value can be written as an accepted argument that denotes it. */
  lemma {:induction false} Expressible(e: Env, v: Val, t: Ty, ext: bool)
    requires InDomain(e, v, t, ext)
    ensures Accepted(e, ArgFor(e, v, t), t, ext) && Meaning(e, ArgFor(e, v, t), t, ext) == v
    decreases e.Height(t)
  {
    if Composite(e, t) {
      CompositeShape(e, v, t, ext);
      var ts := Fields(e, t, |v.xs|);
      var args := ArgsFor(e, v.xs, ts);
      forall i | 0 <= i < |ts|
        ensures Accepted(e, args[i], ts[i], ext) && Meaning(e, args[i], ts[i], ext) == v.xs[i]
      {
        Expressible(e, v.xs[i], ts[i], ext);
      }
      assert MeaningAll(e, args, ts, ext) == v.xs;
      CompositeExpressible(e, t, ext, args, v.xs);
      RebuildComposite(v, t);
    } else {
      ScalarExpressible(e, v, t, ext);
    }
  }

  lemma CompositeExpressible(e: Env, t: Ty, ext: bool, args: seq<Arg>, vs: seq<Val>)
    requires Composite(e, t) && |args| == |vs| == |Fields(e, t, |args|)| && (t.TArray? ==> |args| <= MAX_ARRAY_ARG_LEN)
    requires AllAccepted(e, args, Fields(e, t, |args|), ext)
    requires MeaningAll(e, args, Fields(e, t, |args|), ext) == vs
    ensures Accepted(e, AList(args), t, ext) && Meaning(e, AList(args), t, ext) == ListOrTuple(t, vs)
  {
    DomainsLegal(e, args, Fields(e, t, |args|), ext, |args|);
    CompositeDomain(e, args, t, ext);
    hide Meaning, MeaningAll, ArgDomains, ArgDomain;
    MeaningStep(e, AList(args), t, ext);
  }

  lemma CompositeShape(e: Env, v: Val, t: Ty, ext: bool)
    requires Composite(e, t) && InDomain(e, v, t, ext)
    ensures (v.VList? || v.VTuple?) && v == (if t.TStruct? then VTuple(v.xs) else VList(v.xs))
    ensures t.TArray? ==> |v.xs| <= MAX_ARRAY_ARG_LEN
    ensures AllInDomain(e, v.xs, Fields(e, t, |v.xs|), ext) && |v.xs| == |Fields(e, t, |v.xs|)|
    ensures ArgFor(e, v, t) == AList(ArgsFor(e, v.xs, Fields(e, t, |v.xs|)))
  {
  }

  lemma CompositeDomain(e: Env, args: seq<Arg>, t: Ty, ext: bool)
    requires Composite(e, t) && |args| == |Fields(e, t, |args|)| && (t.TArray? ==> |args| <= MAX_ARRAY_ARG_LEN)
    ensures ArgDomain(e, AList(args), t, ext) == ArgDomains(e, args, Fields(e, t, |args|), ext, |args|)
  {
    hide ArgDomains;
  }

  lemma RebuildComposite(v: Val, t: Ty)
    requires (v.VList? || v.VTuple?) && v == (if t.TStruct? then VTuple(v.xs) else VList(v.xs))
    ensures ListOrTuple(t, v.xs) == v
  {
  }

  /** The values the accepted arguments denote are exactly the legal ones. */
  lemma ValidatorExactly(e: Env, v: Val, t: Ty, ext: bool)
    ensures InDomain(e, v, t, ext) <==> exists a :: Accepted(e, a, t, ext) && Meaning(e, a, t, ext) == v
  {
    hide InDomain, ArgDomain, Meaning;
    if InDomain(e, v, t, ext) { Expressible(e, v, t, ext); }
    if a :| Accepted(e, a, t, ext) && Meaning(e, a, t, ext) == v { AcceptedInDomain(e, a, t, ext); }
  }
}
