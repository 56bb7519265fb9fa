/** Which claim arguments the validator takes, form by form. */
module Forms {
  import opened Basics
  import opened AbiTypes
  import opened NormalForm
  import opened Claim

  /** How many words a leaf type takes from 0 up; None for the types given otherwise. */
  function Words(e: Env, t: Ty): Option<nat> {
    match t
    case TBool => Some(2)
    case TUint(n) => Some(Pow2(n))
    case TAddress => Some(TWO160)
    case TInterface => Some(TWO160)
    case TFixedBytes(n) => if n == 32 then Some(TWO256) else None
    case TEnum(s) => if s in e.enums then Some(e.enums[s]) else None
    case _ => None
  }

  /** A JSON number n stands for a legal value of t. */
  predicate TakesNumber(e: Env, t: Ty, n: int) {
    0 <= n && match t
              case TInt(bits) => n < Pow2(bits - 1)
              case _ => Words(e, t).Some? && n < Words(e, t).value
  }

  /** The number an address or selector component is given as. */
  predicate TakesComponent(a: Arg, bound: nat) {
    match a
    case ABool(b) => (if b then 1 else 0) < bound
    case AInt(n) => 0 <= n < bound
    case AWord(n) => 0 <= n < bound
    case _ => false
  }

  /** The arguments a parameter of type t takes, read off their JSON form: true, false, n and
      {"word": n} by the number they are, {"int": z} for signed types only, {"bytes": ..} for
      bytes and strings only, and lists component by component. */
  predicate Takes(e: Env, a: Arg, t: Ty, ext: bool)
    decreases a
  {
    match a
    case ABool(b) => !t.TInt? && TakesNumber(e, t, if b then 1 else 0)
    case AInt(n) => TakesNumber(e, t, n)
    case AWord(n) => TakesNumber(e, t, n)
    case ASigned(z) => t.TInt? && var half: int := Pow2(t.bits - 1); -half <= z < half
    case ABytes(_) => t.TBytes?
    case AOther => false
    case AList(elems) =>
      match t
      case TArray(el) => |elems| <= MAX_ARRAY_ARG_LEN && TakesEach(e, elems, el, ext)
      case TFixedArray(el, n) => |elems| == n && TakesEach(e, elems, el, ext)
      case TStruct(s) => s in e.structs && |elems| == |e.structs[s]| && TakesAll(e, elems, e.structs[s], ext)
      case TFunction(external) =>
        ext && external && |elems| == 2 && TakesComponent(elems[0], TWO160) && TakesComponent(elems[1], TWO32)
      case _ => false
  }

  predicate TakesEach(e: Env, args: seq<Arg>, t: Ty, ext: bool)
    decreases args
  {
    forall i :: 0 <= i < |args| ==> Takes(e, args[i], t, ext)
  }

  predicate TakesAll(e: Env, args: seq<Arg>, ts: seq<Ty>, ext: bool)
    requires |args| == |ts|
    decreases args
  {
    forall i :: 0 <= i < |args| ==> Takes(e, args[i], ts[i], ext)
  }

  lemma LeafForms(e: Env, a: Arg, t: Ty, ext: bool)
    requires !Composite(e, t)
    ensures Accepted(e, a, t, ext) <==> Takes(e, a, t, ext)
  {
    hide ArgDomains, Pow2, TakesEach, TakesAll;
  }

  /** A list of the right length for the components of t. */
  predicate Fits(e: Env, a: Arg, t: Ty)
    requires Composite(e, t)
  {
    a.AList? && |Fields(e, t, |a.elems|)| == |a.elems| && (t.TArray? ==> |a.elems| <= MAX_ARRAY_ARG_LEN)
  }

  lemma CompositeAccepted(e: Env, a: Arg, t: Ty, ext: bool)
    requires Composite(e, t)
    ensures Accepted(e, a, t, ext) <==> Fits(e, a, t) && AllAccepted(e, a.elems, Fields(e, t, |a.elems|), ext)
    ensures !Fits(e, a, t) ==> ArgDomain(e, a, t, ext) == Malformed
    ensures Fits(e, a, t) ==>
      ArgDomain(e, a, t, ext) == ArgDomains(e, a.elems, Fields(e, t, |a.elems|), ext, |a.elems|)
  {
    hide ArgDomains, Accepted;
    if Fits(e, a, t) { DomainsLegal(e, a.elems, Fields(e, t, |a.elems|), ext, |a.elems|); }
    OneAccepted(e, a, t, ext);
  }

  lemma OneAccepted(e: Env, a: Arg, t: Ty, ext: bool)
    ensures Accepted(e, a, t, ext) <==> ArgDomain(e, a, t, ext) == Legal
  {
    hide ArgDomain;
  }

  lemma EachTaken(e: Env, args: seq<Arg>, t: Ty, ts: seq<Ty>, ext: bool)
    requires |args| == |ts| && forall i :: 0 <= i < |ts| ==> ts[i] == t
    ensures TakesEach(e, args, t, ext) <==> TakesAll(e, args, ts, ext)
  {
    hide Takes;
    if TakesEach(e, args, t, ext) {
      forall i | 0 <= i < |args|
        ensures Takes(e, args[i], ts[i], ext)
      {
        assert ts[i] == t;
      }
    }
    if TakesAll(e, args, ts, ext) {
      forall i | 0 <= i < |args|
        ensures Takes(e, args[i], t, ext)
      {
        assert ts[i] == t;
      }
    }
  }

  lemma ArrayTakes(e: Env, a: Arg, t: Ty, ext: bool)
    requires t.TArray? || t.TFixedArray?
    ensures Takes(e, a, t, ext) <==> Fits(e, a, t) && TakesEach(e, a.elems, t.elem, ext)
  {
  }

  lemma StructTakes(e: Env, a: Arg, t: Ty, ext: bool)
    requires t.TStruct? && t.name in e.structs
    ensures Takes(e, a, t, ext) <==> Fits(e, a, t) && TakesAll(e, a.elems, e.structs[t.name], ext)
  {
  }

  lemma CompositeTakes(e: Env, a: Arg, t: Ty, ext: bool)
    requires Composite(e, t)
    ensures Takes(e, a, t, ext) <==> Fits(e, a, t) && TakesAll(e, a.elems, Fields(e, t, |a.elems|), ext)
  {
    hide Takes, TakesEach, TakesAll;
    if t.TStruct? {
      StructTakes(e, a, t, ext);
    } else {
      ArrayTakes(e, a, t, ext);
      if Fits(e, a, t) { EachTaken(e, a.elems, t.elem, Fields(e, t, |a.elems|), ext); }
    }
  }

  /** An argument is accepted exactly when it is one its type takes, at any nesting. */
  lemma {:induction false} FormsExactly(e: Env, a: Arg, t: Ty, ext: bool)
    ensures Accepted(e, a, t, ext) <==> Takes(e, a, t, ext)
    decreases a
  {
    if Composite(e, t) {
      CompositeAccepted(e, a, t, ext);
      CompositeTakes(e, a, t, ext);
      hide Accepted, ArgDomain, Takes;
      if Fits(e, a, t) {
        var ts := Fields(e, t, |a.elems|);
        forall i | 0 <= i < |a.elems|
          ensures Accepted(e, a.elems[i], ts[i], ext) <==> Takes(e, a.elems[i], ts[i], ext)
        {
          FormsExactly(e, a.elems[i], ts[i], ext);
        }
      }
    } else {
      LeafForms(e, a, t, ext);
    }
  }

  // ----- arguments out of scope rather than malformed -----

  /** A type without components whose values the validator cannot bound. */
  predicate Unbounded(e: Env, t: Ty, ext: bool) {
    match t
    case TFixedBytes(n) => n != 32
    case TEnum(s) => s !in e.enums
    case TFunction(external) => !(ext && external)
    case TStruct(s) => s !in e.structs
    case _ => t.TFixedPoint? || t.TMapping? || t.TTuple?
  }

  /** The first value in a that is not taken is one of an unbounded type, in a form that is
      not malformed for every type. */
  ghost predicate Escapes(e: Env, a: Arg, t: Ty, ext: bool)
    decreases a
  {
    match a
    case AInt(n) => n >= 0 && Unbounded(e, t, ext)
    case AList(elems) =>
      if Composite(e, t) then
        Fits(e, a, t) && FirstEscapes(e, elems, Fields(e, t, |elems|), ext)
      else (t.TFunction? || t.TStruct?) && Unbounded(e, t, ext)
    case _ => Unbounded(e, t, ext)
  }

  ghost predicate FirstEscapes(e: Env, args: seq<Arg>, ts: seq<Ty>, ext: bool)
    requires |args| == |ts|
    decreases args
  {
    exists i :: 0 <= i < |args| && Escapes(e, args[i], ts[i], ext)
      && forall j :: 0 <= j < i ==> Takes(e, args[j], ts[j], ext)
  }

  lemma LeafScope(e: Env, a: Arg, t: Ty, ext: bool)
    requires !Composite(e, t)
    ensures ArgDomain(e, a, t, ext) == OutOfScope <==> Escapes(e, a, t, ext)
  {
    hide ArgDomains, Pow2;
  }

  /** The verdict on a list is that of its first component which is not legal. */
  lemma {:induction false} FirstScope(e: Env, args: seq<Arg>, ts: seq<Ty>, ext: bool, k: nat)
    requires |args| == |ts| && k <= |ts|
    ensures ArgDomains(e, args, ts, ext, k) == OutOfScope
       <==> exists i :: 0 <= i < k && ArgDomain(e, args[i], ts[i], ext) == OutOfScope
              && forall j :: 0 <= j < i ==> Accepted(e, args[j], ts[j], ext)
  {
    hide ArgDomain;
    if k > 0 {
      FirstScope(e, args, ts, ext, k - 1);
      DomainsLegal(e, args, ts, ext, k - 1);
    }
  }

  lemma CompositeScope(e: Env, a: Arg, t: Ty, ext: bool)
    requires Composite(e, t)
    ensures Escapes(e, a, t, ext)
       <==> Fits(e, a, t) && FirstEscapes(e, a.elems, Fields(e, t, |a.elems|), ext)
  {
    hide FirstEscapes, Fits, Unbounded;
    CompositeBounded(e, a, t, ext);
  }

  lemma CompositeBounded(e: Env, a: Arg, t: Ty, ext: bool)
    requires Composite(e, t)
    ensures !Unbounded(e, t, ext) && (Fits(e, a, t) ==> a.AList?)
  {
  }

  /** The verdict is out of scope, not malformed, exactly when the first value that is not
      taken is one of a type without known bounds. */
  lemma {:induction false} ScopeExactly(e: Env, a: Arg, t: Ty, ext: bool)
    ensures ArgDomain(e, a, t, ext) == OutOfScope <==> Escapes(e, a, t, ext)
    decreases a
  {
    if Composite(e, t) {
      CompositeAccepted(e, a, t, ext);
      CompositeScope(e, a, t, ext);
      hide Accepted, ArgDomain, ArgDomains, Takes, Escapes;
      if Fits(e, a, t) {
        var ts := Fields(e, t, |a.elems|);
        FirstScope(e, a.elems, ts, ext, |ts|);
        forall i | 0 <= i < |a.elems|
          ensures ArgDomain(e, a.elems[i], ts[i], ext) == OutOfScope <==> Escapes(e, a.elems[i], ts[i], ext)
          ensures Accepted(e, a.elems[i], ts[i], ext) <==> Takes(e, a.elems[i], ts[i], ext)
        {
          ScopeExactly(e, a.elems[i], ts[i], ext);
          FormsExactly(e, a.elems[i], ts[i], ext);
        }
      }
    } else {
      LeafScope(e, a, t, ext);
    }
  }

  // ----- the Lean values arguments become -----

  /** The value has the constructor solidity-lean uses at t, at any nesting: dynamic arrays
      for T[], fixed arrays for T[N], tuples for structs. */
  predicate Built(e: Env, v: LeanValue, t: Ty)
    decreases v
  {
    match t
    case TArray(el) => v.LDynamicArray? && forall i :: 0 <= i < |v.xs| ==> Built(e, v.xs[i], el)
    case TFixedArray(el, n) => v.LFixedArray? && |v.xs| == n && forall i :: 0 <= i < n ==> Built(e, v.xs[i], el)
    case TStruct(s) =>
      && v.LTuple? && s in e.structs && |v.xs| == |e.structs[s]|
      && forall i :: 0 <= i < |v.xs| ==> Built(e, v.xs[i], e.structs[s][i])
    case TFunction(_) => v.LExternalFunction?
    case _ => !v.LDynamicArray? && !v.LFixedArray? && !v.LTuple? && !v.LExternalFunction?
  }

  lemma {:induction false} RenderedBuilt(e: Env, a: Arg, t: Ty)
    requires LeanArg(e, a, t).Some?
    ensures Built(e, LeanArg(e, a, t).value, t)
    decreases e.Height(t), 0
  {
    if Composite(e, t) {
      var ts := Fields(e, t, |a.elems|);
      RenderedList(e, a, t);
      var xs := LeanArgs(e, a.elems, ts, |ts|).value;
      RenderedAllBuilt(e, a.elems, ts, |ts|);
      hide LeanArg, LeanArgs;
      BuiltList(e, t, xs, ts);
    } else {
      RenderedLeaf(e, a, t);
    }
  }

  lemma RenderedLeaf(e: Env, a: Arg, t: Ty)
    requires LeanArg(e, a, t).Some? && !Composite(e, t)
    ensures Built(e, LeanArg(e, a, t).value, t)
  {
    hide LeanArgs;
  }

  lemma RenderedList(e: Env, a: Arg, t: Ty)
    requires Composite(e, t) && LeanArg(e, a, t).Some?
    ensures a.AList? && |Fields(e, t, |a.elems|)| == |a.elems|
    ensures LeanArgs(e, a.elems, Fields(e, t, |a.elems|), |a.elems|).Some?
    ensures LeanArg(e, a, t).value == LeanList(t, LeanArgs(e, a.elems, Fields(e, t, |a.elems|), |a.elems|).value)
  {
    hide LeanArgs;
  }

  lemma BuiltList(e: Env, t: Ty, xs: seq<LeanValue>, ts: seq<Ty>)
    requires Composite(e, t) && |xs| == |ts| && ts == Fields(e, t, |xs|)
    requires forall i :: 0 <= i < |xs| ==> Built(e, xs[i], ts[i])
    ensures Built(e, LeanList(t, xs), t)
  {
    match t {
      case TArray(el) => assert forall i :: 0 <= i < |xs| ==> ts[i] == el;
      case TFixedArray(el, _) => assert forall i :: 0 <= i < |xs| ==> ts[i] == el;
      case TStruct(s) => assert ts == e.structs[s];
    }
  }

  lemma {:induction false} RenderedAllBuilt(e: Env, args: seq<Arg>, ts: seq<Ty>, k: nat)
    requires |args| == |ts| && k <= |ts| && LeanArgs(e, args, ts, k).Some?
    ensures forall i :: 0 <= i < k ==> Built(e, LeanArgs(e, args, ts, k).value[i], ts[i])
    decreases e.HeightAll(ts), 1, k
  {
    hide LeanArg, Built;
    if k > 0 {
      RenderedAllBuilt(e, args, ts, k - 1);
      RenderedBuilt(e, args[k - 1], ts[k - 1]);
    }
  }
}
