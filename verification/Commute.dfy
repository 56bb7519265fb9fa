/** The commuting diagram: what the EVM is sent decodes to what the Lean side prints. */
module Commute {
  import opened Basics
  import opened AbiTypes
  import opened NormalForm
  import opened AbiSpec
  import opened Decoder
  import opened RoundTrip
  import opened Claim

  /** The value an accepted argument denotes, with no reduction anywhere. */
  function ScalarMeaning(a: Arg, t: Ty): Val
    requires t.TBytes? ==> a.ABytes?
    requires t.TInt? ==> ArgAsSigned(a).Some?
    requires !t.TBytes? && !t.TInt? ==> ArgAsWord(a).Some?
  {
    match t
    case TBytes => VBytes(a.bs)
    case TInt(_) => VInt(ArgAsSigned(a).value)
    case TInterface => VInt(ArgAsWord(a).value)
    case _ => VWord(ArgAsWord(a).value)
  }

  function FunctionMeaning(a: Arg): Val
    requires FunctionDomain(a) == Legal
  {
    VFn(ArgAsWord(a.elems[0]).value, ArgAsWord(a.elems[1]).value)
  }

  /** Structs denote tuples, arrays lists. */
  function ListOrTuple(t: Ty, vs: seq<Val>): Val {
    if t.TStruct? then VTuple(vs) else VList(vs)
  }

  function Meaning(e: Env, a: Arg, t: Ty, ext: bool): Val
    requires Accepted(e, a, t, ext)
    decreases e.Height(t), 0
  {
    if Composite(e, t) then
      var ts := Fields(e, t, |a.elems|);
      DomainsLegal(e, a.elems, ts, ext, |ts|);
      var vs := MeaningAll(e, a.elems, ts, ext);
      ListOrTuple(t, vs)
    else if t.TFunction? then FunctionMeaning(a)
    else ScalarMeaning(a, t)
  }

  function MeaningAll(e: Env, args: seq<Arg>, ts: seq<Ty>, ext: bool): (vs: seq<Val>)
    requires AllAccepted(e, args, ts, ext)
    ensures |vs| == |ts| && forall i :: 0 <= i < |ts| ==> vs[i] == Meaning(e, args[i], ts[i], ext)
    decreases e.HeightAll(ts), 1
  {
    seq(|ts|, i requires 0 <= i < |ts| => Meaning(e, args[i], ts[i], ext))
  }

  /** An accepted argument denotes a value of its type. */
  lemma {:induction false} MeaningTyped(e: Env, a: Arg, t: Ty, ext: bool)
    requires Accepted(e, a, t, ext)
    ensures HasType(e, Meaning(e, a, t, ext), t)
    decreases e.Height(t), 0
  {
    if Composite(e, t) {
      var ts := Fields(e, t, |a.elems|);
      DomainsLegal(e, a.elems, ts, ext, |ts|);
      MeaningAllTyped(e, a.elems, ts, ext);
    } else if !t.TFunction? {
      ScalarMeaningTyped(e, a, t);
    }
  }

  lemma {:induction false} MeaningAllTyped(e: Env, args: seq<Arg>, ts: seq<Ty>, ext: bool)
    requires AllAccepted(e, args, ts, ext)
    ensures HaveTypes(e, MeaningAll(e, args, ts, ext), ts)
    decreases e.HeightAll(ts), 1
  {
    forall i | 0 <= i < |ts|
      ensures HasType(e, MeaningAll(e, args, ts, ext)[i], ts[i])
    {
      MeaningTyped(e, args[i], ts[i], ext);
    }
  }

  lemma WidthInWord(n: width)
    ensures Pow2(n) <= TWO256 && Pow2(n - 1) <= TWO255 && Pow2(256) == TWO256
  {
    WordBounds();
    Pow2Mono(n, 256);
    Pow2Mono(n - 1, 255);
  }

  lemma ScalarMeaningTyped(e: Env, a: Arg, t: Ty)
    requires ScalarDomain(e, a, t) == Legal && (t.TBytes? || Scalar(t)) && !t.TFunction?
    ensures HasType(e, ScalarMeaning(a, t), t)
  {
    match t {
      case TUint(n) => WidthInWord(n);
      case TInt(n) => WidthInWord(n);
      case TFixedBytes(n) => WidthInWord(256);
      case _ =>
    }
  }

  // ----- when the encoder and the Lean renderer raise -----

  /** No JSON boolean stands for a component of an external function value: the one
      accepted form that encoder and renderer refuse. */
  predicate PlainComponents(e: Env, a: Arg, t: Ty)
    decreases e.Height(t), 0
  {
    if Composite(e, t) then
      a.AList? && |a.elems| == |Fields(e, t, |a.elems|)| ==>
        AllPlain(e, a.elems, Fields(e, t, |a.elems|), |a.elems|)
    else t.TFunction? && a.AList? ==> forall i :: 0 <= i < |a.elems| ==> !a.elems[i].ABool?
  }

  predicate AllPlain(e: Env, args: seq<Arg>, ts: seq<Ty>, k: nat)
    requires k <= |args| == |ts|
    decreases e.HeightAll(ts), 1
  {
    forall i :: 0 <= i < k ==> PlainComponents(e, args[i], ts[i])
  }

  /** Every intN leaf is written {"int": n}, and no leaf has a typeString starting
      "interface " (which the decoder takes for a signed type). */
  predicate SignedForms(e: Env, a: Arg, t: Ty)
    decreases e.Height(t), 0
  {
    if Composite(e, t) then
      a.AList? && |a.elems| == |Fields(e, t, |a.elems|)| ==>
        AllSignedForms(e, a.elems, Fields(e, t, |a.elems|), |a.elems|)
    else (t.TInt? ==> a.ASigned?) && !t.TInterface?
  }

  predicate AllSignedForms(e: Env, args: seq<Arg>, ts: seq<Ty>, k: nat)
    requires k <= |args| == |ts|
    decreases e.HeightAll(ts), 1
  {
    forall i :: 0 <= i < k ==> SignedForms(e, args[i], ts[i])
  }

  lemma ScalarEncodes(e: Env, a: Arg, t: Ty)
    requires ScalarDomain(e, a, t) == Legal && (t.TBytes? || Scalar(t)) && !t.TFunction?
    requires HasType(e, ScalarMeaning(a, t), t)
    requires t.TBytes? ==> |a.bs| < TWO256
    ensures EncodeScalar(a) == Some(Part(t.TBytes?, Abi(e, ScalarMeaning(a, t), t)))
  {
    hide Word, Fields, HasType;
    AbiScalar(e, ScalarMeaning(a, t), t);
    hide Abi;
    if !t.TBytes? { ScalarWord(e, a, t); }
  }

  lemma AbiScalar(e: Env, v: Val, t: Ty)
    requires HasType(e, v, t) && (t.TBytes? || Scalar(t))
    ensures t.TBytes? ==> v.VBytes? && Abi(e, v, t) == Word(|v.bs|) + v.bs + Padding(|v.bs|)
    ensures !t.TBytes? ==> (v.VWord? || v.VInt? || v.VFn?) && Abi(e, v, t) == Word(WordOf(v, t))
  {
    hide Word;
  }

  lemma ScalarWord(e: Env, a: Arg, t: Ty)
    requires ScalarDomain(e, a, t) == Legal && Scalar(t) && !t.TFunction?
    ensures EncodeScalar(a) == Some(Part(false, Word(WordOf(ScalarMeaning(a, t), t))))
  {
    hide Word;
    ScalarMeaningTyped(e, a, t);
  }

  lemma FunctionEncodes(a: Arg)
    requires FunctionDomain(a) == Legal
    ensures EncodeFunction(a).Some? <==> !a.elems[0].ABool? && !a.elems[1].ABool?
    ensures EncodeFunction(a).Some?
        ==> EncodeFunction(a) == Some(Part(false, Word(WordOf(FunctionMeaning(a), TFunction(true)))))
  {
    hide Word;
  }

  /** The encoder succeeds on an accepted argument exactly when its function components
      are plain, and then produces the specified encoding of what it denotes. */
  lemma {:induction false} EncodeAccepted(e: Env, a: Arg, t: Ty, ext: bool)
    requires Accepted(e, a, t, ext)
    requires HasType(e, Meaning(e, a, t, ext), t) && |Abi(e, Meaning(e, a, t, ext), t)| < TWO256
    ensures EncodeTyped(e, a, t)
         == if PlainComponents(e, a, t) then Some(Part(IsDynamic(e, t), Abi(e, Meaning(e, a, t, ext), t))) else None
    decreases e.Height(t), 0, 0
  {
    if Composite(e, t) {
      CompositeEncodes(e, a, t, ext);
    } else if t.TFunction? {
      FunctionEncodes(a);
    } else {
      ScalarEncodes(e, a, t);
    }
  }

  lemma {:induction false} CompositeEncodes(e: Env, a: Arg, t: Ty, ext: bool)
    requires Composite(e, t) && Accepted(e, a, t, ext)
    requires HasType(e, Meaning(e, a, t, ext), t) && |Abi(e, Meaning(e, a, t, ext), t)| < TWO256
    ensures EncodeTyped(e, a, t)
         == if PlainComponents(e, a, t) then Some(Part(IsDynamic(e, t), Abi(e, Meaning(e, a, t, ext), t))) else None
    decreases e.HeightAll(Fields(e, t, |a.elems|)), 3, 0
  {
    var ts := Fields(e, t, |a.elems|);
    DomainsLegal(e, a.elems, ts, ext, |ts|);
    var vs := MeaningAll(e, a.elems, ts, ext);
    var body := AbiTuple(e, vs, ts);
    assert Abi(e, Meaning(e, a, t, ext), t) == if t.TArray? then Word(|vs|) + body else body;
    EnoughBytes(e, vs, ts);
    EncodeAllAccepted(e, a.elems, ts, ext);
    EncodeCompositeStep(e, a, t);
  }

  lemma EncodeCompositeStep(e: Env, a: Arg, t: Ty)
    requires Composite(e, t) && a.AList? && |a.elems| == |Fields(e, t, |a.elems|)| < TWO256
    ensures EncodeTyped(e, a, t) ==
      match EncodeTuple(e, a.elems, Fields(e, t, |a.elems|))
      case None => None
      case Some(body) => Some(Part(IsDynamic(e, t), if t.TArray? then Word(|a.elems|) + body else body))
    ensures PlainComponents(e, a, t) == AllPlain(e, a.elems, Fields(e, t, |a.elems|), |a.elems|)
  {
  }

  lemma {:induction false} EncodeAllAccepted(e: Env, args: seq<Arg>, ts: seq<Ty>, ext: bool)
    requires AllAccepted(e, args, ts, ext)
    requires HaveTypes(e, MeaningAll(e, args, ts, ext), ts)
    requires |AbiTuple(e, MeaningAll(e, args, ts, ext), ts)| < TWO256
    ensures EncodeTuple(e, args, ts)
         == if AllPlain(e, args, ts, |ts|) then Some(AbiTuple(e, MeaningAll(e, args, ts, ext), ts)) else None
    decreases e.HeightAll(ts), 2, 0
  {
    var ps := Parts(e, MeaningAll(e, args, ts, ext), ts);
    EachEncodes(e, args, ts, ext, ps);
    EncodeTupleIs(e, args, ts, ps);
  }

  lemma EncodeTupleIs(e: Env, args: seq<Arg>, ts: seq<Ty>, ps: seq<Part>)
    requires |args| == |ts| == |ps| && |Layout(ps)| < TWO256
    requires forall i :: 0 <= i < |ts| ==>
      EncodeTyped(e, args[i], ts[i]) == if PlainComponents(e, args[i], ts[i]) then Some(ps[i]) else None
    ensures EncodeTuple(e, args, ts) == if AllPlain(e, args, ts, |ts|) then Some(Layout(ps)) else None
  {
    hide EncodeTyped, PlainComponents, Layout;
    EncodePartsAre(e, args, ts, ps, |ts|);
    OffsetsAllFit(ps);
    assert ps[..|ts|] == ps;
  }

  lemma {:induction false} EachEncodes(e: Env, args: seq<Arg>, ts: seq<Ty>, ext: bool, ps: seq<Part>)
    requires AllAccepted(e, args, ts, ext) && HaveTypes(e, MeaningAll(e, args, ts, ext), ts)
    requires ps == Parts(e, MeaningAll(e, args, ts, ext), ts) && |Layout(ps)| < TWO256
    ensures forall i :: 0 <= i < |ts| ==>
      EncodeTyped(e, args[i], ts[i]) == if PlainComponents(e, args[i], ts[i]) then Some(ps[i]) else None
    decreases e.HeightAll(ts), 1, 0
  {
    hide EncodeTyped, PlainComponents, Layout;
    var vs := MeaningAll(e, args, ts, ext);
    forall i | 0 <= i < |ts|
      ensures EncodeTyped(e, args[i], ts[i])
           == if PlainComponents(e, args[i], ts[i]) then Some(ps[i]) else None
    {
      PartInside(ps, i);
      assert ps[i] == Part(IsDynamic(e, ts[i]), Abi(e, vs[i], ts[i]));
      EncodeAccepted(e, args[i], ts[i], ext);
    }
  }

  lemma OffsetsAllFit(ps: seq<Part>)
    requires |Layout(ps)| < TWO256
    ensures OffsetsFit(ps, |ps|)
  {
    forall i | 0 <= i < |ps| && ps[i].dyn
      ensures Offset(ps, i) < TWO256
    {
      var rest := LayoutTail(ps, i, []);
    }
  }

  lemma PartInside(ps: seq<Part>, k: nat)
    requires k < |ps|
    ensures |ps[k].enc| <= |Layout(ps)|
  {
    if ps[k].dyn {
      var rest := LayoutTail(ps, k, []);
    } else {
      LayoutHead(ps, k, []);
    }
  }

  lemma {:induction false} EncodePartsAre(e: Env, args: seq<Arg>, ts: seq<Ty>, ps: seq<Part>, k: nat)
    requires k <= |args| == |ts| == |ps|
    requires forall i :: 0 <= i < |ts| ==>
      EncodeTyped(e, args[i], ts[i]) == if PlainComponents(e, args[i], ts[i]) then Some(ps[i]) else None
    ensures EncodeParts(e, args, ts, k) == if AllPlain(e, args, ts, k) then Some(ps[..k]) else None
  {
    hide EncodeTyped, PlainComponents;
    if k > 0 {
      EncodePartsAre(e, args, ts, ps, k - 1);
      if !AllPlain(e, args, ts, k - 1) {
        PartsFail(e, args, ts, k - 1, k);
      } else {
        EncodePartsStep(e, args, ts, k);
        assert ps[..k] == ps[..k - 1] + [ps[k - 1]];
      }
    }
  }

  lemma EncodePartsStep(e: Env, args: seq<Arg>, ts: seq<Ty>, k: nat)
    requires 0 < k <= |args| == |ts| && EncodeParts(e, args, ts, k - 1).Some?
    ensures EncodeParts(e, args, ts, k) ==
      match EncodeTyped(e, args[k - 1], ts[k - 1])
      case None => None
      case Some(p) => Some(EncodeParts(e, args, ts, k - 1).value + [p])
  {
  }

  lemma ScalarRenders(e: Env, a: Arg, t: Ty)
    requires ScalarDomain(e, a, t) == Legal && (t.TBytes? || Scalar(t)) && !t.TFunction?
    requires HasType(e, ScalarMeaning(a, t), t) && (a.AInt? ==> a.n >= 0)
    ensures LeanScalar(a).Some?
    ensures Observed(LeanScalar(a).value) == ScalarMeaning(a, t)
       <==> (t.TInt? ==> a.ASigned?) && !t.TInterface?
  {
    match t {
      case TBytes =>
      case TInt(_) => if a.ASigned? { SignedRound(a.z); }
      case TFixedBytes(_) => WidthInWord(256);
      case TBool => SmallNorm(ArgAsWord(a).value);
      case TUint(_) => SmallNorm(ArgAsWord(a).value);
      case TAddress => SmallNorm(ArgAsWord(a).value);
      case TInterface => SmallNorm(ArgAsWord(a).value);
      case TEnum(_) => SmallNorm(ArgAsWord(a).value);
      case _ =>
    }
  }

  lemma SignedRound(z: int)
    requires -TWO255 <= z < TWO255
    ensures SignedValue(SignedToWord(z)) == z
  {
  }

  lemma SmallNorm(n: nat)
    requires n < TWO256
    ensures Norm(n) == n
  {
  }

  lemma FunctionRenders(a: Arg)
    requires FunctionDomain(a) == Legal
    ensures LeanFunction(a).Some? <==> !a.elems[0].ABool? && !a.elems[1].ABool?
    ensures LeanFunction(a).Some? ==> Observed(LeanFunction(a).value) == FunctionMeaning(a)
  {
  }

  /** The Lean renderer succeeds exactly when the encoder does, and prints what the
      argument denotes exactly when the leaves are in signed form. */
  lemma {:induction false} RenderAccepted(e: Env, a: Arg, t: Ty, ext: bool)
    requires Accepted(e, a, t, ext)
    ensures LeanArg(e, a, t).Some? <==> PlainComponents(e, a, t)
    ensures LeanArg(e, a, t).Some?
        ==> (Observed(LeanArg(e, a, t).value) == Meaning(e, a, t, ext) <==> SignedForms(e, a, t))
    decreases e.Height(t), 0
  {
    MeaningTyped(e, a, t, ext);
    if Composite(e, t) {
      CompositeRenders(e, a, t, ext);
    } else if t.TFunction? {
      FunctionRenders(a);
    } else {
      ScalarRenders(e, a, t);
    }
  }

  lemma {:induction false} CompositeRenders(e: Env, a: Arg, t: Ty, ext: bool)
    requires Composite(e, t) && Accepted(e, a, t, ext) && a.AList?
    ensures LeanArg(e, a, t).Some? <==> PlainComponents(e, a, t)
    ensures LeanArg(e, a, t).Some?
        ==> (Observed(LeanArg(e, a, t).value) == Meaning(e, a, t, ext) <==> SignedForms(e, a, t))
    decreases e.HeightAll(Fields(e, t, |a.elems|)), 3
  {
    hide Meaning, Observed, LeanArg, PlainComponents, SignedForms;
    var ts := Fields(e, t, |a.elems|);
    DomainsLegal(e, a.elems, ts, ext, |ts|);
    RenderAllAccepted(e, a.elems, ts, ext);
    LeanCompositeStep(e, a, t);
    MeaningStep(e, a, t, ext);
    if LeanArgs(e, a.elems, ts, |ts|).Some? {
      ObservedStep(t, LeanArgs(e, a.elems, ts, |ts|).value);
    }
  }

  lemma MeaningStep(e: Env, a: Arg, t: Ty, ext: bool)
    requires Composite(e, t) && Accepted(e, a, t, ext)
    ensures AllAccepted(e, a.elems, Fields(e, t, |a.elems|), ext)
    ensures Meaning(e, a, t, ext) == ListOrTuple(t, MeaningAll(e, a.elems, Fields(e, t, |a.elems|), ext))
  {
    var ts := Fields(e, t, |a.elems|);
    DomainsLegal(e, a.elems, ts, ext, |ts|);
  }

  lemma ObservedStep(t: Ty, xs: seq<LeanValue>)
    requires t.TArray? || t.TFixedArray? || t.TStruct?
    ensures Observed(LeanList(t, xs)) == ListOrTuple(t, ObservedAll(xs))
  {
  }

  lemma LeanCompositeStep(e: Env, a: Arg, t: Ty)
    requires Composite(e, t) && a.AList? && |a.elems| == |Fields(e, t, |a.elems|)|
    ensures LeanArg(e, a, t) ==
      match LeanArgs(e, a.elems, Fields(e, t, |a.elems|), |a.elems|)
      case None => None
      case Some(xs) => Some(LeanList(t, xs))
    ensures PlainComponents(e, a, t) == AllPlain(e, a.elems, Fields(e, t, |a.elems|), |a.elems|)
    ensures SignedForms(e, a, t) == AllSignedForms(e, a.elems, Fields(e, t, |a.elems|), |a.elems|)
  {
  }

  lemma {:induction false} RenderAllAccepted(e: Env, args: seq<Arg>, ts: seq<Ty>, ext: bool)
    requires AllAccepted(e, args, ts, ext)
    ensures LeanArgs(e, args, ts, |ts|).Some? <==> AllPlain(e, args, ts, |ts|)
    ensures LeanArgs(e, args, ts, |ts|).Some?
        ==> (ObservedAll(LeanArgs(e, args, ts, |ts|).value) == MeaningAll(e, args, ts, ext)
             <==> AllSignedForms(e, args, ts, |ts|))
    decreases e.HeightAll(ts), 2
  {
    hide LeanArg, PlainComponents, SignedForms, Observed, Meaning;
    forall i | 0 <= i < |ts|
      ensures LeanArg(e, args[i], ts[i]).Some? <==> PlainComponents(e, args[i], ts[i])
      ensures LeanArg(e, args[i], ts[i]).Some?
          ==> (Observed(LeanArg(e, args[i], ts[i]).value) == Meaning(e, args[i], ts[i], ext)
               <==> SignedForms(e, args[i], ts[i]))
    {
      RenderAccepted(e, args[i], ts[i], ext);
    }
    LeanArgsAre(e, args, ts, |ts|);
    if LeanArgs(e, args, ts, |ts|).Some? {
      ObservedAre(e, args, ts, ext, LeanArgs(e, args, ts, |ts|).value);
    }
  }

  lemma {:induction false} LeanArgsAre(e: Env, args: seq<Arg>, ts: seq<Ty>, k: nat)
    requires k <= |args| == |ts|
    ensures LeanArgs(e, args, ts, k).Some? <==> forall i :: 0 <= i < k ==> LeanArg(e, args[i], ts[i]).Some?
    ensures LeanArgs(e, args, ts, k).Some?
        ==> forall i :: 0 <= i < k ==> LeanArg(e, args[i], ts[i]) == Some(LeanArgs(e, args, ts, k).value[i])
  {
    hide LeanArg;
    if k > 0 {
      LeanArgsAre(e, args, ts, k - 1);
    }
  }

  lemma ObservedAre(e: Env, args: seq<Arg>, ts: seq<Ty>, ext: bool, xs: seq<LeanValue>)
    requires AllAccepted(e, args, ts, ext) && |xs| == |ts|
    requires forall i :: 0 <= i < |ts| ==>
      (Observed(xs[i]) == Meaning(e, args[i], ts[i], ext) <==> SignedForms(e, args[i], ts[i]))
    ensures ObservedAll(xs) == MeaningAll(e, args, ts, ext) <==> AllSignedForms(e, args, ts, |ts|)
  {
    hide SignedForms, Observed, Meaning;
    var os, ms := ObservedAll(xs), MeaningAll(e, args, ts, ext);
    assert os == ms <==> forall i :: 0 <= i < |ts| ==> os[i] == ms[i];
  }

  // ----- the diagram -----

  /** The specified encoding of what an accepted argument denotes. */
  function SpecEncoding(e: Env, a: Arg, t: Ty, ext: bool): seq<byte>
    requires Accepted(e, a, t, ext)
  {
    MeaningTyped(e, a, t, ext);
    Abi(e, Meaning(e, a, t, ext), t)
  }

  function SpecEncodings(e: Env, args: seq<Arg>, ts: seq<Ty>, ext: bool): seq<byte>
    requires AllAccepted(e, args, ts, ext)
  {
    MeaningAllTyped(e, args, ts, ext);
    AbiTuple(e, MeaningAll(e, args, ts, ext), ts)
  }

  /** Both engines are given the same logical call: the sent bytes, whatever follows
      them, decode to the text the Lean value prints. */
  predicate Agree(e: Env, a: Arg, t: Ty, junk: seq<byte>) {
    var sent, lean := EncodeTyped(e, a, t), LeanArg(e, a, t);
    && sent.Some? && lean.Some?
    && PrintOption(DecodeValue(e, sent.value.enc + junk, t)) == Some(RenderValue(lean.value))
  }

  /** Accepted arguments commute exactly when no function component is a JSON boolean
      and every signed leaf is in signed form. */
  lemma CommutesExactly(e: Env, a: Arg, t: Ty, ext: bool, junk: seq<byte>)
    requires Accepted(e, a, t, ext)
    requires |SpecEncoding(e, a, t, ext)| < TWO256
    ensures Agree(e, a, t, junk) <==> PlainComponents(e, a, t) && SignedForms(e, a, t)
  {
    var m := Meaning(e, a, t, ext);
    MeaningTyped(e, a, t, ext);
    assert |Abi(e, m, t)| < TWO256;
    hide *;
    EncodeAccepted(e, a, t, ext);
    RenderAccepted(e, a, t, ext);
    DecodeOfAbi(e, m, t, junk);
    if PlainComponents(e, a, t) {
      RenderIsPrint(LeanArg(e, a, t).value);
      PrintInjective(m, Observed(LeanArg(e, a, t).value));
    }
    AgreeParts(e, a, t, junk, Abi(e, m, t), m);
  }

  lemma AgreeParts(e: Env, a: Arg, t: Ty, junk: seq<byte>, enc: seq<byte>, m: Val)
    requires EncodeTyped(e, a, t) == if PlainComponents(e, a, t) then Some(Part(IsDynamic(e, t), enc)) else None
    requires DecodeValue(e, enc + junk, t) == Some(m)
    ensures Agree(e, a, t, junk)
       <==> PlainComponents(e, a, t) && LeanArg(e, a, t).Some? && Print(m) == RenderValue(LeanArg(e, a, t).value)
  {
    hide EncodeTyped, PlainComponents, LeanArg, DecodeValue, Print, RenderValue;
  }

  predicate AgreeAll(e: Env, args: seq<Arg>, ts: seq<Ty>, junk: seq<byte>)
    requires |args| == |ts|
  {
    var sent, lean := EncodeTuple(e, args, ts), LeanArgs(e, args, ts, |ts|);
    && sent.Some? && lean.Some?
    && DecodeTuple(e, sent.value + junk, ts, |ts|).Some?
    && PrintAll(DecodeTuple(e, sent.value + junk, ts, |ts|).value) == RenderAll(lean.value)
  }

  /** The same for a whole argument list, as calldata or constructor arguments. */
  lemma ArgumentsCommuteExactly(e: Env, args: seq<Arg>, ts: seq<Ty>, ext: bool, junk: seq<byte>)
    requires AllAccepted(e, args, ts, ext)
    requires |SpecEncodings(e, args, ts, ext)| < TWO256
    ensures AgreeAll(e, args, ts, junk) <==> AllPlain(e, args, ts, |ts|) && AllSignedForms(e, args, ts, |ts|)
  {
    var ms := MeaningAll(e, args, ts, ext);
    MeaningAllTyped(e, args, ts, ext);
    EncodeAllAccepted(e, args, ts, ext);
    RenderAllAccepted(e, args, ts, ext);
    TupleOfAbi(e, ms, ts, junk);
    if AllPlain(e, args, ts, |ts|) {
      var lean := LeanArgs(e, args, ts, |ts|).value;
      RenderAllIsPrintAll(lean);
      PrintAllInjective(ms, ObservedAll(lean));
    }
  }

  /** No reduction modulo 2^256, 2^160 or 2^32 identifies two accepted arguments that
      denote different values, at any nesting. */
  lemma EncodingLossless(e: Env, a: Arg, b: Arg, t: Ty, ext: bool)
    requires Accepted(e, a, t, ext) && Accepted(e, b, t, ext)
    requires PlainComponents(e, a, t) && PlainComponents(e, b, t)
    requires |SpecEncoding(e, a, t, ext)| < TWO256
    requires |SpecEncoding(e, b, t, ext)| < TWO256
    ensures EncodeTyped(e, a, t) == EncodeTyped(e, b, t) <==> Meaning(e, a, t, ext) == Meaning(e, b, t, ext)
  {
    MeaningTyped(e, a, t, ext);
    MeaningTyped(e, b, t, ext);
    EncodeAccepted(e, a, t, ext);
    EncodeAccepted(e, b, t, ext);
    AbiInjective(e, Meaning(e, a, t, ext), Meaning(e, b, t, ext), t);
  }

  /** The validator accepts [true, 0] for an external function value; both routes raise. */
  lemma BooleanComponentRaises(e: Env)
    ensures Accepted(e, AList([ABool(true), AInt(0)]), TFunction(true), true)
    ensures EncodeTyped(e, AList([ABool(true), AInt(0)]), TFunction(true)).None?
    ensures LeanArg(e, AList([ABool(true), AInt(0)]), TFunction(true)).None?
  {
  }

  /** The validator accepts a bare 5 for int256; the EVM route prints i:5, Lean w:5. */
  lemma BareIntegerDiverges(e: Env, junk: seq<byte>)
    ensures Accepted(e, AInt(5), TInt(256), true) && !Agree(e, AInt(5), TInt(256), junk)
  {
    WidthInWord(256);
    var v := Meaning(e, AInt(5), TInt(256), true);
    CommutesExactly(e, AInt(5), TInt(256), true, junk);
  }
}
