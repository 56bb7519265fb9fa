/** The head/tail layout of the Solidity Contract ABI Specification, section
    "Formal Specification of the Encoding", on typed normal-form values. */
module AbiSpec {
  import opened Basics
  import opened AbiTypes
  import opened NormalForm

  /** One encoded tuple component: its bytes, and whether they go to the tail. */
  datatype Part = Part(dyn: bool, enc: seq<byte>)

  function HeadLen(ps: seq<Part>, k: nat): nat
    requires k <= |ps|
  {
    if k == 0 then 0 else HeadLen(ps, k - 1) + if ps[k - 1].dyn then 32 else |ps[k - 1].enc|
  }

  /** Concatenated encodings of the dynamic components among the first k. */
  function Tails(ps: seq<Part>, k: nat): seq<byte>
    requires k <= |ps|
  {
    if k == 0 then [] else Tails(ps, k - 1) + if ps[k - 1].dyn then ps[k - 1].enc else []
  }

  /** Where the tail of component k starts, relative to the region. */
  function Offset(ps: seq<Part>, k: nat): nat
    requires k <= |ps|
  {
    HeadLen(ps, |ps|) + |Tails(ps, k)|
  }

  function Heads(ps: seq<Part>, k: nat): (bs: seq<byte>)
    requires k <= |ps|
    ensures |bs| == HeadLen(ps, k)
  {
    if k == 0 then []
    else Heads(ps, k - 1) + if ps[k - 1].dyn then Word(Offset(ps, k - 1)) else ps[k - 1].enc
  }

  function Layout(ps: seq<Part>): seq<byte> {
    Heads(ps, |ps|) + Tails(ps, |ps|)
  }

  lemma {:induction false} HeadsPrefix(ps: seq<Part>, j: nat, k: nat)
    requires j <= k <= |ps|
    ensures HeadLen(ps, j) <= HeadLen(ps, k) && Heads(ps, k)[..HeadLen(ps, j)] == Heads(ps, j)
    decreases k
  {
    if j < k {
      HeadsPrefix(ps, j, k - 1);
    }
  }

  lemma {:induction false} TailsPrefix(ps: seq<Part>, j: nat, k: nat)
    requires j <= k <= |ps|
    ensures |Tails(ps, j)| <= |Tails(ps, k)| && Tails(ps, k)[..|Tails(ps, j)|] == Tails(ps, j)
    decreases k
  {
    if j < k {
      TailsPrefix(ps, j, k - 1);
    }
  }

  /** A head slot of the layout holds the inlined bytes or the offset word. */
  lemma LayoutHead(ps: seq<Part>, k: nat, junk: seq<byte>)
    requires k < |ps|
    ensures HeadLen(ps, k + 1) <= |Layout(ps)|
    ensures (Layout(ps) + junk)[HeadLen(ps, k)..HeadLen(ps, k + 1)]
         == if ps[k].dyn then Word(Offset(ps, k)) else ps[k].enc
  {
    HeadsPrefix(ps, k + 1, |ps|);
    var h := Heads(ps, k + 1);
    assert (Layout(ps) + junk)[..HeadLen(ps, k + 1)] == h;
    assert (Layout(ps) + junk)[HeadLen(ps, k)..HeadLen(ps, k + 1)] == h[HeadLen(ps, k)..];
  }

  /** A tail slot of the layout starts with the component's own encoding. */
  lemma LayoutTail(ps: seq<Part>, k: nat, junk: seq<byte>) returns (rest: seq<byte>)
    requires k < |ps| && ps[k].dyn
    ensures Offset(ps, k) + |ps[k].enc| <= |Layout(ps)|
    ensures (Layout(ps) + junk)[Offset(ps, k)..] == ps[k].enc + rest
  {
    TailsPrefix(ps, k + 1, |ps|);
    var t := Tails(ps, |ps|);
    var a := |Tails(ps, k)|;
    assert t[..a + |ps[k].enc|] == Tails(ps, k) + ps[k].enc;
    rest := t[a + |ps[k].enc|..] + junk;
    assert t == Tails(ps, k) + ps[k].enc + t[a + |ps[k].enc|..];
    assert (Layout(ps) + junk)[Offset(ps, k)..] == ps[k].enc + rest;
  }

  /** v is a value an engine can return at type t, in the normal form's convention
      (fixed bytes right-aligned, as the Lean side keeps them). */
  predicate HasType(e: Env, v: Val, t: Ty)
    decreases e.Height(t), 0
  {
    match t
    case TBytes => v.VBytes?
    case TInt(_) => v.VInt? && -TWO255 <= v.z < TWO255
    case TInterface => v.VInt? && -TWO255 <= v.z < TWO255
    case TFixedBytes(n) => v.VWord? && v.n < Pow2(8 * n)
    case TFunction(external) =>
      if external then v.VFn? && v.addr < TWO160 && v.sel < TWO32 else v.VWord? && v.n < TWO256
    case TArray(_) => v.VList? && HaveTypes(e, v.xs, Fields(e, t, |v.xs|))
    case TFixedArray(_, _) => v.VList? && HaveTypes(e, v.xs, Fields(e, t, |v.xs|))
    case TStruct(s) => s in e.structs && v.VTuple? && HaveTypes(e, v.xs, Fields(e, t, |v.xs|))
    case _ => v.VWord? && v.n < TWO256
  }

  predicate HaveTypes(e: Env, vs: seq<Val>, ts: seq<Ty>)
    decreases e.HeightAll(ts), 1
  {
    |vs| == |ts| && forall i :: 0 <= i < |vs| ==> HasType(e, vs[i], ts[i])
  }

  /** The 32-byte word of a static scalar. */
  function WordOf(v: Val, t: Ty): nat
    requires v.VWord? || v.VInt? || v.VFn?
  {
    if v.VInt? then v.z % TWO256
    else if v.VFn? then v.addr * TWO96 + v.sel * TWO64
    else if t.TFixedBytes? then v.n * Pow2(256 - 8 * t.size)
    else v.n
  }

  /** The fewest zero bytes that fill the last word. */
  function Padding(len: nat): (bs: seq<byte>)
    ensures |bs| < 32 && (len + |bs|) % 32 == 0 && Whole(len + |bs|)
  {
    WholeIsMultiple(len + (32 - len % 32) % 32);
    seq((32 - len % 32) % 32, _ => 0)
  }

  lemma PaddingZero(len: nat)
    ensures forall i :: 0 <= i < |Padding(len)| ==> Padding(len)[i] == 0
  {
  }

  function Abi(e: Env, v: Val, t: Ty): seq<byte>
    requires HasType(e, v, t)
    decreases e.Height(t), 0
  {
    if t.TBytes? then Word(|v.bs|) + v.bs + Padding(|v.bs|)
    else if t.TArray? then Word(|v.xs|) + AbiTuple(e, v.xs, Fields(e, t, |v.xs|))
    else if Composite(e, t) then AbiTuple(e, v.xs, Fields(e, t, |v.xs|))
    else Word(WordOf(v, t))
  }

  function AbiTuple(e: Env, vs: seq<Val>, ts: seq<Ty>): seq<byte>
    requires HaveTypes(e, vs, ts)
    decreases e.HeightAll(ts), 2
  {
    Layout(Parts(e, vs, ts))
  }

  function Parts(e: Env, vs: seq<Val>, ts: seq<Ty>): (ps: seq<Part>)
    requires HaveTypes(e, vs, ts)
    ensures |ps| == |vs|
    decreases e.HeightAll(ts), 1
  {
    seq(|vs|, i requires 0 <= i < |vs| => Part(IsDynamic(e, ts[i]), Abi(e, vs[i], ts[i])))
  }

  /** The parts of a tuple agree with what the decoder computes from types alone. */
  predicate PartsFit(e: Env, ps: seq<Part>, ts: seq<Ty>) {
    |ps| == |ts| && forall i :: 0 <= i < |ps| ==>
      && ps[i].dyn == IsDynamic(e, ts[i])
      && (!ps[i].dyn ==> |ps[i].enc| == HeadSize(e, ts[i]))
      && Whole(|ps[i].enc|)
  }

  /** Field positions the decoder computes from types are the encoder's head lengths,
      and every tail starts on a word boundary. */
  lemma {:induction false} LayoutLength(e: Env, ps: seq<Part>, ts: seq<Ty>, k: nat)
    requires PartsFit(e, ps, ts) && k <= |ps|
    ensures HeadLen(ps, k) == HeadTotal(e, ts, k)
    ensures Whole(HeadLen(ps, k)) && Whole(|Tails(ps, k)|)
  {
    if k > 0 {
      LayoutLength(e, ps, ts, k - 1);
      HeadSizeWords(e, ts[k - 1]);
      var p := ps[k - 1];
      WholeAdd(HeadLen(ps, k - 1), if p.dyn then 32 else |p.enc|);
      WholeAdd(|Tails(ps, k - 1)|, if p.dyn then |p.enc| else 0);
    }
  }

  lemma {:induction false} NoTails(ps: seq<Part>, k: nat)
    requires k <= |ps| && forall i :: 0 <= i < k ==> !ps[i].dyn
    ensures Tails(ps, k) == []
  {
    if k > 0 {
      NoTails(ps, k - 1);
    }
  }

  lemma LayoutWords(e: Env, ps: seq<Part>, ts: seq<Ty>)
    requires PartsFit(e, ps, ts)
    ensures Whole(|Layout(ps)|)
    ensures (forall i :: 0 <= i < |ts| ==> !IsDynamic(e, ts[i])) ==> |Layout(ps)| == HeadTotal(e, ts, |ts|)
  {
    LayoutLength(e, ps, ts, |ps|);
    WholeAdd(HeadLen(ps, |ps|), |Tails(ps, |ps|)|);
    if forall i :: 0 <= i < |ts| ==> !IsDynamic(e, ts[i]) {
      NoTails(ps, |ps|);
    }
  }

  /** Layout agreement: a static value occupies exactly its head size, and every
      encoding is a whole number of words. */
  lemma {:induction false} AbiLength(e: Env, v: Val, t: Ty)
    requires HasType(e, v, t)
    ensures !IsDynamic(e, t) ==> |Abi(e, v, t)| == HeadSize(e, t)
    ensures Whole(|Abi(e, v, t)|)
    decreases e.Height(t), 0
  {
    if Composite(e, t) {
      CompositeShape(e, v, t);
      var ts := Fields(e, t, |v.xs|);
      AbiComposite(e, v, t);
      hide *;
      PartsFitLemma(e, v.xs, ts);
      CompositeLength(e, t, |v.xs|, AbiTuple(e, v.xs, ts), Abi(e, v, t));
    } else {
      ScalarLength(e, v, t);
    }
  }

  lemma CompositeShape(e: Env, v: Val, t: Ty)
    requires HasType(e, v, t) && Composite(e, t)
    ensures v.VList? || v.VTuple?
  {
  }

  lemma ScalarLength(e: Env, v: Val, t: Ty)
    requires HasType(e, v, t) && !Composite(e, t)
    ensures Whole(|Abi(e, v, t)|) && (!IsDynamic(e, t) ==> |Abi(e, v, t)| == HeadSize(e, t))
  {
    hide Word;
    if t.TBytes? {
      WholeAdd(32, |v.bs| + |Padding(|v.bs|)|);
    }
  }

  /** The size of a composite, from that of the tuple of its components. */
  lemma CompositeLength(e: Env, t: Ty, n: nat, body: seq<byte>, enc: seq<byte>)
    requires Composite(e, t) && (t.TArray? ==> IsDynamic(e, t))
    requires enc == if t.TArray? then Word(n) + body else body
    requires Whole(|body|)
    requires (forall i :: 0 <= i < |Fields(e, t, n)| ==> !IsDynamic(e, Fields(e, t, n)[i]))
      ==> |body| == HeadTotal(e, Fields(e, t, n), |Fields(e, t, n)|)
    ensures Whole(|enc|) && (!IsDynamic(e, t) ==> |enc| == HeadSize(e, t))
  {
    hide *;
    WholeWord(|body|);
    if !IsDynamic(e, t) { CompositeHeadSize(e, t, n); }
  }

  lemma WholeWord(n: nat)
    requires Whole(n)
    ensures Whole(32 + n)
  {
    WholeAdd(32, n);
  }

  lemma AbiComposite(e: Env, v: Val, t: Ty)
    requires v.VList? || v.VTuple?
    requires HasType(e, v, t) && Composite(e, t)
    ensures HaveTypes(e, v.xs, Fields(e, t, |v.xs|))
    ensures var body := AbiTuple(e, v.xs, Fields(e, t, |v.xs|));
            Abi(e, v, t) == if t.TArray? then Word(|v.xs|) + body else body
    ensures t.TArray? ==> IsDynamic(e, t)
    ensures e.HeightAll(Fields(e, t, |v.xs|)) < e.Height(t) && |Fields(e, t, |v.xs|)| == |v.xs|
  {
    hide AbiTuple, Word;
  }

  lemma {:induction false} PartsFitLemma(e: Env, vs: seq<Val>, ts: seq<Ty>)
    requires HaveTypes(e, vs, ts)
    ensures PartsFit(e, Parts(e, vs, ts), ts)
    ensures Whole(|AbiTuple(e, vs, ts)|)
    ensures (forall i :: 0 <= i < |ts| ==> !IsDynamic(e, ts[i]))
        ==> |AbiTuple(e, vs, ts)| == HeadTotal(e, ts, |ts|)
    decreases e.HeightAll(ts), 1
  {
    forall i | 0 <= i < |vs|
      ensures !IsDynamic(e, ts[i]) ==> |Abi(e, vs[i], ts[i])| == HeadSize(e, ts[i])
      ensures Whole(|Abi(e, vs[i], ts[i])|)
    {
      AbiLength(e, vs[i], ts[i]);
    }
    LayoutWords(e, Parts(e, vs, ts), ts);
  }
}
