/** Decoding inverts the specified encoding at every type, with any bytes appended. */
module RoundTrip {
  import opened Basics
  import opened AbiTypes
  import opened NormalForm
  import opened AbiSpec
  import opened Decoder

  predicate Scalar(t: Ty) {
    !t.TBytes? && !t.TArray? && !t.TFixedArray? && !t.TStruct?
  }

  lemma FixedBytesRead(n: nat, size: bytesWidth)
    requires n < Pow2(8 * size)
    ensures n * Pow2(256 - 8 * size) < TWO256
    ensures RightAlign(n * Pow2(256 - 8 * size), size) == n
  {
    var p := Pow2(256 - 8 * size);
    WordBounds();
    Pow2Add(8 * size, 256 - 8 * size);
    DivAddCancel(n, p, 0);
    MulLess(n, Pow2(8 * size), p);
  }

  lemma MulLess(a: nat, b: nat, p: nat)
    requires a < b && p > 0
    ensures a * p < b * p
  {
  }

  lemma FunctionRead(addr: nat, sel: nat)
    requires addr < TWO160 && sel < TWO32
    ensures addr * TWO96 + sel * TWO64 < TWO256
    ensures UnpackFunction(addr * TWO96 + sel * TWO64) == VFn(addr, sel)
  {
    DivAddCancel(addr, TWO96, sel * TWO64);
    DivAddCancel(addr * TWO32 + sel, TWO64, 0);
    DivAddCancel(addr, TWO32, sel);
    assert (addr * TWO32 + sel) * TWO64 == addr * TWO96 + sel * TWO64;
  }

  /** Two's complement, bytesN alignment and function packing are all undone. */
  lemma ScalarRead(e: Env, v: Val, t: Ty)
    requires Scalar(t) && HasType(e, v, t)
    ensures WordOf(v, t) < TWO256 && ReadWord(t, WordOf(v, t)) == v
  {
    match t {
      case TFixedBytes(size) => FixedBytesRead(v.n, size);
      case TFunction(external) => if external { FunctionRead(v.addr, v.sel); }
      case _ =>
    }
  }

  /** Main half of the commuting diagram: the decoder recovers every typed value from
      its encoding, whatever bytes follow. */
  lemma {:induction false} DecodeOfAbi(e: Env, v: Val, t: Ty, junk: seq<byte>)
    requires HasType(e, v, t) && |Abi(e, v, t)| < TWO256
    ensures DecodeValue(e, Abi(e, v, t) + junk, t) == Some(v)
    decreases e.Height(t), 0, 0
  {
    var buf := Abi(e, v, t) + junk;
    if t.TBytes? {
      WordRead(|v.bs|);
      assert buf[..32] == Word(|v.bs|);
      assert buf[32..32 + |v.bs|] == v.bs;
    } else if t.TArray? {
      var ts := Fields(e, t, |v.xs|);
      assert buf[..32] == Word(|v.xs|);
      assert buf[32..] == AbiTuple(e, v.xs, ts) + junk;
      EnoughBytes(e, v.xs, ts);
      WordRead(|v.xs|);
      ComponentsOfAbi(e, v, t, junk);
    } else if Composite(e, t) {
      ComponentsOfAbi(e, v, t, junk);
    } else {
      ScalarRead(e, v, t);
      assert buf[..32] == Word(WordOf(v, t));
      WordRead(WordOf(v, t));
    }
  }

  lemma {:induction false} ComponentsOfAbi(e: Env, v: Val, t: Ty, junk: seq<byte>)
    requires Composite(e, t) && HasType(e, v, t)
    requires |AbiTuple(e, v.xs, Fields(e, t, |v.xs|))| < TWO256
    ensures DecodeComponents(e, AbiTuple(e, v.xs, Fields(e, t, |v.xs|)) + junk, t,
              if t.TStruct? then 0 else |v.xs|) == Some(v)
    decreases e.HeightAll(Fields(e, t, |v.xs|)), 4, 0
  {
    var ts := Fields(e, t, |v.xs|);
    TupleOfAbi(e, v.xs, ts, junk);
    EnoughBytes(e, v.xs, ts);
  }

  /** Every component has at least one head word, so the length check never fires. */
  lemma EnoughBytes(e: Env, vs: seq<Val>, ts: seq<Ty>)
    requires HaveTypes(e, vs, ts)
    ensures 32 * |ts| <= |AbiTuple(e, vs, ts)|
  {
    PartsFitLemma(e, vs, ts);
    LayoutLength(e, Parts(e, vs, ts), ts, |ts|);
    HeadTotalWords(e, ts, |ts|);
  }

  lemma {:induction false} TupleOfAbi(e: Env, vs: seq<Val>, ts: seq<Ty>, junk: seq<byte>)
    requires HaveTypes(e, vs, ts) && |AbiTuple(e, vs, ts)| < TWO256
    ensures DecodeTuple(e, AbiTuple(e, vs, ts) + junk, ts, |ts|) == Some(vs)
    decreases e.HeightAll(ts), 3, 0
  {
    PartsFitLemma(e, vs, ts);
    TupleOfParts(e, vs, Parts(e, vs, ts), ts, junk, |ts|);
    assert vs[..|ts|] == vs;
  }

  lemma {:induction false} TupleOfParts(e: Env, vs: seq<Val>, ps: seq<Part>, ts: seq<Ty>, junk: seq<byte>, k: nat)
    requires PartsFit(e, ps, ts) && HaveTypes(e, vs, ts) && |Layout(ps)| < TWO256
    requires forall i :: 0 <= i < |ps| ==> ps[i].enc == Abi(e, vs[i], ts[i])
    requires k <= |ts|
    ensures DecodeTuple(e, Layout(ps) + junk, ts, k) == Some(vs[..k])
    decreases e.HeightAll(ts), 2, k
  {
    hide Layout, DecodeField, HasType, Abi;
    if k > 0 {
      hide *;
      TupleOfParts(e, vs, ps, ts, junk, k - 1);
      FieldOfAbi(e, vs[k - 1], ps, ts, junk, k - 1);
      DecodeTupleStep(e, Layout(ps) + junk, ts, k);
      assert vs[..k] == vs[..k - 1] + [vs[k - 1]];
    }
  }

  lemma {:induction false} FieldOfAbi(e: Env, v: Val, ps: seq<Part>, ts: seq<Ty>, junk: seq<byte>, k: nat)
    requires PartsFit(e, ps, ts) && k < |ts| && |Layout(ps)| < TWO256
    requires HasType(e, v, ts[k]) && ps[k].enc == Abi(e, v, ts[k])
    ensures DecodeField(e, Layout(ps) + junk, ts, k) == Some(v)
    decreases e.HeightAll(ts), 1, 0
  {
    if ps[k].dyn {
      var rest := DynamicField(e, ps, ts, k, junk);
      DecodeOfAbi(e, v, ts[k], rest);
    } else {
      StaticField(e, ps, ts, k, junk);
      DecodeOfAbi(e, v, ts[k], []);
      assert Abi(e, v, ts[k]) + [] == Abi(e, v, ts[k]);
    }
  }

  /** A dynamic field is found through its offset word. */
  lemma DynamicField(e: Env, ps: seq<Part>, ts: seq<Ty>, k: nat, junk: seq<byte>)
    returns (rest: seq<byte>)
    requires PartsFit(e, ps, ts) && k < |ps| && ps[k].dyn && |Layout(ps)| < TWO256
    ensures DecodeField(e, Layout(ps) + junk, ts, k) == DecodeValue(e, ps[k].enc + rest, ts[k])
    ensures |ps[k].enc| <= |Layout(ps)|
  {
    FieldSlot(e, ps, ts, k, junk);
    rest := LayoutTail(ps, k, junk);
    WordRead(Offset(ps, k));
  }

  /** A static field is read in place. */
  lemma StaticField(e: Env, ps: seq<Part>, ts: seq<Ty>, k: nat, junk: seq<byte>)
    requires PartsFit(e, ps, ts) && k < |ps| && !ps[k].dyn
    ensures DecodeField(e, Layout(ps) + junk, ts, k) == DecodeValue(e, ps[k].enc, ts[k])
    ensures |ps[k].enc| <= |Layout(ps)|
  {
    FieldSlot(e, ps, ts, k, junk);
  }

  lemma FieldSlot(e: Env, ps: seq<Part>, ts: seq<Ty>, k: nat, junk: seq<byte>)
    requires PartsFit(e, ps, ts) && k < |ps|
    ensures HeadTotal(e, ts, k) + HeadSize(e, ts[k]) <= |Layout(ps)|
    ensures (Layout(ps) + junk)[HeadTotal(e, ts, k)..HeadTotal(e, ts, k) + HeadSize(e, ts[k])]
         == if ps[k].dyn then Word(Offset(ps, k)) else ps[k].enc
  {
    hide Word, Whole;
    LayoutLength(e, ps, ts, k);
    LayoutLength(e, ps, ts, k + 1);
    LayoutHead(ps, k, junk);
    var lo, hi := HeadTotal(e, ts, k), HeadTotal(e, ts, k) + HeadSize(e, ts[k]);
    assert HeadLen(ps, k) == lo && HeadLen(ps, k + 1) == hi;
  }

  /** Offsets are word-aligned and point inside the encoding. */
  lemma OffsetsInside(e: Env, vs: seq<Val>, ts: seq<Ty>, k: nat)
    requires HaveTypes(e, vs, ts) && k < |ts| && IsDynamic(e, ts[k])
    ensures Whole(Offset(Parts(e, vs, ts), k))
    ensures HeadTotal(e, ts, |ts|) <= Offset(Parts(e, vs, ts), k)
    ensures Offset(Parts(e, vs, ts), k) + |Abi(e, vs[k], ts[k])| <= |AbiTuple(e, vs, ts)|
  {
    var ps := Parts(e, vs, ts);
    PartsFitLemma(e, vs, ts);
    OffsetWhole(e, ps, ts, k);
    var rest := LayoutTail(ps, k, []);
  }

  lemma OffsetWhole(e: Env, ps: seq<Part>, ts: seq<Ty>, k: nat)
    requires PartsFit(e, ps, ts) && k < |ps|
    ensures Whole(Offset(ps, k)) && HeadTotal(e, ts, |ts|) <= Offset(ps, k)
  {
    LayoutLength(e, ps, ts, |ps|);
    LayoutLength(e, ps, ts, k);
    WholeAdd(HeadLen(ps, |ps|), |Tails(ps, k)|);
  }

  /** The encoding loses nothing: equal encodings come from equal values. */
  lemma AbiInjective(e: Env, v: Val, w: Val, t: Ty)
    requires HasType(e, v, t) && HasType(e, w, t) && |Abi(e, v, t)| < TWO256
    ensures Abi(e, v, t) == Abi(e, w, t) <==> v == w
  {
    if Abi(e, v, t) == Abi(e, w, t) {
      DecodeOfAbi(e, v, t, []);
      DecodeOfAbi(e, w, t, []);
    }
  }

  lemma AbiTupleInjective(e: Env, vs: seq<Val>, ws: seq<Val>, ts: seq<Ty>)
    requires HaveTypes(e, vs, ts) && HaveTypes(e, ws, ts) && |AbiTuple(e, vs, ts)| < TWO256
    ensures AbiTuple(e, vs, ts) == AbiTuple(e, ws, ts) <==> vs == ws
  {
    if AbiTuple(e, vs, ts) == AbiTuple(e, ws, ts) {
      TupleOfAbi(e, vs, ts, []);
      TupleOfAbi(e, ws, ts, []);
    }
  }
}
