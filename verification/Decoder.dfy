/** The EVM-side ABI decoder: measured bytes to normal-form values and text. */
module Decoder {
  import opened Basics
  import opened Text
  import opened AbiTypes
  import opened NormalForm
  import opened AbiSpec

  /** The 24 high bytes of the word: address, then selector. */
  function UnpackFunction(w: nat): Val {
    VFn(w / TWO96, (w / TWO64) % TWO32)
  }

  /** The EVM left-aligns bytesN in its word; the Lean side keeps it right-aligned. */
  function RightAlign(w: nat, n: bytesWidth): nat {
    var p := Pow2(256 - 8 * n);
    DivNat(w, p);
    w / p
  }

  /** One ABI word at a scalar type. */
  function ReadWord(t: Ty, w: nat): Val
    requires w < TWO256
  {
    match t
    case TFunction(external) => if external then UnpackFunction(w) else VWord(w)
    case TFixedBytes(n) => VWord(RightAlign(w, n))
    case TInt(_) => VInt(if w >= TWO255 then w - TWO256 else w)
    case TInterface => VInt(if w >= TWO255 then w - TWO256 else w)
    case _ => VWord(w)
  }

  /** Decodes one value laid out at the start of buf; None where the source raises. */
  function DecodeValue(e: Env, buf: seq<byte>, t: Ty): Option<Val>
    decreases e.Height(t), 0, 0
  {
    if t.TBytes? then
      if |buf| < 32 then None
      else
        var len := FromBytes(buf[..32]);
        if |buf| - 32 < len then None else Some(VBytes(buf[32..32 + len]))
    else if t.TArray? then
      if |buf| < 32 then None else DecodeComponents(e, buf[32..], t, FromBytes(buf[..32]))
    else if Composite(e, t) then DecodeComponents(e, buf, t, if t.TFixedArray? then t.count else 0)
    else if t.TStruct? || |buf| < 32 then None
    else
      WordReadBound(buf[..32]);
      Some(ReadWord(t, FromBytes(buf[..32])))
  }

  /** The components of an array of n elements, or of a struct (n == 0). */
  function DecodeComponents(e: Env, body: seq<byte>, t: Ty, n: nat): Option<Val>
    requires Composite(e, t)
    decreases e.HeightAll(Fields(e, t, n)), 3, 0
  {
    if n * 32 > |body| then None
    else
      var ts := Fields(e, t, n);
      match DecodeTuple(e, body, ts, |ts|)
      case None => None
      case Some(xs) => Some(if t.TStruct? then VTuple(xs) else VList(xs))
  }

  /** Field k of the tuple at region: inline, or through its offset word. */
  function DecodeField(e: Env, region: seq<byte>, ts: seq<Ty>, k: nat): Option<Val>
    requires k < |ts|
    decreases e.HeightAll(ts), 1, 0
  {
    var pos, t := HeadTotal(e, ts, k), ts[k];
    if pos + HeadSize(e, t) > |region| then None
    else if IsDynamic(e, t) then
      var off := FromBytes(region[pos..pos + 32]);
      if off > |region| then None else DecodeValue(e, region[off..], t)
    else DecodeValue(e, region[pos..pos + HeadSize(e, t)], t)
  }

  /** The first k fields of the tuple at region. */
  function DecodeTuple(e: Env, region: seq<byte>, ts: seq<Ty>, k: nat): (r: Option<seq<Val>>)
    requires k <= |ts|
    ensures r.Some? ==> |r.value| == k
    decreases e.HeightAll(ts), 2, k
  {
    if k == 0 then Some([])
    else match DecodeTuple(e, region, ts, k - 1)
      case None => None
      case Some(vs) =>
        match DecodeField(e, region, ts, k - 1)
        case None => None
        case Some(v) => Some(vs + [v])
  }

  // ----- the decoder as the source runs it, producing text -----

  function PrintOption(v: Option<Val>): Option<string> {
    if v.None? then None else Some(Print(v.value))
  }

  method DecodeValueText(e: Env, buf: seq<byte>, t: Ty) returns (r: Option<string>)
    ensures r == PrintOption(DecodeValue(e, buf, t))
    decreases e.Height(t), 0
  {
    if t.TBytes? {
      if |buf| < 32 { return None; }
      var length := FromBytes(buf[..32]);
      if |buf| - 32 < length { return None; }
      return Some("b:0x" + Hex(buf[32..32 + length]));
    }
    if t.TArray? {
      if |buf| < 32 { return None; }
      r := DecodeComponentsText(e, buf[32..], t, FromBytes(buf[..32]));
      return;
    }
    if Composite(e, t) {
      r := DecodeComponentsText(e, buf, t, if t.TFixedArray? then t.count else 0);
      return;
    }
    if t.TStruct? || |buf| < 32 { return None; }
    WordReadBound(buf[..32]);
    return Some(Print(ReadWord(t, FromBytes(buf[..32]))));
  }

  method DecodeComponentsText(e: Env, body: seq<byte>, t: Ty, n: nat) returns (r: Option<string>)
    requires Composite(e, t)
    ensures r == PrintOption(DecodeComponents(e, body, t, n))
    decreases e.HeightAll(Fields(e, t, n)), 3
  {
    if n * 32 > |body| { return None; }
    var parts := DecodeTupleText(e, body, Fields(e, t, n));
    if parts.None? { return None; }
    if t.TStruct? {
      return Some("(" + Join(",", parts.value) + ")");
    }
    return Some("[" + Join(",", parts.value) + "]");
  }

  method DecodeTupleText(e: Env, region: seq<byte>, ts: seq<Ty>) returns (r: Option<seq<string>>)
    ensures r == match DecodeTuple(e, region, ts, |ts|) case None => None case Some(vs) => Some(PrintAll(vs))
    decreases e.HeightAll(ts), 2
  {
    var rendered: seq<string>, pos := [], 0;
    for k := 0 to |ts|
      invariant pos == HeadTotal(e, ts, k)
      invariant DecodeTuple(e, region, ts, k).Some?
      invariant rendered == PrintAll(DecodeTuple(e, region, ts, k).value)
    {
      var one := DecodeFieldText(e, region, ts, k, pos);
      if one.None? {
        TupleFails(e, region, ts, k + 1, |ts|);
        return None;
      }
      rendered, pos := rendered + [one.value], pos + HeadSize(e, ts[k]);
    }
    return Some(rendered);
  }

  method DecodeFieldText(e: Env, region: seq<byte>, ts: seq<Ty>, k: nat, pos: nat) returns (r: Option<string>)
    requires k < |ts| && pos == HeadTotal(e, ts, k)
    ensures r == PrintOption(DecodeField(e, region, ts, k))
    decreases e.HeightAll(ts), 1
  {
    var t := ts[k];
    if IsDynamic(e, t) {
      if pos + 32 > |region| { return None; }
      var off := FromBytes(region[pos..pos + 32]);
      if off > |region| { return None; }
      r := DecodeValueText(e, region[off..], t);
    } else {
      var size := HeadSize(e, t);
      if pos + size > |region| { return None; }
      r := DecodeValueText(e, region[pos..pos + size], t);
    }
  }

  lemma {:induction false} TupleFails(e: Env, region: seq<byte>, ts: seq<Ty>, j: nat, k: nat)
    requires j <= k <= |ts| && DecodeTuple(e, region, ts, j).None?
    ensures DecodeTuple(e, region, ts, k).None?
    decreases k
  {
    if j < k {
      TupleFails(e, region, ts, j, k - 1);
    }
  }

  // ----- arbitrary bytes -----

  /** A successful decode is unchanged by appending bytes: nothing past the bytes it
      consumed is read. */
  lemma {:induction false} DecodeAppend(e: Env, buf: seq<byte>, t: Ty, junk: seq<byte>)
    requires DecodeValue(e, buf, t).Some?
    ensures DecodeValue(e, buf + junk, t) == DecodeValue(e, buf, t)
    decreases e.Height(t), 0, 0
  {
    if t.TBytes? {
      var len := FromBytes(buf[..32]);
      assert (buf + junk)[..32] == buf[..32];
      assert (buf + junk)[32..32 + len] == buf[32..32 + len];
    } else if t.TArray? {
      assert (buf + junk)[..32] == buf[..32];
      assert (buf + junk)[32..] == buf[32..] + junk;
      var ts := Fields(e, t, FromBytes(buf[..32]));
      TupleAppend(e, buf[32..], ts, |ts|, junk);
    } else if Composite(e, t) {
      var ts := Fields(e, t, if t.TFixedArray? then t.count else 0);
      TupleAppend(e, buf, ts, |ts|, junk);
    } else {
      assert (buf + junk)[..32] == buf[..32];
    }
  }

  lemma {:induction false} FieldAppend(e: Env, region: seq<byte>, ts: seq<Ty>, k: nat, junk: seq<byte>)
    requires k < |ts| && DecodeField(e, region, ts, k).Some?
    ensures DecodeField(e, region + junk, ts, k) == DecodeField(e, region, ts, k)
    decreases e.HeightAll(ts), 1, 0
  {
    var pos, t := HeadTotal(e, ts, k), ts[k];
    if IsDynamic(e, t) {
      assert (region + junk)[pos..pos + 32] == region[pos..pos + 32];
      var off := FromBytes(region[pos..pos + 32]);
      assert (region + junk)[off..] == region[off..] + junk;
      DecodeAppend(e, region[off..], t, junk);
    } else {
      var size := HeadSize(e, t);
      assert (region + junk)[pos..pos + size] == region[pos..pos + size];
    }
  }

  lemma {:induction false} TupleAppend(e: Env, region: seq<byte>, ts: seq<Ty>, k: nat, junk: seq<byte>)
    requires k <= |ts| && DecodeTuple(e, region, ts, k).Some?
    ensures DecodeTuple(e, region + junk, ts, k) == DecodeTuple(e, region, ts, k)
    decreases e.HeightAll(ts), 2, k
  {
    if k > 0 {
      TupleAppend(e, region, ts, k - 1, junk);
      FieldAppend(e, region, ts, k - 1, junk);
    }
  }

  /** Whatever the bytes, a successful decode is a value of the declared type: one
      component per type, every word in range. */
  lemma {:induction false} DecodeTyped(e: Env, buf: seq<byte>, t: Ty)
    requires DecodeValue(e, buf, t).Some?
    ensures HasType(e, DecodeValue(e, buf, t).value, t)
    decreases e.Height(t), 0, 0
  {
    if Composite(e, t) {
      var n := if t.TArray? then FromBytes(buf[..32]) else if t.TFixedArray? then t.count else 0;
      var body := if t.TArray? then buf[32..] else buf;
      var ts := Fields(e, t, n);
      TupleTyped(e, body, ts, |ts|);
      assert ts == Fields(e, t, |DecodeTuple(e, body, ts, |ts|).value|);
    } else if !t.TBytes? {
      WordReadBound(buf[..32]);
      ReadWordTyped(e, t, FromBytes(buf[..32]));
    }
  }

  lemma DecodeTupleStep(e: Env, region: seq<byte>, ts: seq<Ty>, k: nat)
    requires 0 < k <= |ts|
    ensures var before, last := DecodeTuple(e, region, ts, k - 1), DecodeField(e, region, ts, k - 1);
            DecodeTuple(e, region, ts, k)
            == if before.None? || last.None? then None else Some(before.value + [last.value])
  {
    hide DecodeField;
  }

  lemma {:induction false} TupleTyped(e: Env, region: seq<byte>, ts: seq<Ty>, k: nat)
    requires k <= |ts| && DecodeTuple(e, region, ts, k).Some?
    ensures forall i :: 0 <= i < k ==> HasType(e, DecodeTuple(e, region, ts, k).value[i], ts[i])
    decreases e.HeightAll(ts), 2, k
  {
    hide DecodeField, HasType;
    if k > 0 {
      hide DecodeTuple;
      DecodeTupleStep(e, region, ts, k);
      TupleTyped(e, region, ts, k - 1);
      FieldTyped(e, region, ts, k - 1);
    }
  }

  lemma {:induction false} FieldTyped(e: Env, region: seq<byte>, ts: seq<Ty>, k: nat)
    requires k < |ts| && DecodeField(e, region, ts, k).Some?
    ensures HasType(e, DecodeField(e, region, ts, k).value, ts[k])
    decreases e.HeightAll(ts), 1, 0
  {
    var pos, t := HeadTotal(e, ts, k), ts[k];
    if IsDynamic(e, t) {
      DecodeTyped(e, region[FromBytes(region[pos..pos + 32])..], t);
    } else {
      DecodeTyped(e, region[pos..pos + HeadSize(e, t)], t);
    }
  }

  lemma ReadWordTyped(e: Env, t: Ty, w: nat)
    requires w < TWO256 && !Composite(e, t) && !t.TStruct? && !t.TBytes?
    ensures HasType(e, ReadWord(t, w), t)
  {
    match t {
      case TFixedBytes(n) =>
        var p := Pow2(256 - 8 * n);
        WordBounds();
        Pow2Add(8 * n, 256 - 8 * n);
        QuotientBound(w, p, Pow2(8 * n));
      case TFunction(_) =>
        assert TWO96 * TWO160 == TWO256;
        QuotientBound(w, TWO96, TWO160);
      case _ =>
    }
  }

  lemma QuotientBound(w: nat, p: nat, q: nat)
    requires p > 0 && w < q * p
    ensures w / p < q
  {
    if w / p >= q {
      MulMono(q, w / p, p);
    }
  }

  lemma MulMono(a: nat, b: nat, p: nat)
    requires a <= b
    ensures a * p <= b * p
  {
  }

  // ----- how much a decode can produce -----

  function Leaves(v: Val): nat
    decreases v
  {
    match v
    case VList(xs) => LeavesAll(xs, |xs|)
    case VTuple(xs) => LeavesAll(xs, |xs|)
    case _ => 1
  }

  function LeavesAll(xs: seq<Val>, k: nat): nat
    requires k <= |xs|
    decreases xs, k
  {
    if k == 0 then 0 else LeavesAll(xs, k - 1) + Leaves(xs[k - 1])
  }

  /** Product of the fixed lengths and len/32 per dynamic array level, summed over
      struct members. */
  function LeafBound(e: Env, t: Ty, len: nat): nat
    decreases e.Height(t), 0, 0
  {
    match t
    case TArray(el) => (len / 32) * LeafBound(e, el, len)
    case TFixedArray(el, n) => n * LeafBound(e, el, len)
    case TStruct(s) =>
      if s in e.structs then LeafBoundAll(e, Fields(e, t, 0), |Fields(e, t, 0)|, len) else 0
    case _ => 1
  }

  function LeafBoundAll(e: Env, ts: seq<Ty>, k: nat, len: nat): nat
    requires k <= |ts|
    decreases e.HeightAll(ts), 1, k
  {
    if k == 0 then 0 else LeafBoundAll(e, ts, k - 1, len) + LeafBound(e, ts[k - 1], len)
  }

  lemma {:induction false} LeafBoundMono(e: Env, t: Ty, a: nat, b: nat)
    requires a <= b
    ensures LeafBound(e, t, a) <= LeafBound(e, t, b)
    decreases e.Height(t), 0, 0
  {
    match t {
      case TArray(el) =>
        LeafBoundMono(e, el, a, b);
        MulMono2(a / 32, b / 32, LeafBound(e, el, a), LeafBound(e, el, b));
      case TFixedArray(el, n) =>
        LeafBoundMono(e, el, a, b);
        MulMono2(n, n, LeafBound(e, el, a), LeafBound(e, el, b));
      case TStruct(s) =>
        if s in e.structs {
          var ts := Fields(e, t, 0);
          LeafBoundAllMono(e, ts, |ts|, a, b);
        }
      case _ =>
    }
  }

  lemma {:induction false} LeafBoundAllMono(e: Env, ts: seq<Ty>, k: nat, a: nat, b: nat)
    requires a <= b && k <= |ts|
    ensures LeafBoundAll(e, ts, k, a) <= LeafBoundAll(e, ts, k, b)
    decreases e.HeightAll(ts), 1, k
  {
    if k > 0 {
      LeafBoundAllMono(e, ts, k - 1, a, b);
      LeafBoundMono(e, ts[k - 1], a, b);
    }
  }

  lemma MulMono2(a: nat, b: nat, x: nat, y: nat)
    requires a <= b && x <= y
    ensures a * x <= b * y
  {
    MulMono(a, b, x);
    MulMono(x, y, b);
  }

  lemma {:induction false} LeafBoundOfRepeat(e: Env, t: Ty, n: nat, k: nat, len: nat)
    requires k <= n
    ensures LeafBoundAll(e, Repeat(t, n), k, len) == k * LeafBound(e, t, len)
    decreases k
  {
    if k > 0 {
      LeafBoundOfRepeat(e, t, n, k - 1, len);
      assert k * LeafBound(e, t, len) == (k - 1) * LeafBound(e, t, len) + LeafBound(e, t, len);
    }
  }

  /** Decoding cannot blow up: the number of decoded leaves is bounded by the type
      and the number of bytes, whatever lengths and offsets the bytes claim. */
  lemma {:induction false} DecodeBounded(e: Env, buf: seq<byte>, t: Ty)
    requires DecodeValue(e, buf, t).Some?
    ensures Leaves(DecodeValue(e, buf, t).value) <= LeafBound(e, t, |buf|)
    decreases e.Height(t), 0, 0
  {
    if Composite(e, t) {
      var n := if t.TArray? then FromBytes(buf[..32]) else if t.TFixedArray? then t.count else 0;
      var body := if t.TArray? then buf[32..] else buf;
      var ts := Fields(e, t, n);
      TupleBounded(e, body, ts, |ts|, |buf|);
      match t {
        case TArray(el) =>
          LeafBoundOfRepeat(e, el, n, n, |buf|);
          MulMono(n, |buf| / 32, LeafBound(e, el, |buf|));
        case TFixedArray(el, _) => LeafBoundOfRepeat(e, el, n, n, |buf|);
        case _ =>
      }
    }
  }

  lemma {:induction false} TupleBounded(e: Env, region: seq<byte>, ts: seq<Ty>, k: nat, len: nat)
    requires k <= |ts| && DecodeTuple(e, region, ts, k).Some? && |region| <= len
    ensures LeavesAll(DecodeTuple(e, region, ts, k).value, k) <= LeafBoundAll(e, ts, k, len)
    decreases e.HeightAll(ts), 2, k
  {
    if k > 0 {
      TupleBounded(e, region, ts, k - 1, len);
      var pos, t := HeadTotal(e, ts, k - 1), ts[k - 1];
      var buf := if IsDynamic(e, t) then region[FromBytes(region[pos..pos + 32])..]
                 else region[pos..pos + HeadSize(e, t)];
      DecodeBounded(e, buf, t);
      LeafBoundMono(e, t, |buf|, len);
      var vs := DecodeTuple(e, region, ts, k).value;
      LeavesPrefix(vs[..k - 1], vs, k - 1);
    }
  }

  lemma {:induction false} LeavesPrefix(xs: seq<Val>, ys: seq<Val>, k: nat)
    requires k <= |xs| <= |ys| && xs == ys[..|xs|]
    ensures LeavesAll(xs, k) == LeavesAll(ys, k)
  {
    if k > 0 {
      LeavesPrefix(xs, ys, k - 1);
    }
  }
}
