/** The normal-form values both engines print, and the proof that the printed form
    is uniquely readable at any nesting. */
module NormalForm {
  import opened Basics
  import opened Text

  datatype Val =
    | VWord(n: nat)                   // w:<nat>
    | VInt(z: int)                    // i:<int>
    | VBytes(bs: seq<byte>)           // b:0x<hex>
    | VFn(addr: nat, sel: nat)        // f:<addr>:<selector>
    | VList(xs: seq<Val>)             // [v1,v2,..]
    | VTuple(xs: seq<Val>)            // (v1,v2,..)

  function Print(v: Val): string
    decreases v
  {
    match v
    case VWord(n) => "w:" + Decimal(n)
    case VInt(z) => "i:" + SignedDecimal(z)
    case VBytes(bs) => "b:0x" + Hex(bs)
    case VFn(a, s) => "f:" + Decimal(a) + ":" + Decimal(s)
    case VList(xs) => "[" + Join(",", PrintAll(xs)) + "]"
    case VTuple(xs) => "(" + Join(",", PrintAll(xs)) + ")"
  }

  function PrintAll(xs: seq<Val>): (ss: seq<string>)
    ensures |ss| == |xs| && forall i :: 0 <= i < |xs| ==> ss[i] == Print(xs[i])
    decreases xs
  {
    if xs == [] then [] else [Print(xs[0])] + PrintAll(xs[1..])
  }

  /** What may follow a printed value: nothing, a comma or a closing bracket. */
  predicate Delimited(r: string) { r == "" || r[0] == ',' || Closed(r) }

  predicate Closed(r: string) { r == "" || r[0] == ']' || r[0] == ')' }

  function Tag(v: Val): char {
    match v
    case VWord(_) => 'w'
    case VInt(_) => 'i'
    case VBytes(_) => 'b'
    case VFn(_, _) => 'f'
    case VList(_) => '['
    case VTuple(_) => '('
  }

  lemma PrintTag(v: Val, r: string)
    ensures Print(v) != "" && (Print(v) + r)[0] == Tag(v)
  {
  }

  lemma Peel(p: string, s1: string, q: string, r1: string, s2: string, r2: string)
    requires p + s1 + q + r1 == p + s2 + q + r2
    ensures s1 + (q + r1) == s2 + (q + r2)
  {
    assert s1 + (q + r1) == (p + s1 + q + r1)[|p|..];
    assert s2 + (q + r2) == (p + s2 + q + r2)[|p|..];
  }

  lemma Peel2(p: string, s1: string, r1: string, s2: string, r2: string)
    requires p + s1 + r1 == p + s2 + r2
    ensures s1 + r1 == s2 + r2
  {
    assert s1 + r1 == (p + s1 + r1)[|p|..];
    assert s2 + r2 == (p + s2 + r2)[|p|..];
  }

  lemma PeelOne(q: string, r1: string, r2: string)
    requires q + r1 == q + r2
    ensures r1 == r2
  {
    assert r1 == (q + r1)[|q|..];
    assert r2 == (q + r2)[|q|..];
  }

  lemma Assoc(a: string, b: string, c: string)
    ensures a + b + c == a + (b + c)
  {
  }

  lemma FnCancel(a: nat, s: nat, b: nat, t: nat, r1: string, r2: string)
    requires Ends(r1) && Ends(r2)
    requires "f:" + Decimal(a) + ":" + Decimal(s) + r1 == "f:" + Decimal(b) + ":" + Decimal(t) + r2
    ensures a == b && s == t && r1 == r2
  {
    Assoc("f:" + Decimal(a) + ":", Decimal(s), r1);
    Assoc("f:" + Decimal(b) + ":", Decimal(t), r2);
    Peel("f:", Decimal(a), ":", Decimal(s) + r1, Decimal(b), Decimal(t) + r2);
    DecimalCancel(a, b, ":" + (Decimal(s) + r1), ":" + (Decimal(t) + r2));
    PeelOne(":", Decimal(s) + r1, Decimal(t) + r2);
    DecimalCancel(s, t, r1, r2);
  }

  /** Unique readability: a printed value is never a prefix-confusable text. */
  lemma {:induction false} PrintCancel(a: Val, b: Val, r1: string, r2: string)
    requires Delimited(r1) && Delimited(r2)
    requires Print(a) + r1 == Print(b) + r2
    ensures a == b && r1 == r2
    decreases a
  {
    PrintTag(a, r1);
    PrintTag(b, r2);
    assert Tag(a) == Tag(b);
    match a {
      case VWord(n) =>
        Peel2("w:", Decimal(n), r1, Decimal(b.n), r2);
        DecimalCancel(n, b.n, r1, r2);
      case VInt(z) =>
        Peel2("i:", SignedDecimal(z), r1, SignedDecimal(b.z), r2);
        SignedCancel(z, b.z, r1, r2);
      case VBytes(bs) =>
        Peel2("b:0x", Hex(bs), r1, Hex(b.bs), r2);
        HexCancel(bs, b.bs, r1, r2);
      case VFn(x, s) =>
        FnCancel(x, s, b.addr, b.sel, r1, r2);
      case VList(xs) =>
        Peel("[", Join(",", PrintAll(xs)), "]", r1, Join(",", PrintAll(b.xs)), r2);
        PrintAllCancel(xs, b.xs, "]" + r1, "]" + r2);
        PeelOne("]", r1, r2);
      case VTuple(xs) =>
        Peel("(", Join(",", PrintAll(xs)), ")", r1, Join(",", PrintAll(b.xs)), r2);
        PrintAllCancel(xs, b.xs, ")" + r1, ")" + r2);
        PeelOne(")", r1, r2);
    }
  }

  /** A printed list as head value and what follows it. */
  function ListRest(xs: seq<Val>, r: string): (s: string)
    requires xs != [] && Closed(r)
    ensures Delimited(s)
    ensures Join(",", PrintAll(xs)) + r == Print(xs[0]) + s
  {
    if |xs| == 1 then r
    else
      assert PrintAll(xs)[1..] == PrintAll(xs[1..]);
      Assoc(Print(xs[0]) + ",", Join(",", PrintAll(xs[1..])), r);
      Assoc(Print(xs[0]), ",", Join(",", PrintAll(xs[1..])) + r);
      "," + (Join(",", PrintAll(xs[1..])) + r)
  }

  lemma {:induction false} PrintAllCancel(xs: seq<Val>, ys: seq<Val>, r1: string, r2: string)
    requires Closed(r1) && Closed(r2)
    requires Join(",", PrintAll(xs)) + r1 == Join(",", PrintAll(ys)) + r2
    ensures xs == ys && r1 == r2
    decreases xs
  {
    EmptyMatches(xs, ys, r1, r2);
    if xs != [] {
      var s1, s2 := ListRest(xs, r1), ListRest(ys, r2);
      PrintCancel(xs[0], ys[0], s1, s2);
      assert |xs| > 1 <==> |ys| > 1;
      if |xs| > 1 {
        PeelOne(",", Join(",", PrintAll(xs[1..])) + r1, Join(",", PrintAll(ys[1..])) + r2);
        PrintAllCancel(xs[1..], ys[1..], r1, r2);
        assert xs == [xs[0]] + xs[1..] && ys == [ys[0]] + ys[1..];
      }
    } else {
      assert "" + r1 == r1 && "" + r2 == r2;
    }
  }

  lemma EmptyMatches(xs: seq<Val>, ys: seq<Val>, r1: string, r2: string)
    requires Closed(r1) && Closed(r2)
    requires Join(",", PrintAll(xs)) + r1 == Join(",", PrintAll(ys)) + r2
    ensures xs == [] <==> ys == []
  {
    if xs != [] {
      PrintTag(xs[0], ListRest(xs, r1));
    }
    if ys != [] {
      PrintTag(ys[0], ListRest(ys, r2));
    }
  }

  /** Printed value lists are equal exactly when the values are. */
  lemma PrintAllInjective(xs: seq<Val>, ys: seq<Val>)
    ensures Join(",", PrintAll(xs)) == Join(",", PrintAll(ys)) <==> xs == ys
  {
    var a, b := Join(",", PrintAll(xs)), Join(",", PrintAll(ys));
    assert a + "" == a && b + "" == b;
    if a == b {
      PrintAllCancel(xs, ys, "", "");
    }
  }

  lemma PrintInjective(a: Val, b: Val)
    ensures Print(a) == Print(b) <==> a == b
  {
    assert Print(a) + "" == Print(a) && Print(b) + "" == Print(b);
    if Print(a) == Print(b) {
      PrintCancel(a, b, "", "");
    }
  }

  /** The model's runtime values, as the Lean renderer receives them. */
  datatype LeanValue =
    | LWord(w: nat)
    | LInt(w: nat)                    // a two's-complement word
    | LBytes(bs: seq<byte>)
    | LFixedArray(xs: seq<LeanValue>)
    | LDynamicArray(xs: seq<LeanValue>)
    | LTuple(xs: seq<LeanValue>)
    | LExternalFunction(addr: nat, sel: nat)

  function Norm(w: nat): nat { w % TWO256 }

  function SignedValue(w: nat): int {
    if Norm(w) >= TWO255 then Norm(w) - TWO256 else Norm(w)
  }

  function SignedToWord(z: int): nat { z % TWO256 }

  function RenderValue(v: LeanValue): string
    decreases v
  {
    match v
    case LWord(w) => "w:" + Decimal(Norm(w))
    case LInt(w) => "i:" + SignedDecimal(SignedValue(w))
    case LBytes(bs) => "b:0x" + Hex(bs)
    case LFixedArray(xs) => "[" + Join(",", RenderAll(xs)) + "]"
    case LDynamicArray(xs) => "[" + Join(",", RenderAll(xs)) + "]"
    case LTuple(xs) => "(" + Join(",", RenderAll(xs)) + ")"
    case LExternalFunction(a, s) => "f:" + Decimal(Norm(a)) + ":" + Decimal(Norm(s))
  }

  function RenderAll(xs: seq<LeanValue>): seq<string>
    decreases xs
  {
    if xs == [] then [] else [RenderValue(xs[0])] + RenderAll(xs[1..])
  }

  /** What a runtime value observably is: word width and array kind forgotten. */
  function Observed(v: LeanValue): Val
    decreases v
  {
    match v
    case LWord(w) => VWord(Norm(w))
    case LInt(w) => VInt(SignedValue(w))
    case LBytes(bs) => VBytes(bs)
    case LFixedArray(xs) => VList(ObservedAll(xs))
    case LDynamicArray(xs) => VList(ObservedAll(xs))
    case LTuple(xs) => VTuple(ObservedAll(xs))
    case LExternalFunction(a, s) => VFn(Norm(a), Norm(s))
  }

  function ObservedAll(xs: seq<LeanValue>): (vs: seq<Val>)
    ensures |vs| == |xs| && forall i :: 0 <= i < |xs| ==> vs[i] == Observed(xs[i])
    decreases xs
  {
    if xs == [] then [] else [Observed(xs[0])] + ObservedAll(xs[1..])
  }

  lemma {:induction false} RenderIsPrint(v: LeanValue)
    ensures RenderValue(v) == Print(Observed(v))
    decreases v
  {
    match v {
      case LFixedArray(xs) => RenderAllIsPrintAll(xs);
      case LDynamicArray(xs) => RenderAllIsPrintAll(xs);
      case LTuple(xs) => RenderAllIsPrintAll(xs);
      case _ =>
    }
  }

  lemma {:induction false} RenderAllIsPrintAll(xs: seq<LeanValue>)
    ensures RenderAll(xs) == PrintAll(ObservedAll(xs))
    decreases xs
  {
    if xs != [] {
      RenderIsPrint(xs[0]);
      RenderAllIsPrintAll(xs[1..]);
    }
  }

  /** The Lean renderer distinguishes exactly the observably different values. */
  lemma RenderSeparates(v: LeanValue, w: LeanValue)
    ensures RenderValue(v) == RenderValue(w) <==> Observed(v) == Observed(w)
  {
    RenderIsPrint(v);
    RenderIsPrint(w);
    PrintInjective(Observed(v), Observed(w));
  }
}
