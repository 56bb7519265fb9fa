/** Decimal and hexadecimal numerals and separated lists, with the cancellation
    facts that make the printed forms uniquely readable. */
module Text {
  import opened Basics

  predicate DigitChar(c: char) { '0' <= c <= '9' }

  predicate HexChar(c: char) { '0' <= c <= '9' || 'a' <= c <= 'f' }

  predicate AllDigits(s: string) { forall i :: 0 <= i < |s| ==> DigitChar(s[i]) }

  predicate AllHex(s: string) { forall i :: 0 <= i < |s| ==> HexChar(s[i]) }

  function Digit(d: nat): (c: char)
    requires d < 16
    ensures HexChar(c) && (d < 10 ==> DigitChar(c))
  {
    if d < 10 then '0' + d as char else 'a' + (d - 10) as char
  }

  function DigitValue(c: char): (d: nat)
    requires HexChar(c)
    ensures d < 16
  {
    if c <= '9' then (c - '0') as nat else (c - 'a') as nat + 10
  }

  lemma DigitRead(d: nat)
    requires d < 16
    ensures DigitValue(Digit(d)) == d
  {
  }

  function Decimal(n: nat): (s: string)
    ensures s != "" && AllDigits(s)
  {
    if n < 10 then [Digit(n)] else Decimal(n / 10) + [Digit(n % 10)]
  }

  function FromDecimal(s: string): nat
    requires AllDigits(s)
  {
    if s == "" then 0 else FromDecimal(s[..|s| - 1]) * 10 + DigitValue(s[|s| - 1])
  }

  lemma {:induction false} FromDecimalOfDecimal(n: nat)
    ensures FromDecimal(Decimal(n)) == n
  {
    var s := Decimal(n);
    if n >= 10 {
      FromDecimalOfDecimal(n / 10);
      assert s[..|s| - 1] == Decimal(n / 10);
    } else {
      assert s[..|s| - 1] == "";
    }
  }

  /** Python's str(z) and Lean's toString on Int. */
  function SignedDecimal(z: int): string {
    if z < 0 then "-" + Decimal(-z) else Decimal(z)
  }

  /** Two lower-case hex digits a byte, without the 0x prefix. */
  function Hex(bs: seq<byte>): (s: string)
    ensures |s| == 2 * |bs| && AllHex(s)
  {
    if bs == [] then "" else [Digit(bs[0] / 16), Digit(bs[0] % 16)] + Hex(bs[1..])
  }

  lemma {:induction false} HexInjective(a: seq<byte>, b: seq<byte>)
    requires Hex(a) == Hex(b)
    ensures a == b
  {
    if a != [] {
      assert |a| == |b|;
      assert Hex(a)[0] == Digit(a[0] / 16) && Hex(b)[0] == Digit(b[0] / 16);
      assert Hex(a)[1] == Digit(a[0] % 16) && Hex(b)[1] == Digit(b[0] % 16);
      assert Hex(a)[2..] == Hex(a[1..]) && Hex(b)[2..] == Hex(b[1..]);
      HexInjective(a[1..], b[1..]);
    }
  }

  /** ASCII whitespace: tab, the line breaks and the space. */
  predicate AsciiBlank(c: char) { c == ' ' || '\t' <= c <= '\r' }

  predicate AnyHexChar(c: char) { HexChar(c) || 'A' <= c <= 'F' }

  function AnyDigitValue(c: char): (d: nat)
    requires AnyHexChar(c)
    ensures d < 16
  {
    if 'A' <= c <= 'F' then (c - 'A') as nat + 10 else DigitValue(c)
  }

  /** Python's bytes.fromhex: digits in either case, blanks between the pairs, and None
      where it raises. */
  function FromHex(s: string): Option<seq<byte>> {
    if s == "" then Some([])
    else if AsciiBlank(s[0]) then FromHex(s[1..])
    else if |s| == 1 || !AnyHexChar(s[0]) || !AnyHexChar(s[1]) then None
    else match FromHex(s[2..])
      case None => None
      case Some(rest) => Some([AnyDigitValue(s[0]) * 16 + AnyDigitValue(s[1])] + rest)
  }

  lemma {:induction false} FromHexOfHex(bs: seq<byte>)
    ensures FromHex(Hex(bs)) == Some(bs)
  {
    if bs != [] {
      assert Hex(bs)[2..] == Hex(bs[1..]);
      FromHexOfHex(bs[1..]);
      assert Hex(bs)[0] == Digit(bs[0] / 16) && Hex(bs)[1] == Digit(bs[0] % 16);
      DigitRead(bs[0] / 16);
      DigitRead(bs[0] % 16);
      assert [bs[0]] + bs[1..] == bs;
    }
  }

  const LOWER: string := "0123456789abcdef"
  const UPPER: string := "0123456789ABCDEF"
  const ASCII_BLANKS: set<char> := { ' ', '\t', '\n', '\U{000b}', '\U{000c}', '\r' }

  lemma PlaceRead(d: nat)
    requires d < 16
    ensures AnyHexChar(LOWER[d]) && AnyDigitValue(LOWER[d]) == d && !AsciiBlank(LOWER[d])
    ensures AnyHexChar(UPPER[d]) && AnyDigitValue(UPPER[d]) == d && !AsciiBlank(UPPER[d])
  {
    assert LOWER[d] == Digit(d);
    assert UPPER[d] == if d < 10 then Digit(d) else 'A' + (d - 10) as char;
  }

  lemma KnownChar(c: char)
    ensures AsciiBlank(c) <==> c in ASCII_BLANKS
    ensures AnyHexChar(c) ==> c in LOWER || c in UPPER
  {
    if 'A' <= c <= 'F' {
      assert UPPER[(c - 'A') as nat + 10] == c;
    } else if AnyHexChar(c) {
      assert LOWER[DigitValue(c)] == c;
    }
  }

  lemma PairRead(c: char, d: char, r: string)
    requires AnyHexChar(c) && AnyHexChar(d)
    ensures FromHex([c, d] + r) == match FromHex(r)
                                   case None => None
                                   case Some(rest) => Some([AnyDigitValue(c) * 16 + AnyDigitValue(d)] + rest)
  {
    assert ([c, d] + r)[2..] == r;
  }

  lemma BlankRead(c: char, r: string)
    requires AsciiBlank(c)
    ensures FromHex([c] + r) == FromHex(r)
  {
    assert ([c] + r)[1..] == r;
  }

  /** Digits of either case, paired in any mixture, and the six blanks of ASCII. */
  lemma HexPieces(a: nat, b: nat, c: char, d: char)
    requires a < 16 && b < 16
    ensures c in {LOWER[a], UPPER[a]} && d in {LOWER[b], UPPER[b]} ==> FromHex([c, d]) == Some([a * 16 + b])
    ensures c in ASCII_BLANKS ==> FromHex([c]) == Some([])
  {
    PlaceRead(a);
    PlaceRead(b);
    KnownChar(c);
    assert FromHex("") == Some([]) && [c, d] + "" == [c, d] && [c] + "" == [c];
    if AnyHexChar(c) && AnyHexChar(d) {
      PairRead(c, d, "");
      var bs: seq<byte> := [AnyDigitValue(c) * 16 + AnyDigitValue(d)];
      assert bs + [] == bs;
    }
    if AsciiBlank(c) { BlankRead(c, ""); }
    hide FromHex, ASCII_BLANKS, AsciiBlank, AnyHexChar;
  }

  lemma PairAppended(c: char, d: char, r: string, t: string, x: seq<byte>, y: seq<byte>)
    requires AnyHexChar(c) && AnyHexChar(d) && FromHex(r) == Some(x) && FromHex(r + t) == Some(x + y)
    ensures FromHex([c, d] + r).Some? && FromHex([c, d] + r + t) == Some(FromHex([c, d] + r).value + y)
  {
    hide FromHex, AnyDigitValue, AnyHexChar;
    PairRead(c, d, r);
    PairRead(c, d, r + t);
    assert [c, d] + r + t == [c, d] + (r + t);
    var bs: seq<byte> := [AnyDigitValue(c) * 16 + AnyDigitValue(d)];
    assert bs + x + y == bs + (x + y);
  }

  lemma FirstPiece(s: string)
    requires FromHex(s).Some? && s != ""
    ensures AsciiBlank(s[0]) ==> s == [s[0]] + s[1..] && FromHex(s[1..]) == FromHex(s)
    ensures !AsciiBlank(s[0]) ==>
      |s| > 1 && AnyHexChar(s[0]) && AnyHexChar(s[1]) && s == [s[0], s[1]] + s[2..] && FromHex(s[2..]).Some?
  {
  }

  /** Pieces are read one after the other. */
  lemma {:induction false} HexConcat(s: string, t: string)
    requires FromHex(s).Some?
    ensures FromHex(t).Some? ==> FromHex(s + t) == Some(FromHex(s).value + FromHex(t).value)
    ensures FromHex(t).None? ==> FromHex(s + t).None?
  {
    if s == "" {
      assert s + t == t && FromHex(s) == Some([]);
      if FromHex(t).Some? { assert [] + FromHex(t).value == FromHex(t).value; }
    } else {
      hide FromHex, AsciiBlank, AnyHexChar;
      FirstPiece(s);
      if AsciiBlank(s[0]) {
        HexConcat(s[1..], t);
        BlankRead(s[0], s[1..] + t);
        assert s + t == [s[0]] + (s[1..] + t);
      } else {
        var r := s[2..];
        HexConcat(r, t);
        PairRead(s[0], s[1], r + t);
        assert s + t == [s[0], s[1]] + (r + t) == [s[0], s[1]] + r + t;
        if FromHex(t).Some? { PairAppended(s[0], s[1], r, t, FromHex(r).value, FromHex(t).value); }
      }
    }
  }

  /** Nothing but digits and blanks is read. */
  lemma {:induction false} HexCharsOnly(s: string, i: nat)
    requires FromHex(s).Some? && i < |s|
    ensures s[i] in LOWER || s[i] in UPPER || s[i] in ASCII_BLANKS
  {
    hide LOWER, UPPER, ASCII_BLANKS;
    KnownChar(s[i]);
    if AsciiBlank(s[0]) {
      if i > 0 { HexCharsOnly(s[1..], i - 1); }
    } else if i > 1 {
      HexCharsOnly(s[2..], i - 2);
    }
  }

  /** What may follow a numeral: nothing, or a character no numeral contains. */
  predicate Ends(r: string) { r == "" || !HexChar(r[0]) }

  lemma SpanCancel(s1: string, s2: string, r1: string, r2: string)
    requires AllHex(s1) && AllHex(s2) && Ends(r1) && Ends(r2)
    requires s1 + r1 == s2 + r2
    ensures s1 == s2 && r1 == r2
  {
    var w := s1 + r1;
    assert forall i :: 0 <= i < |s1| ==> HexChar((s1 + r1)[i]);
    assert forall i :: 0 <= i < |s2| ==> HexChar((s2 + r2)[i]);
    assert r1 != "" ==> !HexChar((s1 + r1)[|s1|]);
    assert r2 != "" ==> !HexChar((s2 + r2)[|s2|]);
    assert |s1| == |s2|;
    assert s1 == w[..|s1|] && r1 == w[|s1|..];
    assert s2 == (s2 + r2)[..|s2|] && r2 == (s2 + r2)[|s2|..];
  }

  lemma DecimalCancel(m: nat, n: nat, r1: string, r2: string)
    requires Ends(r1) && Ends(r2) && Decimal(m) + r1 == Decimal(n) + r2
    ensures m == n && r1 == r2
  {
    SpanCancel(Decimal(m), Decimal(n), r1, r2);
    FromDecimalOfDecimal(m);
    FromDecimalOfDecimal(n);
  }

  lemma DropFirst(c: char, s1: string, s2: string, r1: string, r2: string)
    requires [c] + s1 + r1 == [c] + s2 + r2
    ensures s1 + r1 == s2 + r2
  {
    assert s1 + r1 == ([c] + s1 + r1)[1..];
    assert s2 + r2 == ([c] + s2 + r2)[1..];
  }

  lemma SignedHead(z: int, r: string)
    ensures SignedDecimal(z) != ""
    ensures (SignedDecimal(z) + r)[0] == '-' <==> z < 0
  {
    if z >= 0 {
      assert DigitChar(Decimal(z)[0]);
    }
  }

  lemma SignedCancel(y: int, z: int, r1: string, r2: string)
    requires Ends(r1) && Ends(r2) && SignedDecimal(y) + r1 == SignedDecimal(z) + r2
    ensures y == z && r1 == r2
  {
    SignedHead(y, r1);
    SignedHead(z, r2);
    if y < 0 {
      DropFirst('-', Decimal(-y), Decimal(-z), r1, r2);
      DecimalCancel(-y, -z, r1, r2);
    } else {
      DecimalCancel(y, z, r1, r2);
    }
  }

  lemma HexCancel(a: seq<byte>, b: seq<byte>, r1: string, r2: string)
    requires Ends(r1) && Ends(r2) && Hex(a) + r1 == Hex(b) + r2
    ensures a == b && r1 == r2
  {
    SpanCancel(Hex(a), Hex(b), r1, r2);
    HexInjective(a, b);
  }

  /** Python's sep.join(ss) and Lean's String.intercalate sep ss. */
  function Join(sep: string, ss: seq<string>): string {
    if ss == [] then ""
    else if |ss| == 1 then ss[0]
    else ss[0] + sep + Join(sep, ss[1..])
  }

  lemma {:induction false} JoinSnoc(sep: string, ss: seq<string>, s: string)
    requires ss != []
    ensures Join(sep, ss + [s]) == Join(sep, ss) + sep + s
  {
    if |ss| > 1 {
      assert (ss + [s])[1..] == ss[1..] + [s];
      JoinSnoc(sep, ss[1..], s);
      assert ss[0] + sep + (Join(sep, ss[1..]) + sep + s)
          == (ss[0] + sep + Join(sep, ss[1..])) + sep + s;
    } else {
      assert (ss + [s])[1..] == [s];
    }
  }

  predicate Prefixed(s: string, p: string) { |p| <= |s| && s[..|p|] == p }

  lemma PrefixTail(p: string, r: string)
    ensures Prefixed(p + r, p) && (p + r)[|p|..] == r
  {
  }
}
