/** The Python string operations the comparator relies on. */
module PyText {
  import opened Basics
  import opened Text

  /** str.isspace on one character. */
  predicate IsSpace(c: char) {
    var n := c as int;
    || 0x09 <= n <= 0x0d || 0x1c <= n <= 0x20 || n == 0x85 || n == 0xa0 || n == 0x1680
    || 0x2000 <= n <= 0x200a || n == 0x2028 || n == 0x2029 || n == 0x202f || n == 0x205f || n == 0x3000
  }

  function RStrip(s: string): string {
    if s != "" && IsSpace(s[|s| - 1]) then RStrip(s[..|s| - 1]) else s
  }

  function LStrip(s: string): string {
    if s != "" && IsSpace(s[0]) then LStrip(s[1..]) else s
  }

  function Strip(s: string): string { LStrip(RStrip(s)) }

  lemma {:induction false} RStripAppend(p: string, s: string)
    requires p != "" && !IsSpace(p[|p| - 1])
    ensures RStrip(p + s) == p + RStrip(s)
  {
    if s == "" {
      assert p + s == p;
    } else if IsSpace(s[|s| - 1]) {
      assert (p + s)[..|p + s| - 1] == p + s[..|s| - 1];
      RStripAppend(p, s[..|s| - 1]);
    }
  }

  /** Text that starts with a visible character is stripped on the right only. */
  lemma {:induction false} StripRight(s: string)
    requires s != "" && !IsSpace(s[0])
    ensures Strip(s) == RStrip(s)
  {
    assert s == [s[0]] + s[1..];
    RStripAppend([s[0]], s[1..]);
  }

  /** The code points Python strips: Unicode white space and the four separators of ASCII. */
  const BLANKS: set<int> := {
    9, 10, 11, 12, 13, 28, 29, 30, 31, 32, 133, 160, 5760,
    8192, 8193, 8194, 8195, 8196, 8197, 8198, 8199, 8200, 8201, 8202, 8232, 8233, 8239, 8287, 12288 }

  predicate Blank(s: string) { forall i :: 0 <= i < |s| ==> s[i] as int in BLANKS }

  lemma SpacesExactly()
    ensures forall c :: IsSpace(c) <==> c as int in BLANKS
  {
  }

  lemma {:induction false} LStripExactly(s: string) returns (pre: string)
    ensures s == pre + LStrip(s) && (forall i :: 0 <= i < |pre| ==> IsSpace(pre[i]))
    ensures LStrip(s) != "" ==> !IsSpace(LStrip(s)[0])
  {
    if s != "" && IsSpace(s[0]) {
      var rest := LStripExactly(s[1..]);
      pre := [s[0]] + rest;
      assert s == [s[0]] + s[1..];
    } else {
      pre := "";
    }
  }

  lemma {:induction false} RStripExactly(s: string) returns (post: string)
    ensures s == RStrip(s) + post && (forall i :: 0 <= i < |post| ==> IsSpace(post[i]))
    ensures RStrip(s) != "" ==> !IsSpace(RStrip(s)[|RStrip(s)| - 1])
  {
    if s != "" && IsSpace(s[|s| - 1]) {
      var rest := RStripExactly(s[..|s| - 1]);
      post := rest + [s[|s| - 1]];
      assert s == s[..|s| - 1] + [s[|s| - 1]];
    } else {
      post := "";
    }
  }

  /** Stripping takes off blanks at both ends, all of them, and nothing else. */
  lemma StripExactly(s: string) returns (pre: string, post: string)
    ensures s == pre + Strip(s) + post && Blank(pre) && Blank(post)
    ensures var t := Strip(s); t != "" ==> t[0] as int !in BLANKS && t[|t| - 1] as int !in BLANKS
  {
    hide IsSpace, BLANKS;
    SpacesExactly();
    post := RStripExactly(s);
    pre := LStripExactly(RStrip(s));
    var t := Strip(s);
    assert RStrip(s) == pre + t;
    if t != "" { assert RStrip(s)[|RStrip(s)| - 1] == t[|t| - 1]; }
  }

  /** Neither blank nor a section marker character. */
  predicate Clean(s: string) {
    forall i :: 0 <= i < |s| ==> !IsSpace(s[i]) && s[i] != '#' && s[i] != ';'
  }

  lemma StripClean(s: string)
    requires Clean(s)
    ensures Strip(s) == s
  {
  }

  lemma CleanHex(s: string)
    requires AllHex(s)
    ensures Clean(s)
  {
  }

  // ----- searching and splitting -----

  predicate OccursAt(s: string, sep: string, i: nat) {
    i + |sep| <= |s| && s[i..i + |sep|] == sep
  }

  /** The last occurrence of sep in s at or before i. */
  function FindLast(s: string, sep: string, i: nat): (r: Option<nat>)
    ensures r.Some? ==> OccursAt(s, sep, r.value)
  {
    if OccursAt(s, sep, i) then Some(i) else if i == 0 then None else FindLast(s, sep, i - 1)
  }

  /** s.rsplit(sep, 1) when sep in s, else (s, None). */
  function RSplit(s: string, sep: string): (string, Option<string>) {
    match FindLast(s, sep, |s|)
    case None => (s, None)
    case Some(i) => (s[..i], Some(s[i + |sep|..]))
  }

  /** A marker ##XYZ## whose middle letters are not hashes. */
  predicate Marker(m: string) {
    |m| == 7 && m[0] == '#' && m[1] == '#' && m[5] == '#' && m[6] == '#'
    && m[2] != '#' && m[3] != '#' && m[4] != '#'
  }

  predicate HashFree(s: string) { forall i :: 0 <= i < |s| ==> s[i] != '#' }

  lemma MarkerOccurrence(pre: string, m: string, suf: string, i: nat)
    requires Marker(m) && HashFree(suf) && i > |pre|
    ensures !OccursAt(pre + m + suf, m, i)
  {
    var s := pre + m + suf;
    var n := |pre|;
    assert s[n] == '#' && s[n + 1] == '#' && s[n + 2] == m[2] && s[n + 3] == m[3] && s[n + 4] == m[4];
    assert forall j :: n + 7 <= j < |s| ==> s[j] == suf[j - (n + 7)];
    assert |m| == 7;
    assert i + 7 <= |s| ==> s[i..i + 7][0] == s[i] && s[i..i + 7][1] == s[i + 1] && s[i..i + 7][5] == s[i + 5];
  }

  lemma {:induction false} FindLastBelow(s: string, sep: string, i: nat, k: nat)
    requires i <= k && OccursAt(s, sep, i)
    requires forall j :: i < j <= k ==> !OccursAt(s, sep, j)
    ensures FindLast(s, sep, k) == Some(i)
    decreases k
  {
    if i < k {
      FindLastBelow(s, sep, i, k - 1);
    }
  }

  /** Splitting from the right finds the structural marker, whatever precedes it. */
  lemma RSplitMarker(pre: string, m: string, suf: string)
    requires Marker(m) && HashFree(suf)
    ensures RSplit(pre + m + suf, m) == (pre, Some(suf))
  {
    var s := pre + m + suf;
    assert s[|pre|..|pre| + 7] == m;
    forall j | |pre| < j <= |s|
      ensures !OccursAt(s, m, j)
    {
      MarkerOccurrence(pre, m, suf, j);
    }
    FindLastBelow(s, m, |pre|, |s|);
    assert s[..|pre|] == pre && s[|pre| + 7..] == suf;
  }

  /** The part of s before the first c (all of s if there is none). */
  function Before(s: string, c: char): string {
    if s == "" || s[0] == c then "" else [s[0]] + Before(s[1..], c)
  }

  /** The part of s after the first c (empty if there is none). */
  function After(s: string, c: char): string {
    if s == "" then "" else if s[0] == c then s[1..] else After(s[1..], c)
  }

  predicate Without(s: string, c: char) { forall i :: 0 <= i < |s| ==> s[i] != c }

  lemma {:induction false} CutAt(p: string, c: char, r: string)
    requires Without(p, c)
    ensures Before(p + [c] + r, c) == p && After(p + [c] + r, c) == r
  {
    if p == "" {
      assert p + [c] + r == [c] + r;
    } else {
      assert (p + [c] + r)[1..] == p[1..] + [c] + r;
      CutAt(p[1..], c, r);
    }
  }

  /** s.split(c). */
  function Split(s: string, c: char): (ss: seq<string>)
    ensures ss != []
    decreases |s|
  {
    if Without(s, c) then [s] else
      AfterShorter(s, c);
      [Before(s, c)] + Split(After(s, c), c)
  }

  lemma {:induction false} AfterShorter(s: string, c: char)
    requires !Without(s, c)
    ensures |After(s, c)| < |s|
  {
    if s[0] != c {
      assert exists i :: 0 <= i < |s| && s[i] == c;
      var i :| 0 <= i < |s| && s[i] == c;
      assert s[1..][i - 1] == c;
      AfterShorter(s[1..], c);
    }
  }

  lemma SplitFirst(p: string, c: char, r: string)
    requires Without(p, c)
    ensures Split(p + [c] + r, c) == [p] + Split(r, c)
  {
    CutAt(p, c, r);
    assert (p + [c] + r)[|p|] == c;
  }

  lemma {:induction false} SplitJoin(ss: seq<string>, c: char)
    requires ss != [] && forall i :: 0 <= i < |ss| ==> Without(ss[i], c)
    ensures Split(Join([c], ss), c) == ss
  {
    if |ss| > 1 {
      var rest := Join([c], ss[1..]);
      SplitJoin(ss[1..], c);
      SplitFirst(ss[0], c, rest);
      assert ss == [ss[0]] + ss[1..];
    }
  }

  /** int(s) for optionally signed ASCII digits (None where it raises). */
  function ParseInt(s: string): Option<int> {
    var t := Strip(s);
    if t == "" then None
    else if t[0] == '-' && t != "-" && AllDigits(t[1..]) then Some(-(FromDecimal(t[1..]) as int))
    else if t[0] == '+' && t != "+" && AllDigits(t[1..]) then Some(FromDecimal(t[1..]))
    else if AllDigits(t) then Some(FromDecimal(t))
    else None
  }

  lemma ParseDecimal(n: nat)
    ensures ParseInt(Decimal(n)) == Some(n)
  {
    StripClean(Decimal(n));
    assert DigitChar(Decimal(n)[0]);
    FromDecimalOfDecimal(n);
  }

  /** Signed numerals are read as the numbers they are, a plus sign making no difference. */
  lemma ParseSigned(z: int)
    ensures ParseInt(SignedDecimal(z)) == Some(z) && (z >= 0 ==> ParseInt("+" + Decimal(z)) == Some(z))
  {
    var n := if z < 0 then -z else z;
    ParseDecimal(n);
    FromDecimalOfDecimal(n);
    StripClean("-" + Decimal(n));
    StripClean("+" + Decimal(n));
    assert ("-" + Decimal(n))[1..] == Decimal(n) == ("+" + Decimal(n))[1..];
  }
}
