/** Undoing the quoting of Lean strings, on code points. */
module Unescape {
  import opened Basics

  const MAX_CODE: nat := 0x110000

  const BACKSLASH: nat := 0x5C
  const QUOTE: nat := 0x22
  const APOSTROPHE: nat := 0x27
  const LETTER_N: nat := 0x6E
  const LETTER_T: nat := 0x74
  const LETTER_R: nat := 0x72
  const LETTER_U: nat := 0x75
  const OPEN: nat := 0x7B
  const CLOSE: nat := 0x7D

  /** The character a two-character escape stands for. */
  function Simple(c: nat): Option<nat> {
    if c == BACKSLASH || c == QUOTE || c == APOSTROPHE then Some(c)
    else if c == LETTER_N then Some(0x0A)
    else if c == LETTER_T then Some(0x09)
    else if c == LETTER_R then Some(0x0D)
    else None
  }

  function HexDigit(c: nat): Option<nat> {
    if 0x30 <= c <= 0x39 then Some(c - 0x30)
    else if 0x41 <= c <= 0x46 then Some(c - 0x41 + 10)
    else if 0x61 <= c <= 0x66 then Some(c - 0x61 + 10)
    else None
  }

  /** int(h, 16) for plain digits. */
  function HexValue(h: seq<nat>): Option<nat> {
    if h == [] then None
    else if |h| == 1 then HexDigit(h[0])
    else
      match (HexValue(h[..|h| - 1]), HexDigit(h[|h| - 1]))
      case (Some(v), Some(d)) => Some(16 * v + d)
      case _ => None
  }

  /** s.find(c, i): the length of s if absent. */
  function Find(s: seq<nat>, c: nat, i: nat): (k: nat)
    requires i <= |s|
    ensures i <= k <= |s|
    decreases |s| - i
  {
    if i == |s| || s[i] == c then i else Find(s, c, i + 1)
  }

  /** The escape at position i, where s[i] is a backslash with a successor: the character
      and the position after it. */
  function Escape(s: seq<nat>, i: nat): (nat, nat)
    requires i + 1 < |s|
  {
    var nxt := s[i + 1];
    if nxt == LETTER_U && i + 2 < |s| && s[i + 2] == OPEN then
      var close := Find(s, CLOSE, i + 3);
      if close < |s| && HexValue(s[i + 3..close]).Some? && HexValue(s[i + 3..close]).value < MAX_CODE then
        (HexValue(s[i + 3..close]).value, close + 1)
      else (nxt, i + 2)
    else
      (if Simple(nxt).Some? then Simple(nxt).value else nxt, i + 2)
  }

  function From(s: seq<nat>, i: nat): seq<nat>
    requires i <= |s|
    decreases |s| - i
  {
    if i == |s| then []
    else if s[i] != BACKSLASH || i + 1 >= |s| then [s[i]] + From(s, i + 1)
    else
      EscapeAdvances(s, i);
      var (c, j) := Escape(s, i);
      [c] + From(s, j)
  }

  lemma EscapeAdvances(s: seq<nat>, i: nat)
    requires i + 1 < |s|
    ensures i + 2 <= Escape(s, i).1 <= |s|
  {
  }

  method UnescapeLeanRepr(s: seq<nat>) returns (out: seq<nat>)
    ensures out == From(s, 0)
  {
    if BACKSLASH !in s {
      Untouched(s, 0);
      return s;
    }
    out := [];
    var i := 0;
    while i < |s|
      invariant i <= |s| && out + From(s, i) == From(s, 0)
    {
      var c := s[i];
      if c != BACKSLASH || i + 1 >= |s| {
        assert out + ([c] + From(s, i + 1)) == (out + [c]) + From(s, i + 1);
        out := out + [c];
        i := i + 1;
      } else {
        EscapeAdvances(s, i);
        var (d, j) := Escape(s, i);
        assert out + ([d] + From(s, j)) == (out + [d]) + From(s, j);
        out := out + [d];
        i := j;
      }
    }
  }

  /** Text without a backslash is left alone. */
  lemma {:induction false} Untouched(s: seq<nat>, i: nat)
    requires i <= |s| && BACKSLASH !in s
    ensures From(s, i) == s[i..]
    decreases |s| - i
  {
    if i < |s| {
      assert s[i] in s;
      Untouched(s, i + 1);
      assert s[i..] == [s[i]] + s[i + 1..];
    }
  }

  // ----- every quoting the grammar allows -----

  /** t is a way to write the character c: itself, a two-character escape, or \u{digits}. */
  ghost predicate Writes(t: seq<nat>, c: nat) {
    || (t == [c] && c != BACKSLASH)
    || (|t| == 2 && t[0] == BACKSLASH && Letter(t[1], c))
    || Numeric(t, c)
  }

  ghost predicate Numeric(t: seq<nat>, c: nat) {
    && |t| >= 5 && t[..3] == [BACKSLASH, LETTER_U, OPEN] && t[|t| - 1] == CLOSE
    && Spelled(t[3..|t| - 1], c)
  }

  /** The letters of the two-character escapes, in ASCII. */
  predicate Letter(letter: nat, c: nat) {
    || (letter == 0x5C && c == 0x5C) || (letter == 0x22 && c == 0x22) || (letter == 0x27 && c == 0x27)
    || (letter == 0x6E && c == 10) || (letter == 0x74 && c == 9) || (letter == 0x72 && c == 13)
  }

  /** The hexadecimal digit d, in either case. */
  predicate DigitOf(digit: nat, d: nat) {
    if d < 10 then digit == 0x30 + d else d < 16 && (digit == 0x41 + (d - 10) || digit == 0x61 + (d - 10))
  }

  /** h is c in hexadecimal, leading zeros allowed. */
  predicate Spelled(h: seq<nat>, c: nat) {
    h != []
    && if |h| == 1 then DigitOf(h[0], c)
       else DigitOf(h[|h| - 1], c % 16) && Spelled(h[..|h| - 1], c / 16)
  }

  lemma {:induction false} SpelledValue(h: seq<nat>, c: nat)
    ensures Spelled(h, c) ==> HexValue(h) == Some(c)
  {
    if |h| > 1 { SpelledValue(h[..|h| - 1], c / 16); }
  }

  /** The text written by the first k chunks. */
  function Joined(chunks: seq<seq<nat>>, k: nat): seq<nat>
    requires k <= |chunks|
    decreases |chunks| - k
  {
    if k == |chunks| then [] else chunks[k] + Joined(chunks, k + 1)
  }

  lemma {:induction false} HexHasNoClose(h: seq<nat>, i: nat)
    requires HexValue(h).Some? && i < |h|
    ensures h[i] != CLOSE
  {
    if |h| > 1 && i < |h| - 1 { HexHasNoClose(h[..|h| - 1], i); }
  }

  lemma {:induction false} FindAt(s: seq<nat>, c: nat, i: nat, k: nat)
    requires i <= k < |s| && s[k] == c && forall j :: i <= j < k ==> s[j] != c
    ensures Find(s, c, i) == k
    decreases k - i
  {
    if i < k { FindAt(s, c, i + 1, k); }
  }

  /** Reading one chunk, whatever follows it. */
  lemma ReadChunk(pre: seq<nat>, t: seq<nat>, rest: seq<nat>, c: nat)
    requires Writes(t, c) && c < MAX_CODE
    ensures From(pre + t + rest, |pre|) == [c] + From(pre + t + rest, |pre| + |t|)
  {
    var s, i := pre + t + rest, |pre|;
    assert forall j :: 0 <= j < |t| ==> s[i + j] == t[j];
    if Numeric(t, c) {
      SpelledValue(t[3..|t| - 1], c);
      ReadNumeric(s, i, t, c);
    }
  }

  lemma ReadNumeric(s: seq<nat>, i: nat, t: seq<nat>, c: nat)
    requires Numeric(t, c) && HexValue(t[3..|t| - 1]) == Some(c) && c < MAX_CODE
    requires i + |t| <= |s| && s[i..i + |t|] == t
    ensures Escape(s, i) == (c, i + |t|) && s[i] == BACKSLASH
  {
    var h, k := t[3..|t| - 1], i + |t| - 1;
    forall j | 0 <= j < |t|
      ensures s[i + j] == t[j]
    {
      assert s[i..i + |t|][j] == s[i + j];
    }
    assert t[0] == t[..3][0] && t[1] == t[..3][1] && t[2] == t[..3][2];
    forall j | i + 3 <= j < k
      ensures s[j] != CLOSE
    {
      assert s[j] == t[j - i] == h[j - i - 3];
      HexHasNoClose(h, j - i - 3);
    }
    FindAt(s, CLOSE, i + 3, k);
    assert s[i + 3..k] == h;
  }

  lemma JoinedStep(chunks: seq<seq<nat>>, k: nat)
    requires k < |chunks|
    ensures Joined(chunks, k) == chunks[k] + Joined(chunks, k + 1)
  {
  }

  lemma JoinedEnd(chunks: seq<seq<nat>>)
    ensures Joined(chunks, |chunks|) == []
  {
  }

  lemma FromEnd(s: seq<nat>)
    ensures s + [] == s && From(s + [], |s|) == []
  {
  }

  lemma Regroup(pre: seq<nat>, t: seq<nat>, rest: seq<nat>)
    ensures pre + (t + rest) == pre + t + rest && |pre + t| == |pre| + |t|
  {
  }

  lemma HeadTail(original: seq<nat>, k: nat)
    requires k < |original|
    ensures original[k..] == [original[k]] + original[k + 1..]
  {
  }

  lemma {:induction false} ReadChunks(pre: seq<nat>, chunks: seq<seq<nat>>, original: seq<nat>, k: nat)
    requires |chunks| == |original| && k <= |chunks|
    requires forall i :: 0 <= i < |original| ==> original[i] < MAX_CODE && Writes(chunks[i], original[i])
    ensures From(pre + Joined(chunks, k), |pre|) == original[k..]
    decreases |chunks| - k
  {
    hide *;
    if k < |chunks| {
      var t, rest := chunks[k], Joined(chunks, k + 1);
      assert Joined(chunks, k) == t + rest by { JoinedStep(chunks, k); }
      Regroup(pre, t, rest);
      ReadChunk(pre, t, rest, original[k]);
      ReadChunks(pre + t, chunks, original, k + 1);
      HeadTail(original, k);
    } else {
      JoinedEnd(chunks);
      FromEnd(pre);
      assert original[k..] == [];
    }
  }

  /** However each character was written, unescaping gives the original back: every
      backslash is consumed once. */
  lemma UnescapeUndoesEscape(chunks: seq<seq<nat>>, original: seq<nat>)
    requires |chunks| == |original|
    requires forall i :: 0 <= i < |original| ==> original[i] < MAX_CODE && Writes(chunks[i], original[i])
    ensures From(Joined(chunks, 0), 0) == original
  {
    ReadChunks([], chunks, original, 0);
    assert [] + Joined(chunks, 0) == Joined(chunks, 0);
    assert original[0..] == original;
  }
}
