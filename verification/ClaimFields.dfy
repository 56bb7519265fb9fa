/** Which claims can be read, and what is read of them. */
module ClaimFields {
  import opened Basics
  import opened Claim
  import opened Adjudicate
  import opened AdjudicateProofs

  // ----- arguments -----

  /** a is what r says, component by component. */
  predicate Says(r: RawArg, a: Arg)
    decreases r
  {
    match r
    case RLeaf(reading) => reading.Value? && a == reading.value
    case RList(elems) =>
      a.AList? && |a.elems| == |elems| && forall i :: 0 <= i < |elems| ==> Says(elems[i], a.elems[i])
  }

  /** Lists of at most 1024 values, nested at most 16 deep, and every number finite. */
  predicate Readable(r: RawArg, depth: nat)
    decreases r
  {
    depth <= 16
    && match r
       case RLeaf(reading) => reading.Value?
       case RList(elems) => |elems| <= 1024 && forall i :: 0 <= i < |elems| ==> Readable(elems[i], depth + 1)
  }

  predicate AllReadable(elems: seq<RawArg>, depth: nat) {
    forall i :: 0 <= i < |elems| ==> Readable(elems[i], depth)
  }

  /** The first value of r that cannot be read is an infinite number. */
  ghost predicate Infinite(r: RawArg, depth: nat)
    decreases r
  {
    depth <= 16
    && match r
       case RLeaf(reading) => reading.Overflow?
       case RList(elems) => |elems| <= 1024 && FirstInfinite(elems, depth + 1)
  }

  ghost predicate FirstInfinite(elems: seq<RawArg>, depth: nat)
    decreases elems
  {
    exists i :: 0 <= i < |elems| && Infinite(elems[i], depth) && forall j :: 0 <= j < i ==> Readable(elems[j], depth)
  }

  lemma ReadLeafExactly(r: RawArg, depth: nat)
    requires r.RLeaf? || depth > 16 || |r.elems| > 1024
    ensures ReadArg(r, depth).Value? <==> Readable(r, depth)
    ensures ReadArg(r, depth).Overflow? <==> Infinite(r, depth)
    ensures ReadArg(r, depth).Value? ==> Says(r, ReadArg(r, depth).value)
  {
    hide ReadArgs, FirstInfinite;
  }

  /** A list is read by its elements. */
  lemma ReadListStep(r: RawArg, depth: nat)
    requires r.RList? && depth <= 16 && |r.elems| <= 1024
    ensures var inner := ReadArgs(r.elems, |r.elems|, depth + 1);
      && ReadArg(r, depth).Value? == inner.Value? && ReadArg(r, depth).Overflow? == inner.Overflow?
      && (inner.Value? ==> ReadArg(r, depth).value == AList(inner.value))
    ensures Readable(r, depth) <==> AllReadable(r.elems, depth + 1)
    ensures Infinite(r, depth) <==> FirstInfinite(r.elems, depth + 1)
  {
    hide ReadArgs, FirstInfinite;
  }

  lemma ListSays(elems: seq<RawArg>, args: seq<Arg>)
    requires |args| == |elems| && forall i :: 0 <= i < |elems| ==> Says(elems[i], args[i])
    ensures Says(RList(elems), AList(args))
  {
  }

  lemma {:induction false} ReadArgExactly(r: RawArg, depth: nat)
    ensures ReadArg(r, depth).Value? <==> Readable(r, depth)
    ensures ReadArg(r, depth).Overflow? <==> Infinite(r, depth)
    ensures ReadArg(r, depth).Value? ==> Says(r, ReadArg(r, depth).value)
    decreases r, 0
  {
    hide *;
    if r.RList? && depth <= 16 && |r.elems| <= 1024 {
      ReadListStep(r, depth);
      ReadArgsExactly(r.elems, |r.elems|, depth + 1);
      assert r.elems[..|r.elems|] == r.elems;
      var inner := ReadArgs(r.elems, |r.elems|, depth + 1);
      if inner.Value? { ListSays(r.elems, inner.value); }
    } else {
      ReadLeafExactly(r, depth);
    }
  }

  lemma {:induction false} ReadArgsExactly(elems: seq<RawArg>, k: nat, depth: nat)
    requires k <= |elems|
    ensures ReadArgs(elems, k, depth).Value? <==> AllReadable(elems[..k], depth)
    ensures ReadArgs(elems, k, depth).Overflow? <==> FirstInfinite(elems[..k], depth)
    ensures ReadArgs(elems, k, depth).Value? ==>
      forall i :: 0 <= i < k ==> Says(elems[i], ReadArgs(elems, k, depth).value[i])
    decreases elems, k
  {
    hide ReadArg, Readable, Infinite, Says;
    if k > 0 {
      ReadArgsExactly(elems, k - 1, depth);
      ReadArgExactly(elems[k - 1], depth);
      FirstGrows(elems[..k - 1], elems[k - 1], depth);
      assert elems[..k] == elems[..k - 1] + [elems[k - 1]];
    }
  }

  lemma FirstGrows(init: seq<RawArg>, last: RawArg, depth: nat)
    ensures AllReadable(init + [last], depth) <==> AllReadable(init, depth) && Readable(last, depth)
    ensures FirstInfinite(init + [last], depth)
       <==> FirstInfinite(init, depth) || (AllReadable(init, depth) && Infinite(last, depth))
  {
    hide Readable, Infinite;
    var all := init + [last];
    assert forall i :: 0 <= i < |init| ==> all[i] == init[i];
    assert all[|init|] == last;
    if FirstInfinite(all, depth) {
      var i :| 0 <= i < |all| && Infinite(all[i], depth) && forall j :: 0 <= j < i ==> Readable(all[j], depth);
      if i < |init| { assert Infinite(init[i], depth); }
    }
    if FirstInfinite(init, depth) {
      var i :| 0 <= i < |init| && Infinite(init[i], depth) && forall j :: 0 <= j < i ==> Readable(init[j], depth);
      assert Infinite(all[i], depth);
    }
    if AllReadable(init, depth) && Infinite(last, depth) { assert Infinite(all[|init|], depth); }
  }

  // ----- slots -----

  predicate Word(r: Reading<int>) { r.Value? && 0 <= r.value < TWO256 }

  predicate AllWords(rs: seq<Reading<int>>) { forall i :: 0 <= i < |rs| ==> Word(rs[i]) }

  ghost predicate FirstSlotInfinite(rs: seq<Reading<int>>) {
    exists i :: 0 <= i < |rs| && rs[i].Overflow? && forall j :: 0 <= j < i ==> Word(rs[j])
  }

  lemma {:induction false} ReadSlotsExactly(rs: seq<Reading<int>>, k: nat)
    requires k <= |rs|
    ensures ReadSlots(rs, k).Value? <==> AllWords(rs[..k])
    ensures ReadSlots(rs, k).Overflow? <==> FirstSlotInfinite(rs[..k])
    ensures ReadSlots(rs, k).Value? ==>
      forall i :: 0 <= i < k ==> rs[i] == Value(ReadSlots(rs, k).value[i])
  {
    if k > 0 {
      ReadSlotsExactly(rs, k - 1);
      SlotsGrow(rs[..k - 1], rs[k - 1]);
      assert rs[..k] == rs[..k - 1] + [rs[k - 1]];
    }
  }

  lemma SlotsGrow(init: seq<Reading<int>>, last: Reading<int>)
    ensures AllWords(init + [last]) <==> AllWords(init) && Word(last)
    ensures FirstSlotInfinite(init + [last]) <==> FirstSlotInfinite(init) || (AllWords(init) && last.Overflow?)
  {
    hide Word;
    var all := init + [last];
    assert forall i :: 0 <= i < |init| ==> all[i] == init[i];
    assert all[|init|] == last;
    if FirstSlotInfinite(all) {
      var i :| 0 <= i < |all| && all[i].Overflow? && forall j :: 0 <= j < i ==> Word(all[j]);
      if i < |init| { assert init[i].Overflow?; }
    }
    if FirstSlotInfinite(init) {
      var i :| 0 <= i < |init| && init[i].Overflow? && forall j :: 0 <= j < i ==> Word(init[j]);
      assert all[i].Overflow?;
    }
    if AllWords(init) && last.Overflow? { assert all[|init|].Overflow?; }
  }

  // ----- the whole claim -----

  predicate NameDigit(c: char) { 0x30 <= c as int <= 0x39 }

  /** Letters of ASCII, digits, the underscore and the dollar sign. */
  predicate NameChar(c: char) {
    var n := c as int;
    NameDigit(c) || 0x41 <= n <= 0x5A || 0x61 <= n <= 0x7A || n == 0x5F || n == 0x24
  }

  /** Such characters, the first no digit, and perhaps a line break after them. */
  predicate Name(s: string) {
    var t := if s != "" && s[|s| - 1] == '\n' then s[..|s| - 1] else s;
    NameWord(t)
  }

  predicate NameWord(t: string) { t != "" && !NameDigit(t[0]) && forall i :: 0 <= i < |t| ==> NameChar(t[i]) }

  lemma WordsExactly(t: string)
    ensures IdentifierWord(t) <==> NameWord(t)
  {
    forall i | 0 <= i < |t|
      ensures NameChar(t[i]) <==> LetterChar(t[i]) || '0' <= t[i] <= '9'
    {
    }
  }

  lemma NamesExactly(s: string)
    ensures IsIdentifier(s) <==> Name(s)
  {
    hide IdentifierWord, NameChar;
    WordsExactly(s);
    if s != "" && s[|s| - 1] == '\n' {
      WordsExactly(s[..|s| - 1]);
      assert !NameChar('\n') by { NoBreak(); }
    }
  }

  lemma NoBreak()
    ensures !NameChar('\n')
  {
  }

  predicate Named(c: Submission) { Name(c.contract) && Name(c.function_) }

  predicate Fueled(c: Submission) { c.fuel.Value? && 1 <= c.fuel.value <= 100_000 }

  predicate ArgsReadable(args: Option<seq<RawArg>>) { args.Some? && AllReadable(args.value, 0) }

  ghost predicate ArgsInfinite(args: Option<seq<RawArg>>) { args.Some? && FirstInfinite(args.value, 0) }

  predicate SlotsReadable(slots: Option<seq<Reading<int>>>) {
    slots.Some? && |slots.value| <= 64 && AllWords(slots.value)
  }

  ghost predicate SlotsInfinite(slots: Option<seq<Reading<int>>>) {
    slots.Some? && |slots.value| <= 64 && FirstSlotInfinite(slots.value)
  }

  lemma ListsExactly(args: Option<seq<RawArg>>)
    ensures ReadList(args).Value? <==> ArgsReadable(args)
    ensures ReadList(args).Overflow? <==> ArgsInfinite(args)
    ensures ReadList(args).Value? ==>
      |ReadList(args).value| == |args.value|
      && forall i :: 0 <= i < |args.value| ==> Says(args.value[i], ReadList(args).value[i])
  {
    hide ReadArgs, Readable, Infinite, Says, FirstInfinite;
    if args.Some? {
      ReadArgsExactly(args.value, |args.value|, 0);
      assert args.value[..|args.value|] == args.value;
    }
  }

  lemma SlotsExactly(slots: Option<seq<Reading<int>>>)
    ensures ReadSlotList(slots).Value? <==> SlotsReadable(slots)
    ensures ReadSlotList(slots).Overflow? <==> SlotsInfinite(slots)
    ensures ReadSlotList(slots).Value? ==>
      |ReadSlotList(slots).value| == |slots.value|
      && forall i :: 0 <= i < |slots.value| ==> slots.value[i] == Value(ReadSlotList(slots).value[i])
  {
    hide ReadSlots, Word, FirstSlotInfinite;
    if slots.Some? && |slots.value| <= 64 {
      ReadSlotsExactly(slots.value, |slots.value|);
      assert slots.value[..|slots.value|] == slots.value;
    }
  }

  /** A claim can be read exactly when its names are identifiers, its fuel is in range, its
      arguments are lists of finite depth and length and its slots at most 64 words; then
      it is read as it stands, in order. Reading raises exactly when the first field that
      cannot be read holds an infinite number first. */
  lemma ReadsExactly(c: Submission)
    ensures Legible(c)
       <==> Named(c) && Fueled(c) && ArgsReadable(c.args) && ArgsReadable(c.ctorArgs) && SlotsReadable(c.slots)
    ensures Legible(c) ==>
      var s := Asked(c);
      && |s.args| == |c.args.value| && (forall i :: 0 <= i < |s.args| ==> Says(c.args.value[i], s.args[i]))
      && |s.ctorArgs| == |c.ctorArgs.value|
      && (forall i :: 0 <= i < |s.ctorArgs| ==> Says(c.ctorArgs.value[i], s.ctorArgs[i]))
      && |s.slots| == |c.slots.value| && (forall i :: 0 <= i < |s.slots| ==> c.slots.value[i] == Value(s.slots[i]))
    ensures ReadFields(c).Overflow?
       <==> Named(c)
            && (|| c.fuel.Overflow?
                || (Fueled(c)
                    && (|| ArgsInfinite(c.args)
                        || (ArgsReadable(c.args)
                            && (|| ArgsInfinite(c.ctorArgs)
                                || (ArgsReadable(c.ctorArgs) && SlotsInfinite(c.slots)))))))
  {
    NamesExactly(c.contract);
    NamesExactly(c.function_);
    hide ReadList, ReadSlotList, IsIdentifier, Name, ArgsReadable, ArgsInfinite, SlotsReadable, SlotsInfinite, Says;
    ListsExactly(c.args);
    ListsExactly(c.ctorArgs);
    SlotsExactly(c.slots);
  }
}
