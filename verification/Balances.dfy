/** The balance overlay: last-wins deals read by a first-wins lookup. */
module Balances {
  import opened Basics
  import opened IndexSort

  type Deal = (int, int)

  const CANONICAL_SENDER: int := 0x1804c8AB1F12E6bbf3894d4083f33e07309d1f38
  const CANONICAL_BALANCE: int := 0x1_0000_0000_0000_0000_0000_0000 - 1

  // ----- a dict in insertion order -----

  /** d[a] = amt: overwrites in place, or appends. */
  function Assign(d: seq<Deal>, a: int, amt: int): seq<Deal> {
    if d == [] then [(a, amt)]
    else if d[0].0 == a then [(a, amt)] + d[1..]
    else [d[0]] + Assign(d[1..], a, amt)
  }

  /** First-wins lookup. */
  function Lookup(d: seq<Deal>, a: int): Option<int> {
    if d == [] then None else if d[0].0 == a then Some(d[0].1) else Lookup(d[1..], a)
  }

  function Assigned(deals: seq<Deal>, n: nat): seq<Deal>
    requires n <= |deals|
  {
    if n == 0 then [] else Assign(Assigned(deals, n - 1), deals[n - 1].0, deals[n - 1].1)
  }

  method EffectiveDeals(deals: seq<Deal>) returns (last: seq<Deal>)
    ensures last == Assigned(deals, |deals|)
  {
    last := [];
    for i := 0 to |deals|
      invariant last == Assigned(deals, i)
    {
      last := Assign(last, deals[i].0, deals[i].1);
    }
  }

  /** The overlay list: deals, then the sender's genesis entry, then the entry debit. */
  function Overlay(deals: seq<Deal>): seq<Deal> {
    Assigned(deals, |deals|) + [(CANONICAL_SENDER, CANONICAL_BALANCE)]
  }

  /** Debits the first entry of `who`, if it covers the value. */
  function Debited(d: seq<Deal>, who: int, value: int): seq<Deal> {
    if d == [] then []
    else if d[0].0 == who then
      [(who, if d[0].1 >= value then d[0].1 - value else d[0].1)] + d[1..]
    else [d[0]] + Debited(d[1..], who, value)
  }

  method LeanBalances(deals: seq<Deal>, sender: int, value: nat, debit: bool) returns (entries: seq<Deal>)
    ensures entries == if debit && value != 0 then Debited(Overlay(deals), sender, value) else Overlay(deals)
  {
    entries := EffectiveDeals(deals);
    entries := entries + [(CANONICAL_SENDER, CANONICAL_BALANCE)];
    if debit && value != 0 {
      ghost var was := entries;
      for i := 0 to |entries|
        invariant entries == was
        invariant forall j :: 0 <= j < i ==> was[j].0 != sender
      {
        if entries[i].0 == sender {
          DebitedAt(was, sender, value, i);
          if entries[i].1 >= value {
            entries := entries[i := (sender, entries[i].1 - value)];
          }
          return;
        }
      }
      DebitedAbsent(was, sender, value);
    }
  }

  lemma {:induction false} DebitedAt(d: seq<Deal>, who: int, value: int, i: nat)
    requires i < |d| && d[i].0 == who && forall j :: 0 <= j < i ==> d[j].0 != who
    ensures Debited(d, who, value) == if d[i].1 >= value then d[i := (who, d[i].1 - value)] else d
  {
    assert d == [d[0]] + d[1..];
    if i > 0 {
      assert forall j :: 0 <= j < i - 1 ==> d[1..][j].0 == d[j + 1].0;
      DebitedAt(d[1..], who, value, i - 1);
    } else {
      assert d[0] == (who, d[0].1);
    }
  }

  lemma {:induction false} DebitedAbsent(d: seq<Deal>, who: int, value: int)
    requires forall j :: 0 <= j < |d| ==> d[j].0 != who
    ensures Debited(d, who, value) == d
  {
    if d != [] {
      assert forall j :: 0 <= j < |d| - 1 ==> d[1..][j].0 == d[j + 1].0;
      DebitedAbsent(d[1..], who, value);
      assert d == [d[0]] + d[1..];
    }
  }

  // ----- the EVM side: replaying vm.deal on the genesis balances -----

  function Genesis(a: int): Option<int> { if a == CANONICAL_SENDER then Some(CANONICAL_BALANCE) else None }

  /** The balance after the first n deals, each setting its address. */
  function Replay(deals: seq<Deal>, n: nat, a: int): Option<int>
    requires n <= |deals|
  {
    if n == 0 then Genesis(a)
    else if deals[n - 1].0 == a then Some(deals[n - 1].1)
    else Replay(deals, n - 1, a)
  }

  lemma {:induction false} LookupAssign(d: seq<Deal>, a: int, amt: int, b: int)
    ensures Lookup(Assign(d, a, amt), b) == if a == b then Some(amt) else Lookup(d, b)
  {
    if d != [] && d[0].0 != a { LookupAssign(d[1..], a, amt, b); }
  }

  lemma {:induction false} LookupAfter(d: seq<Deal>, e: seq<Deal>, a: int)
    ensures Lookup(d + e, a) == if Lookup(d, a).Some? then Lookup(d, a) else Lookup(e, a)
  {
    if d == [] {
      assert d + e == e;
    } else {
      assert (d + e)[1..] == d[1..] + e;
      LookupAfter(d[1..], e, a);
    }
  }

  lemma {:induction false} LookupAssigned(deals: seq<Deal>, n: nat, a: int)
    requires n <= |deals|
    ensures (if Lookup(Assigned(deals, n), a).Some? then Lookup(Assigned(deals, n), a) else Genesis(a))
         == Replay(deals, n, a)
  {
    if n > 0 {
      LookupAssigned(deals, n - 1, a);
      LookupAssign(Assigned(deals, n - 1), deals[n - 1].0, deals[n - 1].1, a);
    }
  }

  /** For every address and deal list, the first-wins lookup in the overlay is the last-wins
      replay on the genesis balance. */
  lemma OverlayIsReplay(deals: seq<Deal>, a: int)
    ensures Lookup(Overlay(deals), a) == Replay(deals, |deals|, a)
  {
    LookupAssigned(deals, |deals|, a);
    LookupAfter(Assigned(deals, |deals|), [(CANONICAL_SENDER, CANONICAL_BALANCE)], a);
    assert Lookup([(CANONICAL_SENDER, CANONICAL_BALANCE)], a) == Genesis(a);
  }

  lemma {:induction false} DebitLookup(d: seq<Deal>, who: int, value: int, a: int)
    ensures Lookup(Debited(d, who, value), a)
         == match Lookup(d, a)
            case None => None
            case Some(amt) => Some(if a == who && amt >= value then amt - value else amt)
  {
    if d != [] && d[0].0 != who { DebitLookup(d[1..], who, value, a); }
  }

  /** The debit lowers the caller's replayed balance by exactly the value, only when it
      covers it, and touches no other address. */
  lemma DebitIsExact(deals: seq<Deal>, who: int, value: nat, a: int)
    ensures Lookup(Debited(Overlay(deals), who, value), a)
         == match Replay(deals, |deals|, a)
            case None => None
            case Some(amt) => Some(if a == who && amt >= value then amt - value else amt)
  {
    OverlayIsReplay(deals, a);
    DebitLookup(Overlay(deals), who, value, a);
  }

  // ----- the order of the list -----

  function Addresses(d: seq<Deal>): (r: seq<int>)
    ensures |r| == |d|
  {
    seq(|d|, i requires 0 <= i < |d| => d[i].0)
  }

  /** The addresses of the first n deals, each at its first occurrence. */
  function FirstSeen(deals: seq<Deal>, n: nat): seq<int>
    requires n <= |deals|
  {
    if n == 0 then []
    else if deals[n - 1].0 in FirstSeen(deals, n - 1) then FirstSeen(deals, n - 1)
    else FirstSeen(deals, n - 1) + [deals[n - 1].0]
  }

  lemma {:induction false} AssignOrder(d: seq<Deal>, a: int, amt: int)
    ensures Addresses(Assign(d, a, amt)) == if a in Addresses(d) then Addresses(d) else Addresses(d) + [a]
  {
    if d != [] {
      assert Addresses(d) == [d[0].0] + Addresses(d[1..]);
      if d[0].0 != a {
        AssignOrder(d[1..], a, amt);
        assert Addresses([d[0]] + Assign(d[1..], a, amt)) == [d[0].0] + Addresses(Assign(d[1..], a, amt));
      }
    }
  }

  /** Repeated deals keep the position of their first occurrence .. */
  lemma {:induction false} DealsKeepFirstOrder(deals: seq<Deal>, n: nat)
    requires n <= |deals|
    ensures Addresses(Assigned(deals, n)) == FirstSeen(deals, n)
  {
    if n > 0 {
      DealsKeepFirstOrder(deals, n - 1);
      AssignOrder(Assigned(deals, n - 1), deals[n - 1].0, deals[n - 1].1);
    }
  }

  /** .. not of their last: dealing to 1, 2 and 1 again lists 1 before 2. */
  lemma NotLastOrder()
    ensures Assigned([(1, 10), (2, 20), (1, 30)], 3) == [(1, 30), (2, 20)]
  {
    var deals := [(1, 10), (2, 20), (1, 30)];
    assert Assigned(deals, 1) == [(1, 10)];
    assert Assign([(1, 10)], 2, 20) == [(1, 10)] + Assign([], 2, 20);
    assert Assigned(deals, 2) == [(1, 10), (2, 20)];
  }

  // ----- when the documented order holds -----

  function Dropped(xs: seq<int>, a: int): (r: seq<int>)
    ensures forall x :: x in r <==> x in xs && x != a
  {
    if xs == [] then []
    else if xs[0] == a then Dropped(xs[1..], a)
    else [xs[0]] + Dropped(xs[1..], a)
  }

  /** The documented order: the addresses of the first n deals at their last occurrence. */
  function LastSeen(deals: seq<Deal>, n: nat): seq<int>
    requires n <= |deals|
  {
    if n == 0 then [] else Dropped(LastSeen(deals, n - 1), deals[n - 1].0) + [deals[n - 1].0]
  }

  /** The positions of an address's first and last deal among the first n; -1 if none. */
  function First(deals: seq<Deal>, n: nat, a: int): (i: int)
    requires n <= |deals|
    ensures -1 <= i < n && (i >= 0 ==> deals[i].0 == a)
    ensures forall j :: 0 <= j < n && deals[j].0 == a ==> 0 <= i <= j
  {
    if n == 0 then -1
    else if First(deals, n - 1, a) >= 0 then First(deals, n - 1, a)
    else if deals[n - 1].0 == a then n - 1
    else -1
  }

  function Last(deals: seq<Deal>, n: nat, a: int): (i: int)
    requires n <= |deals|
    ensures -1 <= i < n && (i >= 0 ==> deals[i].0 == a)
    ensures forall j :: 0 <= j < n && deals[j].0 == a ==> j <= i
  {
    if n == 0 then -1 else if deals[n - 1].0 == a then n - 1 else Last(deals, n - 1, a)
  }

  predicate Dealt(deals: seq<Deal>, n: nat, a: int)
    requires n <= |deals|
  {
    exists j :: 0 <= j < n && deals[j].0 == a
  }

  function FirstKey(deals: seq<Deal>, n: nat): int -> int
    requires n <= |deals|
  {
    a => First(deals, n, a)
  }

  function LastKey(deals: seq<Deal>, n: nat): int -> int
    requires n <= |deals|
  {
    a => Last(deals, n, a)
  }

  lemma {:induction false} FirstSeenOrdered(deals: seq<Deal>, n: nat)
    requires n <= |deals|
    ensures forall a :: a in FirstSeen(deals, n) <==> Dealt(deals, n, a)
    ensures StrictlyIncreasing(FirstKey(deals, n), FirstSeen(deals, n))
  {
    if n > 0 {
      FirstSeenOrdered(deals, n - 1);
      var before, a := FirstSeen(deals, n - 1), deals[n - 1].0;
      forall x
        ensures Dealt(deals, n, x) <==> Dealt(deals, n - 1, x) || x == a
      {
      }
      forall x | x in before
        ensures First(deals, n, x) == First(deals, n - 1, x)
      {
        assert Dealt(deals, n - 1, x);
      }
      var now := FirstSeen(deals, n);
      forall i, j | 0 <= i < j < |now|
        ensures First(deals, n, now[i]) < First(deals, n, now[j])
      {
        assert now[i] in before;
        if j < |before| {
          assert now[j] in before;
          assert FirstKey(deals, n - 1)(before[i]) < FirstKey(deals, n - 1)(before[j]);
        } else {
          assert now[j] == a && !Dealt(deals, n - 1, a);
        }
      }
    }
  }

  lemma {:induction false} DroppedOrdered(key: int -> int, xs: seq<int>, a: int)
    requires StrictlyIncreasing(key, xs)
    ensures StrictlyIncreasing(key, Dropped(xs, a))
  {
    if xs != [] {
      assert StrictlyIncreasing(key, xs[1..]);
      DroppedOrdered(key, xs[1..], a);
      var rest := Dropped(xs[1..], a);
      forall j | 0 <= j < |rest|
        ensures key(xs[0]) < key(rest[j])
      {
        assert rest[j] in xs[1..];
        var k :| 0 <= k < |xs[1..]| && xs[1..][k] == rest[j];
        assert key(xs[0]) < key(xs[k + 1]);
      }
    }
  }

  lemma {:induction false} LastSeenOrdered(deals: seq<Deal>, n: nat)
    requires n <= |deals|
    ensures forall a :: a in LastSeen(deals, n) <==> Dealt(deals, n, a)
    ensures StrictlyIncreasing(LastKey(deals, n), LastSeen(deals, n))
  {
    if n > 0 {
      LastSeenOrdered(deals, n - 1);
      var a := deals[n - 1].0;
      var kept := Dropped(LastSeen(deals, n - 1), a);
      DroppedOrdered(LastKey(deals, n - 1), LastSeen(deals, n - 1), a);
      forall x
        ensures Dealt(deals, n, x) <==> Dealt(deals, n - 1, x) || x == a
      {
      }
      MovedToEnd(deals, n, kept);
    }
  }

  lemma MovedToEnd(deals: seq<Deal>, n: nat, kept: seq<int>)
    requires 0 < n <= |deals| && StrictlyIncreasing(LastKey(deals, n - 1), kept) && deals[n - 1].0 !in kept
    ensures StrictlyIncreasing(LastKey(deals, n), kept + [deals[n - 1].0])
  {
    var now := kept + [deals[n - 1].0];
    forall i, j | 0 <= i < j < |now|
      ensures LastKey(deals, n)(now[i]) < LastKey(deals, n)(now[j])
    {
      assert kept[i] in kept;
      if j < |kept| {
        assert kept[j] in kept;
        assert LastKey(deals, n - 1)(kept[i]) < LastKey(deals, n - 1)(kept[j]);
      }
    }
  }

  /** Every deal to b lies strictly between two deals to a. */
  predicate Enclosed(deals: seq<Deal>, a: int, b: int) {
    && (exists j :: 0 <= j < |deals| && deals[j].0 == b)
    && (exists i :: 0 <= i < |deals| && deals[i].0 == a && forall j :: 0 <= j < |deals| && deals[j].0 == b ==> i < j)
    && (exists k :: 0 <= k < |deals| && deals[k].0 == a && forall j :: 0 <= j < |deals| && deals[j].0 == b ==> j < k)
  }

  lemma EnclosedExactly(deals: seq<Deal>, a: int, b: int)
    ensures var n := |deals|;
      Enclosed(deals, a, b)
      <==> Dealt(deals, n, a) && Dealt(deals, n, b)
           && First(deals, n, a) < First(deals, n, b) && Last(deals, n, b) < Last(deals, n, a)
  {
    var n := |deals|;
    if Dealt(deals, n, a) && Dealt(deals, n, b)
       && First(deals, n, a) < First(deals, n, b) && Last(deals, n, b) < Last(deals, n, a) {
      assert deals[First(deals, n, a)].0 == a && deals[Last(deals, n, a)].0 == a;
    }
  }

  lemma IncreasingPair(key: int -> int, xs: seq<int>, a: int, b: int)
    requires StrictlyIncreasing(key, xs) && a in xs && b in xs
    ensures key(a) < key(b) <==> exists i, j :: 0 <= i < j < |xs| && xs[i] == a && xs[j] == b
  {
    var i :| 0 <= i < |xs| && xs[i] == a;
    var j :| 0 <= j < |xs| && xs[j] == b;
    if key(a) < key(b) { assert i < j; }
  }

  lemma SameOrderNotEnclosed(deals: seq<Deal>, xs: seq<int>, a: int, b: int)
    requires StrictlyIncreasing(FirstKey(deals, |deals|), xs) && StrictlyIncreasing(LastKey(deals, |deals|), xs)
    requires forall x :: Dealt(deals, |deals|, x) ==> x in xs
    ensures !Enclosed(deals, a, b)
  {
    hide Enclosed, Dealt, StrictlyIncreasing, First, Last;
    EnclosedExactly(deals, a, b);
    if Dealt(deals, |deals|, a) && Dealt(deals, |deals|, b) {
      IncreasingPair(FirstKey(deals, |deals|), xs, a, b);
      IncreasingPair(LastKey(deals, |deals|), xs, a, b);
    }
  }

  lemma NotEnclosedOrdered(deals: seq<Deal>, xs: seq<int>)
    requires StrictlyIncreasing(FirstKey(deals, |deals|), xs) && forall a, b :: !Enclosed(deals, a, b)
    requires forall x :: x in xs ==> Dealt(deals, |deals|, x)
    ensures StrictlyIncreasing(LastKey(deals, |deals|), xs)
  {
    hide Enclosed, First, Last;
    forall i, j | 0 <= i < j < |xs|
      ensures LastKey(deals, |deals|)(xs[i]) < LastKey(deals, |deals|)(xs[j])
    {
      EnclosedExactly(deals, xs[i], xs[j]);
      assert FirstKey(deals, |deals|)(xs[i]) < FirstKey(deals, |deals|)(xs[j]);
      assert Dealt(deals, |deals|, xs[i]) && Dealt(deals, |deals|, xs[j]);
      LastApart(deals, xs[i], xs[j]);
    }
  }

  lemma LastApart(deals: seq<Deal>, a: int, b: int)
    requires Dealt(deals, |deals|, a) && Dealt(deals, |deals|, b) && a != b
    ensures Last(deals, |deals|, a) != Last(deals, |deals|, b)
  {
  }

  /** The code gives the documented last-occurrence order exactly when no address has all
      its deals strictly between two deals to one other address. */
  lemma LastOrderExactly(deals: seq<Deal>)
    ensures Addresses(Assigned(deals, |deals|)) == LastSeen(deals, |deals|)
       <==> !exists a, b :: Enclosed(deals, a, b)
  {
    var n := |deals|;
    var f, l := FirstSeen(deals, n), LastSeen(deals, n);
    DealsKeepFirstOrder(deals, n);
    FirstSeenOrdered(deals, n);
    LastSeenOrdered(deals, n);
    hide Enclosed, FirstSeen, LastSeen, First, Last, StrictlyIncreasing, Dealt, FirstKey, LastKey;
    if f == l {
      forall a, b
        ensures !Enclosed(deals, a, b)
      {
        SameOrderNotEnclosed(deals, f, a, b);
      }
    }
    if forall a, b :: !Enclosed(deals, a, b) {
      NotEnclosedOrdered(deals, f);
      StrictUnique(LastKey(deals, n), f, l);
    }
  }

  /** Dealing to 1, 2, 1, 2 keeps the documented order; 1, 2, 1 does not. */
  lemma OrderExamples()
    ensures !exists a, b :: Enclosed([(1, 10), (2, 20), (1, 30), (2, 40)], a, b)
    ensures Enclosed([(1, 10), (2, 20), (1, 30)], 1, 2)
  {
    var four, three := [(1, 10), (2, 20), (1, 30), (2, 40)], [(1, 10), (2, 20), (1, 30)];
    forall a, b
      ensures !Enclosed(four, a, b)
    {
      assert four[0].0 == 1 && four[1].0 == 2 && four[2].0 == 1 && four[3].0 == 2;
    }
    assert three[0].0 == 1 && three[1].0 == 2 && three[2].0 == 1;
  }
}
