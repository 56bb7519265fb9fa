/** Equal fingerprints without the walk: a relation on programs that mentions no order of
    visiting, no sorting and no hash. */
module FingerprintShape {
  import opened Basics
  import opened IndexSort
  import opened Fingerprint
  import opened FingerprintProofs
  import opened FingerprintDistinct
  import opened FingerprintOrder

  /** y is x with declaration ids and non-negative references renamed by f, entries stored
      in any order, source-unit members in any order, and everything else the hash is not
      of replaced. */
  ghost predicate Same(f: map<int, int>, x: Item, y: Item)
    decreases Depth(x), 0
  {
    match (x, y)
    case (Scalar(s), Scalar(t)) => s == t
    case (List(xs), List(ys)) => |xs| == |ys| && forall i :: 0 <= i < |xs| ==> Same(f, xs[i], ys[i])
    case (Node(_, _, _, _, _, _, fs), Node(_, _, _, _, _, _, gs)) =>
      SameHead(f, x, y) && SameEntries(f, x.nt, fs, gs)
    case _ => false
  }

  /** Every entry with children has a counterpart on the other side, only one where no key
      occurs twice. */
  ghost predicate SameEntries(f: map<int, int>, nt: string, fs: seq<Field>, gs: seq<Field>)
    decreases DepthFields(fs), 4
  {
    LeftEntries(f, nt, fs, gs) && RightEntries(f, nt, fs, gs)
  }

  ghost predicate LeftEntries(f: map<int, int>, nt: string, fs: seq<Field>, gs: seq<Field>)
    decreases DepthFields(fs), 3
  {
    forall i :: 0 <= i < |fs| && Visited(fs[i]) ==>
      exists j :: 0 <= j < |gs| && Visited(gs[j]) && SameEntry(f, nt, fs[i], gs[j])
  }

  ghost predicate RightEntries(f: map<int, int>, nt: string, fs: seq<Field>, gs: seq<Field>)
    decreases DepthFields(fs), 3
  {
    forall j :: 0 <= j < |gs| && Visited(gs[j]) ==>
      exists i :: 0 <= i < |fs| && Visited(fs[i]) && SameEntry(f, nt, fs[i], gs[j])
  }

  predicate SameHead(f: map<int, int>, x: Item, y: Item)
    requires x.Node? && y.Node?
  {
    && x.nt == y.nt && x.attrs == y.attrs && x.names == y.names && TypeName(x) == TypeName(y)
    && (x.nt in DECL_NODE_TYPES ==> AlphaId(f, x.id, y.id)) && AlphaRef(f, x, y)
  }

  predicate AreMembers(nt: string, a: Field) { nt == "SourceUnit" && a.key == "nodes" }

  ghost predicate SameEntry(f: map<int, int>, nt: string, a: Field, b: Field)
    decreases Depth(a.val), 2
  {
    a.key == b.key
    && match (a.val, b.val)
       case (Node(_, _, _, _, _, _, _), Node(_, _, _, _, _, _, _)) => Same(f, a.val, b.val)
       case (List(xs), List(ys)) =>
         if AreMembers(nt, a) then
           exists ms, ns :: multiset(ms) == multiset(xs) && multiset(ns) == multiset(ys) && SameMembers(f, xs, ms, ns)
         else SameMembers(f, xs, xs, ys)
       case _ => false
  }

  /** ms and ns, drawn from xs and elsewhere, agree one by one. */
  ghost predicate SameMembers(f: map<int, int>, xs: seq<Item>, ms: seq<Item>, ns: seq<Item>)
    decreases DepthAll(xs), 1
  {
    |ms| == |ns| && forall i :: 0 <= i < |ms| ==> ms[i] in xs && Same(f, ms[i], ns[i])
  }

  // ----- from the walk to the relation -----

  lemma OrderedMembers(w: Order, fs: seq<Field>, a: Field)
    ensures a in Ordered(w, fs) <==> a in fs && Visited(a)
  {
    hide Visited, OnlyVisited, VisitOrder, Sort;
    OrderedSorts(w, fs);
    SortMultiset(KeyRank(w), OnlyVisited(fs, |fs|));
    VisitedCount(fs, |fs|, a);
    assert fs[..|fs|] == fs;
    assert a in Ordered(w, fs) <==> a in multiset(Ordered(w, fs));
    assert a in fs <==> a in multiset(fs);
  }

  lemma MembersPermute(w: Order, nt: string, a: Field)
    requires a.val.List?
    ensures multiset(Members(w, nt, a)) == multiset(a.val.xs)
    ensures !AreMembers(nt, a) ==> Members(w, nt, a) == a.val.xs
  {
    hide Canon, CanonAll, Sort, Members;
    if AreMembers(nt, a) {
      assert a == Nodes(a.val.xs);
      MembersSorted(w, a.val.xs);
      SortMultiset(Preliminary(w), a.val.xs);
    } else {
      NotMembers(w, nt, a);
    }
  }

  lemma NotMembers(w: Order, nt: string, a: Field)
    requires a.val.List? && !AreMembers(nt, a)
    ensures Members(w, nt, a) == a.val.xs
  {
  }

  lemma {:induction false} AlphaIsSame(w: Order, f: map<int, int>, x: Item, y: Item)
    requires Alpha(w, true, f, x, y)
    ensures Same(f, x, y)
    decreases Depth(x), 1
  {
    match x {
      case Scalar(_) =>
      case List(xs) =>
        hide Ordered;
        forall i | 0 <= i < |xs|
          ensures Same(f, xs[i], y.xs[i])
        {
          AlphaIsSame(w, f, xs[i], y.xs[i]);
        }
      case Node(_, _, _, _, _, _, _) => NodeIsSame(w, f, x, y);
    }
  }

  lemma AlphaNode(w: Order, f: map<int, int>, x: Item, y: Item)
    requires x.Node? && Alpha(w, true, f, x, y)
    ensures y.Node? && SameHead(f, x, y)
    ensures AlphaFields(w, true, f, x.nt, Ordered(w, x.fields), Ordered(w, y.fields))
  {
    hide Ordered, AlphaFields;
  }

  lemma {:induction false} NodeIsSame(w: Order, f: map<int, int>, x: Item, y: Item)
    requires x.Node? && Alpha(w, true, f, x, y)
    ensures Same(f, x, y)
    decreases Depth(x), 0
  {
    AlphaNode(w, f, x, y);
    hide Alpha, AlphaField, Ordered, SameHead, SameEntry, SameEntries, Visited;
    var fs, gs := Ordered(w, x.fields), Ordered(w, y.fields);
    forall p | 0 <= p < |fs|
      ensures SameEntry(f, x.nt, fs[p], gs[p])
    {
      FieldIsSame(w, f, x.nt, fs[p], gs[p]);
    }
    EntriesMatch(w, f, x.nt, x.fields, y.fields);
  }

  lemma EntriesMatch(w: Order, f: map<int, int>, nt: string, fs: seq<Field>, gs: seq<Field>)
    requires |Ordered(w, fs)| == |Ordered(w, gs)|
    requires forall p :: 0 <= p < |Ordered(w, fs)| ==> SameEntry(f, nt, Ordered(w, fs)[p], Ordered(w, gs)[p])
    ensures SameEntries(f, nt, fs, gs)
  {
    hide Ordered, SameEntry, Visited;
    var os, us := Ordered(w, fs), Ordered(w, gs);
    forall i | 0 <= i < |fs| && Visited(fs[i])
      ensures exists j :: 0 <= j < |gs| && Visited(gs[j]) && SameEntry(f, nt, fs[i], gs[j])
    {
      OrderedMembers(w, fs, fs[i]);
      var p :| 0 <= p < |os| && os[p] == fs[i];
      OrderedMembers(w, gs, us[p]);
      var j :| 0 <= j < |gs| && gs[j] == us[p];
    }
    forall j | 0 <= j < |gs| && Visited(gs[j])
      ensures exists i :: 0 <= i < |fs| && Visited(fs[i]) && SameEntry(f, nt, fs[i], gs[j])
    {
      OrderedMembers(w, gs, gs[j]);
      var p :| 0 <= p < |us| && us[p] == gs[j];
      OrderedMembers(w, fs, os[p]);
      var i :| 0 <= i < |fs| && fs[i] == os[p];
    }
  }

  lemma {:induction false} FieldIsSame(w: Order, f: map<int, int>, nt: string, a: Field, b: Field)
    requires Visited(a) && Visited(b) && AlphaField(w, true, f, nt, a, b)
    ensures SameEntry(f, nt, a, b)
    decreases Depth(a.val), 2
  {
    hide Alpha, Same, Members, AreMembers;
    if a.val.Node? {
      AlphaIsSame(w, f, a.val, b.val);
    } else {
      var ms, ns := Members(w, nt, a), Members(w, nt, b);
      MembersPermute(w, nt, a);
      MembersPermute(w, nt, b);
      SameNames(nt, a, b);
      forall i | 0 <= i < |ms|
        ensures ms[i] in a.val.xs && Same(f, ms[i], ns[i])
      {
        assert ms[i] in multiset(a.val.xs);
        AlphaIsSame(w, f, ms[i], ns[i]);
      }
      assert SameMembers(f, a.val.xs, ms, ns);
    }
  }

  lemma SameNames(nt: string, a: Field, b: Field)
    requires a.key == b.key
    ensures AreMembers(nt, a) == AreMembers(nt, b)
  {
  }

  // ----- from the relation to the walk -----

  /** Keys of entries with children are told apart by the canonical order, and members by
      their preliminary hashes, at every node. */
  ghost predicate Regular(w: Order, x: Item)
    decreases Depth(x), 0
  {
    match x
    case Scalar(_) => true
    case List(xs) => forall i :: 0 <= i < |xs| ==> Regular(w, xs[i])
    case Node(nt, _, _, _, _, _, fs) =>
      DistinctKeys(KeyRank(w), OnlyVisited(fs, |fs|)) && forall i :: 0 <= i < |fs| ==> RegularEntry(w, nt, fs[i])
  }

  ghost predicate RegularEntry(w: Order, nt: string, a: Field)
    decreases Depth(a.val), 1
  {
    Regular(w, a.val) && (AreMembers(nt, a) && a.val.List? ==> DistinctKeys(Preliminary(w), a.val.xs))
  }

  lemma SameKinds(f: map<int, int>, x: Item, y: Item)
    requires Same(f, x, y)
    ensures x.Node? == y.Node? && x.List? == y.List?
  {
  }

  lemma {:induction false} SameIsAlpha(w: Order, f: map<int, int>, x: Item, y: Item)
    requires Injective(f) && Same(f, x, y) && Regular(w, x) && Regular(w, y)
    ensures Alpha(w, true, f, x, y)
    decreases Depth(x), 1
  {
    SameKinds(f, x, y);
    match x {
      case Scalar(_) =>
      case List(xs) =>
        hide Ordered, Injective;
        forall i | 0 <= i < |xs|
          ensures Alpha(w, true, f, xs[i], y.xs[i])
        {
          SameIsAlpha(w, f, xs[i], y.xs[i]);
        }
      case Node(_, _, _, _, _, _, _) => NodeIsAlpha(w, f, x, y);
    }
  }

  ghost predicate OnRight(f: map<int, int>, nt: string, a: Field, us: seq<Field>) {
    exists q :: 0 <= q < |us| && SameEntry(f, nt, a, us[q])
  }

  ghost predicate OnLeft(f: map<int, int>, nt: string, os: seq<Field>, b: Field) {
    exists p :: 0 <= p < |os| && SameEntry(f, nt, os[p], b)
  }

  /** Every entry of os has a counterpart in us. */
  ghost predicate Covers(f: map<int, int>, nt: string, os: seq<Field>, us: seq<Field>) {
    forall p :: 0 <= p < |os| ==> OnRight(f, nt, os[p], us)
  }

  /** Every entry of us is the counterpart of one in os. */
  ghost predicate CoveredBy(f: map<int, int>, nt: string, os: seq<Field>, us: seq<Field>) {
    forall q :: 0 <= q < |us| ==> OnLeft(f, nt, os, us[q])
  }

  ghost predicate SameVisited(fs: seq<Field>, os: seq<Field>) {
    forall a :: a in os <==> a in fs && Visited(a)
  }

  lemma OrderedVisited(w: Order, fs: seq<Field>)
    ensures SameVisited(fs, Ordered(w, fs))
  {
    hide Ordered, Visited;
    forall a
      ensures a in Ordered(w, fs) <==> a in fs && Visited(a)
    {
      OrderedMembers(w, fs, a);
    }
  }

  lemma OrderedTo(fs: seq<Field>, os: seq<Field>, a: Field)
    requires SameVisited(fs, os) && a in fs && Visited(a)
    ensures a in os
  {
  }

  lemma OrderedFrom(fs: seq<Field>, os: seq<Field>, a: Field)
    requires SameVisited(fs, os) && a in os
    ensures a in fs && Visited(a)
  {
  }

  lemma Partner(f: map<int, int>, nt: string, fs: seq<Field>, gs: seq<Field>, i: nat) returns (j: nat)
    requires LeftEntries(f, nt, fs, gs) && i < |fs| && Visited(fs[i])
    ensures j < |gs| && Visited(gs[j]) && SameEntry(f, nt, fs[i], gs[j])
  {
    hide SameEntry, Visited;
    j :| j < |gs| && Visited(gs[j]) && SameEntry(f, nt, fs[i], gs[j]);
  }

  lemma PartnerBack(f: map<int, int>, nt: string, fs: seq<Field>, gs: seq<Field>, j: nat) returns (i: nat)
    requires RightEntries(f, nt, fs, gs) && j < |gs| && Visited(gs[j])
    ensures i < |fs| && Visited(fs[i]) && SameEntry(f, nt, fs[i], gs[j])
  {
    hide SameEntry, Visited;
    i :| i < |fs| && Visited(fs[i]) && SameEntry(f, nt, fs[i], gs[j]);
  }

  lemma BothWays(f: map<int, int>, nt: string, fs: seq<Field>, gs: seq<Field>)
    requires SameEntries(f, nt, fs, gs)
    ensures LeftEntries(f, nt, fs, gs) && RightEntries(f, nt, fs, gs)
  {
    hide LeftEntries, RightEntries;
  }

  lemma EntriesCover(f: map<int, int>, nt: string, fs: seq<Field>, gs: seq<Field>, os: seq<Field>, us: seq<Field>)
    requires LeftEntries(f, nt, fs, gs) && SameVisited(fs, os) && SameVisited(gs, us)
    ensures Covers(f, nt, os, us)
  {
    hide SameEntry, LeftEntries, RightEntries, SameVisited, Visited;
    forall p | 0 <= p < |os|
      ensures OnRight(f, nt, os[p], us)
    {
      OrderedFrom(fs, os, os[p]);
      var i :| 0 <= i < |fs| && fs[i] == os[p];
      var j := Partner(f, nt, fs, gs, i);
      OrderedTo(gs, us, gs[j]);
      var q :| 0 <= q < |us| && us[q] == gs[j];
    }
  }

  lemma EntriesCovered(f: map<int, int>, nt: string, fs: seq<Field>, gs: seq<Field>, os: seq<Field>, us: seq<Field>)
    requires RightEntries(f, nt, fs, gs) && SameVisited(fs, os) && SameVisited(gs, us)
    ensures CoveredBy(f, nt, os, us)
  {
    hide SameEntry, LeftEntries, RightEntries, SameVisited, Visited;
    forall q | 0 <= q < |us|
      ensures OnLeft(f, nt, os, us[q])
    {
      OrderedFrom(gs, us, us[q]);
      var j :| 0 <= j < |gs| && gs[j] == us[q];
      var i := PartnerBack(f, nt, fs, gs, j);
      OrderedTo(fs, os, fs[i]);
      var p :| 0 <= p < |os| && os[p] == fs[i];
    }
  }

  lemma OrderedIncreases(w: Order, fs: seq<Field>)
    requires DistinctKeys(KeyRank(w), OnlyVisited(fs, |fs|))
    ensures StrictlyIncreasing(KeyRank(w), Ordered(w, fs))
  {
    hide *;
    OrderedSorts(w, fs);
    SortIncreasing(KeyRank(w), OnlyVisited(fs, |fs|));
  }

  /** Ordered entries correspond one by one. */
  lemma OrderedMatch(w: Order, f: map<int, int>, nt: string, fs: seq<Field>, gs: seq<Field>)
    requires SameEntries(f, nt, fs, gs)
    requires DistinctKeys(KeyRank(w), OnlyVisited(fs, |fs|)) && DistinctKeys(KeyRank(w), OnlyVisited(gs, |gs|))
    ensures var os, us := Ordered(w, fs), Ordered(w, gs);
      |os| == |us| && forall p :: 0 <= p < |os| ==> SameEntry(f, nt, os[p], us[p])
  {
    hide *;
    var os, us := Ordered(w, fs), Ordered(w, gs);
    OrderedIncreases(w, fs);
    OrderedIncreases(w, gs);
    OrderedVisited(w, fs);
    OrderedVisited(w, gs);
    BothWays(f, nt, fs, gs);
    EntriesCover(f, nt, fs, gs, os, us);
    EntriesCovered(f, nt, fs, gs, os, us);
    MatchInOrder(w, f, nt, os, us);
  }

  lemma EntryKeys(w: Order, f: map<int, int>, nt: string, a: Field, b: Field)
    requires SameEntry(f, nt, a, b)
    ensures KeyRank(w)(a) == KeyRank(w)(b)
  {
  }

  lemma KeysCover(w: Order, f: map<int, int>, nt: string, os: seq<Field>, us: seq<Field>, k: int)
    requires Covers(f, nt, os, us) && k in Keys(KeyRank(w), os)
    ensures k in Keys(KeyRank(w), us)
  {
    hide SameEntry, KeyRank;
    var ks, ls := Keys(KeyRank(w), os), Keys(KeyRank(w), us);
    var p :| 0 <= p < |ks| && ks[p] == k;
    assert OnRight(f, nt, os[p], us);
    var q :| 0 <= q < |us| && SameEntry(f, nt, os[p], us[q]);
    EntryKeys(w, f, nt, os[p], us[q]);
    assert ls[q] == k;
  }

  lemma KeysCovered(w: Order, f: map<int, int>, nt: string, os: seq<Field>, us: seq<Field>, k: int)
    requires CoveredBy(f, nt, os, us) && k in Keys(KeyRank(w), us)
    ensures k in Keys(KeyRank(w), os)
  {
    hide SameEntry, KeyRank;
    var ks, ls := Keys(KeyRank(w), os), Keys(KeyRank(w), us);
    var q :| 0 <= q < |ls| && ls[q] == k;
    assert OnLeft(f, nt, os, us[q]);
    var p :| 0 <= p < |os| && SameEntry(f, nt, os[p], us[q]);
    EntryKeys(w, f, nt, os[p], us[q]);
    assert ks[p] == k;
  }

  lemma StrictApart<T>(key: T -> int, xs: seq<T>, p: nat, q: nat)
    requires StrictlyIncreasing(key, xs) && p < |xs| && q < |xs| && key(xs[p]) == key(xs[q])
    ensures p == q
  {
  }

  lemma MatchAt(w: Order, f: map<int, int>, nt: string, os: seq<Field>, us: seq<Field>, p: nat)
    requires StrictlyIncreasing(KeyRank(w), us) && Covers(f, nt, os, us) && p < |os| == |us|
    requires KeyRank(w)(os[p]) == KeyRank(w)(us[p])
    ensures SameEntry(f, nt, os[p], us[p])
  {
    hide SameEntry, KeyRank;
    assert OnRight(f, nt, os[p], us);
    var q :| 0 <= q < |us| && SameEntry(f, nt, os[p], us[q]);
    EntryKeys(w, f, nt, os[p], us[q]);
    StrictApart(KeyRank(w), us, p, q);
  }

  lemma IncreasingKeys(w: Order, os: seq<Field>)
    requires StrictlyIncreasing(KeyRank(w), os)
    ensures StrictlyIncreasing(itself, Keys(KeyRank(w), os))
  {
    hide KeyRank;
    var ks := Keys(KeyRank(w), os);
    forall i, j | 0 <= i < j < |ks|
      ensures itself(ks[i]) < itself(ks[j])
    {
      assert KeyRank(w)(os[i]) < KeyRank(w)(os[j]);
    }
  }

  /** Two strictly increasing lists whose elements have counterparts match in order. */
  lemma MatchInOrder(w: Order, f: map<int, int>, nt: string, os: seq<Field>, us: seq<Field>)
    requires StrictlyIncreasing(KeyRank(w), os) && StrictlyIncreasing(KeyRank(w), us)
    requires Covers(f, nt, os, us) && CoveredBy(f, nt, os, us)
    ensures |os| == |us| && forall p :: 0 <= p < |os| ==> SameEntry(f, nt, os[p], us[p])
  {
    hide *;
    var ks, ls := Keys(KeyRank(w), os), Keys(KeyRank(w), us);
    forall k
      ensures k in ks <==> k in ls
    {
      if k in ks { KeysCover(w, f, nt, os, us, k); }
      if k in ls { KeysCovered(w, f, nt, os, us, k); }
    }
    IncreasingKeys(w, os);
    IncreasingKeys(w, us);
    StrictUnique(itself, ks, ls);
    forall p | 0 <= p < |os|
      ensures SameEntry(f, nt, os[p], us[p])
    {
      assert ks[p] == ls[p];
      MatchAt(w, f, nt, os, us, p);
    }
  }

  lemma RegularNode(w: Order, x: Item, a: Field)
    requires x.Node? && Regular(w, x) && a in x.fields
    ensures RegularEntry(w, x.nt, a) && DistinctKeys(KeyRank(w), OnlyVisited(x.fields, |x.fields|))
  {
    hide DistinctKeys, OnlyVisited;
  }

  lemma SameNode(f: map<int, int>, x: Item, y: Item)
    requires x.Node? && Same(f, x, y)
    ensures y.Node? && SameHead(f, x, y) && SameEntries(f, x.nt, x.fields, y.fields)
  {
    hide SameEntries;
  }

  lemma RegularKeys(w: Order, x: Item)
    requires x.Node? && Regular(w, x)
    ensures DistinctKeys(KeyRank(w), OnlyVisited(x.fields, |x.fields|))
  {
    hide DistinctKeys, OnlyVisited;
  }

  lemma {:induction false} NodeIsAlpha(w: Order, f: map<int, int>, x: Item, y: Item)
    requires x.Node? && Injective(f) && Same(f, x, y) && Regular(w, x) && Regular(w, y)
    ensures Alpha(w, true, f, x, y)
    decreases Depth(x), 0
  {
    hide *;
    SameNode(f, x, y);
    SameHeads(f, x, y);
    RegularKeys(w, x);
    RegularKeys(w, y);
    OrderedMatch(w, f, x.nt, x.fields, y.fields);
    var os, us := Ordered(w, x.fields), Ordered(w, y.fields);
    OrderedVisited(w, x.fields);
    OrderedVisited(w, y.fields);
    forall p | 0 <= p < |os|
      ensures AlphaField(w, true, f, x.nt, os[p], us[p])
    {
      OrderedFrom(x.fields, os, os[p]);
      OrderedFrom(y.fields, us, us[p]);
      RegularNode(w, x, os[p]);
      RegularNode(w, y, us[p]);
      OrderedDepth(w, x, os[p]);
      EntryIsAlpha(w, f, x.nt, os[p], us[p]);
    }
    AlphaNodeStep(w, true, f, x, y);
  }

  lemma SameHeads(f: map<int, int>, x: Item, y: Item)
    requires x.Node? && y.Node? && SameHead(f, x, y)
    ensures x.nt == y.nt && x.attrs == y.attrs && x.names == y.names && TypeName(x) == TypeName(y)
    ensures (x.nt in DECL_NODE_TYPES ==> AlphaId(f, x.id, y.id)) && AlphaRef(f, x, y)
  {
  }

  lemma OrderedDepth(w: Order, x: Item, a: Field)
    requires x.Node? && a in x.fields
    ensures Depth(a.val) < Depth(x)
  {
  }

  lemma {:induction false} EntryIsAlpha(w: Order, f: map<int, int>, nt: string, a: Field, b: Field)
    requires Visited(a) && Visited(b) && Injective(f) && SameEntry(f, nt, a, b)
    requires RegularEntry(w, nt, a) && RegularEntry(w, nt, b)
    ensures AlphaField(w, true, f, nt, a, b)
    decreases Depth(a.val), 2
  {
    hide Same, Members, AreMembers, Injective, Alpha, DistinctKeys, SameMembers;
    EntryRegular(w, nt, a);
    EntryRegular(w, nt, b);
    SameNames(nt, a, b);
    if a.val.Node? {
      SameIsAlpha(w, f, a.val, b.val);
    } else if AreMembers(nt, a) {
      var ms, ns :| multiset(ms) == multiset(a.val.xs) && multiset(ns) == multiset(b.val.xs)
                    && SameMembers(f, a.val.xs, ms, ns);
      MembersAgree(w, f, a.val.xs, b.val.xs, ms, ns);
      SortedMembers(w, f, nt, a, b, ms, ns);
    } else {
      NotMembers(w, nt, a);
      NotMembers(w, nt, b);
      MembersAgree(w, f, a.val.xs, b.val.xs, a.val.xs, b.val.xs);
    }
  }

  lemma EntryRegular(w: Order, nt: string, a: Field)
    requires RegularEntry(w, nt, a)
    ensures Regular(w, a.val) && (AreMembers(nt, a) && a.val.List? ==> DistinctKeys(Preliminary(w), a.val.xs))
    ensures a.val.List? ==> forall x :: x in a.val.xs ==> Regular(w, x)
  {
    hide DistinctKeys;
  }

  lemma {:induction false} MembersAgree(w: Order, f: map<int, int>, xs: seq<Item>, ys: seq<Item>,
                                        ms: seq<Item>, ns: seq<Item>)
    requires Injective(f) && SameMembers(f, xs, ms, ns) && multiset(ns) == multiset(ys)
    requires forall x :: x in xs ==> Regular(w, x)
    requires forall y :: y in ys ==> Regular(w, y)
    ensures AlphaAll(w, true, f, ms, ns)
    decreases DepthAll(xs), 3
  {
    hide Same, Injective, Alpha, Regular;
    forall i | 0 <= i < |ms|
      ensures Alpha(w, true, f, ms[i], ns[i])
    {
      assert ns[i] in multiset(ys);
      SameIsAlpha(w, f, ms[i], ns[i]);
    }
  }

  /** Sorting members by distinct preliminary hashes pairs the counterparts. */
  lemma SortedMembers(w: Order, f: map<int, int>, nt: string, a: Field, b: Field, ms: seq<Item>, ns: seq<Item>)
    requires a.val.List? && b.val.List? && AreMembers(nt, a) && AreMembers(nt, b) && Injective(f)
    requires multiset(ms) == multiset(a.val.xs) && multiset(ns) == multiset(b.val.xs) && AlphaAll(w, true, f, ms, ns)
    requires DistinctKeys(Preliminary(w), a.val.xs) && DistinctKeys(Preliminary(w), b.val.xs)
    ensures AlphaAll(w, true, f, Members(w, nt, a), Members(w, nt, b))
  {
    hide Canon, CanonAll, DistinctKeys, Sort, Alpha, Members, Injective;
    assert a == Nodes(a.val.xs) && b == Nodes(b.val.xs);
    MembersSorted(w, a.val.xs);
    MembersSorted(w, b.val.xs);
    SortPermutationInvariant(Preliminary(w), a.val.xs, ms);
    SortPermutationInvariant(Preliminary(w), b.val.xs, ns);
    SameRanks(w, f, ms, ns);
    SortPairs(w, f, ms, ns);
  }

  lemma SameRanks(w: Order, f: map<int, int>, ms: seq<Item>, ns: seq<Item>)
    requires Injective(f) && AlphaAll(w, true, f, ms, ns)
    ensures Keys(Preliminary(w), ms) == Keys(Preliminary(w), ns)
  {
    hide Canon, Alpha, Injective;
    forall i | 0 <= i < |ms|
      ensures Preliminary(w)(ms[i]) == Preliminary(w)(ns[i])
    {
      CanonAlpha(w, f, ms[i], ns[i], None);
    }
  }

  lemma SortPairs(w: Order, f: map<int, int>, ms: seq<Item>, ns: seq<Item>)
    requires AlphaAll(w, true, f, ms, ns) && Keys(Preliminary(w), ms) == Keys(Preliminary(w), ns)
    ensures AlphaAll(w, true, f, Sort(Preliminary(w), ms), Sort(Preliminary(w), ns))
  {
    hide Canon, Alpha, SortIndex;
  }

  // ----- the main result -----

  /** Read in scope order, programs with equal fingerprints are the same up to a renaming
      of declarations, the order of entries and of members, and what the hash is not of .. */
  lemma EqualHashesSame(w: Order, x: Item, y: Item)
    requires Scoped(w, x, Some([])) && Scoped(w, y, Some([])) && Hash(w, x) == Hash(w, y)
    ensures exists f: map<int, int> :: Injective(f) && Same(f, x, y)
  {
    hide Injective, Alpha, Same, Canon, Scoped;
    EqualHashesExactly(w, x, y);
    var f: map<int, int> :| Injective(f) && Alpha(w, true, f, x, y);
    AlphaIsSame(w, f, x, y);
  }

  /** .. and, when no two keys or members tie, exactly those programs. */
  lemma EqualHashesSameExactly(w: Order, x: Item, y: Item)
    requires Scoped(w, x, Some([])) && Scoped(w, y, Some([])) && Regular(w, x) && Regular(w, y)
    ensures Hash(w, x) == Hash(w, y) <==> exists f: map<int, int> :: Injective(f) && Same(f, x, y)
  {
    hide Injective, Alpha, Same, Canon, Scoped, Regular, Hash;
    if Hash(w, x) == Hash(w, y) { EqualHashesSame(w, x, y); }
    if f: map<int, int> :| Injective(f) && Same(f, x, y) {
      SameIsAlpha(w, f, x, y);
      HashInvariant(w, f, x, y);
    }
  }
}
