/** What the fingerprint forgets: the order of files, of source-unit members, of entries. */
module FingerprintOrder {
  import opened Basics
  import opened IndexSort
  import opened Fingerprint
  import opened FingerprintProofs
  import opened FingerprintDistinct

  // ----- source-unit members -----

  /** The rank of a member by its reference-free hash. */
  function Preliminary(w: Order): Item -> int {
    (x: Item) => w.digest(Canon(w, x, None).0)
  }

  lemma {:induction false} PreliminaryAll(w: Order, xs: seq<Item>, k: nat)
    requires k <= |xs|
    ensures CanonAll(w, xs, k, None).1 == None
    ensures forall i :: 0 <= i < k ==> CanonAll(w, xs, k, None).0[i] == Canon(w, xs[i], None).0
  {
    hide Canon;
    if k > 0 {
      PreliminaryAll(w, xs, k - 1);
      CanonAllExtends(w, xs, k, None);
    }
  }

  function Nodes(xs: seq<Item>): Field { Field("nodes", List(xs)) }

  lemma MembersSorted(w: Order, xs: seq<Item>)
    ensures Members(w, "SourceUnit", Nodes(xs)) == Sort(Preliminary(w), xs)
  {
    hide Canon, CanonAll, SortIndex;
    PreliminaryAll(w, xs, |xs|);
    assert Digests(w, CanonAll(w, xs, |xs|, None).0) == Keys(Preliminary(w), xs);
  }

  /** Two member orders sort alike exactly when they keep the order of tied members. */
  lemma MembersAlikeExactly(w: Order, xs: seq<Item>, ys: seq<Item>)
    ensures Members(w, "SourceUnit", Nodes(xs)) == Members(w, "SourceUnit", Nodes(ys))
       <==> SameTies(Preliminary(w), xs, ys)
  {
    hide Canon, CanonAll, Members, Sort, SameTies, Preliminary;
    MembersSorted(w, xs);
    MembersSorted(w, ys);
    SortAlikeExactly(Preliminary(w), xs, ys);
  }

  /** Members with pairwise distinct preliminary hashes may be permuted freely. */
  lemma DistinctTies(w: Order, xs: seq<Item>, ys: seq<Item>)
    requires DistinctKeys(Preliminary(w), xs) && multiset(xs) == multiset(ys)
    ensures SameTies(Preliminary(w), xs, ys)
  {
    hide Canon;
    DistinctSortAlike(Preliminary(w), xs, ys);
  }

  /** b is a, or both are member lists in orders that keep tied members in place. */
  ghost predicate Shuffled(w: Order, a: Field, b: Field) {
    a == b || (a.val.List? && b.val.List? && a == Nodes(a.val.xs) && b == Nodes(b.val.xs)
               && SameTies(Preliminary(w), a.val.xs, b.val.xs))
  }

  ghost predicate ShuffledFields(w: Order, fs: seq<Field>, gs: seq<Field>) {
    |fs| == |gs| && forall i :: 0 <= i < |fs| ==> Shuffled(w, fs[i], gs[i])
  }

  lemma SomeNodeAnyOrder(w: Order, xs: seq<Item>, ys: seq<Item>)
    requires SameTies(Preliminary(w), xs, ys) && exists i :: 0 <= i < |xs| && xs[i].Node?
    ensures exists i :: 0 <= i < |ys| && ys[i].Node?
  {
    hide Canon;
    var i :| 0 <= i < |xs| && xs[i].Node?;
    var k := Preliminary(w)(xs[i]);
    OfKeyMembers(Preliminary(w), k, xs, xs[i]);
    OfKeyMembers(Preliminary(w), k, ys, xs[i]);
    assert xs[i] in ys;
  }

  lemma ShuffledVisited(w: Order, a: Field, b: Field)
    requires Shuffled(w, a, b)
    ensures a.key == b.key && Visited(a) == Visited(b)
  {
    hide OfKey, Canon;
    if a != b {
      if Visited(a) { SomeNodeAnyOrder(w, a.val.xs, b.val.xs); }
      if Visited(b) { SomeNodeAnyOrder(w, b.val.xs, a.val.xs); }
    }
  }

  lemma ShuffledField(w: Order, a: Field, b: Field, refs: Refs)
    requires Shuffled(w, a, b) && Visited(a) && Visited(b)
    ensures CanonField(w, "SourceUnit", a, refs) == CanonField(w, "SourceUnit", b, refs)
  {
    hide Canon, CanonAll, Members, SameTies;
    if a != b { MembersAlikeExactly(w, a.val.xs, b.val.xs); }
  }

  lemma ShuffledParallel(w: Order, fs: seq<Field>, gs: seq<Field>)
    requires ShuffledFields(w, fs, gs)
    ensures Parallel(fs, gs)
  {
    hide Shuffled, Visited;
    forall i | 0 <= i < |fs|
      ensures fs[i].key == gs[i].key && Visited(fs[i]) == Visited(gs[i])
    {
      ShuffledVisited(w, fs[i], gs[i]);
    }
  }

  lemma {:induction false} ShuffledKids(w: Order, fs: seq<Field>, gs: seq<Field>, k: nat, refs: Refs)
    requires ShuffledFields(w, fs, gs) && k <= |fs|
    requires forall i :: 0 <= i < |fs| ==> Visited(fs[i])
    requires forall i :: 0 <= i < |gs| ==> Visited(gs[i])
    ensures CanonFields(w, "SourceUnit", fs, k, refs) == CanonFields(w, "SourceUnit", gs, k, refs)
  {
    hide Shuffled, Visited, CanonField;
    if k > 0 {
      ShuffledKids(w, fs, gs, k - 1, refs);
      ShuffledField(w, fs[k - 1], gs[k - 1], CanonFields(w, "SourceUnit", fs, k - 1, refs).1);
    }
  }

  lemma SameTerm(a: (Term, Refs), b: (Term, Refs))
    requires a.0 == b.0 && a.1 == b.1
    ensures a == b
  {
  }

  /** Any reordering of source-unit members that keeps the order of tied members changes
      neither the hash nor the map. */
  lemma MemberOrderForgotten(w: Order, x: Item, gs: seq<Field>, refs: Refs)
    requires x.Node? && x.nt == "SourceUnit" && ShuffledFields(w, x.fields, gs)
    ensures Canon(w, x.(fields := gs), refs) == Canon(w, x, refs)
  {
    hide Shuffled, Visited, CanonFields, VisitOrder, Canon;
    var y := x.(fields := gs);
    ShuffledParallel(w, x.fields, gs);
    SameVisitOrder(w, x.fields, gs);
    var fs, hs := Ordered(w, x.fields), Ordered(w, gs);
    ShuffledKids(w, fs, hs, |fs|, HeadRefs(x, refs));
    CanonNodeStep(w, x, refs);
    CanonNodeStep(w, y, refs);
    SameTerm(Canon(w, x, refs), Canon(w, y, refs));
  }

  // ----- entries of one node -----

  function KeyRank(w: Order): Field -> int { (f: Field) => w.key(f.key) }

  function OnlyVisited(fs: seq<Field>, k: nat): (r: seq<Field>)
    requires k <= |fs|
  {
    if k == 0 then []
    else if Visited(fs[k - 1]) then OnlyVisited(fs, k - 1) + [fs[k - 1]]
    else OnlyVisited(fs, k - 1)
  }

  lemma {:induction false} PickVisited(fs: seq<Field>, k: nat)
    requires k <= |fs|
    ensures Permute(fs, VisitedPositions(fs, k)) == OnlyVisited(fs, k)
  {
    hide Visited;
    if k > 0 { PickVisited(fs, k - 1); }
  }

  lemma OrderedSorts(w: Order, fs: seq<Field>)
    ensures Ordered(w, fs) == Sort(KeyRank(w), OnlyVisited(fs, |fs|))
  {
    hide SortIndex, Visited, OnlyVisited;
    PickVisited(fs, |fs|);
    var ps := VisitedPositions(fs, |fs|);
    var vs := Permute(fs, ps);
    assert KeyRanks(w, vs) == Keys(KeyRank(w), vs);
    var order := SortIndex(Keys(KeyRank(w), vs));
    assert Permute(fs, Permute(ps, order)) == Permute(vs, order);
  }

  lemma {:induction false} VisitedCount(fs: seq<Field>, k: nat, f: Field)
    requires k <= |fs|
    ensures multiset(OnlyVisited(fs, k))[f] == if Visited(f) then multiset(fs[..k])[f] else 0
  {
    hide Visited;
    if k > 0 {
      VisitedCount(fs, k - 1, f);
      assert fs[..k] == fs[..k - 1] + [fs[k - 1]];
    }
  }

  lemma VisitedMultiset(fs: seq<Field>, gs: seq<Field>)
    requires multiset(fs) == multiset(gs)
    ensures multiset(OnlyVisited(fs, |fs|)) == multiset(OnlyVisited(gs, |gs|))
  {
    hide Visited, OnlyVisited;
    assert fs[..|fs|] == fs && gs[..|gs|] == gs;
    forall f
      ensures multiset(OnlyVisited(fs, |fs|))[f] == multiset(OnlyVisited(gs, |gs|))[f]
    {
      VisitedCount(fs, |fs|, f);
      VisitedCount(gs, |gs|, f);
    }
  }

  /** The order in which a node's entries are stored does not matter. */
  lemma EntryOrderForgotten(w: Order, x: Item, gs: seq<Field>, refs: Refs)
    requires x.Node? && multiset(x.fields) == multiset(gs)
    requires DistinctKeys(KeyRank(w), OnlyVisited(x.fields, |x.fields|))
    ensures Canon(w, x.(fields := gs), refs) == Canon(w, x, refs)
  {
    hide OnlyVisited, DistinctKeys, Sort, Ordered, Canon, CanonFields;
    var vs, us := OnlyVisited(x.fields, |x.fields|), OnlyVisited(gs, |gs|);
    OrderedSorts(w, x.fields);
    OrderedSorts(w, gs);
    VisitedMultiset(x.fields, gs);
    SortPermutationInvariant(KeyRank(w), vs, us);
    CanonNodeStep(w, x, refs);
    CanonNodeStep(w, x.(fields := gs), refs);
    SameTerm(Canon(w, x, refs), Canon(w, x.(fields := gs), refs));
  }

  // ----- entries at every depth at once -----

  /** y is x with the entries of any of its nodes stored in another order. */
  ghost predicate Rearranged(w: Order, x: Item, y: Item)
    decreases Depth(x), 0
  {
    match (x, y)
    case (Scalar(s), Scalar(t)) => s == t
    case (List(xs), List(ys)) => |xs| == |ys| && forall i :: 0 <= i < |xs| ==> Rearranged(w, xs[i], ys[i])
    case (Node(_, _, _, _, _, _, fs), Node(_, _, _, _, _, _, gs)) =>
      && y == x.(fields := gs)
      && DistinctKeys(KeyRank(w), OnlyVisited(gs, |gs|))
      && exists zs :: multiset(zs) == multiset(gs) && RearrangedFields(w, fs, zs)
    case _ => false
  }

  ghost predicate RearrangedFields(w: Order, fs: seq<Field>, zs: seq<Field>)
    decreases DepthFields(fs), 1
  {
    |fs| == |zs| && forall i :: 0 <= i < |fs| ==> fs[i].key == zs[i].key && Rearranged(w, fs[i].val, zs[i].val)
  }

  lemma RearrangedKind(w: Order, x: Item, y: Item)
    requires Rearranged(w, x, y)
    ensures x.Node? == y.Node? && x.List? == y.List?
  {
  }

  lemma RearrangedVisited(w: Order, a: Field, b: Field)
    requires a.key == b.key && Rearranged(w, a.val, b.val)
    ensures Visited(a) == Visited(b)
  {
    RearrangedKind(w, a.val, b.val);
    if a.val.List? {
      forall i | 0 <= i < |a.val.xs|
        ensures a.val.xs[i].Node? == b.val.xs[i].Node?
      {
        RearrangedKind(w, a.val.xs[i], b.val.xs[i]);
      }
    }
  }

  lemma RearrangedParallel(w: Order, fs: seq<Field>, zs: seq<Field>)
    requires RearrangedFields(w, fs, zs)
    ensures Parallel(fs, zs)
  {
    hide Rearranged, Visited;
    forall i | 0 <= i < |fs|
      ensures fs[i].key == zs[i].key && Visited(fs[i]) == Visited(zs[i])
    {
      RearrangedVisited(w, fs[i], zs[i]);
    }
  }

  lemma {:induction false} RearrangedAll(w: Order, xs: seq<Item>, ys: seq<Item>, k: nat, refs: Refs)
    requires |xs| == |ys| && k <= |xs| && forall i :: 0 <= i < |xs| ==> Rearranged(w, xs[i], ys[i])
    ensures CanonAll(w, ys, k, refs) == CanonAll(w, xs, k, refs)
    decreases DepthAll(xs), 2, k
  {
    hide Rearranged, Canon;
    if k > 0 {
      RearrangedAll(w, xs, ys, k - 1, refs);
      EveryEntryOrderForgotten(w, xs[k - 1], ys[k - 1], CanonAll(w, xs, k - 1, refs).1);
    }
  }

  lemma {:induction false} RearrangedField(w: Order, nt: string, a: Field, b: Field, refs: Refs)
    requires Visited(a) && Visited(b) && a.key == b.key && Rearranged(w, a.val, b.val)
    ensures CanonField(w, nt, b, refs) == CanonField(w, nt, a, refs)
    decreases Depth(a.val), 2, 0
  {
    hide Canon, CanonAll, Members;
    RearrangedKind(w, a.val, b.val);
    if a.val.Node? {
      EveryEntryOrderForgotten(w, a.val, b.val, refs);
    } else {
      RearrangedAll(w, a.val.xs, b.val.xs, |a.val.xs|, None);
      RearrangedMembers(w, nt, a, b);
      var ms, ns := Members(w, nt, a), Members(w, nt, b);
      RearrangedAll(w, ms, ns, |ms|, refs);
    }
  }

  lemma RearrangedMembers(w: Order, nt: string, a: Field, b: Field)
    requires a.val.List? && b.val.List? && a.key == b.key && |a.val.xs| == |b.val.xs|
    requires forall i :: 0 <= i < |a.val.xs| ==> Rearranged(w, a.val.xs[i], b.val.xs[i])
    requires CanonAll(w, b.val.xs, |b.val.xs|, None) == CanonAll(w, a.val.xs, |a.val.xs|, None)
    ensures var ms, ns := Members(w, nt, a), Members(w, nt, b);
      |ms| == |ns| && forall i :: 0 <= i < |ms| ==> Rearranged(w, ms[i], ns[i])
  {
    hide Rearranged, CanonAll, SortIndex;
  }

  lemma {:induction false} RearrangedKids(w: Order, nt: string, fs: seq<Field>, zs: seq<Field>, k: nat, refs: Refs)
    requires RearrangedFields(w, fs, zs) && k <= |fs|
    requires forall i :: 0 <= i < |fs| ==> Visited(fs[i])
    requires forall i :: 0 <= i < |zs| ==> Visited(zs[i])
    ensures CanonFields(w, nt, zs, k, refs) == CanonFields(w, nt, fs, k, refs)
    decreases DepthFields(fs), 3, k
  {
    hide Rearranged, Visited, CanonField;
    if k > 0 {
      RearrangedKids(w, nt, fs, zs, k - 1, refs);
      RearrangedField(w, nt, fs[k - 1], zs[k - 1], CanonFields(w, nt, fs, k - 1, refs).1);
    }
  }

  /** Storing the entries of any nodes, at every depth, in any other order changes neither
      term nor map. */
  lemma {:induction false} EveryEntryOrderForgotten(w: Order, x: Item, y: Item, refs: Refs)
    requires Rearranged(w, x, y)
    ensures Canon(w, y, refs) == Canon(w, x, refs)
    decreases Depth(x), 1, 0
  {
    match x {
      case Scalar(_) =>
      case List(xs) => RearrangedAll(w, xs, y.xs, |xs|, refs);
      case Node(_, _, _, _, _, _, _) => NodeRearranged(w, x, y, refs);
    }
  }

  lemma RearrangedShape(w: Order, x: Item, y: Item) returns (zs: seq<Field>)
    requires x.Node? && Rearranged(w, x, y)
    ensures y.Node? && y == x.(fields := y.fields)
    ensures multiset(y.fields) == multiset(zs) && RearrangedFields(w, x.fields, zs)
    ensures DistinctKeys(KeyRank(w), OnlyVisited(y.fields, |y.fields|))
  {
    hide RearrangedFields, DistinctKeys, OnlyVisited;
    zs :| multiset(zs) == multiset(y.fields) && RearrangedFields(w, x.fields, zs);
  }

  lemma {:induction false} NodeRearranged(w: Order, x: Item, y: Item, refs: Refs)
    requires x.Node? && Rearranged(w, x, y)
    ensures Canon(w, y, refs) == Canon(w, x, refs)
    decreases Depth(x), 0, 0
  {
    var zs := RearrangedShape(w, x, y);
    hide *;
    EntryOrderForgotten(w, y, zs, refs);
    var z := x.(fields := zs);
    assert z == y.(fields := zs);
    RearrangedParallel(w, x.fields, zs);
    SameVisitOrder(w, x.fields, zs);
    OrderedRearranged(w, x.fields, zs);
    var fs, hs := Ordered(w, x.fields), Ordered(w, zs);
    CanonNodeStep(w, x, refs);
    CanonNodeStep(w, z, refs);
    RearrangedKids(w, x.nt, fs, hs, |fs|, HeadRefs(x, refs));
    SameHead(x, zs, refs);
    SameTerm(Canon(w, z, refs), Canon(w, x, refs));
  }

  lemma SameHead(x: Item, zs: seq<Field>, refs: Refs)
    requires x.Node?
    ensures var z := x.(fields := zs);
      && HeadRefs(z, refs) == HeadRefs(x, refs) && TypeName(z) == TypeName(x)
      && RefOf(z, Declared(z, refs)) == RefOf(x, Declared(x, refs))
  {
    hide Visit, Position;
  }

  lemma OrderedRearranged(w: Order, fs: seq<Field>, zs: seq<Field>)
    requires RearrangedFields(w, fs, zs) && VisitOrder(w, fs) == VisitOrder(w, zs)
    ensures RearrangedFields(w, Ordered(w, fs), Ordered(w, zs)) && |Ordered(w, fs)| == |Ordered(w, zs)|
  {
    hide Rearranged, VisitOrder, Visited;
  }

  // ----- files -----

  /** The digests of the per-file hashes. */
  function FileDigests(w: Order, asts: seq<Item>): (ks: seq<int>)
    ensures |ks| == |asts|
  {
    seq(|asts|, i requires 0 <= i < |asts| => w.digest(Hash(w, asts[i])))
  }

  /** What the combined hash is taken of. */
  function Combined(w: Order, asts: seq<Item>): seq<int> { Sort(itself, FileDigests(w, asts)) }

  lemma {:induction false} DigestsPermuted(w: Order, asts: seq<Item>, bsts: seq<Item>)
    requires multiset(asts) == multiset(bsts)
    ensures multiset(FileDigests(w, asts)) == multiset(FileDigests(w, bsts))
  {
    assert |multiset(asts)| == |asts| && |multiset(bsts)| == |bsts|;
    if asts != [] {
      hide FileDigests;
      var x := asts[0];
      assert x in multiset(bsts);
      var j :| 0 <= j < |bsts| && bsts[j] == x;
      var rest := bsts[..j] + bsts[j + 1..];
      assert bsts == bsts[..j] + [x] + bsts[j + 1..];
      DigestsMoved(w, [], x, asts[1..], asts);
      DigestsMoved(w, bsts[..j], x, bsts[j + 1..], bsts);
      assert [] + asts[1..] == asts[1..];
      CancelOne(multiset(asts[1..]), multiset(rest), x);
      DigestsPermuted(w, asts[1..], rest);
    }
  }

  lemma CancelOne<T>(m: multiset<T>, n: multiset<T>, x: T)
    requires m + multiset{x} == n + multiset{x}
    ensures m == n
  {
    assert m == (m + multiset{x}) - multiset{x};
    assert n == (n + multiset{x}) - multiset{x};
  }

  lemma DigestsMoved(w: Order, a: seq<Item>, x: Item, b: seq<Item>, all: seq<Item>)
    requires all == a + [x] + b
    ensures multiset(all) == multiset(a + b) + multiset{x}
    ensures multiset(FileDigests(w, all)) == multiset(FileDigests(w, a + b)) + multiset(FileDigests(w, [x]))
  {
    hide FileDigests;
    DigestsSplit(w, a + [x], b);
    DigestsSplit(w, a, [x]);
    DigestsSplit(w, a, b);
  }

  lemma DigestsSplit(w: Order, a: seq<Item>, b: seq<Item>)
    ensures FileDigests(w, a + b) == FileDigests(w, a) + FileDigests(w, b)
  {
  }

  /** Two sets of files share a fingerprint exactly when their hashes do, in any order .. */
  lemma CombinedExactly(w: Order, asts: seq<Item>, bsts: seq<Item>)
    ensures Combined(w, asts) == Combined(w, bsts)
       <==> multiset(FileDigests(w, asts)) == multiset(FileDigests(w, bsts))
  {
    SortedExactly(FileDigests(w, asts), FileDigests(w, bsts));
  }

  /** .. so the order in which the files are given is forgotten. */
  lemma FileOrderForgotten(w: Order, asts: seq<Item>, bsts: seq<Item>)
    requires multiset(asts) == multiset(bsts)
    ensures Combined(w, asts) == Combined(w, bsts)
  {
    DigestsPermuted(w, asts, bsts);
    CombinedExactly(w, asts, bsts);
  }
}
