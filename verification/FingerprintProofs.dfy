/** Alpha-invariance and distinctness of the canonical fingerprint. */
module FingerprintProofs {
  import opened Basics
  import opened IndexSort
  import opened Fingerprint

  /** f sends a to b. */
  predicate Maps(f: map<int, int>, a: int, b: int) { a in f && f[a] == b }

  ghost predicate Injective(f: map<int, int>) {
    forall a, b :: a in f && b in f && f[a] == f[b] ==> a == b
  }

  predicate AlphaId(f: map<int, int>, a: Option<int>, b: Option<int>) {
    if a.None? then b.None? else b.Some? && Maps(f, a.value, b.value)
  }

  predicate AlphaRef(f: map<int, int>, x: Item, y: Item)
    requires x.Node? && y.Node?
  {
    match (x.ref, y.ref)
    case (None, None) => x.nt in NAMED_NODE_TYPES ==> x.name == y.name
    case (Some(a), Some(b)) => (a < 0 && b == a) || (a >= 0 && b >= 0 && Maps(f, a, b))
    case _ => false
  }

  /** y is x with declaration ids renamed by f, up to entry order, source-unit member
      order, and everything the walk does not read. Without `sites`, the ids of the
      declarations themselves are not compared, only the references. */
  predicate Alpha(w: Order, sites: bool, f: map<int, int>, x: Item, y: Item)
    decreases Depth(x), 0
  {
    match (x, y)
    case (Scalar(s), Scalar(t)) => s == t
    case (List(xs), List(ys)) => AlphaAll(w, sites, f, xs, ys)
    case (Node(_, _, _, _, _, _, _), Node(_, _, _, _, _, _, _)) =>
      && x.nt == y.nt && x.attrs == y.attrs && x.names == y.names && TypeName(x) == TypeName(y)
      && (sites && x.nt in DECL_NODE_TYPES ==> AlphaId(f, x.id, y.id))
      && AlphaRef(f, x, y)
      && AlphaFields(w, sites, f, x.nt, Ordered(w, x.fields), Ordered(w, y.fields))
    case _ => false
  }

  predicate AlphaAll(w: Order, sites: bool, f: map<int, int>, xs: seq<Item>, ys: seq<Item>)
    decreases DepthAll(xs), 1
  {
    |xs| == |ys| && forall i :: 0 <= i < |xs| ==> Alpha(w, sites, f, xs[i], ys[i])
  }

  predicate AlphaField(w: Order, sites: bool, f: map<int, int>, nt: string, a: Field, b: Field)
    requires Visited(a) && Visited(b)
    decreases Depth(a.val), 1
  {
    && a.key == b.key
    && (if a.val.Node? then b.val.Node? && Alpha(w, sites, f, a.val, b.val)
        else b.val.List? && AlphaAll(w, sites, f, Members(w, nt, a), Members(w, nt, b)))
  }

  predicate AlphaFields(w: Order, sites: bool, f: map<int, int>, nt: string, fs: seq<Field>, gs: seq<Field>)
    requires forall i :: 0 <= i < |fs| ==> Visited(fs[i])
    requires forall i :: 0 <= i < |gs| ==> Visited(gs[i])
    decreases DepthFields(fs), 2
  {
    |fs| == |gs| && forall i :: 0 <= i < |fs| ==> AlphaField(w, sites, f, nt, fs[i], gs[i])
  }

  // ----- invariance -----

  predicate Covered(f: map<int, int>, refs: Refs) {
    refs.Some? ==> forall i :: 0 <= i < |refs.value| ==> refs.value[i] in f
  }

  function Rename(f: map<int, int>, refs: Refs): Refs
    requires Covered(f, refs)
  {
    if refs.None? then None
    else Some(seq(|refs.value|, i requires 0 <= i < |refs.value| => f[refs.value[i]]))
  }

  lemma VisitRenamed(f: map<int, int>, o: seq<int>, a: int)
    requires Injective(f) && Covered(f, Some(o)) && a in f
    ensures Covered(f, Some(Visit(o, a)))
    ensures Visit(Rename(f, Some(o)).value, f[a]) == Rename(f, Some(Visit(o, a))).value
    ensures Position(Visit(Rename(f, Some(o)).value, f[a]), f[a]) == Position(Visit(o, a), a)
  {
    var r := Rename(f, Some(o)).value;
    assert f[a] in r <==> a in o by {
      if f[a] in r {
        var i :| 0 <= i < |r| && r[i] == f[a];
        assert o[i] == a;
      }
      if a in o {
        var i :| 0 <= i < |o| && o[i] == a;
        assert r[i] == f[a];
      }
    }
    PositionRenamed(f, Visit(o, a), a);
  }

  lemma {:induction false} PositionRenamed(f: map<int, int>, o: seq<int>, a: int)
    requires Injective(f) && Covered(f, Some(o)) && a in o
    ensures f[a] in Rename(f, Some(o)).value
    ensures Position(Rename(f, Some(o)).value, f[a]) == Position(o, a)
  {
    var r := Rename(f, Some(o)).value;
    if o[0] != a {
      PositionRenamed(f, o[1..], a);
      assert r[1..] == Rename(f, Some(o[1..])).value;
    }
    assert r[0] == f[o[0]];
  }

  /** Renaming ids by an injection leaves every hash unchanged and renames the map. */
  lemma {:induction false} CanonAlpha(w: Order, f: map<int, int>, x: Item, y: Item, refs: Refs)
    requires Injective(f) && Alpha(w, true, f, x, y) && Covered(f, refs)
    ensures Covered(f, Canon(w, x, refs).1)
    ensures Canon(w, y, Rename(f, refs)) == (Canon(w, x, refs).0, Rename(f, Canon(w, x, refs).1))
    decreases Depth(x), 0, 0
  {
    match x {
      case Scalar(_) =>
      case List(xs) => CanonAllAlpha(w, f, xs, y.xs, |xs|, refs);
      case Node(_, _, _, _, _, _, _) =>
        HeadAlpha(w, f, x, y, refs);
        var r1 := RefOf(x, Declared(x, refs)).1;
        var fs, gs := Ordered(w, x.fields), Ordered(w, y.fields);
        CanonFieldsAlpha(w, f, x.nt, fs, gs, |fs|, r1);
    }
  }

  lemma DeclaredAlpha(w: Order, f: map<int, int>, x: Item, y: Item, refs: Refs)
    requires x.Node? && Injective(f) && Alpha(w, true, f, x, y) && Covered(f, refs)
    ensures Covered(f, Declared(x, refs))
    ensures Declared(y, Rename(f, refs)) == Rename(f, Declared(x, refs))
  {
    hide Visit, Ordered, AlphaFields;
    if refs.Some? && Declares(x) {
      VisitRenamed(f, refs.value, x.id.value);
    }
  }

  lemma RefAlpha(f: map<int, int>, x: Item, y: Item, refs: Refs)
    requires x.Node? && y.Node? && x.nt == y.nt && Injective(f) && AlphaRef(f, x, y) && Covered(f, refs)
    ensures Covered(f, RefOf(x, refs).1)
    ensures RefOf(y, Rename(f, refs)) == (RefOf(x, refs).0, Rename(f, RefOf(x, refs).1))
  {
    hide Visit, Position;
    if x.ref.Some? && x.ref.value >= 0 && refs.Some? {
      VisitRenamed(f, refs.value, x.ref.value);
      assert RefOf(y, Rename(f, refs)).1 == Some(Visit(Rename(f, refs).value, f[x.ref.value]));
    }
  }

  lemma HeadAlpha(w: Order, f: map<int, int>, x: Item, y: Item, refs: Refs)
    requires x.Node? && Injective(f) && Alpha(w, true, f, x, y) && Covered(f, refs)
    ensures var d := Declared(x, refs);
            && Covered(f, d) && Covered(f, RefOf(x, d).1)
            && RefOf(y, Declared(y, Rename(f, refs))) == (RefOf(x, d).0, Rename(f, RefOf(x, d).1))
  {
    hide Declared, RefOf, Ordered, AlphaFields;
    DeclaredAlpha(w, f, x, y, refs);
    RefAlpha(f, x, y, Declared(x, refs));
  }

  lemma {:induction false} CanonAllAlpha(w: Order, f: map<int, int>, xs: seq<Item>, ys: seq<Item>, k: nat, refs: Refs)
    requires Injective(f) && AlphaAll(w, true, f, xs, ys) && Covered(f, refs) && k <= |xs|
    ensures Covered(f, CanonAll(w, xs, k, refs).1)
    ensures CanonAll(w, ys, k, Rename(f, refs))
         == (CanonAll(w, xs, k, refs).0, Rename(f, CanonAll(w, xs, k, refs).1))
    decreases DepthAll(xs), 1, k
  {
    if k > 0 {
      CanonAllAlpha(w, f, xs, ys, k - 1, refs);
      CanonAlpha(w, f, xs[k - 1], ys[k - 1], CanonAll(w, xs, k - 1, refs).1);
    }
  }

  lemma {:induction false} CanonFieldAlpha(w: Order, f: map<int, int>, nt: string, a: Field, b: Field, refs: Refs)
    requires Visited(a) && Visited(b) && Injective(f) && AlphaField(w, true, f, nt, a, b) && Covered(f, refs)
    ensures Covered(f, CanonField(w, nt, a, refs).1)
    ensures CanonField(w, nt, b, Rename(f, refs))
         == (CanonField(w, nt, a, refs).0, Rename(f, CanonField(w, nt, a, refs).1))
    decreases Depth(a.val), 1, 0
  {
    if a.val.Node? {
      CanonAlpha(w, f, a.val, b.val, refs);
    } else {
      var xs := Members(w, nt, a);
      CanonAllAlpha(w, f, xs, Members(w, nt, b), |xs|, refs);
    }
  }

  lemma {:induction false} CanonFieldsAlpha(w: Order, f: map<int, int>, nt: string, fs: seq<Field>, gs: seq<Field>,
                                            k: nat, refs: Refs)
    requires forall i :: 0 <= i < |fs| ==> Visited(fs[i])
    requires forall i :: 0 <= i < |gs| ==> Visited(gs[i])
    requires Injective(f) && AlphaFields(w, true, f, nt, fs, gs) && Covered(f, refs) && k <= |fs|
    ensures Covered(f, CanonFields(w, nt, fs, k, refs).1)
    ensures CanonFields(w, nt, gs, k, Rename(f, refs))
         == (CanonFields(w, nt, fs, k, refs).0, Rename(f, CanonFields(w, nt, fs, k, refs).1))
    decreases DepthFields(fs), 2, k
  {
    if k > 0 {
      CanonFieldsAlpha(w, f, nt, fs, gs, k - 1, refs);
      CanonFieldAlpha(w, f, nt, fs[k - 1], gs[k - 1], CanonFields(w, nt, fs, k - 1, refs).1);
    }
  }

  lemma HashInvariantFrom(w: Order, f: map<int, int>, x: Item, y: Item, refs: Refs)
    requires Injective(f) && Alpha(w, true, f, x, y) && Covered(f, refs) && Rename(f, refs) == refs
    ensures Canon(w, x, refs).0 == Canon(w, y, refs).0
  {
    hide Alpha, Canon, Rename, Covered, Injective;
    CanonAlpha(w, f, x, y, refs);
  }

  /** Alpha-equivalent programs have the same fingerprint. */
  lemma HashInvariant(w: Order, f: map<int, int>, x: Item, y: Item)
    requires Injective(f) && Alpha(w, true, f, x, y)
    ensures Hash(w, x) == Hash(w, y)
  {
    var o: seq<int> := [];
    assert Rename(f, Some(o)).value == o;
    HashInvariantFrom(w, f, x, y, Some(o));
  }

  // ----- invariance under everything the walk does not read -----

  /** y is x with declaration ids and non-negative references renamed by f, entries the
      walk skips replaced, and `name` changed wherever the walk does not read it.
      Nothing here speaks of the walk's own order. */
  predicate Reskinned(f: map<int, int>, x: Item, y: Item)
    decreases Depth(x), 0
  {
    match (x, y)
    case (Scalar(s), Scalar(t)) => s == t
    case (List(xs), List(ys)) =>
      |xs| == |ys| && forall i :: 0 <= i < |xs| ==> Reskinned(f, xs[i], ys[i])
    case (Node(_, _, _, _, _, _, fs), Node(_, _, _, _, _, _, gs)) =>
      && x.nt == y.nt && x.attrs == y.attrs && x.names == y.names && TypeName(x) == TypeName(y)
      && (x.nt in DECL_NODE_TYPES ==> AlphaId(f, x.id, y.id))
      && AlphaRef(f, x, y)
      && |fs| == |gs|
      && forall i :: 0 <= i < |fs| ==> ReskinnedField(f, fs[i], gs[i])
    case _ => false
  }

  predicate ReskinnedField(f: map<int, int>, a: Field, b: Field)
    decreases Depth(a.val), 1
  {
    a.key == b.key && ((!Visited(a) && !Visited(b)) || Reskinned(f, a.val, b.val))
  }

  lemma ReskinnedVisited(f: map<int, int>, a: Field, b: Field)
    requires ReskinnedField(f, a, b)
    ensures Visited(a) == Visited(b)
  {
    if a.val.List? && b.val.List? && Reskinned(f, a.val, b.val) {
      forall i | 0 <= i < |a.val.xs|
        ensures a.val.xs[i].Node? == b.val.xs[i].Node?
      {
        assert Reskinned(f, a.val.xs[i], b.val.xs[i]);
      }
    }
  }

  predicate ReskinnedFields(f: map<int, int>, fs: seq<Field>, gs: seq<Field>) {
    |fs| == |gs| && forall i :: 0 <= i < |fs| ==> ReskinnedField(f, fs[i], gs[i])
  }

  /** Same keys, and the same entries visited. */
  predicate Parallel(fs: seq<Field>, gs: seq<Field>) {
    |fs| == |gs| && forall i :: 0 <= i < |fs| ==> fs[i].key == gs[i].key && Visited(fs[i]) == Visited(gs[i])
  }

  lemma {:induction false} SamePositions(fs: seq<Field>, gs: seq<Field>, k: nat)
    requires Parallel(fs, gs) && k <= |fs|
    ensures VisitedPositions(fs, k) == VisitedPositions(gs, k)
  {
    hide Visited;
    if k > 0 { SamePositions(fs, gs, k - 1); }
  }

  lemma SameVisitOrder(w: Order, fs: seq<Field>, gs: seq<Field>)
    requires Parallel(fs, gs)
    ensures VisitOrder(w, fs) == VisitOrder(w, gs)
  {
    hide Visited;
    SamePositions(fs, gs, |fs|);
    var ps := VisitedPositions(fs, |fs|);
    assert KeyRanks(w, Permute(fs, ps)) == KeyRanks(w, Permute(gs, ps));
  }

  lemma ReskinnedParallel(f: map<int, int>, fs: seq<Field>, gs: seq<Field>)
    requires ReskinnedFields(f, fs, gs)
    ensures Parallel(fs, gs)
  {
    hide Reskinned, Visited;
    forall i | 0 <= i < |fs|
      ensures fs[i].key == gs[i].key && Visited(fs[i]) == Visited(gs[i])
    {
      ReskinnedVisited(f, fs[i], gs[i]);
    }
  }

  lemma {:induction false} ReskinnedIsAlpha(w: Order, f: map<int, int>, x: Item, y: Item)
    requires Injective(f) && Reskinned(f, x, y)
    ensures Alpha(w, true, f, x, y)
    decreases Depth(x), 0
  {
    hide Injective, VisitOrder, Visited;
    match x {
      case Scalar(_) =>
      case List(xs) => ReskinnedAll(w, f, xs, y.xs);
      case Node(_, _, _, _, _, _, fs) =>
        assert ReskinnedFields(f, fs, y.fields);
        ReskinnedOrdered(w, f, x.nt, fs, y.fields);
    }
  }

  lemma {:induction false} ReskinnedAll(w: Order, f: map<int, int>, xs: seq<Item>, ys: seq<Item>)
    requires Injective(f) && |xs| == |ys| && forall i :: 0 <= i < |xs| ==> Reskinned(f, xs[i], ys[i])
    ensures AlphaAll(w, true, f, xs, ys)
    decreases DepthAll(xs), 1
  {
    hide Injective, Alpha, Reskinned;
    forall i | 0 <= i < |xs|
      ensures Alpha(w, true, f, xs[i], ys[i])
    {
      ReskinnedIsAlpha(w, f, xs[i], ys[i]);
    }
  }

  lemma {:induction false} ReskinnedOrdered(w: Order, f: map<int, int>, nt: string, fs: seq<Field>, gs: seq<Field>)
    requires Injective(f) && ReskinnedFields(f, fs, gs)
    ensures AlphaFields(w, true, f, nt, Ordered(w, fs), Ordered(w, gs))
    decreases DepthFields(fs), 2
  {
    hide Injective, Alpha, Reskinned, AlphaField, VisitOrder, Visited;
    ReskinnedParallel(f, fs, gs);
    SameVisitOrder(w, fs, gs);
    var order := VisitOrder(w, fs);
    forall i | 0 <= i < |order|
      ensures AlphaField(w, true, f, nt, Ordered(w, fs)[i], Ordered(w, gs)[i])
    {
      ReskinnedOneField(w, f, nt, fs[order[i]], gs[order[i]]);
    }
  }

  lemma {:induction false} ReskinnedOneField(w: Order, f: map<int, int>, nt: string, a: Field, b: Field)
    requires Injective(f) && Visited(a) && Visited(b) && ReskinnedField(f, a, b)
    ensures AlphaField(w, true, f, nt, a, b)
    decreases Depth(a.val), 1
  {
    hide Injective, Alpha;
    if a.val.Node? {
      ReskinnedIsAlpha(w, f, a.val, b.val);
    } else {
      ReskinnedAll(w, f, a.val.xs, b.val.xs);
      MembersAlpha(w, f, nt, a, b);
    }
  }

  /** The preliminary hashes do not see ids, so both member lists sort alike. */
  lemma MembersAlpha(w: Order, f: map<int, int>, nt: string, a: Field, b: Field)
    requires Injective(f) && a.val.List? && b.val.List? && a.key == b.key
    requires AlphaAll(w, true, f, a.val.xs, b.val.xs)
    ensures AlphaAll(w, true, f, Members(w, nt, a), Members(w, nt, b))
  {
    hide Alpha, Canon, CanonAll;
    CanonAllAlpha(w, f, a.val.xs, b.val.xs, |a.val.xs|, None);
  }

  /** Renaming ids by an injection and respelling unread names keeps the fingerprint. */
  lemma ReskinInvariant(w: Order, f: map<int, int>, x: Item, y: Item)
    requires Injective(f) && Reskinned(f, x, y)
    ensures Hash(w, x) == Hash(w, y)
  {
    ReskinnedIsAlpha(w, f, x, y);
    HashInvariant(w, f, x, y);
  }
}
