/** When equal fingerprints mean alpha-equivalent programs. */
module FingerprintDistinct {
  import opened Basics
  import opened Fingerprint
  import opened FingerprintProofs

  predicate NoRepeats(o: seq<int>) {
    forall i, j :: 0 <= i < j < |o| ==> o[i] != o[j]
  }

  /** The map only grows, and stays a numbering without repetition. */
  predicate Extends(a: Refs, b: Refs) {
    if a.None? then b.None?
    else b.Some? && a.value <= b.value && (NoRepeats(a.value) ==> NoRepeats(b.value))
  }

  lemma VisitExtends(o: seq<int>, id: int)
    ensures o <= Visit(o, id)
    ensures NoRepeats(o) ==> NoRepeats(Visit(o, id))
  {
  }

  /** The map after a node's own id and reference. */
  function HeadRefs(x: Item, refs: Refs): Refs
    requires x.Node?
  {
    RefOf(x, Declared(x, refs)).1
  }

  lemma HeadExtends(x: Item, refs: Refs)
    requires x.Node?
    ensures Extends(refs, Declared(x, refs))
    ensures Extends(Declared(x, refs), HeadRefs(x, refs))
  {
    hide Visit, NoRepeats;
    if refs.Some? && Declares(x) { VisitExtends(refs.value, x.id.value); }
    var d := Declared(x, refs);
    if d.Some? && x.ref.Some? && x.ref.value >= 0 { VisitExtends(d.value, x.ref.value); }
  }

  /** One unfolding of the walk at a node. */
  lemma CanonNodeStep(w: Order, x: Item, refs: Refs)
    requires x.Node?
    ensures var fs := Ordered(w, x.fields); var kids := CanonFields(w, x.nt, fs, |fs|, HeadRefs(x, refs));
            && Canon(w, x, refs).0
               == TNode(x.nt, x.attrs, TypeName(x), RefOf(x, Declared(x, refs)).0, x.names, kids.0)
            && Canon(w, x, refs).1 == kids.1
    ensures DepthFields(Ordered(w, x.fields)) < Depth(x)
  {
    hide CanonFields, Ordered, RefOf, Declared;
  }

  lemma {:induction false} CanonExtends(w: Order, x: Item, refs: Refs)
    ensures Extends(refs, Canon(w, x, refs).1)
    decreases Depth(x), 0, 0
  {
    hide Declared, RefOf, NoRepeats;
    match x {
      case Scalar(_) =>
      case List(xs) => CanonAllExtends(w, xs, |xs|, refs);
      case Node(nt, _, _, _, _, _, fields) =>
        HeadExtends(x, refs);
        var fs := Ordered(w, fields);
        CanonFieldsExtends(w, nt, fs, |fs|, HeadRefs(x, refs));
    }
  }

  lemma {:induction false} CanonAllExtends(w: Order, xs: seq<Item>, k: nat, refs: Refs)
    requires k <= |xs|
    ensures Extends(refs, CanonAll(w, xs, k, refs).1)
    decreases DepthAll(xs), 1, k
  {
    hide NoRepeats, Canon;
    if k > 0 {
      CanonAllExtends(w, xs, k - 1, refs);
      CanonExtends(w, xs[k - 1], CanonAll(w, xs, k - 1, refs).1);
    }
  }

  lemma {:induction false} CanonFieldExtends(w: Order, nt: string, a: Field, refs: Refs)
    requires Visited(a)
    ensures Extends(refs, CanonField(w, nt, a, refs).1)
    decreases Depth(a.val), 1, 0
  {
    hide NoRepeats, Canon, CanonAll;
    if a.val.Node? {
      CanonExtends(w, a.val, refs);
    } else {
      var xs := Members(w, nt, a);
      CanonAllExtends(w, xs, |xs|, refs);
    }
  }

  lemma {:induction false} CanonFieldsExtends(w: Order, nt: string, fs: seq<Field>, k: nat, refs: Refs)
    requires k <= |fs| && forall i :: 0 <= i < |fs| ==> Visited(fs[i])
    ensures Extends(refs, CanonFields(w, nt, fs, k, refs).1)
    decreases DepthFields(fs), 2, k
  {
    hide NoRepeats, CanonField;
    if k > 0 {
      CanonFieldsExtends(w, nt, fs, k - 1, refs);
      CanonFieldExtends(w, nt, fs[k - 1], CanonFields(w, nt, fs, k - 1, refs).1);
    }
  }

  // ----- programs the walk reads in scope order -----

  predicate HeadScoped(x: Item, refs: Refs)
    requires x.Node?
  {
    && refs.Some?
    && (x.nt in DECL_NODE_TYPES ==> x.id.Some? && x.id.value !in refs.value)
    && (x.ref.Some? && x.ref.value >= 0 ==> x.ref.value in Declared(x, refs).value)
  }

  /** Declaration ids are unique, and non-negative references point to declarations
      already visited. */
  predicate Scoped(w: Order, x: Item, refs: Refs)
    decreases Depth(x), 0, 0
  {
    match x
    case Scalar(_) => true
    case List(xs) => ScopedAll(w, xs, |xs|, refs)
    case Node(nt, _, _, _, _, _, fields) =>
      var fs := Ordered(w, fields);
      HeadScoped(x, refs) && ScopedFields(w, nt, fs, |fs|, HeadRefs(x, refs))
  }

  predicate ScopedAll(w: Order, xs: seq<Item>, k: nat, refs: Refs)
    requires k <= |xs|
    decreases DepthAll(xs), 1, k
  {
    k == 0 || (ScopedAll(w, xs, k - 1, refs) && Scoped(w, xs[k - 1], CanonAll(w, xs, k - 1, refs).1))
  }

  predicate ScopedField(w: Order, nt: string, a: Field, refs: Refs)
    requires Visited(a)
    decreases Depth(a.val), 1, 0
  {
    if a.val.Node? then Scoped(w, a.val, refs)
    else ScopedAll(w, Members(w, nt, a), |Members(w, nt, a)|, refs)
  }

  predicate ScopedFields(w: Order, nt: string, fs: seq<Field>, k: nat, refs: Refs)
    requires k <= |fs| && forall i :: 0 <= i < |fs| ==> Visited(fs[i])
    decreases DepthFields(fs), 2, k
  {
    k == 0 || (ScopedFields(w, nt, fs, k - 1, refs)
               && ScopedField(w, nt, fs[k - 1], CanonFields(w, nt, fs, k - 1, refs).1))
  }

  // ----- reading a renaming off two equal hashes -----

  /** f sends each id to the one with the same number on the other side. */
  predicate Links(f: map<int, int>, fx: seq<int>, fy: seq<int>) {
    forall i :: 0 <= i < |fx| && i < |fy| ==> Maps(f, fx[i], fy[i])
  }

  /** The map so far, within the final one. */
  predicate Within(refs: Refs, final: seq<int>) { refs.Some? && refs.value <= final }

  predicate Level(sites: bool, rx: Refs, ry: Refs)
    requires rx.Some? && ry.Some?
  {
    sites ==> |rx.value| == |ry.value|
  }

  lemma WithinEarlier(a: Refs, b: Refs, final: seq<int>)
    requires Extends(a, b) && Within(b, final)
    ensures a.Some? && Within(a, final)
  {
  }

  lemma DeclaredDistinct(sites: bool, f: map<int, int>, x: Item, y: Item, rx: Refs, ry: Refs,
                         fx: seq<int>, fy: seq<int>)
    requires x.Node? && y.Node? && x.nt == y.nt && Links(f, fx, fy)
    requires Within(Declared(x, rx), fx) && Within(Declared(y, ry), fy) && Level(sites, rx, ry)
    requires sites ==> HeadScoped(x, rx) && HeadScoped(y, ry)
    ensures Level(sites, Declared(x, rx), Declared(y, ry))
    ensures sites && x.nt in DECL_NODE_TYPES ==> AlphaId(f, x.id, y.id)
  {
    if sites && x.nt in DECL_NODE_TYPES {
      var n := |rx.value|;
      assert Declared(x, rx).value == rx.value + [x.id.value];
      assert Declared(y, ry).value == ry.value + [y.id.value];
      assert fx[n] == x.id.value && fy[n] == y.id.value;
    }
  }

  lemma RefDistinct(sites: bool, f: map<int, int>, x: Item, y: Item, dx: Refs, dy: Refs, fx: seq<int>, fy: seq<int>)
    requires x.Node? && y.Node? && x.nt == y.nt && Links(f, fx, fy) && dx.Some? && dy.Some?
    requires RefOf(x, dx).0 == RefOf(y, dy).0 && Level(sites, dx, dy)
    requires Within(RefOf(x, dx).1, fx) && Within(RefOf(y, dy).1, fy)
    requires sites ==> (x.ref.Some? && x.ref.value >= 0 ==> x.ref.value in dx.value)
    requires sites ==> (y.ref.Some? && y.ref.value >= 0 ==> y.ref.value in dy.value)
    ensures AlphaRef(f, x, y) && Level(sites, RefOf(x, dx).1, RefOf(y, dy).1)
  {
    if x.ref.Some? && x.ref.value >= 0 {
      var k := RefOf(x, dx).0.k;
      assert y.ref.Some? && y.ref.value >= 0;
      assert fx[k] == x.ref.value && fy[k] == y.ref.value;
    }
  }

  lemma HeadDistinct(sites: bool, f: map<int, int>, x: Item, y: Item, rx: Refs, ry: Refs, fx: seq<int>, fy: seq<int>)
    requires x.Node? && y.Node? && x.nt == y.nt && Links(f, fx, fy) && rx.Some? && ry.Some?
    requires RefOf(x, Declared(x, rx)).0 == RefOf(y, Declared(y, ry)).0 && Level(sites, rx, ry)
    requires Within(HeadRefs(x, rx), fx) && Within(HeadRefs(y, ry), fy)
    requires sites ==> HeadScoped(x, rx) && HeadScoped(y, ry)
    ensures AlphaRef(f, x, y)
    ensures sites && x.nt in DECL_NODE_TYPES ==> AlphaId(f, x.id, y.id)
    ensures Level(sites, HeadRefs(x, rx), HeadRefs(y, ry))
  {
    hide Declared, RefOf, Links, AlphaRef, AlphaId;
    HeadExtends(x, rx);
    HeadExtends(y, ry);
    WithinEarlier(Declared(x, rx), HeadRefs(x, rx), fx);
    WithinEarlier(Declared(y, ry), HeadRefs(y, ry), fy);
    DeclaredDistinct(sites, f, x, y, rx, ry, fx, fy);
    RefDistinct(sites, f, x, y, Declared(x, rx), Declared(y, ry), fx, fy);
  }

  /** Equal hashes give equal content under any map that links the two numberings. */
  lemma {:induction false} CanonDistinct(w: Order, sites: bool, f: map<int, int>, x: Item, y: Item,
                                         rx: Refs, ry: Refs, fx: seq<int>, fy: seq<int>)
    requires rx.Some? && ry.Some? && Links(f, fx, fy) && Level(sites, rx, ry)
    requires sites ==> Scoped(w, x, rx) && Scoped(w, y, ry)
    requires Canon(w, x, rx).0 == Canon(w, y, ry).0
    requires Within(Canon(w, x, rx).1, fx) && Within(Canon(w, y, ry).1, fy)
    ensures Alpha(w, sites, f, x, y) && Level(sites, Canon(w, x, rx).1, Canon(w, y, ry).1)
    decreases Depth(x), 1, 0
  {
    hide *;
    match x {
      case Scalar(_) => ScalarDistinct(w, sites, f, x, y, rx, ry);
      case List(_) => ListDistinct(w, sites, f, x, y, rx, ry, fx, fy);
      case Node(_, _, _, _, _, _, _) => NodeDistinct(w, sites, f, x, y, rx, ry, fx, fy);
    }
  }

  lemma ScalarDistinct(w: Order, sites: bool, f: map<int, int>, x: Item, y: Item, rx: Refs, ry: Refs)
    requires x.Scalar? && rx.Some? && ry.Some? && Level(sites, rx, ry)
    requires Canon(w, x, rx).0 == Canon(w, y, ry).0
    ensures Alpha(w, sites, f, x, y) && Level(sites, Canon(w, x, rx).1, Canon(w, y, ry).1)
  {
  }

  lemma {:induction false} ListDistinct(w: Order, sites: bool, f: map<int, int>, x: Item, y: Item,
                                        rx: Refs, ry: Refs, fx: seq<int>, fy: seq<int>)
    requires x.List? && rx.Some? && ry.Some? && Links(f, fx, fy) && Level(sites, rx, ry)
    requires sites ==> Scoped(w, x, rx) && Scoped(w, y, ry)
    requires Canon(w, x, rx).0 == Canon(w, y, ry).0
    requires Within(Canon(w, x, rx).1, fx) && Within(Canon(w, y, ry).1, fy)
    ensures Alpha(w, sites, f, x, y) && Level(sites, Canon(w, x, rx).1, Canon(w, y, ry).1)
    decreases Depth(x), 0, 0
  {
    hide Links, CanonAll, ScopedAll, RefOf, Declared;
    CanonAllDistinct(w, sites, f, x.xs, y.xs, |x.xs|, rx, ry, fx, fy);
  }

  lemma ScopedNodeStep(w: Order, x: Item, refs: Refs)
    requires x.Node? && Scoped(w, x, refs)
    ensures var fs := Ordered(w, x.fields);
            HeadScoped(x, refs) && ScopedFields(w, x.nt, fs, |fs|, HeadRefs(x, refs))
  {
    hide ScopedFields, Ordered, RefOf, Declared;
  }

  lemma AlphaNodeStep(w: Order, sites: bool, f: map<int, int>, x: Item, y: Item)
    requires x.Node? && y.Node? && x.nt == y.nt && x.attrs == y.attrs && x.names == y.names
    requires TypeName(x) == TypeName(y) && AlphaRef(f, x, y)
    requires sites && x.nt in DECL_NODE_TYPES ==> AlphaId(f, x.id, y.id)
    requires var gs, hs := Ordered(w, x.fields), Ordered(w, y.fields);
             |gs| == |hs| && forall i :: 0 <= i < |gs| ==> AlphaField(w, sites, f, x.nt, gs[i], hs[i])
    ensures Alpha(w, sites, f, x, y)
  {
    hide AlphaField, Ordered, AlphaRef, AlphaId;
  }

  lemma CanonKind(w: Order, x: Item, refs: Refs)
    ensures Canon(w, x, refs).0.TNode? == x.Node?
    ensures Canon(w, x, refs).0.TList? == x.List?
  {
    hide CanonAll, CanonFields, Ordered, RefOf, Declared;
  }

  lemma {:induction false} NodeDistinct(w: Order, sites: bool, f: map<int, int>, x: Item, y: Item,
                                        rx: Refs, ry: Refs, fx: seq<int>, fy: seq<int>)
    requires x.Node? && rx.Some? && ry.Some? && Links(f, fx, fy) && Level(sites, rx, ry)
    requires sites ==> Scoped(w, x, rx) && Scoped(w, y, ry)
    requires Canon(w, x, rx).0 == Canon(w, y, ry).0
    requires Within(Canon(w, x, rx).1, fx) && Within(Canon(w, y, ry).1, fy)
    ensures Alpha(w, sites, f, x, y) && Level(sites, Canon(w, x, rx).1, Canon(w, y, ry).1)
    decreases Depth(x), 0, 0
  {
    hide *;
    CanonKind(w, x, rx);
    CanonKind(w, y, ry);
    CanonNodeStep(w, x, rx);
    CanonNodeStep(w, y, ry);
    if sites {
      ScopedNodeStep(w, x, rx);
      ScopedNodeStep(w, y, ry);
    }
    var gs, hs := Ordered(w, x.fields), Ordered(w, y.fields);
    var sx, sy := HeadRefs(x, rx), HeadRefs(y, ry);
    HeadExtends(x, rx);
    HeadExtends(y, ry);
    CanonFieldsExtends(w, x.nt, gs, |gs|, sx);
    CanonFieldsExtends(w, y.nt, hs, |hs|, sy);
    WithinEarlier(sx, Canon(w, x, rx).1, fx);
    WithinEarlier(sy, Canon(w, y, ry).1, fy);
    HeadDistinct(sites, f, x, y, rx, ry, fx, fy);
    CanonFieldsDistinct(w, sites, f, x.nt, gs, hs, |gs|, sx, sy, fx, fy);
    AlphaNodeStep(w, sites, f, x, y);
  }

  lemma CanonAllStep(w: Order, xs: seq<Item>, k: nat, refs: Refs)
    requires 0 < k <= |xs|
    ensures var p := CanonAll(w, xs, k - 1, refs); var q := Canon(w, xs[k - 1], p.1);
            && CanonAll(w, xs, k, refs) == (p.0 + [q.0], q.1)
            && Extends(refs, p.1) && Extends(p.1, q.1)
            && (ScopedAll(w, xs, k, refs) ==> ScopedAll(w, xs, k - 1, refs) && Scoped(w, xs[k - 1], p.1))
  {
    hide Canon, Scoped, Extends;
    CanonAllExtends(w, xs, k - 1, refs);
    CanonExtends(w, xs[k - 1], CanonAll(w, xs, k - 1, refs).1);
  }

  lemma CanonFieldsStep(w: Order, nt: string, fs: seq<Field>, k: nat, refs: Refs)
    requires 0 < k <= |fs| && forall i :: 0 <= i < |fs| ==> Visited(fs[i])
    ensures var p := CanonFields(w, nt, fs, k - 1, refs); var q := CanonField(w, nt, fs[k - 1], p.1);
            && CanonFields(w, nt, fs, k, refs) == (p.0 + [q.0], q.1)
            && Extends(refs, p.1) && Extends(p.1, q.1)
            && (ScopedFields(w, nt, fs, k, refs) ==>
                  ScopedFields(w, nt, fs, k - 1, refs) && ScopedField(w, nt, fs[k - 1], p.1))
  {
    hide CanonField, ScopedField, Extends, Visited;
    CanonFieldsExtends(w, nt, fs, k - 1, refs);
    CanonFieldExtends(w, nt, fs[k - 1], CanonFields(w, nt, fs, k - 1, refs).1);
  }

  lemma {:induction false} CanonAllDistinct(w: Order, sites: bool, f: map<int, int>, xs: seq<Item>, ys: seq<Item>,
                                            k: nat, rx: Refs, ry: Refs, fx: seq<int>, fy: seq<int>)
    requires rx.Some? && ry.Some? && Links(f, fx, fy) && Level(sites, rx, ry) && k <= |xs| && k <= |ys|
    requires sites ==> ScopedAll(w, xs, k, rx) && ScopedAll(w, ys, k, ry)
    requires CanonAll(w, xs, k, rx).0 == CanonAll(w, ys, k, ry).0
    requires Within(CanonAll(w, xs, k, rx).1, fx) && Within(CanonAll(w, ys, k, ry).1, fy)
    ensures forall i :: 0 <= i < k ==> Alpha(w, sites, f, xs[i], ys[i])
    ensures Level(sites, CanonAll(w, xs, k, rx).1, CanonAll(w, ys, k, ry).1)
    decreases DepthAll(xs), 2, k
  {
    hide Alpha, Canon, Links;
    if k > 0 {
      hide *;
      var (ts, px) := CanonAll(w, xs, k - 1, rx);
      var (us, py) := CanonAll(w, ys, k - 1, ry);
      CanonAllStep(w, xs, k, rx);
      CanonAllStep(w, ys, k, ry);
      WithinEarlier(px, CanonAll(w, xs, k, rx).1, fx);
      WithinEarlier(py, CanonAll(w, ys, k, ry).1, fy);
      PeelLast(ts, us, Canon(w, xs[k - 1], px).0, Canon(w, ys[k - 1], py).0);
      CanonAllDistinct(w, sites, f, xs, ys, k - 1, rx, ry, fx, fy);
      CanonDistinct(w, sites, f, xs[k - 1], ys[k - 1], px, py, fx, fy);
      forall i | 0 <= i < k
        ensures Alpha(w, sites, f, xs[i], ys[i])
      {
        assert i == k - 1 || i < k - 1;
      }
    }
  }

  lemma PeelLast<T>(a: seq<T>, b: seq<T>, x: T, y: T)
    requires a + [x] == b + [y]
    ensures a == b && x == y
  {
    assert (a + [x])[..|a|] == a && (b + [y])[..|b|] == b;
    assert (a + [x])[|a|] == x && (b + [y])[|b|] == y;
  }

  lemma {:induction false} CanonFieldDistinct(w: Order, sites: bool, f: map<int, int>, nt: string, a: Field, b: Field,
                                              rx: Refs, ry: Refs, fx: seq<int>, fy: seq<int>)
    requires Visited(a) && Visited(b) && rx.Some? && ry.Some? && Links(f, fx, fy) && Level(sites, rx, ry)
    requires sites ==> ScopedField(w, nt, a, rx) && ScopedField(w, nt, b, ry)
    requires CanonField(w, nt, a, rx).0 == CanonField(w, nt, b, ry).0
    requires Within(CanonField(w, nt, a, rx).1, fx) && Within(CanonField(w, nt, b, ry).1, fy)
    ensures AlphaField(w, sites, f, nt, a, b)
    ensures Level(sites, CanonField(w, nt, a, rx).1, CanonField(w, nt, b, ry).1)
    decreases Depth(a.val), 2, 0
  {
    hide Links, Alpha, Canon, CanonAll, Scoped, ScopedAll;
    if a.val.Node? {
      CanonDistinct(w, sites, f, a.val, b.val, rx, ry, fx, fy);
    } else {
      var xs, ys := Members(w, nt, a), Members(w, nt, b);
      assert CanonAll(w, xs, |xs|, rx).0 == CanonAll(w, ys, |ys|, ry).0;
      CanonAllDistinct(w, sites, f, xs, ys, |xs|, rx, ry, fx, fy);
    }
  }

  lemma {:induction false} CanonFieldsDistinct(w: Order, sites: bool, f: map<int, int>, nt: string, gs: seq<Field>,
                                               hs: seq<Field>, k: nat, rx: Refs, ry: Refs, fx: seq<int>, fy: seq<int>)
    requires forall i :: 0 <= i < |gs| ==> Visited(gs[i])
    requires forall i :: 0 <= i < |hs| ==> Visited(hs[i])
    requires rx.Some? && ry.Some? && Links(f, fx, fy) && Level(sites, rx, ry) && k <= |gs| && k <= |hs|
    requires sites ==> ScopedFields(w, nt, gs, k, rx) && ScopedFields(w, nt, hs, k, ry)
    requires CanonFields(w, nt, gs, k, rx).0 == CanonFields(w, nt, hs, k, ry).0
    requires Within(CanonFields(w, nt, gs, k, rx).1, fx) && Within(CanonFields(w, nt, hs, k, ry).1, fy)
    ensures forall i :: 0 <= i < k ==> AlphaField(w, sites, f, nt, gs[i], hs[i])
    ensures Level(sites, CanonFields(w, nt, gs, k, rx).1, CanonFields(w, nt, hs, k, ry).1)
    decreases DepthFields(gs), 3, k
  {
    hide AlphaField, Visited, CanonField, Links;
    if k > 0 {
      hide *;
      var (ts, px) := CanonFields(w, nt, gs, k - 1, rx);
      var (us, py) := CanonFields(w, nt, hs, k - 1, ry);
      CanonFieldsStep(w, nt, gs, k, rx);
      CanonFieldsStep(w, nt, hs, k, ry);
      WithinEarlier(px, CanonFields(w, nt, gs, k, rx).1, fx);
      WithinEarlier(py, CanonFields(w, nt, hs, k, ry).1, fy);
      PeelLast(ts, us, CanonField(w, nt, gs[k - 1], px).0, CanonField(w, nt, hs[k - 1], py).0);
      CanonFieldsDistinct(w, sites, f, nt, gs, hs, k - 1, rx, ry, fx, fy);
      CanonFieldDistinct(w, sites, f, nt, gs[k - 1], hs[k - 1], px, py, fx, fy);
      forall i | 0 <= i < k
        ensures AlphaField(w, sites, f, nt, gs[i], hs[i])
      {
        assert i == k - 1 || i < k - 1;
      }
    }
  }

  // ----- the main results -----

  function Linking(fx: seq<int>, fy: seq<int>): (f: map<int, int>) {
    map a | a in fx && Position(fx, a) < |fy| :: fy[Position(fx, a)]
  }

  lemma LinkingLinks(fx: seq<int>, fy: seq<int>)
    requires NoRepeats(fx) && NoRepeats(fy)
    ensures Links(Linking(fx, fy), fx, fy) && Injective(Linking(fx, fy))
  {
    var f := Linking(fx, fy);
    forall i | 0 <= i < |fx| && i < |fy|
      ensures Maps(f, fx[i], fy[i])
    {
      assert fx[i] in fx && Position(fx, fx[i]) == i;
    }
    forall a, b | a in f && b in f && f[a] == f[b]
      ensures a == b
    {
      assert Position(fx, a) == Position(fx, b);
    }
  }

  lemma DistinctFrom(w: Order, sites: bool, x: Item, y: Item, o: seq<int>)
    requires NoRepeats(o) && Canon(w, x, Some(o)).0 == Canon(w, y, Some(o)).0
    requires sites ==> Scoped(w, x, Some(o)) && Scoped(w, y, Some(o))
    ensures exists f: map<int, int> :: Injective(f) && Alpha(w, sites, f, x, y)
  {
    hide Canon, Scoped, Links, Linking, Injective, Alpha, NoRepeats;
    CanonExtends(w, x, Some(o));
    CanonExtends(w, y, Some(o));
    var fx, fy := Canon(w, x, Some(o)).1.value, Canon(w, y, Some(o)).1.value;
    LinkingLinks(fx, fy);
    CanonDistinct(w, sites, Linking(fx, fy), x, y, Some(o), Some(o), fx, fy);
  }

  /** An equal fingerprint always means equal content with references that agree under
      one injective renaming .. */
  lemma EqualHashesAgree(w: Order, x: Item, y: Item)
    requires Hash(w, x) == Hash(w, y)
    ensures exists f: map<int, int> :: Injective(f) && Alpha(w, false, f, x, y)
  {
    hide Injective, Alpha, Canon;
    DistinctFrom(w, false, x, y, []);
  }

  /** .. and, read in scope order, exactly alpha-equivalence, declarations included. */
  lemma EqualHashesExactly(w: Order, x: Item, y: Item)
    requires Scoped(w, x, Some([])) && Scoped(w, y, Some([]))
    ensures Hash(w, x) == Hash(w, y)
       <==> exists f: map<int, int> :: Injective(f) && Alpha(w, true, f, x, y)
  {
    hide Injective, Alpha, Canon, Scoped;
    if Hash(w, x) == Hash(w, y) {
      DistinctFrom(w, true, x, y, []);
    }
    if f: map<int, int> :| Injective(f) && Alpha(w, true, f, x, y) {
      HashInvariant(w, f, x, y);
    }
  }
}
