/** What equal fingerprints say of the nodes in the order they are met, and of the
    declarations the references resolve to. */
module FingerprintBinding {
  import opened Basics
  import opened Fingerprint
  import opened FingerprintProofs
  import opened FingerprintDistinct

  // ----- the nodes in the order the walk meets them -----

  function Met(w: Order, x: Item): seq<Item>
    decreases Depth(x), 0, 0
  {
    match x
    case Scalar(_) => []
    case List(xs) => MetAll(w, xs, |xs|)
    case Node(nt, _, _, _, _, _, fields) =>
      var fs := Ordered(w, fields);
      [x] + MetFields(w, nt, fs, |fs|)
  }

  function MetAll(w: Order, xs: seq<Item>, k: nat): seq<Item>
    requires k <= |xs|
    decreases DepthAll(xs), 1, k
  {
    if k == 0 then [] else MetAll(w, xs, k - 1) + Met(w, xs[k - 1])
  }

  function MetField(w: Order, nt: string, a: Field): seq<Item>
    requires Visited(a)
    decreases Depth(a.val), 1, 0
  {
    if a.val.Node? then Met(w, a.val)
    else MetAll(w, Members(w, nt, a), |Members(w, nt, a)|)
  }

  function MetFields(w: Order, nt: string, fs: seq<Field>, k: nat): seq<Item>
    requires k <= |fs| && forall i :: 0 <= i < |fs| ==> Visited(fs[i])
    decreases DepthFields(fs), 2, k
  {
    if k == 0 then [] else MetFields(w, nt, fs, k - 1) + MetField(w, nt, fs[k - 1])
  }

  // ----- programs as solc numbers them -----

  /** The kinds of node a referencedDeclaration of solc can name. */
  const REFERABLE: set<string> := {
    "SourceUnit", "ImportDirective", "ContractDefinition", "StructDefinition", "EnumDefinition", "EnumValue",
    "UserDefinedValueTypeDefinition", "FunctionDefinition", "ModifierDefinition", "EventDefinition",
    "ErrorDefinition", "VariableDeclaration" }

  /** Node i refers to node j. */
  predicate Binds(ns: seq<Item>, i: nat, j: nat)
    requires i < |ns| && j < |ns|
  {
    && ns[i].Node? && ns[j].Node?
    && ns[i].ref.Some? && ns[i].ref.value >= 0 && ns[j].id == ns[i].ref
  }

  ghost predicate GroundedAt(ns: seq<Item>, i: nat)
    requires i < |ns|
  {
    && ns[i].Node? && ns[i].id.Some?
    && (forall j :: 0 <= j < i ==> ns[j].Node? && ns[j].id != ns[i].id)
    && (ns[i].ref.Some? && ns[i].ref.value >= 0 ==>
          exists j :: 0 <= j <= i && Binds(ns, i, j) && ns[j].nt in REFERABLE)
  }

  /** Every node has an id of its own, and every reference names a declaration that is met
      no later. */
  ghost predicate Grounded(ns: seq<Item>) { forall i :: 0 <= i < |ns| ==> GroundedAt(ns, i) }

  lemma GroundedPrefix(ns: seq<Item>, ms: seq<Item>)
    requires Grounded(ns + ms)
    ensures Grounded(ns)
  {
    forall i | 0 <= i < |ns|
      ensures GroundedAt(ns, i)
    {
      GroundedInPrefix(ns, ms, i);
    }
  }

  lemma GroundedInPrefix(ns: seq<Item>, ms: seq<Item>, i: nat)
    requires i < |ns| && GroundedAt(ns + ms, i)
    ensures GroundedAt(ns, i)
  {
    var all := ns + ms;
    assert forall j :: 0 <= j <= i ==> all[j] == ns[j];
    if ns[i].ref.Some? && ns[i].ref.value >= 0 {
      var j :| 0 <= j <= i && Binds(all, i, j) && all[j].nt in REFERABLE;
      assert Binds(ns, i, j);
    }
  }

  // ----- such programs are read in scope order -----

  /** The map holds the ids of exactly the declarations met. */
  ghost predicate Tracks(ns: seq<Item>, refs: Refs) {
    refs.Some?
    && forall id :: id in refs.value
         <==> exists j :: 0 <= j < |ns| && ns[j].Node? && ns[j].nt in DECL_NODE_TYPES && ns[j].id == Some(id)
  }

  lemma TracksHead(ns: seq<Item>, x: Item, refs: Refs)
    requires x.Node? && Tracks(ns, refs) && GroundedAt(ns + [x], |ns|)
    ensures HeadScoped(x, refs) && Tracks(ns + [x], HeadRefs(x, refs))
  {
    var all := ns + [x];
    forall j | 0 <= j < |ns|
      ensures ns[j].Node? && ns[j].id != x.id
    {
      assert all[j] == ns[j];
    }
    var d := Declared(x, refs);
    TracksDeclared(ns, x, refs);
    if x.ref.Some? && x.ref.value >= 0 {
      var j :| 0 <= j <= |ns| && Binds(all, |ns|, j) && all[j].nt in REFERABLE;
      assert all[j].nt in DECL_NODE_TYPES;
      assert x.ref.value in d.value;
    }
  }

  lemma TracksDeclared(ns: seq<Item>, x: Item, refs: Refs)
    requires x.Node? && x.id.Some? && Tracks(ns, refs)
    ensures Tracks(ns + [x], Declared(x, refs))
  {
    var all, d := ns + [x], Declared(x, refs);
    forall id
      ensures id in d.value
         <==> exists j :: 0 <= j < |all| && all[j].Node? && all[j].nt in DECL_NODE_TYPES && all[j].id == Some(id)
    {
      if j :| 0 <= j < |ns| && ns[j].Node? && ns[j].nt in DECL_NODE_TYPES && ns[j].id == Some(id) {
        assert all[j] == ns[j];
      }
      if j :| 0 <= j < |all| && all[j].Node? && all[j].nt in DECL_NODE_TYPES && all[j].id == Some(id) {
        if j < |ns| { assert ns[j] == all[j]; }
      }
      assert all[|ns|] == x;
    }
  }

  lemma ScopedNode(w: Order, x: Item, refs: Refs)
    requires x.Node? && HeadScoped(x, refs)
    requires var fs := Ordered(w, x.fields); ScopedFields(w, x.nt, fs, |fs|, HeadRefs(x, refs))
    ensures Scoped(w, x, refs)
  {
    hide ScopedFields, Ordered, RefOf, Declared;
  }

  lemma MetNode(w: Order, x: Item)
    requires x.Node?
    ensures var fs := Ordered(w, x.fields); Met(w, x) == [x] + MetFields(w, x.nt, fs, |fs|)
  {
    hide MetFields, Ordered;
  }

  lemma Regroup(a: seq<Item>, b: seq<Item>, c: seq<Item>)
    ensures a + (b + c) == a + b + c
  {
  }

  lemma {:induction false} GroundedScoped(w: Order, x: Item, ns: seq<Item>, refs: Refs)
    requires Tracks(ns, refs) && Grounded(ns + Met(w, x))
    ensures Scoped(w, x, refs) && Tracks(ns + Met(w, x), Canon(w, x, refs).1)
    decreases Depth(x), 1, 0
  {
    hide Tracks, Grounded, MetAll, MetFields, CanonAll, CanonFields, Ordered;
    match x {
      case Scalar(_) => assert ns + [] == ns;
      case List(xs) => GroundedAll(w, xs, |xs|, ns, refs);
      case Node(_, _, _, _, _, _, _) => GroundedNode(w, x, ns, refs);
    }
  }

  lemma {:induction false} GroundedNode(w: Order, x: Item, ns: seq<Item>, refs: Refs)
    requires x.Node? && Tracks(ns, refs) && Grounded(ns + Met(w, x))
    ensures Scoped(w, x, refs) && Tracks(ns + Met(w, x), Canon(w, x, refs).1)
    decreases Depth(x), 0, 0
  {
    hide *;
    var fs := Ordered(w, x.fields);
    MetNode(w, x);
    CanonNodeStep(w, x, refs);
    var rest := MetFields(w, x.nt, fs, |fs|);
    Regroup(ns, [x], rest);
    GroundedPrefix(ns + [x], rest);
    LastGrounded(ns, x);
    TracksHead(ns, x, refs);
    GroundedFields(w, x.nt, fs, |fs|, ns + [x], HeadRefs(x, refs));
    ScopedNode(w, x, refs);
  }

  lemma LastGrounded(ns: seq<Item>, x: Item)
    requires Grounded(ns + [x])
    ensures GroundedAt(ns + [x], |ns|)
  {
  }

  lemma {:induction false} GroundedAll(w: Order, xs: seq<Item>, k: nat, ns: seq<Item>, refs: Refs)
    requires k <= |xs| && Tracks(ns, refs) && Grounded(ns + MetAll(w, xs, k))
    ensures ScopedAll(w, xs, k, refs) && Tracks(ns + MetAll(w, xs, k), CanonAll(w, xs, k, refs).1)
    decreases DepthAll(xs), 1, k
  {
    hide Tracks, Grounded, Met, Canon, Scoped;
    if k == 0 {
      assert ns + [] == ns;
    } else {
      var before, last := MetAll(w, xs, k - 1), Met(w, xs[k - 1]);
      Regroup(ns, before, last);
      GroundedPrefix(ns + before, last);
      GroundedAll(w, xs, k - 1, ns, refs);
      GroundedScoped(w, xs[k - 1], ns + before, CanonAll(w, xs, k - 1, refs).1);
    }
  }

  lemma {:induction false} GroundedField(w: Order, nt: string, a: Field, ns: seq<Item>, refs: Refs)
    requires Visited(a) && Tracks(ns, refs) && Grounded(ns + MetField(w, nt, a))
    ensures ScopedField(w, nt, a, refs) && Tracks(ns + MetField(w, nt, a), CanonField(w, nt, a, refs).1)
    decreases Depth(a.val), 2, 0
  {
    hide Tracks, Grounded, Met, Canon, Scoped, MetAll, CanonAll, ScopedAll;
    if a.val.Node? {
      GroundedScoped(w, a.val, ns, refs);
    } else {
      var xs := Members(w, nt, a);
      GroundedAll(w, xs, |xs|, ns, refs);
    }
  }

  lemma {:induction false} GroundedFields(w: Order, nt: string, fs: seq<Field>, k: nat, ns: seq<Item>, refs: Refs)
    requires k <= |fs| && forall i :: 0 <= i < |fs| ==> Visited(fs[i])
    requires Tracks(ns, refs) && Grounded(ns + MetFields(w, nt, fs, k))
    ensures ScopedFields(w, nt, fs, k, refs) && Tracks(ns + MetFields(w, nt, fs, k), CanonFields(w, nt, fs, k, refs).1)
    decreases DepthFields(fs), 3, k
  {
    hide Tracks, Grounded, MetField, CanonField, ScopedField, Visited;
    if k == 0 {
      assert ns + [] == ns;
    } else {
      var before, last := MetFields(w, nt, fs, k - 1), MetField(w, nt, fs[k - 1]);
      Regroup(ns, before, last);
      GroundedPrefix(ns + before, last);
      GroundedFields(w, nt, fs, k - 1, ns, refs);
      GroundedField(w, nt, fs[k - 1], ns + before, CanonFields(w, nt, fs, k - 1, refs).1);
    }
  }

  /** On programs numbered as solc numbers them, with declarations met before their uses,
      equal fingerprints are exactly alpha-equivalence. */
  lemma GroundedExactly(w: Order, x: Item, y: Item)
    requires Grounded(Met(w, x)) && Grounded(Met(w, y))
    ensures Hash(w, x) == Hash(w, y)
       <==> exists f: map<int, int> :: Injective(f) && Alpha(w, true, f, x, y)
  {
    hide Injective, Alpha, Hash, Scoped, Grounded, Met, Canon;
    assert Tracks([], Some([]));
    assert [] + Met(w, x) == Met(w, x) && [] + Met(w, y) == Met(w, y);
    GroundedScoped(w, x, [], Some([]));
    GroundedScoped(w, y, [], Some([]));
    EqualHashesExactly(w, x, y);
  }

  // ----- equal fingerprints, node by node -----

  /** Two nodes with the same hashed content, their references related by f, and with
      `sites` the ids of declarations too. */
  predicate HeadAlike(sites: bool, f: map<int, int>, a: Item, b: Item) {
    && a.Node? && b.Node?
    && a.nt == b.nt && a.attrs == b.attrs && a.names == b.names && TypeName(a) == TypeName(b)
    && (sites && a.nt in DECL_NODE_TYPES ==> AlphaId(f, a.id, b.id))
    && AlphaRef(f, a, b)
  }

  predicate AllAlike(sites: bool, f: map<int, int>, ns: seq<Item>, ms: seq<Item>) {
    |ns| == |ms| && forall i :: 0 <= i < |ns| ==> HeadAlike(sites, f, ns[i], ms[i])
  }

  lemma AlikeJoin(sites: bool, f: map<int, int>, a: seq<Item>, b: seq<Item>, c: seq<Item>, d: seq<Item>)
    requires AllAlike(sites, f, a, b) && AllAlike(sites, f, c, d)
    ensures AllAlike(sites, f, a + c, b + d)
  {
    hide HeadAlike;
  }

  lemma AlphaHead(w: Order, sites: bool, f: map<int, int>, x: Item, y: Item)
    requires x.Node? && Alpha(w, sites, f, x, y)
    ensures AllAlike(sites, f, [x], [y])
    ensures AlphaFields(w, sites, f, x.nt, Ordered(w, x.fields), Ordered(w, y.fields)) && x.nt == y.nt
  {
    hide AlphaFields, Ordered;
  }

  lemma {:induction false} MetAlike(w: Order, sites: bool, f: map<int, int>, x: Item, y: Item)
    requires Alpha(w, sites, f, x, y)
    ensures AllAlike(sites, f, Met(w, x), Met(w, y))
    decreases Depth(x), 0, 0
  {
    match x {
      case Scalar(_) =>
      case List(xs) =>
        hide AllAlike, Ordered;
        MetAllAlike(w, sites, f, xs, y.xs, |xs|);
      case Node(_, _, _, _, _, _, _) =>
        hide *;
        AlphaHead(w, sites, f, x, y);
        MetNode(w, x);
        MetNode(w, y);
        var fs, gs := Ordered(w, x.fields), Ordered(w, y.fields);
        FieldsSize(w, sites, f, x.nt, fs, gs);
        MetFieldsAlike(w, sites, f, x.nt, fs, gs, |fs|);
        AlikeJoin(sites, f, [x], [y], MetFields(w, x.nt, fs, |fs|), MetFields(w, y.nt, gs, |gs|));
    }
  }

  lemma FieldsSize(w: Order, sites: bool, f: map<int, int>, nt: string, fs: seq<Field>, gs: seq<Field>)
    requires forall i :: 0 <= i < |fs| ==> Visited(fs[i])
    requires forall i :: 0 <= i < |gs| ==> Visited(gs[i])
    requires AlphaFields(w, sites, f, nt, fs, gs)
    ensures |fs| == |gs|
  {
    hide AlphaField, Visited;
  }

  lemma {:induction false} MetAllAlike(w: Order, sites: bool, f: map<int, int>, xs: seq<Item>, ys: seq<Item>, k: nat)
    requires AlphaAll(w, sites, f, xs, ys) && k <= |xs|
    ensures AllAlike(sites, f, MetAll(w, xs, k), MetAll(w, ys, k))
    decreases DepthAll(xs), 1, k
  {
    hide HeadAlike, Alpha, Met;
    if k > 0 {
      MetAllAlike(w, sites, f, xs, ys, k - 1);
      MetAlike(w, sites, f, xs[k - 1], ys[k - 1]);
      AlikeJoin(sites, f, MetAll(w, xs, k - 1), MetAll(w, ys, k - 1), Met(w, xs[k - 1]), Met(w, ys[k - 1]));
    }
  }

  lemma {:induction false} MetFieldAlike(w: Order, sites: bool, f: map<int, int>, nt: string, a: Field, b: Field)
    requires Visited(a) && Visited(b) && AlphaField(w, sites, f, nt, a, b)
    ensures AllAlike(sites, f, MetField(w, nt, a), MetField(w, nt, b))
    decreases Depth(a.val), 1, 0
  {
    hide AllAlike, Alpha, Met, MetAll, Members;
    if a.val.Node? {
      MetAlike(w, sites, f, a.val, b.val);
    } else {
      var xs, ys := Members(w, nt, a), Members(w, nt, b);
      assert AlphaAll(w, sites, f, xs, ys);
      MetAllAlike(w, sites, f, xs, ys, |xs|);
    }
  }

  lemma {:induction false} MetFieldsAlike(w: Order, sites: bool, f: map<int, int>, nt: string, fs: seq<Field>,
                                          gs: seq<Field>, k: nat)
    requires forall i :: 0 <= i < |fs| ==> Visited(fs[i])
    requires forall i :: 0 <= i < |gs| ==> Visited(gs[i])
    requires AlphaFields(w, sites, f, nt, fs, gs) && k <= |fs| && k <= |gs|
    ensures AllAlike(sites, f, MetFields(w, nt, fs, k), MetFields(w, nt, gs, k))
    decreases DepthFields(fs), 2, k
  {
    hide HeadAlike, AlphaField, MetField, Visited;
    if k > 0 {
      MetFieldsAlike(w, sites, f, nt, fs, gs, k - 1);
      MetFieldAlike(w, sites, f, nt, fs[k - 1], gs[k - 1]);
      AlikeJoin(sites, f, MetFields(w, nt, fs, k - 1), MetFields(w, nt, gs, k - 1),
                MetField(w, nt, fs[k - 1]), MetField(w, nt, gs[k - 1]));
    }
  }

  /** With no premise: programs with equal fingerprints meet nodes of the same kind, with the
      same attributes and named arguments, one by one; references to built-ins are the same,
      references by spelling have the same spelling, and elementary types the same name. */
  lemma EqualHashesHeads(w: Order, x: Item, y: Item)
    requires Hash(w, x) == Hash(w, y)
    ensures var ns, ms := Met(w, x), Met(w, y);
      |ns| == |ms| && forall i :: 0 <= i < |ns| ==>
        && ns[i].Node? && ms[i].Node?
        && ns[i].nt == ms[i].nt && ns[i].attrs == ms[i].attrs && ns[i].names == ms[i].names
        && ns[i].ref.Some? == ms[i].ref.Some?
        && (ns[i].ref.Some? && ns[i].ref.value < 0 ==> ms[i].ref == ns[i].ref)
        && (ns[i].ref.None? && ns[i].nt in {"Identifier", "IdentifierPath", "UserDefinedTypeName"} ==>
              ms[i].name == ns[i].name)
        && (ns[i].nt == "ElementaryTypeName" ==> ms[i].name == ns[i].name)
  {
    hide Injective, Alpha, Hash, Met;
    EqualHashesAgree(w, x, y);
    var f: map<int, int> :| Injective(f) && Alpha(w, false, f, x, y);
    MetAlike(w, false, f, x, y);
    var ns, ms := Met(w, x), Met(w, y);
    assert forall i :: 0 <= i < |ns| ==> HeadAlike(false, f, ns[i], ms[i]);
  }

  // ----- and reference by reference -----

  lemma BindsUnder(f: map<int, int>, ns: seq<Item>, ms: seq<Item>, i: nat, j: nat)
    requires Injective(f) && AllAlike(true, f, ns, ms) && Grounded(ns) && i < |ns| && j < |ns| && Binds(ns, i, j)
    ensures Binds(ms, i, j)
  {
    assert HeadAlike(true, f, ns[i], ms[i]) && HeadAlike(true, f, ns[j], ms[j]);
    assert GroundedAt(ns, i);
    var k :| 0 <= k <= i && Binds(ns, i, k) && ns[k].nt in REFERABLE;
    SameId(ns, j, k);
  }

  lemma SameId(ns: seq<Item>, j: nat, k: nat)
    requires Grounded(ns) && j < |ns| && k < |ns| && ns[j].Node? && ns[k].Node? && ns[j].id == ns[k].id
    ensures j == k
  {
    assert GroundedAt(ns, j) && GroundedAt(ns, k);
  }

  lemma BindsBack(f: map<int, int>, ns: seq<Item>, ms: seq<Item>, i: nat, j: nat)
    requires Injective(f) && AllAlike(true, f, ns, ms) && Grounded(ns) && Grounded(ms)
    requires i < |ns| && j < |ns| && Binds(ms, i, j)
    ensures Binds(ns, i, j)
  {
    assert HeadAlike(true, f, ns[i], ms[i]);
    assert GroundedAt(ns, i);
    var k :| 0 <= k <= i && Binds(ns, i, k) && ns[k].nt in REFERABLE;
    BindsUnder(f, ns, ms, i, k);
    SameId(ms, j, k);
  }

  /** On such programs equal fingerprints mean that every reference resolves to the same
      declaration, told by its place among the nodes met. */
  lemma EqualHashesBind(w: Order, x: Item, y: Item)
    requires Grounded(Met(w, x)) && Grounded(Met(w, y)) && Hash(w, x) == Hash(w, y)
    ensures var ns, ms := Met(w, x), Met(w, y);
      |ns| == |ms|
      && forall i, j :: 0 <= i < |ns| && 0 <= j < |ns| ==> (Binds(ns, i, j) <==> Binds(ms, i, j))
  {
    hide Injective, Alpha, Hash, Met, Grounded, HeadAlike, Binds;
    GroundedExactly(w, x, y);
    var f: map<int, int> :| Injective(f) && Alpha(w, true, f, x, y);
    MetAlike(w, true, f, x, y);
    var ns, ms := Met(w, x), Met(w, y);
    forall i, j | 0 <= i < |ns| && 0 <= j < |ns|
      ensures Binds(ns, i, j) <==> Binds(ms, i, j)
    {
      if Binds(ns, i, j) { BindsUnder(f, ns, ms, i, j); }
      if Binds(ms, i, j) { BindsBack(f, ns, ms, i, j); }
    }
  }

  function IdOf(n: Item): Option<int> { if n.Node? then n.id else None }

  function TargetOf(n: Item): Option<int> { if n.Node? then n.ref else None }

  lemma SameTarget(ns: seq<Item>, ms: seq<Item>, i: nat)
    requires i < |ns| == |ms| && GroundedAt(ns, i) && ms[i].Node?
    requires forall j :: 0 <= j < |ns| ==> IdOf(ns[j]) == IdOf(ms[j])
    requires forall j :: 0 <= j < |ns| && Binds(ns, i, j) ==> Binds(ms, i, j)
    requires ns[i].ref.Some? && ns[i].ref.value >= 0
    ensures ns[i].ref == ms[i].ref
  {
    hide REFERABLE;
    var j :| 0 <= j <= i && Binds(ns, i, j) && ns[j].nt in REFERABLE;
    assert Binds(ms, i, j) && IdOf(ns[j]) == IdOf(ms[j]);
  }

  lemma SameTargets(w: Order, x: Item, y: Item, i: nat)
    requires Grounded(Met(w, x)) && Grounded(Met(w, y)) && Hash(w, x) == Hash(w, y) && i < |Met(w, x)| == |Met(w, y)|
    requires forall j :: 0 <= j < |Met(w, x)| ==> IdOf(Met(w, x)[j]) == IdOf(Met(w, y)[j])
    ensures TargetOf(Met(w, x)[i]) == TargetOf(Met(w, y)[i])
  {
    hide Hash, Met, GroundedAt, Binds;
    var ns, ms := Met(w, x), Met(w, y);
    EqualHashesHeads(w, x, y);
    EqualHashesBind(w, x, y);
    assert GroundedAt(ns, i);
    if ns[i].ref.Some? && ns[i].ref.value >= 0 { SameTarget(ns, ms, i); }
    if ms[i].ref.Some? && ms[i].ref.value >= 0 {
      assert GroundedAt(ms, i);
      SameTarget(ms, ns, i);
    }
  }

  /** So with the declarations in place, any reference that is moved to another one shows:
      a - b and b - a differ wherever a and b are declared. */
  lemma MovedReferenceShows(w: Order, x: Item, y: Item, i: nat)
    requires Grounded(Met(w, x)) && Grounded(Met(w, y)) && i < |Met(w, x)| == |Met(w, y)|
    requires forall j :: 0 <= j < |Met(w, x)| ==> IdOf(Met(w, x)[j]) == IdOf(Met(w, y)[j])
    requires TargetOf(Met(w, x)[i]) != TargetOf(Met(w, y)[i])
    ensures Hash(w, x) != Hash(w, y)
  {
    hide *;
    if Hash(w, x) == Hash(w, y) { SameTargets(w, x, y, i); }
  }
}
