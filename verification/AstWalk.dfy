/** The coverage walkers over a JSON syntax tree, against one top-down traversal. */
module AstWalk {
  import opened Basics

  datatype Scalar = Null | Bool(b: bool) | Number(text: string) | Str(s: string)

  /** A dict keeps its `nodeType` apart when that is a string; any other value of the key
      is an ordinary entry. */
  datatype Json =
    | Atom(scalar: Scalar)
    | List(xs: seq<Json>)
    | Dict(kind: Option<string>, entries: seq<Entry>)

  datatype Entry = Entry(key: string, val: Json)

  /** The nearest enclosing node and the path of fields below it. */
  datatype Place = Place(parent: string, path: string)

  datatype Edge = Edge(place: Place, child: string)

  datatype Found = Found(place: Place, value: Json)

  predicate IsNode(v: Json) { v.Dict? && v.kind.Some? }

  /** The values directly inside v; list items have no key. */
  function Kids(v: Json): (r: seq<Entry>)
    ensures forall i :: 0 <= i < |r| ==> r[i].val < v
  {
    match v
    case Atom(_) => []
    case List(xs) => seq(|xs|, i requires 0 <= i < |xs| => Entry("", xs[i]))
    case Dict(_, entries) => entries
  }

  /** Where the values inside v belong, when v itself stands at ctx. */
  function Into(ctx: Option<Place>, v: Json, key: string): Option<Place> {
    if IsNode(v) then Some(Place(v.kind.value, key))
    else if ctx.None? || !v.Dict? then ctx
    else Some(Place(ctx.value.parent, if ctx.value.path == "" then key else ctx.value.path + "." + key))
  }

  // ----- the reference: every value of the tree once, top down, with its place -----

  datatype Spot = Spot(ctx: Option<Place>, item: Json)

  function Spots(ctx: Option<Place>, v: Json): seq<Spot>
    decreases v, 1, 0
  {
    [Spot(ctx, v)] + SpotsIn(ctx, v, |Kids(v)|)
  }

  function SpotsIn(ctx: Option<Place>, v: Json, k: nat): seq<Spot>
    requires k <= |Kids(v)|
    decreases v, 0, k
  {
    if k == 0 then []
    else
      var kid := Kids(v)[k - 1];
      SpotsIn(ctx, v, k - 1) + Spots(Into(ctx, v, kid.key), kid.val)
  }

  // ----- the same places, told from the lists and dicts alone -----

  /** The path of a key: keys since the nearest node, joined by dots. */
  function Below(path: string, key: string): string { if path == "" then key else path + "." + key }

  /** Every value with the nearest enclosing node and the dotted keys since, the items of a
      list standing where the list stands. */
  function Places(ctx: Option<Place>, v: Json): seq<Spot>
    decreases v, 1, 0
  {
    [Spot(ctx, v)]
    + match v
      case Atom(_) => []
      case List(xs) => PlacesOfItems(ctx, xs, |xs|)
      case Dict(kind, entries) => PlacesOfEntries(ctx, kind, entries, |entries|)
  }

  function PlacesOfItems(ctx: Option<Place>, xs: seq<Json>, k: nat): seq<Spot>
    requires k <= |xs|
    decreases xs, 0, k
  {
    if k == 0 then [] else PlacesOfItems(ctx, xs, k - 1) + Places(ctx, xs[k - 1])
  }

  function PlacesOfEntries(ctx: Option<Place>, kind: Option<string>, entries: seq<Entry>, k: nat): seq<Spot>
    requires k <= |entries|
    decreases entries, 0, k
  {
    if k == 0 then []
    else
      var Entry(key, val) := entries[k - 1];
      var at := match (kind, ctx)
                case (Some(node), _) => Some(Place(node, key))
                case (None, Some(p)) => Some(Place(p.parent, Below(p.path, key)))
                case (None, None) => None;
      PlacesOfEntries(ctx, kind, entries, k - 1) + Places(at, val)
  }

  /** The reference traversal is that. */
  lemma {:induction false} SpotsExactly(ctx: Option<Place>, v: Json)
    ensures Spots(ctx, v) == Places(ctx, v)
    decreases v, 1, 0
  {
    match v {
      case Atom(_) =>
      case List(xs) => ItemsExactly(ctx, v, |xs|);
      case Dict(_, entries) => EntriesExactly(ctx, v, |entries|);
    }
  }

  lemma {:induction false} ItemsExactly(ctx: Option<Place>, v: Json, k: nat)
    requires v.List? && k <= |v.xs|
    ensures |Kids(v)| == |v.xs| && SpotsIn(ctx, v, k) == PlacesOfItems(ctx, v.xs, k)
    decreases v, 0, k
  {
    hide Spots, Places;
    if k > 0 {
      ItemsExactly(ctx, v, k - 1);
      SpotsExactly(ctx, v.xs[k - 1]);
    }
  }

  lemma {:induction false} EntriesExactly(ctx: Option<Place>, v: Json, k: nat)
    requires v.Dict? && k <= |v.entries|
    ensures |Kids(v)| == |v.entries| && SpotsIn(ctx, v, k) == PlacesOfEntries(ctx, v.kind, v.entries, k)
    decreases v, 0, k
  {
    hide Spots, Places;
    if k > 0 {
      EntriesExactly(ctx, v, k - 1);
      SpotsExactly(Into(ctx, v, v.entries[k - 1].key), v.entries[k - 1].val);
    }
  }

  function NodeAt(s: Spot): seq<string> { if IsNode(s.item) then [s.item.kind.value] else [] }

  function EdgeAt(s: Spot): seq<Edge> {
    if IsNode(s.item) && s.ctx.Some? then [Edge(s.ctx.value, s.item.kind.value)] else []
  }

  function ScalarAt(s: Spot): seq<Found> {
    if s.item.Atom? && s.ctx.Some? then [Found(s.ctx.value, s.item)] else []
  }

  function NodesAt(spots: seq<Spot>): seq<string> {
    if spots == [] then [] else NodeAt(spots[0]) + NodesAt(spots[1..])
  }

  function EdgesAt(spots: seq<Spot>): seq<Edge> {
    if spots == [] then [] else EdgeAt(spots[0]) + EdgesAt(spots[1..])
  }

  function ScalarsAt(spots: seq<Spot>): (r: seq<Found>)
    ensures forall i :: 0 <= i < |r| ==> r[i].value.Atom?
  {
    if spots == [] then [] else ScalarAt(spots[0]) + ScalarsAt(spots[1..])
  }

  // ----- iter_node_types -----

  function NodeTypes(v: Json): seq<string>
    decreases v, 1, 0
  {
    (if IsNode(v) then [v.kind.value] else []) + NodeTypesIn(v, |Kids(v)|)
  }

  function NodeTypesIn(v: Json, k: nat): seq<string>
    requires k <= |Kids(v)|
    decreases v, 0, k
  {
    if k == 0 then [] else NodeTypesIn(v, k - 1) + NodeTypes(Kids(v)[k - 1].val)
  }

  // ----- iter_child_edges -----

  function CollectEdges(p: Place, v: Json): seq<Edge>
    decreases v, 2, 0
  {
    if IsNode(v) then [Edge(p, v.kind.value)] + WalkEdges(v)
    else CollectEdgesIn(Some(p), v, |Kids(v)|)
  }

  /** collect over the values inside v, which all have a place. */
  function CollectEdgesIn(ctx: Option<Place>, v: Json, k: nat): seq<Edge>
    requires k <= |Kids(v)| && (ctx.Some? || IsNode(v))
    decreases v, 0, k
  {
    if k == 0 then []
    else
      var kid := Kids(v)[k - 1];
      CollectEdgesIn(ctx, v, k - 1) + CollectEdges(Into(ctx, v, kid.key).value, kid.val)
  }

  function WalkEdges(v: Json): seq<Edge>
    decreases v, 1, 0
  {
    if IsNode(v) then CollectEdgesIn(None, v, |Kids(v)|) else WalkEdgesIn(v, |Kids(v)|)
  }

  function WalkEdgesIn(v: Json, k: nat): seq<Edge>
    requires k <= |Kids(v)|
    decreases v, 0, k
  {
    if k == 0 then [] else WalkEdgesIn(v, k - 1) + WalkEdges(Kids(v)[k - 1].val)
  }

  // ----- iter_scalar_fields -----

  function CollectScalars(p: Place, v: Json): seq<Found>
    decreases v, 1, 0
  {
    if v.Atom? then [Found(p, v)]
    else if IsNode(v) then []
    else CollectScalarsIn(Some(p), v, |Kids(v)|)
  }

  /** A list directly inside a list is reported whole. */
  function CollectScalarsIn(ctx: Option<Place>, v: Json, k: nat): seq<Found>
    requires k <= |Kids(v)| && (ctx.Some? || IsNode(v))
    decreases v, 0, k
  {
    if k == 0 then []
    else
      var kid := Kids(v)[k - 1];
      var p := Into(ctx, v, kid.key).value;
      CollectScalarsIn(ctx, v, k - 1)
      + if v.List? && kid.val.List? then [Found(p, kid.val)] else CollectScalars(p, kid.val)
  }

  function WalkScalars(v: Json): seq<Found>
    decreases v, 1, 0
  {
    (if IsNode(v) then CollectScalarsIn(None, v, |Kids(v)|) else []) + WalkScalarsIn(v, |Kids(v)|)
  }

  function WalkScalarsIn(v: Json, k: nat): seq<Found>
    requires k <= |Kids(v)|
    decreases v, 0, k
  {
    if k == 0 then [] else WalkScalarsIn(v, k - 1) + WalkScalars(Kids(v)[k - 1].val)
  }

  // ----- the readings of the reference distribute over concatenation -----

  lemma Grow<T>(a: seq<T>, b: seq<T>, c: seq<T>)
    ensures a + b + c == a + (b + c)
  {
  }

  lemma {:induction false} NodesJoin(a: seq<Spot>, b: seq<Spot>)
    ensures NodesAt(a + b) == NodesAt(a) + NodesAt(b)
  {
    hide NodeAt;
    if a == [] {
      assert a + b == b;
    } else {
      NodesJoin(a[1..], b);
      assert (a + b)[1..] == a[1..] + b && (a + b)[0] == a[0];
      Grow(NodeAt(a[0]), NodesAt(a[1..]), NodesAt(b));
    }
  }

  lemma {:induction false} EdgesJoin(a: seq<Spot>, b: seq<Spot>)
    ensures EdgesAt(a + b) == EdgesAt(a) + EdgesAt(b)
  {
    hide EdgeAt;
    if a == [] {
      assert a + b == b;
    } else {
      EdgesJoin(a[1..], b);
      assert (a + b)[1..] == a[1..] + b && (a + b)[0] == a[0];
      Grow(EdgeAt(a[0]), EdgesAt(a[1..]), EdgesAt(b));
    }
  }

  lemma {:induction false} ScalarsJoin(a: seq<Spot>, b: seq<Spot>)
    ensures ScalarsAt(a + b) == ScalarsAt(a) + ScalarsAt(b)
  {
    hide ScalarAt;
    if a == [] {
      assert a + b == b;
    } else {
      ScalarsJoin(a[1..], b);
      assert (a + b)[1..] == a[1..] + b && (a + b)[0] == a[0];
      Grow(ScalarAt(a[0]), ScalarsAt(a[1..]), ScalarsAt(b));
    }
  }

  // ----- nodes and edges -----

  /** iter_node_types meets every node once, in top-down order. */
  lemma {:induction false} NodeTypesExactly(ctx: Option<Place>, v: Json)
    ensures NodeTypes(v) == NodesAt(Spots(ctx, v))
    decreases v, 1, 0
  {
    NodeTypesInExactly(ctx, v, |Kids(v)|);
    NodesJoin([Spot(ctx, v)], SpotsIn(ctx, v, |Kids(v)|));
  }

  lemma SpotsStep(ctx: Option<Place>, v: Json, k: nat)
    requires 0 < k <= |Kids(v)|
    ensures var kid := Kids(v)[k - 1];
            && kid.val < v
            && SpotsIn(ctx, v, k) == SpotsIn(ctx, v, k - 1) + Spots(Into(ctx, v, kid.key), kid.val)
            && NodeTypesIn(v, k) == NodeTypesIn(v, k - 1) + NodeTypes(kid.val)
            && WalkEdgesIn(v, k) == WalkEdgesIn(v, k - 1) + WalkEdges(kid.val)
  {
    hide Spots, NodeTypes, WalkEdges, Into;
  }

  lemma SpotsStart(ctx: Option<Place>, v: Json)
    ensures SpotsIn(ctx, v, 0) == [] && NodeTypesIn(v, 0) == [] && WalkEdgesIn(v, 0) == []
    ensures NodesAt([]) == [] && EdgesAt([]) == []
  {
  }

  lemma {:induction false} NodeTypesInExactly(ctx: Option<Place>, v: Json, k: nat)
    requires k <= |Kids(v)|
    ensures NodeTypesIn(v, k) == NodesAt(SpotsIn(ctx, v, k))
    decreases v, 0, k
  {
    hide *;
    if k == 0 {
      SpotsStart(ctx, v);
    } else {
      var kid := Kids(v)[k - 1];
      SpotsStep(ctx, v, k);
      NodeTypesInExactly(ctx, v, k - 1);
      NodeTypesExactly(Into(ctx, v, kid.key), kid.val);
      NodesJoin(SpotsIn(ctx, v, k - 1), Spots(Into(ctx, v, kid.key), kid.val));
    }
  }

  /** iter_child_edges yields the edge into every node that has an enclosing node. */
  lemma {:induction false} EdgesExactly(v: Json)
    ensures WalkEdges(v) == EdgesAt(Spots(None, v))
    decreases v, 1, 0
  {
    EdgesJoin([Spot(None, v)], SpotsIn(None, v, |Kids(v)|));
    if IsNode(v) {
      CollectInExactly(None, v, |Kids(v)|);
    } else {
      WalkInExactly(v, |Kids(v)|);
    }
  }

  lemma {:induction false} CollectExactly(p: Place, v: Json)
    ensures CollectEdges(p, v) == EdgesAt(Spots(Some(p), v))
    decreases v, 2, 0
  {
    EdgesJoin([Spot(Some(p), v)], SpotsIn(Some(p), v, |Kids(v)|));
    if IsNode(v) {
      CollectInExactly(None, v, |Kids(v)|);
      SameInside(Some(p), None, v, |Kids(v)|);
    } else {
      CollectInExactly(Some(p), v, |Kids(v)|);
    }
  }

  /** What lies inside a node does not depend on where the node is. */
  lemma {:induction false} SameInside(a: Option<Place>, b: Option<Place>, v: Json, k: nat)
    requires k <= |Kids(v)| && IsNode(v)
    ensures SpotsIn(a, v, k) == SpotsIn(b, v, k)
  {
    if k > 0 { SameInside(a, b, v, k - 1); }
  }

  lemma {:induction false} CollectInExactly(ctx: Option<Place>, v: Json, k: nat)
    requires k <= |Kids(v)| && (ctx.Some? || IsNode(v))
    ensures CollectEdgesIn(ctx, v, k) == EdgesAt(SpotsIn(ctx, v, k))
    decreases v, 0, k
  {
    hide *;
    SpotsStart(ctx, v);
    TargetsStart(ctx, v);
    if k > 0 {
      var kid := Kids(v)[k - 1];
      SpotsStep(ctx, v, k);
      TargetsStep(ctx, v, k);
      CollectInExactly(ctx, v, k - 1);
      CollectExactly(Into(ctx, v, kid.key).value, kid.val);
      EdgesJoin(SpotsIn(ctx, v, k - 1), Spots(Into(ctx, v, kid.key), kid.val));
    }
  }

  lemma {:induction false} WalkInExactly(v: Json, k: nat)
    requires k <= |Kids(v)| && !IsNode(v)
    ensures WalkEdgesIn(v, k) == EdgesAt(SpotsIn(None, v, k))
    decreases v, 0, k
  {
    hide *;
    SpotsStart(None, v);
    if k > 0 {
      var kid := Kids(v)[k - 1];
      SpotsStep(None, v, k);
      Outside(v, kid.key);
      WalkInExactly(v, k - 1);
      EdgesExactly(kid.val);
      EdgesJoin(SpotsIn(None, v, k - 1), Spots(None, kid.val));
    }
  }

  lemma Outside(v: Json, key: string)
    requires !IsNode(v)
    ensures Into(None, v, key).None?
  {
  }

  function Targets(es: seq<Edge>): (r: seq<string>)
    ensures |r| == |es|
  {
    seq(|es|, i requires 0 <= i < |es| => es[i].child)
  }

  lemma TargetsJoin(a: seq<Edge>, b: seq<Edge>)
    ensures Targets(a + b) == Targets(a) + Targets(b)
  {
  }

  lemma {:induction false} CollectTargets(p: Place, v: Json)
    ensures Targets(CollectEdges(p, v)) == NodeTypes(v)
    decreases v, 2, 0
  {
    if IsNode(v) {
      CollectTargetsIn(None, v, |Kids(v)|);
      TargetsJoin([Edge(p, v.kind.value)], WalkEdges(v));
      assert Targets([Edge(p, v.kind.value)]) == [v.kind.value];
    } else {
      CollectTargetsIn(Some(p), v, |Kids(v)|);
    }
  }

  lemma TargetsStep(ctx: Option<Place>, v: Json, k: nat)
    requires 0 < k <= |Kids(v)| && (ctx.Some? || IsNode(v))
    ensures var kid := Kids(v)[k - 1];
            && Into(ctx, v, kid.key).Some? && kid.val < v
            && CollectEdgesIn(ctx, v, k)
               == CollectEdgesIn(ctx, v, k - 1) + CollectEdges(Into(ctx, v, kid.key).value, kid.val)
            && NodeTypesIn(v, k) == NodeTypesIn(v, k - 1) + NodeTypes(kid.val)
  {
    hide CollectEdges, NodeTypes;
  }

  lemma TargetsStart(ctx: Option<Place>, v: Json)
    requires ctx.Some? || IsNode(v)
    ensures CollectEdgesIn(ctx, v, 0) == [] && NodeTypesIn(v, 0) == [] && Targets([]) == []
  {
  }

  lemma {:induction false} CollectTargetsIn(ctx: Option<Place>, v: Json, k: nat)
    requires k <= |Kids(v)| && (ctx.Some? || IsNode(v))
    ensures Targets(CollectEdgesIn(ctx, v, k)) == NodeTypesIn(v, k)
    decreases v, 0, k
  {
    hide *;
    if k == 0 {
      TargetsStart(ctx, v);
    } else {
      var kid := Kids(v)[k - 1];
      TargetsStep(ctx, v, k);
      CollectTargetsIn(ctx, v, k - 1);
      CollectTargets(Into(ctx, v, kid.key).value, kid.val);
      TargetsJoin(CollectEdgesIn(ctx, v, k - 1), CollectEdges(Into(ctx, v, kid.key).value, kid.val));
    }
  }

  /** In a tree rooted at a node the edges point to every other node, once each: one edge
      fewer than nodes. */
  lemma OneEdgePerNode(v: Json)
    requires IsNode(v)
    ensures NodeTypes(v) == [v.kind.value] + Targets(WalkEdges(v))
    ensures |WalkEdges(v)| == |NodeTypes(v)| - 1
  {
    CollectTargetsIn(None, v, |Kids(v)|);
  }

  // ----- scalars -----

  /** No list lies directly inside a list below a node. */
  predicate Flat(below: bool, v: Json)
    decreases v, 1, 0
  {
    FlatIn(below, v, |Kids(v)|)
  }

  predicate FlatIn(below: bool, v: Json, k: nat)
    requires k <= |Kids(v)|
    decreases v, 0, k
  {
    k == 0 || (FlatIn(below, v, k - 1) && !(below && v.List? && Kids(v)[k - 1].val.List?)
               && Flat(below || IsNode(v), Kids(v)[k - 1].val))
  }

  /** The reference for the reports, in one top-down pass: every scalar below a node with
      its place, and a list directly inside a list whole, with nothing under it up to the
      next node. */
  function Reported(ctx: Option<Place>, inList: bool, v: Json): seq<Found>
    decreases v, 1, 0
  {
    var whole := inList && v.List? && ctx.Some?;
    (if ctx.Some? && (v.Atom? || whole) then [Found(ctx.value, v)] else [])
    + ReportedIn(if whole then None else ctx, v, |Kids(v)|)
  }

  function ReportedIn(ctx: Option<Place>, v: Json, k: nat): seq<Found>
    requires k <= |Kids(v)|
    decreases v, 0, k
  {
    if k == 0 then []
    else
      var kid := Kids(v)[k - 1];
      ReportedIn(ctx, v, k - 1) + Reported(Into(ctx, v, kid.key), v.List?, kid.val)
  }

  /** What collect reports of one value. */
  function Own(p: Place, inList: bool, v: Json): seq<Found> {
    if inList && v.List? then [Found(p, v)] else CollectScalars(p, v)
  }

  lemma AddParts<T>(a: seq<T>, b: seq<T>, c: seq<T>, d: seq<T>, e: seq<T>, f: seq<T>)
    requires multiset(a) + multiset(c) == multiset(e) && multiset(b) + multiset(d) == multiset(f)
    ensures multiset(a + b) + multiset(c + d) == multiset(e + f)
  {
  }

  /** What is reported inside a node does not depend on where the node is. */
  lemma {:induction false} SameReports(a: Option<Place>, v: Json, k: nat)
    requires k <= |Kids(v)| && IsNode(v)
    ensures ReportedIn(a, v, k) == ReportedIn(None, v, k)
  {
    hide Reported;
    if k > 0 { SameReports(a, v, k - 1); }
  }

  lemma {:induction false} ReportedBelow(p: Place, inList: bool, v: Json)
    ensures multiset(Own(p, inList, v)) + multiset(WalkScalars(v)) == multiset(Reported(Some(p), inList, v))
    decreases v, 1, 0
  {
    hide CollectScalarsIn, WalkScalarsIn, ReportedIn;
    var n := |Kids(v)|;
    if IsNode(v) {
      ReportedInBelow(None, v, n);
      SameReports(Some(p), v, n);
    } else if inList && v.List? {
      ReportedInAbove(v, n);
    } else {
      ReportedInBelow(Some(p), v, n);
      if v.Atom? { StartBelow(Some(p), v); }
    }
  }

  lemma StepBelow(ctx: Option<Place>, v: Json, k: nat)
    requires 0 < k <= |Kids(v)| && (ctx.Some? || IsNode(v))
    ensures var kid := Kids(v)[k - 1];
            && Into(ctx, v, kid.key).Some? && kid.val < v
            && CollectScalarsIn(ctx, v, k)
               == CollectScalarsIn(ctx, v, k - 1) + Own(Into(ctx, v, kid.key).value, v.List?, kid.val)
            && WalkScalarsIn(v, k) == WalkScalarsIn(v, k - 1) + WalkScalars(kid.val)
            && ReportedIn(ctx, v, k) == ReportedIn(ctx, v, k - 1) + Reported(Into(ctx, v, kid.key), v.List?, kid.val)
  {
    hide CollectScalars, WalkScalars, Reported;
  }

  lemma StartBelow(ctx: Option<Place>, v: Json)
    requires ctx.Some? || IsNode(v)
    ensures CollectScalarsIn(ctx, v, 0) == [] && WalkScalarsIn(v, 0) == [] && ReportedIn(ctx, v, 0) == []
  {
  }

  lemma {:induction false} ReportedInBelow(ctx: Option<Place>, v: Json, k: nat)
    requires k <= |Kids(v)| && (ctx.Some? || IsNode(v))
    ensures multiset(CollectScalarsIn(ctx, v, k)) + multiset(WalkScalarsIn(v, k)) == multiset(ReportedIn(ctx, v, k))
    decreases v, 0, k
  {
    hide *;
    if k == 0 {
      StartBelow(ctx, v);
    } else {
      var kid := Kids(v)[k - 1];
      StepBelow(ctx, v, k);
      var p := Into(ctx, v, kid.key).value;
      ReportedInBelow(ctx, v, k - 1);
      ReportedBelow(p, v.List?, kid.val);
      AddParts(CollectScalarsIn(ctx, v, k - 1), Own(p, v.List?, kid.val),
               WalkScalarsIn(v, k - 1), WalkScalars(kid.val),
               ReportedIn(ctx, v, k - 1), Reported(Some(p), v.List?, kid.val));
    }
  }

  /** iter_scalar_fields makes exactly the reports of the reference, on any tree. */
  lemma {:induction false} ReportsExactly(inList: bool, v: Json)
    ensures multiset(WalkScalars(v)) == multiset(Reported(None, inList, v))
    decreases v, 1, 0
  {
    hide CollectScalarsIn, WalkScalarsIn, ReportedIn;
    if IsNode(v) {
      ReportedInBelow(None, v, |Kids(v)|);
    } else {
      ReportedInAbove(v, |Kids(v)|);
    }
  }

  lemma {:induction false} ReportedInAbove(v: Json, k: nat)
    requires k <= |Kids(v)| && !IsNode(v)
    ensures multiset(WalkScalarsIn(v, k)) == multiset(ReportedIn(None, v, k))
    decreases v, 0, k
  {
    hide WalkScalars, Reported;
    if k > 0 {
      ReportedInAbove(v, k - 1);
      ReportsExactly(v.List?, Kids(v)[k - 1].val);
    }
  }

  /** Without nested lists the reports are the scalars below nodes. */
  lemma {:induction false} FlatReported(ctx: Option<Place>, inList: bool, v: Json)
    requires Flat(ctx.Some?, v) && !(inList && v.List? && ctx.Some?)
    ensures Reported(ctx, inList, v) == ScalarsAt(Spots(ctx, v))
    decreases v, 1, 0
  {
    hide FlatIn, ReportedIn, SpotsIn;
    FlatReportedIn(ctx, v, |Kids(v)|);
    ScalarsJoin([Spot(ctx, v)], SpotsIn(ctx, v, |Kids(v)|));
    ReadScalars(Spot(ctx, v), []);
    assert [Spot(ctx, v)] + [] == [Spot(ctx, v)];
  }

  lemma {:induction false} FlatReportedIn(ctx: Option<Place>, v: Json, k: nat)
    requires k <= |Kids(v)| && FlatIn(ctx.Some?, v, k)
    ensures ReportedIn(ctx, v, k) == ScalarsAt(SpotsIn(ctx, v, k))
    decreases v, 0, k
  {
    hide Flat, Reported, Spots;
    if k > 0 {
      var kid := Kids(v)[k - 1];
      FlatReportedIn(ctx, v, k - 1);
      FlatReported(Into(ctx, v, kid.key), v.List?, kid.val);
      ScalarsJoin(SpotsIn(ctx, v, k - 1), Spots(Into(ctx, v, kid.key), kid.val));
    }
  }

  lemma ScalarsOnce(v: Json)
    requires Flat(false, v)
    ensures multiset(WalkScalars(v)) == multiset(ScalarsAt(Spots(None, v)))
  {
    hide Flat, Spots, WalkScalars;
    ReportsExactly(false, v);
    FlatReported(None, false, v);
  }

  lemma {:induction false} FlatNode(v: Json, k: nat)
    requires IsNode(v) && k <= |Kids(v)|
    ensures FlatIn(false, v, k) <==> FlatIn(true, v, k)
  {
    if k > 0 { FlatNode(v, k - 1); }
  }

  predicate OnlyAtoms(fs: seq<Found>) { forall i :: 0 <= i < |fs| ==> fs[i].value.Atom? }

  lemma AtomsParts(a: seq<Found>, b: seq<Found>)
    requires OnlyAtoms(a + b)
    ensures OnlyAtoms(a) && OnlyAtoms(b)
  {
    assert forall i :: 0 <= i < |a| ==> (a + b)[i] == a[i];
    assert forall i :: 0 <= i < |b| ==> (a + b)[|a| + i] == b[i];
  }

  lemma AtomsSingle(f: Found)
    ensures OnlyAtoms([f]) ==> f.value.Atom?
  {
    assert [f][0] == f;
  }

  /** A list inside a list is reported, whole, by someone. */
  lemma {:induction false} AtomsFlat(p: Place, v: Json)
    requires OnlyAtoms(CollectScalars(p, v)) && OnlyAtoms(WalkScalars(v))
    ensures Flat(true, v)
    decreases v, 1, 0
  {
    hide OnlyAtoms;
    var n := |Kids(v)|;
    if IsNode(v) {
      AtomsParts(CollectScalarsIn(None, v, n), WalkScalarsIn(v, n));
      AtomsFlatIn(None, v, n);
    } else if !v.Atom? {
      AtomsParts([], WalkScalarsIn(v, n));
      AtomsFlatIn(Some(p), v, n);
    }
  }

  lemma {:induction false} AtomsFlatIn(ctx: Option<Place>, v: Json, k: nat)
    requires k <= |Kids(v)| && (ctx.Some? || IsNode(v))
    requires OnlyAtoms(CollectScalarsIn(ctx, v, k)) && OnlyAtoms(WalkScalarsIn(v, k))
    ensures FlatIn(true, v, k)
    decreases v, 0, k
  {
    hide *;
    FlatStart(v);
    if k > 0 {
      var kid := Kids(v)[k - 1];
      AtomsStep(ctx, v, k);
      AtomsFlatIn(ctx, v, k - 1);
      AtomsFlat(Into(ctx, v, kid.key).value, kid.val);
      FlatStep(v, k);
    }
  }

  lemma FlatStart(v: Json)
    ensures FlatIn(true, v, 0)
  {
  }

  lemma FlatStep(v: Json, k: nat)
    requires 0 < k <= |Kids(v)| && FlatIn(true, v, k - 1) && Flat(true, Kids(v)[k - 1].val)
    requires !(v.List? && Kids(v)[k - 1].val.List?)
    ensures FlatIn(true, v, k)
  {
    hide Flat;
  }

  lemma AtomsStep(ctx: Option<Place>, v: Json, k: nat)
    requires 0 < k <= |Kids(v)| && (ctx.Some? || IsNode(v))
    requires OnlyAtoms(CollectScalarsIn(ctx, v, k)) && OnlyAtoms(WalkScalarsIn(v, k))
    ensures var kid := Kids(v)[k - 1];
      && kid.val < v && !(v.List? && kid.val.List?) && Into(ctx, v, kid.key).Some?
      && OnlyAtoms(CollectScalarsIn(ctx, v, k - 1)) && OnlyAtoms(WalkScalarsIn(v, k - 1))
      && OnlyAtoms(CollectScalars(Into(ctx, v, kid.key).value, kid.val)) && OnlyAtoms(WalkScalars(kid.val))
  {
    hide OnlyAtoms, CollectScalars, WalkScalars;
    var kid := Kids(v)[k - 1];
    var p := Into(ctx, v, kid.key).value;
    var last := if v.List? && kid.val.List? then [Found(p, kid.val)] else CollectScalars(p, kid.val);
    AtomsParts(CollectScalarsIn(ctx, v, k - 1), last);
    AtomsParts(WalkScalarsIn(v, k - 1), WalkScalars(kid.val));
    AtomsSingle(Found(p, kid.val));
  }

  lemma {:induction false} AtomsFlatTop(v: Json)
    requires OnlyAtoms(WalkScalars(v))
    ensures Flat(false, v)
    decreases v, 1, 0
  {
    hide OnlyAtoms;
    var n := |Kids(v)|;
    if IsNode(v) {
      AtomsParts(CollectScalarsIn(None, v, n), WalkScalarsIn(v, n));
      AtomsFlatIn(None, v, n);
      FlatNode(v, n);
    } else {
      AtomsParts([], WalkScalarsIn(v, n));
      AtomsFlatTopIn(v, n);
    }
  }

  lemma {:induction false} AtomsFlatTopIn(v: Json, k: nat)
    requires k <= |Kids(v)| && !IsNode(v) && OnlyAtoms(WalkScalarsIn(v, k))
    ensures FlatIn(false, v, k)
    decreases v, 0, k
  {
    hide OnlyAtoms;
    if k > 0 {
      AtomsParts(WalkScalarsIn(v, k - 1), WalkScalars(Kids(v)[k - 1].val));
      AtomsFlatTopIn(v, k - 1);
      AtomsFlatTop(Kids(v)[k - 1].val);
    }
  }

  /** iter_scalar_fields reports every scalar below a node once, under its nearest node,
      and nothing else: exactly when no list lies directly inside a list below a node. */
  lemma ScalarsExactly(v: Json)
    ensures multiset(WalkScalars(v)) == multiset(ScalarsAt(Spots(None, v))) <==> Flat(false, v)
  {
    if Flat(false, v) { ScalarsOnce(v); }
    if multiset(WalkScalars(v)) == multiset(ScalarsAt(Spots(None, v))) {
      forall i | 0 <= i < |WalkScalars(v)|
        ensures WalkScalars(v)[i].value.Atom?
      {
        assert WalkScalars(v)[i] in multiset(ScalarsAt(Spots(None, v)));
      }
      AtomsFlatTop(v);
    }
  }

  // ----- the walkers as written: recursion appending to a shared list -----

  class Walker {
    var types: seq<string>
    var edges: seq<Edge>
    var fields: seq<Found>

    constructor ()
      ensures types == [] && edges == [] && fields == []
    {
      types, edges, fields := [], [], [];
    }

    method GoTypes(v: Json)
      modifies this`types
      ensures types == old(types) + NodeTypes(v)
      decreases v, 1
    {
      if IsNode(v) { types := types + [v.kind.value]; }
      ghost var start := types;
      for k := 0 to |Kids(v)|
        invariant types == start + NodeTypesIn(v, k)
      {
        Grow(start, NodeTypesIn(v, k), NodeTypes(Kids(v)[k].val));
        GoTypes(Kids(v)[k].val);
      }
    }

    method CollectEdge(p: Place, v: Json)
      modifies this`edges
      ensures edges == old(edges) + CollectEdges(p, v)
      decreases v, 2
    {
      if IsNode(v) {
        edges := edges + [Edge(p, v.kind.value)];
        WalkEdge(v);
        return;
      }
      for k := 0 to |Kids(v)|
        invariant edges == old(edges) + CollectEdgesIn(Some(p), v, k)
      {
        var q := Into(Some(p), v, Kids(v)[k].key).value;
        Grow(old(edges), CollectEdgesIn(Some(p), v, k), CollectEdges(q, Kids(v)[k].val));
        CollectEdge(q, Kids(v)[k].val);
      }
    }

    method WalkEdge(v: Json)
      modifies this`edges
      ensures edges == old(edges) + WalkEdges(v)
      decreases v, 1
    {
      if IsNode(v) {
        for k := 0 to |Kids(v)|
          invariant edges == old(edges) + CollectEdgesIn(None, v, k)
        {
          var q := Place(v.kind.value, Kids(v)[k].key);
          Grow(old(edges), CollectEdgesIn(None, v, k), CollectEdges(q, Kids(v)[k].val));
          CollectEdge(q, Kids(v)[k].val);
        }
        return;
      }
      for k := 0 to |Kids(v)|
        invariant edges == old(edges) + WalkEdgesIn(v, k)
      {
        Grow(old(edges), WalkEdgesIn(v, k), WalkEdges(Kids(v)[k].val));
        WalkEdge(Kids(v)[k].val);
      }
    }

    method CollectScalar(p: Place, v: Json)
      modifies this`fields
      ensures fields == old(fields) + CollectScalars(p, v)
      decreases v, 1
    {
      if v.Atom? {
        fields := fields + [Found(p, v)];
      } else if !IsNode(v) {
        for k := 0 to |Kids(v)|
          invariant fields == old(fields) + CollectScalarsIn(Some(p), v, k)
        {
          var kid := Kids(v)[k];
          if v.List? && kid.val.List? {
            Grow(old(fields), CollectScalarsIn(Some(p), v, k), [Found(p, kid.val)]);
            fields := fields + [Found(p, kid.val)];
          } else {
            var q := Into(Some(p), v, kid.key).value;
            Grow(old(fields), CollectScalarsIn(Some(p), v, k), CollectScalars(q, kid.val));
            CollectScalar(q, kid.val);
          }
        }
      }
    }

    method WalkScalar(v: Json)
      modifies this`fields
      ensures fields == old(fields) + WalkScalars(v)
      decreases v, 1
    {
      if IsNode(v) {
        for k := 0 to |Kids(v)|
          invariant fields == old(fields) + CollectScalarsIn(None, v, k)
        {
          var q := Place(v.kind.value, Kids(v)[k].key);
          Grow(old(fields), CollectScalarsIn(None, v, k), CollectScalars(q, Kids(v)[k].val));
          CollectScalar(q, Kids(v)[k].val);
        }
      }
      ghost var start := fields;
      for k := 0 to |Kids(v)|
        invariant fields == start + WalkScalarsIn(v, k)
      {
        Grow(start, WalkScalarsIn(v, k), WalkScalars(Kids(v)[k].val));
        WalkScalar(Kids(v)[k].val);
      }
    }
  }

  // ----- a list inside a list -----

  function NestedList(): Json { Dict(Some("N"), [Entry("k", List([List([Atom(Null)])]))]) }

  /** The scalar under the node is not reported; the inner list is, whole. */
  lemma NestedListReportedWhole()
    ensures !Flat(false, NestedList())
    ensures Found(Place("N", "k"), List([Atom(Null)])) in WalkScalars(NestedList())
    ensures Found(Place("N", "k"), Atom(Null)) !in WalkScalars(NestedList())
    ensures Found(Place("N", "k"), Atom(Null)) in ScalarsAt(Spots(None, NestedList()))
  {
    var inner := List([Atom(Null)]);
    var outer := List([inner]);
    var v, p := NestedList(), Place("N", "k");
    assert Kids(v) == [Entry("k", outer)] && Kids(outer) == [Entry("", inner)];
    assert Kids(inner) == [Entry("", Atom(Null))] && Kids(Atom(Null)) == [];
    assert Into(None, v, "k") == Some(p) && Into(Some(p), outer, "") == Some(p) && Into(Some(p), inner, "") == Some(p);
    assert CollectScalarsIn(Some(p), outer, 1) == CollectScalarsIn(Some(p), outer, 0) + [Found(p, inner)];
    assert CollectScalarsIn(None, v, 1) == CollectScalarsIn(None, v, 0) + CollectScalars(p, outer);
    assert WalkScalars(Atom(Null)) == [];
    assert WalkScalarsIn(inner, 1) == WalkScalarsIn(inner, 0) + WalkScalars(Atom(Null));
    assert WalkScalarsIn(outer, 1) == WalkScalarsIn(outer, 0) + WalkScalars(inner);
    assert WalkScalarsIn(v, 1) == WalkScalarsIn(v, 0) + WalkScalars(outer);
    assert WalkScalars(v) == [Found(p, inner)];
    var s := Spot(Some(p), Atom(Null));
    assert Spots(Some(p), Atom(Null)) == [s];
    assert SpotsIn(Some(p), inner, 1) == SpotsIn(Some(p), inner, 0) + Spots(Some(p), Atom(Null));
    assert SpotsIn(Some(p), outer, 1) == SpotsIn(Some(p), outer, 0) + Spots(Some(p), inner);
    assert SpotsIn(None, v, 1) == SpotsIn(None, v, 0) + Spots(Some(p), outer);
    assert Spots(None, v) == [Spot(None, v), Spot(Some(p), outer), Spot(Some(p), inner), s];
    ReadScalars(Spot(None, v), [Spot(Some(p), outer), Spot(Some(p), inner), s]);
    ReadScalars(Spot(Some(p), outer), [Spot(Some(p), inner), s]);
    ReadScalars(Spot(Some(p), inner), [s]);
    ReadScalars(s, []);
    if Flat(false, v) { ScalarsOnce(v); }
  }

  lemma ReadScalars(s: Spot, rest: seq<Spot>)
    ensures ScalarsAt([s] + rest) == ScalarAt(s) + ScalarsAt(rest)
  {
    assert ([s] + rest)[1..] == rest;
  }
}
