/** The importer's fail-closed guard and the gate's two node detectors. */
module CoverageGuard {
  import opened Basics
  import opened Text
  import opened PyText
  import opened AstWalk
  import Register

  /** The importer's classification tables. */
  datatype Tables = Tables(
    supported: set<string>, metadata: set<string>,
    sourceFields: set<(string, string)>, metadataFields: set<(string, string)>,
    sourceScalars: set<(string, string)>, analysisScalars: set<(string, string)>,
    metadataScalars: set<(string, string)>, metadataPaths: set<string>,
    domains: map<(string, string), set<Scalar>>)

  datatype Status = Supported | Source | Analysis | Metadata | Excluded | Unclassified

  /** Why the guard stops: a TypeError of its own coverage report, or a refusal. */
  datatype Reason =
    | TypeError
    | ExcludedNodes
    | UnimplementedNodes
    | UnclassifiedFields
    | UnclassifiedScalars
    | UnknownValues

  const EXCLUDED: set<string> := { "ImportDirective", "InlineAssembly" }

  predicate IsYul(t: string) { Prefixed(t, "Yul") }

  function NodeStatus(T: Tables, t: string): Status {
    if t in T.supported then Supported
    else if t in T.metadata then Metadata
    else if t in EXCLUDED || IsYul(t) then Excluded
    else Unclassified
  }

  function FieldStatus(T: Tables, field: (string, string)): Status {
    if field in T.sourceFields then Source
    else if field in T.metadataFields then Metadata
    else Unclassified
  }

  function ScalarStatus(T: Tables, field: (string, string)): Status {
    if field in T.sourceScalars then Source
    else if field in T.analysisScalars then Analysis
    else if field in T.metadataScalars then Metadata
    else if field.1 in T.metadataPaths then Metadata
    else if Prefixed(field.1, "exportedSymbols.") then Metadata
    else if Prefixed(field.1, "internalFunctionIDs.") then Metadata
    else Unclassified
  }

  /** The counters' key, and the partition(".") that reads it back. */
  function FieldKey(p: Place): string { p.parent + ['.'] + p.path }

  function FieldOf(key: string): (string, string) { (Before(key, '.'), After(key, '.')) }

  predicate HasDomain(T: Tables, f: Found) { (f.place.parent, f.place.path) in T.domains }

  /** A list cannot be looked up in a set of values. */
  predicate Unhashable(T: Tables, f: Found) { HasDomain(T, f) && !f.value.Atom? }

  predicate InDomain(T: Tables, f: Found) {
    HasDomain(T, f) ==> f.value.Atom? && f.value.scalar in T.domains[(f.place.parent, f.place.path)]
  }

  /** guard_no_unsupported_nodes: the first reason to stop, if any. The coverage report is
      complete before the first refusal. */
  function Guard(T: Tables, v: Json): Option<Reason> {
    var types, edges, scalars := NodeTypes(v), WalkEdges(v), WalkScalars(v);
    if exists i :: 0 <= i < |scalars| && Unhashable(T, scalars[i]) then Some(TypeError)
    else if exists i :: 0 <= i < |types| && NodeStatus(T, types[i]) == Excluded then Some(ExcludedNodes)
    else if exists i :: 0 <= i < |types| && NodeStatus(T, types[i]) == Unclassified then Some(UnimplementedNodes)
    else if exists i :: 0 <= i < |edges| && FieldStatus(T, FieldOf(FieldKey(edges[i].place))) == Unclassified
      then Some(UnclassifiedFields)
    else if exists i :: 0 <= i < |scalars| && ScalarStatus(T, FieldOf(FieldKey(scalars[i].place))) == Unclassified
      then Some(UnclassifiedScalars)
    else if exists i :: 0 <= i < |scalars| && !InDomain(T, scalars[i]) then Some(UnknownValues)
    else None
  }

  // ----- what a passing guard says of the tree itself -----

  predicate TypeListed(T: Tables, t: string) { t in T.supported || t in T.metadata }

  predicate FieldListed(T: Tables, field: (string, string)) { field in T.sourceFields || field in T.metadataFields }

  predicate ScalarListed(T: Tables, field: (string, string)) {
    || field in T.sourceScalars || field in T.analysisScalars || field in T.metadataScalars
    || field.1 in T.metadataPaths
    || Prefixed(field.1, "exportedSymbols.") || Prefixed(field.1, "internalFunctionIDs.")
  }

  /** A node of a listed type, in a listed field. */
  predicate KnownNode(T: Tables, s: Spot) {
    IsNode(s.item) ==>
      TypeListed(T, s.item.kind.value)
      && (s.ctx.Some? ==> FieldListed(T, (s.ctx.value.parent, s.ctx.value.path)))
  }

  /** A value in a listed field, within the field's domain if it has one. */
  predicate KnownValue(T: Tables, f: Found) {
    var field := (f.place.parent, f.place.path);
    ScalarListed(T, field) && (field in T.domains ==> f.value.Atom? && f.value.scalar in T.domains[field])
  }

  ghost predicate Classified(T: Tables, v: Json) {
    && (forall s :: s in Spots(None, v) ==> KnownNode(T, s))
    && (forall f :: f in Reported(None, false, v) ==> KnownValue(T, f))
  }

  /** No known node type contains the counters' separator. */
  ghost predicate DotFree(T: Tables) {
    forall t :: t in T.supported || t in T.metadata ==> Without(t, '.')
  }

  lemma {:induction false} AtNode(spots: seq<Spot>, t: string)
    ensures t in NodesAt(spots) <==> exists s :: s in spots && IsNode(s.item) && s.item.kind.value == t
  {
    if spots != [] {
      AtNode(spots[1..], t);
      assert spots == [spots[0]] + spots[1..];
    }
  }

  lemma {:induction false} AtEdge(spots: seq<Spot>, e: Edge)
    ensures e in EdgesAt(spots)
       <==> exists s :: s in spots && IsNode(s.item) && s.ctx == Some(e.place) && s.item.kind.value == e.child
  {
    if spots != [] {
      AtEdge(spots[1..], e);
      assert spots == [spots[0]] + spots[1..];
    }
  }

  /** Every place names a node of the tree as its parent. */
  predicate Parented(ctx: Option<Place>, types: seq<string>, s: Spot) {
    s.ctx.Some? ==> (ctx.Some? && s.ctx.value.parent == ctx.value.parent) || s.ctx.value.parent in types
  }

  lemma {:induction false} Parents(ctx: Option<Place>, v: Json)
    ensures forall s :: s in Spots(ctx, v) ==> Parented(ctx, NodeTypes(v), s)
    decreases v, 1, 0
  {
    ParentsIn(ctx, v, |Kids(v)|);
  }

  lemma {:induction false} ParentsIn(ctx: Option<Place>, v: Json, k: nat)
    requires k <= |Kids(v)|
    ensures forall s :: s in SpotsIn(ctx, v, k) ==>
              Parented(ctx, (if IsNode(v) then [v.kind.value] else []) + NodeTypesIn(v, k), s)
    decreases v, 0, k
  {
    if k > 0 {
      var kid := Kids(v)[k - 1];
      ParentsIn(ctx, v, k - 1);
      Parents(Into(ctx, v, kid.key), kid.val);
    }
  }

  lemma FieldRoundTrip(p: Place)
    requires Without(p.parent, '.')
    ensures FieldOf(FieldKey(p)) == (p.parent, p.path)
  {
    CutAt(p.parent, '.', p.path);
  }

  /** Reports carry places that name a node of the tree as their parent. */
  lemma {:induction false} ReportParents(ctx: Option<Place>, inList: bool, v: Json)
    ensures forall f :: f in Reported(ctx, inList, v) ==>
              (ctx.Some? && f.place.parent == ctx.value.parent) || f.place.parent in NodeTypes(v)
    decreases v, 1, 0
  {
    var whole := inList && v.List? && ctx.Some?;
    ReportParentsIn(if whole then None else ctx, v, |Kids(v)|);
  }

  lemma {:induction false} ReportParentsIn(ctx: Option<Place>, v: Json, k: nat)
    requires k <= |Kids(v)|
    ensures forall f :: f in ReportedIn(ctx, v, k) ==>
              || (ctx.Some? && f.place.parent == ctx.value.parent)
              || f.place.parent in (if IsNode(v) then [v.kind.value] else []) + NodeTypesIn(v, k)
    decreases v, 0, k
  {
    if k > 0 {
      var kid := Kids(v)[k - 1];
      ReportParentsIn(ctx, v, k - 1);
      ReportParents(Into(ctx, v, kid.key), v.List?, kid.val);
    }
  }

  ghost predicate KnownTypes(T: Tables, types: seq<string>) {
    forall t :: t in types ==> TypeListed(T, t)
  }

  lemma KnownDotFree(T: Tables, types: seq<string>, t: string)
    requires DotFree(T) && KnownTypes(T, types) && t in types
    ensures Without(t, '.')
  {
    assert TypeListed(T, t);
  }

  /** Nodes are known exactly when their types and the edges into them are. */
  lemma NodesKnown(T: Tables, v: Json)
    requires DotFree(T)
    ensures (forall s :: s in Spots(None, v) ==> KnownNode(T, s))
       <==> (KnownTypes(T, NodeTypes(v))
             && forall e :: e in WalkEdges(v) ==> FieldListed(T, FieldOf(FieldKey(e.place))))
  {
    hide Spots, NodeTypes, WalkEdges, NodesAt, EdgesAt, TypeListed, FieldListed, FieldOf, FieldKey, DotFree;
    NodeTypesExactly(None, v);
    EdgesExactly(v);
    forall t
      ensures t in NodeTypes(v) <==> exists s :: s in Spots(None, v) && IsNode(s.item) && s.item.kind.value == t
    {
      AtNode(Spots(None, v), t);
    }
    if KnownTypes(T, NodeTypes(v)) {
      EdgeFields(T, v);
    }
  }

  /** In a tree of known types the counters' keys name the edges' fields. */
  lemma EdgeFields(T: Tables, v: Json)
    requires DotFree(T) && KnownTypes(T, NodeTypes(v))
    ensures (forall e :: e in WalkEdges(v) ==> FieldListed(T, FieldOf(FieldKey(e.place))))
       <==> (forall s :: s in Spots(None, v) && IsNode(s.item) && s.ctx.Some? ==>
               FieldListed(T, (s.ctx.value.parent, s.ctx.value.path)))
  {
    hide Spots, NodeTypes, WalkEdges, EdgesAt, FieldListed, FieldOf, FieldKey, DotFree, KnownTypes;
    EdgesExactly(v);
    forall e
      ensures e in WalkEdges(v)
         <==> exists s ::
                s in Spots(None, v) && IsNode(s.item) && s.ctx == Some(e.place) && s.item.kind.value == e.child
    {
      AtEdge(Spots(None, v), e);
    }
    forall s | s in Spots(None, v) && s.ctx.Some?
      ensures FieldOf(FieldKey(s.ctx.value)) == (s.ctx.value.parent, s.ctx.value.path)
    {
      Parents(None, v);
      KnownDotFree(T, NodeTypes(v), s.ctx.value.parent);
      FieldRoundTrip(s.ctx.value);
    }
    forall s | s in Spots(None, v) && IsNode(s.item) && s.ctx.Some?
      ensures Edge(s.ctx.value, s.item.kind.value) in WalkEdges(v)
    {
    }
  }

  lemma ReportFields(T: Tables, v: Json, f: Found)
    requires DotFree(T) && KnownTypes(T, NodeTypes(v)) && f in Reported(None, false, v)
    ensures FieldOf(FieldKey(f.place)) == (f.place.parent, f.place.path)
  {
    hide Reported, NodeTypes, FieldOf, FieldKey, DotFree, KnownTypes;
    ReportParents(None, false, v);
    KnownDotFree(T, NodeTypes(v), f.place.parent);
    FieldRoundTrip(f.place);
  }

  lemma SameReported(v: Json, f: Found)
    ensures f in WalkScalars(v) <==> f in Reported(None, false, v)
  {
    hide WalkScalars, Reported;
    ReportsExactly(false, v);
    assert f in WalkScalars(v) <==> f in multiset(WalkScalars(v));
    assert f in Reported(None, false, v) <==> f in multiset(Reported(None, false, v));
  }

  /** What the statuses mean by the tables. */
  lemma StatusesListed(T: Tables)
    ensures forall t :: NodeStatus(T, t) in {Excluded, Unclassified} <==> !TypeListed(T, t)
    ensures forall field :: FieldStatus(T, field) == Unclassified <==> !FieldListed(T, field)
    ensures forall field :: ScalarStatus(T, field) == Unclassified <==> !ScalarListed(T, field)
    ensures forall t :: NodeStatus(T, t) in {Supported, Metadata, Excluded, Unclassified}
  {
    hide IsYul, Prefixed;
  }

  /** The guard, read without indices. */
  lemma GuardPasses(T: Tables, v: Json)
    ensures Guard(T, v).None?
       <==> (&& KnownTypes(T, NodeTypes(v))
             && (forall e :: e in WalkEdges(v) ==> FieldListed(T, FieldOf(FieldKey(e.place))))
             && (forall f :: f in WalkScalars(v) ==>
                   ScalarListed(T, FieldOf(FieldKey(f.place))) && InDomain(T, f)))
  {
    hide NodeTypes, WalkEdges, WalkScalars, NodeStatus, FieldStatus, ScalarStatus;
    hide TypeListed, FieldListed, ScalarListed, FieldOf, FieldKey;
    StatusesListed(T);
  }

  /** The guard passes exactly when every node, every edge and every reported value of the
      tree is classified; it raises exactly when a list is reported in a field with a
      domain. */
  lemma GuardExactly(T: Tables, v: Json)
    requires DotFree(T)
    ensures Guard(T, v).None? <==> Classified(T, v)
    ensures Guard(T, v) == Some(TypeError) <==> exists f :: f in Reported(None, false, v) && Unhashable(T, f)
  {
    hide Guard, Spots, Reported, NodeTypes, WalkEdges, WalkScalars, FieldListed, ScalarListed, FieldOf, FieldKey;
    hide DotFree, KnownTypes, KnownNode;
    GuardPasses(T, v);
    NodesKnown(T, v);
    forall f
      ensures f in WalkScalars(v) <==> f in Reported(None, false, v)
    {
      SameReported(v, f);
    }
    if KnownTypes(T, NodeTypes(v)) {
      forall f | f in Reported(None, false, v)
        ensures FieldOf(FieldKey(f.place)) == (f.place.parent, f.place.path)
      {
        ReportFields(T, v, f);
      }
    }
    GuardRaises(T, v);
  }

  lemma GuardRaises(T: Tables, v: Json)
    ensures Guard(T, v) == Some(TypeError) <==> exists f :: f in WalkScalars(v) && Unhashable(T, f)
  {
    hide NodeTypes, WalkEdges, WalkScalars, NodeStatus, FieldStatus, ScalarStatus, InDomain, Unhashable;
  }

  // ----- the gate -----

  /** iter_nodes: every dict, depth first. */
  function Dicts(v: Json): seq<Json>
    decreases v, 1, 0
  {
    (if v.Dict? then [v] else []) + DictsIn(v, |Kids(v)|)
  }

  function DictsIn(v: Json, k: nat): seq<Json>
    requires k <= |Kids(v)|
    decreases v, 0, k
  {
    if k == 0 then [] else DictsIn(v, k - 1) + Dicts(Kids(v)[k - 1].val)
  }

  predicate IsAssembly(v: Json) { IsNode(v) && (v.kind.value == "InlineAssembly" || IsYul(v.kind.value)) }

  predicate IsImport(v: Json) { IsNode(v) && v.kind.value == "ImportDirective" }

  datatype Hit = Hit(id: string, node: Json)

  function Hits(id: string, found: Json -> bool, vs: seq<Json>): seq<Hit> {
    if vs == [] then []
    else Hits(id, found, vs[..|vs| - 1]) + if found(vs[|vs| - 1]) then [Hit(id, vs[|vs| - 1])] else []
  }

  /** One register row's detector over one source. */
  method Detect(id: string, found: Json -> bool, src: Json) returns (hits: seq<Hit>)
    ensures hits == Hits(id, found, Dicts(src))
  {
    var vs := Dicts(src);
    hits := [];
    for i := 0 to |vs|
      invariant hits == Hits(id, found, vs[..i])
    {
      assert vs[..i + 1][..i] == vs[..i];
      if found(vs[i]) { hits := hits + [Hit(id, vs[i])]; }
    }
    assert vs[..|vs|] == vs;
  }

  lemma {:induction false} HitsExactly(id: string, found: Json -> bool, vs: seq<Json>)
    ensures Hits(id, found, vs) != [] <==> exists v :: v in vs && found(v)
  {
    if vs != [] {
      var init := vs[..|vs| - 1];
      HitsExactly(id, found, init);
      assert vs == init + [vs[|vs| - 1]];
    }
  }

  lemma {:induction false} DictKinds(v: Json, t: string)
    ensures t in NodeTypes(v) <==> exists d :: d in Dicts(v) && IsNode(d) && d.kind.value == t
    decreases v, 1, 0
  {
    DictKindsIn(v, |Kids(v)|, t);
    if IsNode(v) && v.kind.value == t { assert v in Dicts(v); }
  }

  lemma {:induction false} DictKindsIn(v: Json, k: nat, t: string)
    requires k <= |Kids(v)|
    ensures t in NodeTypesIn(v, k) <==> exists d :: d in DictsIn(v, k) && IsNode(d) && d.kind.value == t
    decreases v, 0, k
  {
    if k > 0 {
      DictKindsIn(v, k - 1, t);
      DictKinds(Kids(v)[k - 1].val, t);
    }
  }

  /** No excluded name is classified as supported or metadata. */
  ghost predicate Separate(T: Tables) {
    forall t :: t in EXCLUDED || IsYul(t) ==> t !in T.supported && t !in T.metadata
  }

  predicate Refused(t: string) { t in EXCLUDED || IsYul(t) }

  lemma RefusedSplit(T: Tables, d: Json)
    requires Separate(T) && IsNode(d)
    ensures Refused(d.kind.value) <==> IsAssembly(d) || IsImport(d)
    ensures NodeStatus(T, d.kind.value) == Excluded <==> Refused(d.kind.value)
  {
    hide IsYul;
  }

  lemma ExcludedByType(T: Tables, v: Json)
    ensures Guard(T, v) == Some(ExcludedNodes)
       <==> (Guard(T, v) != Some(TypeError) && exists t :: t in NodeTypes(v) && NodeStatus(T, t) == Excluded)
  {
    hide NodeTypes, WalkEdges, WalkScalars, NodeStatus, FieldStatus, ScalarStatus, InDomain, Unhashable;
    var types := NodeTypes(v);
    if t :| t in types && NodeStatus(T, t) == Excluded {
      var i :| 0 <= i < |types| && types[i] == t;
      assert NodeStatus(T, types[i]) == Excluded;
    }
  }

  /** When its report does not raise, the importer refuses an excluded node exactly when one
      of the gate's two detectors hits. */
  lemma GateMatchesImporter(T: Tables, v: Json)
    requires Separate(T)
    ensures Guard(T, v) == Some(ExcludedNodes)
       <==> (&& Guard(T, v) != Some(TypeError)
             && (Hits("X-ASM", IsAssembly, Dicts(v)) != [] || Hits("X-IMPORT", IsImport, Dicts(v)) != []))
  {
    hide Guard, Hits, Dicts, NodeTypes, NodeStatus, IsAssembly, IsImport, Separate, Refused;
    HitsExactly("X-ASM", IsAssembly, Dicts(v));
    HitsExactly("X-IMPORT", IsImport, Dicts(v));
    ExcludedByType(T, v);
    if t :| t in NodeTypes(v) && NodeStatus(T, t) == Excluded {
      DictKinds(v, t);
      var d :| d in Dicts(v) && IsNode(d) && d.kind.value == t;
      RefusedSplit(T, d);
    }
    if d :| d in Dicts(v) && (IsAssembly(d) || IsImport(d)) {
      DetectedNode(d);
      RefusedSplit(T, d);
      DictKinds(v, d.kind.value);
    }
  }

  /** X-ASM finds exactly inline assembly and every node whose type starts with Yul, and
      X-IMPORT exactly import directives, at any depth. */
  lemma DetectorsExactly(v: Json)
    ensures Hits("X-ASM", IsAssembly, Dicts(v)) != []
       <==> exists t :: t in NodeTypes(v)
              && (t == "InlineAssembly" || (|t| >= 3 && t[0] == 'Y' && t[1] == 'u' && t[2] == 'l'))
    ensures Hits("X-IMPORT", IsImport, Dicts(v)) != [] <==> "ImportDirective" in NodeTypes(v)
  {
    hide Hits, Dicts, NodeTypes;
    HitsExactly("X-ASM", IsAssembly, Dicts(v));
    HitsExactly("X-IMPORT", IsImport, Dicts(v));
    YulNames();
    forall t
      ensures t in NodeTypes(v) <==> exists d :: d in Dicts(v) && IsNode(d) && d.kind.value == t
    {
      DictKinds(v, t);
    }
  }

  lemma YulNames()
    ensures forall t :: IsYul(t) <==> |t| >= 3 && t[0] == 'Y' && t[1] == 'u' && t[2] == 'l'
  {
    forall t: string
      ensures IsYul(t) <==> |t| >= 3 && t[0] == 'Y' && t[1] == 'u' && t[2] == 'l'
    {
      if |t| >= 3 { assert t[..3] == [t[0], t[1], t[2]]; }
    }
  }

  lemma DetectedNode(d: Json)
    ensures IsAssembly(d) || IsImport(d) ==> IsNode(d)
  {
  }

  /** The hits of the two rows in force at a version, over all sources. */
  function RowHits(row: Register.Row, at: Register.Version, found: Json -> bool, sources: seq<Json>): seq<Hit> {
    if sources == [] || !Register.IsActive(row, Some(at)) then []
    else RowHits(row, at, found, sources[..|sources| - 1]) + Hits(row.id, found, Dicts(sources[|sources| - 1]))
  }

  /** run_gate_on_asts; `others` are the hits of all other rows and checks. */
  method RunGate(at: Register.Version, sources: seq<Json>, others: seq<Hit>) returns (hits: seq<Hit>)
    ensures hits == RowHits(Register.X_ASM, at, IsAssembly, sources)
                 + RowHits(Register.X_IMPORT, at, IsImport, sources) + others
  {
    var asm := RunRow(Register.X_ASM, at, IsAssembly, sources);
    var imports := RunRow(Register.X_IMPORT, at, IsImport, sources);
    hits := asm + imports + others;
  }

  method RunRow(row: Register.Row, at: Register.Version, found: Json -> bool, sources: seq<Json>)
    returns (hits: seq<Hit>)
    ensures hits == RowHits(row, at, found, sources)
  {
    hits := [];
    if Register.IsActive(row, Some(at)) {
      for i := 0 to |sources|
        invariant hits == RowHits(row, at, found, sources[..i])
      {
        assert sources[..i + 1][..i] == sources[..i];
        var more := Detect(row.id, found, sources[i]);
        hits := hits + more;
      }
      assert sources[..|sources|] == sources;
    }
  }

  lemma {:induction false} NoRowHits(row: Register.Row, at: Register.Version, found: Json -> bool,
                                     sources: seq<Json>, v: Json)
    requires RowHits(row, at, found, sources) == [] && Register.IsActive(row, Some(at)) && v in sources
    ensures Hits(row.id, found, Dicts(v)) == []
  {
    var init, last := sources[..|sources| - 1], sources[|sources| - 1];
    assert sources == init + [last];
    if v != last { NoRowHits(row, at, found, init, v); }
  }

  /** A row reports something exactly when it is in force and its detector hits a source. */
  lemma {:induction false} RowHitsExactly(row: Register.Row, at: Register.Version, found: Json -> bool,
                                          sources: seq<Json>)
    ensures RowHits(row, at, found, sources) != []
       <==> Register.IsActive(row, Some(at)) && exists v :: v in sources && Hits(row.id, found, Dicts(v)) != []
  {
    hide Hits, Dicts, Register.IsActive;
    if sources != [] {
      var init, last := sources[..|sources| - 1], sources[|sources| - 1];
      RowHitsExactly(row, at, found, init);
      assert sources == init + [last];
      if Register.IsActive(row, Some(at)) {
        var more := Hits(row.id, found, Dicts(last));
        assert RowHits(row, at, found, sources) == RowHits(row, at, found, init) + more;
        if v :| v in sources && Hits(row.id, found, Dicts(v)) != [] {
          assert v in init || v == last;
        }
        if v :| v in init && Hits(row.id, found, Dicts(v)) != [] { assert v in sources; }
        if more != [] { assert last in sources; }
      }
    }
  }

  /** After a gate pass at any register version from 1.0.0 on, the importer never refuses
      one of the same sources for an excluded node. */
  lemma NoDrift(T: Tables, at: Register.Version, sources: seq<Json>, v: Json)
    requires Separate(T) && !Register.SemverLt(at, Register.V100) && v in sources
    requires RowHits(Register.X_ASM, at, IsAssembly, sources) == []
    requires RowHits(Register.X_IMPORT, at, IsImport, sources) == []
    ensures Guard(T, v) != Some(ExcludedNodes)
  {
    hide Guard, Hits, RowHits, Separate;
    NoRowHits(Register.X_ASM, at, IsAssembly, sources, v);
    NoRowHits(Register.X_IMPORT, at, IsImport, sources, v);
    GateMatchesImporter(T, v);
  }
}
