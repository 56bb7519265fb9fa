/** Why the scope premise is needed: a reference to a later declaration. */
module FingerprintCollision {
  import opened Basics
  import opened IndexSort
  import opened Fingerprint
  import opened FingerprintProofs
  import opened FingerprintOrder

  function Literal(value: string): Item {
    Node("Literal", None, None, None, [("value", value)], [], [])
  }

  function Call(target: int): Item {
    Node("Identifier", None, Some(target), None, [], [], [])
  }

  function Function(id: int, body: Item): Item {
    Node("FunctionDefinition", Some(id), None, None, [], [], [Field("body", body)])
  }

  /** contract C { f() { target(); }  g() { 1; }  h() { 2; } } with ids 1, 2, 3. */
  function Contract(target: int): Item {
    Node("ContractDefinition", Some(0), None, None, [], [],
         [Field("nodes", List(Functions(target)))])
  }

  function Functions(target: int): seq<Item> {
    [Function(1, Call(target)), Function(2, Literal("1")), Function(3, Literal("2"))]
  }

  lemma OrderedOne(w: Order, a: Field)
    requires Visited(a)
    ensures Ordered(w, [a]) == [a]
  {
    assert VisitedPositions([a], 0) == [];
    assert VisitedPositions([a], 1) == [0];
    assert Ordered(w, [a])[0] == a;
  }

  lemma OrderedNone(w: Order)
    ensures Ordered(w, []) == []
  {
    assert VisitedPositions([], 0) == [];
  }

  lemma CanonLeaf(w: Order, x: Item, refs: Refs)
    requires x.Node? && x.fields == []
    ensures Canon(w, x, refs)
         == (TNode(x.nt, x.attrs, TypeName(x), RefOf(x, Declared(x, refs)).0, x.names, []),
             RefOf(x, Declared(x, refs)).1)
  {
    hide RefOf, Declared, VisitOrder;
    OrderedNone(w);
    assert CanonFields(w, x.nt, [], 0, RefOf(x, Declared(x, refs)).1).0 == [];
  }

  lemma CanonOneField(w: Order, nt: string, a: Field, refs: Refs)
    requires Visited(a)
    ensures CanonFields(w, nt, [a], 1, refs) == ([CanonField(w, nt, a, refs).0], CanonField(w, nt, a, refs).1)
  {
    hide CanonField;
    var fs := [a];
    assert CanonFields(w, nt, fs, 0, refs) == ([], refs);
    var (kid, r) := CanonField(w, nt, fs[0], refs);
    assert CanonFields(w, nt, fs, 1, refs) == ([] + [kid], r);
    assert [] + [kid] == [kid];
  }

  /** A node with one entry. */
  lemma CanonWrap(w: Order, x: Item, a: Field, refs: Refs)
    requires x.Node? && x.fields == [a] && Visited(a)
    ensures Canon(w, x, refs).0
         == TNode(x.nt, x.attrs, TypeName(x), RefOf(x, Declared(x, refs)).0, x.names,
                  [CanonField(w, x.nt, a, RefOf(x, Declared(x, refs)).1).0])
    ensures Canon(w, x, refs).1 == CanonField(w, x.nt, a, RefOf(x, Declared(x, refs)).1).1
  {
    hide RefOf, Declared, Ordered, CanonField, Visited, CanonFields;
    OrderedOne(w, a);
    CanonOneField(w, x.nt, a, RefOf(x, Declared(x, refs)).1);
  }

  /** A function's hash mentions its own id nowhere, and its target only by number. */
  lemma CanonFunction(w: Order, id: int, body: Item, o: seq<int>)
    requires body.Node? && body.fields == [] && body.nt != TYPE_NAME && body.nt !in DECL_NODE_TYPES
    ensures Canon(w, Function(id, body), Some(o)).0
         == TNode("FunctionDefinition", [], None, NoRef, [],
                  [Child("body", TNode(body.nt, body.attrs, None, RefOf(body, Some(Visit(o, id))).0, body.names, []))])
    ensures Canon(w, Function(id, body), Some(o)).1 == RefOf(body, Some(Visit(o, id))).1
  {
    hide Visit, Position, Ordered;
    var x := Function(id, body);
    CanonWrap(w, x, Field("body", body), Some(o));
    assert RefOf(x, Declared(x, Some(o))) == (NoRef, Some(Visit(o, id)));
    CanonLeaf(w, body, Some(Visit(o, id)));
  }

  function FunctionTerm(body: Term): Term {
    TNode("FunctionDefinition", [], None, NoRef, [], [Child("body", body)])
  }

  function CollidingTerms(): seq<Term> {
    [FunctionTerm(TNode("Identifier", [], None, Index(2), [], [])),
     FunctionTerm(TNode("Literal", [("value", "1")], None, NoRef, [], [])),
     FunctionTerm(TNode("Literal", [("value", "2")], None, NoRef, [], []))]
  }

  /** The three functions: whatever the target, its number is 2. */
  lemma CanonThree(w: Order, target: int)
    requires target == 2 || target == 3
    ensures CanonAll(w, Functions(target), 3, Some([0])).0 == CollidingTerms()
  {
    hide Canon;
    var xs := Functions(target);
    CanonFunction(w, 1, Call(target), [0]);
    assert Visit([0], 1) == [0, 1];
    assert Visit([0, 1], target) == [0, 1, target];
    assert Position([0, 1, target], target) == 2 by { Skip(0, [1, target], target); Skip(1, [target], target); }
    var o1 := [0, 1, target];
    assert Canon(w, xs[0], Some([0])).1 == Some(o1);
    CanonFunction(w, 2, Literal("1"), o1);
    var o2 := Visit(o1, 2);
    assert Canon(w, xs[1], Some(o1)).1 == Some(o2);
    CanonFunction(w, 3, Literal("2"), o2);
    assert CanonAll(w, xs, 1, Some([0])).1 == Some(o1);
    assert CanonAll(w, xs, 2, Some([0])).1 == Some(o2);
  }

  lemma Skip(a: int, o: seq<int>, id: int)
    requires a != id && id in o
    ensures Position([a] + o, id) == 1 + Position(o, id)
  {
    assert ([a] + o)[1..] == o;
  }

  lemma ThreeFunctions(target: int)
    ensures |Functions(target)| == 3 && Functions(target)[0].Node?
  {
  }

  lemma ListField(w: Order, a: Field, xs: seq<Item>, refs: Refs)
    requires a.val == List(xs) && Visited(a)
    ensures CanonField(w, "ContractDefinition", a, refs)
         == (Kids(a.key, CanonAll(w, xs, |xs|, refs).0), CanonAll(w, xs, |xs|, refs).1)
  {
    hide CanonAll;
    assert Members(w, "ContractDefinition", a) == xs;
  }

  lemma CanonContract(w: Order, target: int)
    requires target == 2 || target == 3
    ensures Hash(w, Contract(target))
         == TNode("ContractDefinition", [], None, NoRef, [],
                  [Kids("nodes", CanonAll(w, Functions(target), 3, Some([0])).0)])
  {
    hide Ordered, CanonAll, Functions, Canon, CanonFields, CanonField, Members;
    var x := Contract(target);
    var a := Field("nodes", List(Functions(target)));
    ThreeFunctions(target);
    CanonWrap(w, x, a, Some([]));
    assert Visit([], 0) == [0];
    assert RefOf(x, Declared(x, Some([]))) == (NoRef, Some([0]));
    ListField(w, a, Functions(target), Some([0]));
  }

  /** Calling the later g and calling the later h share a fingerprint, though no renaming
      of the declarations takes one program to the other. */
  lemma ForwardReferenceCollision(w: Order)
    ensures Hash(w, Contract(2)) == Hash(w, Contract(3))
    ensures !exists f: map<int, int> :: Injective(f) && Alpha(w, true, f, Contract(2), Contract(3))
  {
    hide *;
    CanonContract(w, 2);
    CanonContract(w, 3);
    CanonThree(w, 2);
    CanonThree(w, 3);
    NotAlpha(w);
  }

  lemma AlphaWrap(w: Order, f: map<int, int>, x: Item, y: Item, a: Field, b: Field)
    requires x.Node? && y.Node? && x.fields == [a] && y.fields == [b] && Visited(a) && Visited(b)
    requires Alpha(w, true, f, x, y)
    ensures AlphaField(w, true, f, x.nt, a, b)
    ensures x.nt in DECL_NODE_TYPES ==> AlphaId(f, x.id, y.id)
  {
    hide AlphaField, Ordered, Visited;
    OrderedOne(w, a);
    OrderedOne(w, b);
    assert AlphaFields(w, true, f, x.nt, [a], [b]);
    var gs, hs := [a], [b];
    assert AlphaField(w, true, f, x.nt, gs[0], hs[0]);
  }

  lemma AlphaFunction(w: Order, f: map<int, int>, id: int, x: Item, y: Item)
    requires x.Node? && y.Node?
    requires Alpha(w, true, f, Function(id, x), Function(id, y))
    ensures Maps(f, id, id) && Alpha(w, true, f, x, y)
  {
    AlphaWrap(w, f, Function(id, x), Function(id, y), Field("body", x), Field("body", y));
  }

  lemma AlphaContract(w: Order, f: map<int, int>, a: int, b: int)
    requires Alpha(w, true, f, Contract(a), Contract(b))
    ensures Alpha(w, true, f, Function(1, Call(a)), Function(1, Call(b)))
    ensures Alpha(w, true, f, Function(2, Literal("1")), Function(2, Literal("1")))
  {
    hide Alpha;
    assert Functions(a)[0].Node? && Functions(b)[0].Node?;
    AlphaWrap(w, f, Contract(a), Contract(b), Field("nodes", List(Functions(a))), Field("nodes", List(Functions(b))));
    assert Alpha(w, true, f, Functions(a)[0], Functions(b)[0]) && Alpha(w, true, f, Functions(a)[1], Functions(b)[1]);
  }

  lemma NotAlpha(w: Order)
    ensures !exists f: map<int, int> :: Injective(f) && Alpha(w, true, f, Contract(2), Contract(3))
  {
    forall f: map<int, int> | Alpha(w, true, f, Contract(2), Contract(3))
      ensures false
    {
      hide Alpha, Contract, Function;
      AlphaContract(w, f, 2, 3);
      AlphaFunction(w, f, 2, Literal("1"), Literal("1"));
      AlphaFunction(w, f, 1, Call(2), Call(3));
      CallsAgree(w, f);
    }
  }

  lemma CallsAgree(w: Order, f: map<int, int>)
    requires Alpha(w, true, f, Call(2), Call(3))
    ensures Maps(f, 2, 3)
  {
  }

  // ----- tied members -----

  /** function f() { keccak256(..); } and function g() { sha256(..); } at file level. */
  const HASHING: Item := Function(1, Call(-8))
  const DIGESTING: Item := Function(2, Call(-22))

  function Unit(members: seq<Item>): Item {
    Node("SourceUnit", Some(0), None, None, [], [], [Nodes(members)])
  }

  lemma BuiltinFunction(w: Order, id: int, builtin: int, o: seq<int>)
    requires builtin < 0
    ensures Canon(w, Function(id, Call(builtin)), Some(o))
         == (FunctionTerm(TNode("Identifier", [], None, Builtin(builtin), [], [])), Some(Visit(o, id)))
  {
    hide Visit, Position, Canon;
    CanonFunction(w, id, Call(builtin), o);
    assert RefOf(Call(builtin), Some(Visit(o, id))) == (Builtin(builtin), Some(Visit(o, id)));
    Pair(Canon(w, Function(id, Call(builtin)), Some(o)),
         FunctionTerm(TNode("Identifier", [], None, Builtin(builtin), [], [])), Some(Visit(o, id)));
  }

  lemma Pair(p: (Term, Refs), t: Term, r: Refs)
    requires p.0 == t && p.1 == r
    ensures p == (t, r)
  {
  }

  /** In the preliminary pass the two functions cannot be told apart. */
  lemma Tied(w: Order)
    ensures Canon(w, HASHING, None).0 == Canon(w, DIGESTING, None).0
  {
    PreliminaryFunction(w, 1, -8);
    PreliminaryFunction(w, 2, -22);
  }

  lemma PreliminaryFunction(w: Order, id: int, builtin: int)
    ensures Canon(w, Function(id, Call(builtin)), None).0
         == FunctionTerm(TNode("Identifier", [], None, Hole, [], []))
  {
    var x := Function(id, Call(builtin));
    CanonWrap(w, x, Field("body", Call(builtin)), None);
    CanonLeaf(w, Call(builtin), None);
    hide Canon;
  }

  lemma UnitHash(w: Order, members: seq<Item>)
    requires members != [] && members[0].Node?
    ensures var xs := Members(w, "SourceUnit", Nodes(members));
            Hash(w, Unit(members)) == TNode("SourceUnit", [], None, NoRef, [],
                                            [Kids("nodes", CanonAll(w, xs, |xs|, Some([0])).0)])
  {
    hide Ordered, CanonAll, Canon, CanonFields, Members;
    var x := Unit(members);
    CanonWrap(w, x, Nodes(members), Some([]));
    assert Visit([], 0) == [0];
    assert RefOf(x, Declared(x, Some([]))) == (NoRef, Some([0]));
  }

  lemma TwoKept(w: Order, f: Item, g: Item)
    requires Canon(w, f, None).0 == Canon(w, g, None).0
    ensures Members(w, "SourceUnit", Nodes([f, g])) == [f, g]
  {
    hide Canon;
    MembersSorted(w, [f, g]);
    var key := Preliminary(w);
    assert key(f) == key(g);
    EqualKeysKept(key, f, g);
  }

  lemma EqualKeysKept<T>(key: T -> int, f: T, g: T)
    requires key(f) == key(g)
    ensures Sort(key, [f, g]) == [f, g]
  {
    var keys := Keys(key, [f, g]);
    assert SortFirst(keys, 0) == [];
    assert SortFirst(keys, 1) == [0];
    assert SortFirst(keys, 2) == [0, 1];
  }

  /** Member order shows: the two orders of the two functions never share a fingerprint. */
  lemma MemberOrderShows(w: Order)
    ensures Hash(w, Unit([HASHING, DIGESTING])) != Hash(w, Unit([DIGESTING, HASHING]))
    ensures !SameTies(Preliminary(w), [HASHING, DIGESTING], [DIGESTING, HASHING])
  {
    Tied(w);
    TwoKept(w, HASHING, DIGESTING);
    TwoKept(w, DIGESTING, HASHING);
    UnitHash(w, [HASHING, DIGESTING]);
    UnitHash(w, [DIGESTING, HASHING]);
    FirstTerm(w, HASHING, DIGESTING, 1, -8);
    FirstTerm(w, DIGESTING, HASHING, 2, -22);
    MembersAlikeExactly(w, [HASHING, DIGESTING], [DIGESTING, HASHING]);
    hide Canon, Hash, SameTies, CanonAll, Members;
  }

  lemma FirstTerm(w: Order, f: Item, g: Item, id: int, builtin: int)
    requires f == Function(id, Call(builtin)) && builtin < 0
    ensures CanonAll(w, [f, g], 2, Some([0])).0[0]
         == FunctionTerm(TNode("Identifier", [], None, Builtin(builtin), [], []))
  {
    hide Canon;
    BuiltinFunction(w, id, builtin, [0]);
    assert CanonAll(w, [f, g], 0, Some([0])) == ([], Some([0]));
    assert CanonAll(w, [f, g], 1, Some([0])).0 == [Canon(w, f, Some([0])).0];
  }
}
