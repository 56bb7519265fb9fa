/** a - b and b - a never share a fingerprint: for parameters, and for local variables. */
module FingerprintOperands {
  import opened Basics
  import opened IndexSort
  import opened Fingerprint
  import opened FingerprintOrder
  import opened FingerprintBinding

  // ----- reading small programs -----

  function Plain(nt: string, id: int, fields: seq<Field>): Item {
    Node(nt, Some(id), None, None, [], [], fields)
  }

  function Use(id: int, target: int): Item {
    Node("Identifier", Some(id), Some(target), None, [], [], [])
  }

  lemma MetLeaf(w: Order, x: Item)
    requires x.Node? && x.fields == []
    ensures Met(w, x) == [x]
  {
    OrderedSorts(w, []);
    assert Ordered(w, []) == [];
    assert MetFields(w, x.nt, [], 0) == [];
  }

  lemma OrderedOnly(w: Order, a: Field)
    requires Visited(a)
    ensures Ordered(w, [a]) == [a]
  {
    hide Visited;
    assert OnlyVisited([a], 0) == [];
    assert OnlyVisited([a], 1) == [a];
    OrderedSorts(w, [a]);
    assert SortFirst(Keys(KeyRank(w), [a]), 0) == [];
    assert SortFirst(Keys(KeyRank(w), [a]), 1) == [0];
  }

  lemma MetOne(w: Order, x: Item, a: Field)
    requires x.Node? && x.fields == [a] && Visited(a)
    ensures Met(w, x) == [x] + MetField(w, x.nt, a)
  {
    hide MetField, Visited, Ordered;
    OrderedOnly(w, a);
    assert MetFields(w, x.nt, [a], 0) == [];
    assert MetFields(w, x.nt, [a], 1) == [] + MetField(w, x.nt, a);
  }

  /** Two entries are met in the order of their ranks, however they are stored. */
  lemma OrderedPair(w: Order, a: Field, b: Field)
    requires Visited(a) && Visited(b) && w.key(a.key) < w.key(b.key)
    ensures Ordered(w, [a, b]) == [a, b] && Ordered(w, [b, a]) == [a, b]
  {
    hide Visited;
    OnlyPair(a, b);
    OnlyPair(b, a);
    OrderedSorts(w, [a, b]);
    OrderedSorts(w, [b, a]);
    SortPair(KeyRank(w), a, b);
  }

  lemma OnlyPair(a: Field, b: Field)
    requires Visited(a) && Visited(b)
    ensures OnlyVisited([a, b], 2) == [a, b]
  {
    hide Visited;
    assert OnlyVisited([a, b], 0) == [];
    assert OnlyVisited([a, b], 1) == [a];
  }

  lemma SortPair<T>(key: T -> int, a: T, b: T)
    requires key(a) < key(b)
    ensures Sort(key, [a, b]) == [a, b] && Sort(key, [b, a]) == [a, b]
  {
    hide Sort;
    SortedPair(key, a, b);
    assert multiset([a, b]) == multiset([b, a]);
    assert DistinctKeys(key, [a, b]);
    SortPermutationInvariant(key, [a, b], [b, a]);
  }

  lemma SortedPair<T>(key: T -> int, a: T, b: T)
    requires key(a) < key(b)
    ensures Sort(key, [a, b]) == [a, b]
  {
    var keys := Keys(key, [a, b]);
    assert SortFirst(keys, 0) == [];
    assert SortFirst(keys, 1) == [0];
    assert SortFirst(keys, 2) == [0, 1];
  }

  lemma MetTwo(w: Order, x: Item, a: Field, b: Field)
    requires x.Node? && Visited(a) && Visited(b) && Ordered(w, x.fields) == [a, b]
    ensures Met(w, x) == [x] + MetField(w, x.nt, a) + MetField(w, x.nt, b)
  {
    hide MetField, Visited, Ordered;
    var fs := [a, b];
    assert MetFields(w, x.nt, fs, 0) == [];
    assert MetFields(w, x.nt, fs, 1) == MetField(w, x.nt, a);
    assert MetFields(w, x.nt, fs, 2) == MetField(w, x.nt, a) + MetField(w, x.nt, b);
  }

  lemma MetList(w: Order, nt: string, key: string, xs: seq<Item>)
    requires nt != "SourceUnit" && xs != [] && xs[0].Node?
    ensures Visited(Field(key, List(xs))) && MetField(w, nt, Field(key, List(xs))) == MetAll(w, xs, |xs|)
  {
    hide MetAll;
    var a := Field(key, List(xs));
    assert a.val.xs[0].Node?;
    assert Members(w, nt, a) == xs;
  }

  // ----- p - q, returned -----

  function Minus(id: int, p: int, q: int): Item {
    Node("BinaryOperation", Some(id), None, None, [("operator", "-")], [],
         [Field("leftExpression", Use(id + 1, p)), Field("rightExpression", Use(id + 2, q))])
  }

  function Return(id: int, p: int, q: int): Item {
    Plain("Return", id, [Field("expression", Minus(id + 1, p, q))])
  }

  lemma MetReturn(w: Order, id: int, p: int, q: int)
    requires w.key("leftExpression") < w.key("rightExpression")
    ensures Met(w, Return(id, p, q)) == [Return(id, p, q), Minus(id + 1, p, q), Use(id + 2, p), Use(id + 3, q)]
  {
    var m := Minus(id + 1, p, q);
    var a, b := Field("leftExpression", Use(id + 2, p)), Field("rightExpression", Use(id + 3, q));
    hide Ordered, Met;
    OrderedPair(w, a, b);
    MetTwo(w, m, a, b);
    MetLeaf(w, Use(id + 2, p));
    MetLeaf(w, Use(id + 3, q));
    MetOne(w, Return(id, p, q), Field("expression", m));
  }

  /** Ids in the order met, and references back to declarations. */
  lemma InOrder(ns: seq<Item>)
    requires forall i :: 0 <= i < |ns| ==> ns[i].Node? && ns[i].id == Some(i)
    requires forall i :: 0 <= i < |ns| && ns[i].ref.Some? ==>
      0 <= ns[i].ref.value <= i && ns[ns[i].ref.value].nt in REFERABLE
    ensures Grounded(ns)
  {
    forall i | 0 <= i < |ns|
      ensures GroundedAt(ns, i)
    {
      if ns[i].ref.Some? { assert Binds(ns, i, ns[i].ref.value); }
    }
  }

  // ----- parameters -----

  const LEFT: Item := Plain("VariableDeclaration", 2, [])
  const RIGHT: Item := Plain("VariableDeclaration", 3, [])
  const PARAMETERS: Item := Plain("ParameterList", 1, [Field("parameters", List([LEFT, RIGHT]))])

  function Body(p: int, q: int): Item { Plain("Block", 4, [Field("statements", List([Return(5, p, q)]))]) }

  /** function f(uint a, uint b) { return p - q; } with a numbered 2 and b numbered 3. */
  function OfParameters(p: int, q: int): Item {
    Plain("FunctionDefinition", 0, [Field("body", Body(p, q)), Field("parameters", PARAMETERS)])
  }

  lemma MetParameters(w: Order)
    ensures Met(w, PARAMETERS) == [PARAMETERS, LEFT, RIGHT]
  {
    hide Met, Ordered;
    var xs := [LEFT, RIGHT];
    MetList(w, "ParameterList", "parameters", xs);
    MetOne(w, PARAMETERS, Field("parameters", List(xs)));
    MetLeaf(w, LEFT);
    MetLeaf(w, RIGHT);
    assert MetAll(w, xs, 0) == [];
    assert MetAll(w, xs, 1) == [LEFT];
    assert MetAll(w, xs, 2) == [LEFT, RIGHT];
  }

  lemma MetBody(w: Order, p: int, q: int)
    requires w.key("leftExpression") < w.key("rightExpression")
    ensures Met(w, Body(p, q)) == [Body(p, q), Return(5, p, q), Minus(6, p, q), Use(7, p), Use(8, q)]
  {
    hide Met, Ordered;
    var xs := [Return(5, p, q)];
    MetList(w, "Block", "statements", xs);
    MetOne(w, Body(p, q), Field("statements", List(xs)));
    MetReturn(w, 5, p, q);
    assert MetAll(w, xs, 0) == [];
    assert MetAll(w, xs, 1) == [] + Met(w, xs[0]);
  }

  /** Keys that differ in length from all listed ones come after them. */
  lemma Unlisted(key: string)
    requires |key| !in {8, 10, 12, 13, 16}
    ensures PlaceOf(KEY_PRIORITY, key) == |KEY_PRIORITY| && KeyBefore("parameters", key)
    ensures forall other :: |other| !in {8, 10, 12, 13, 16} && TextBefore(key, other) ==> KeyBefore(key, other)
  {
    hide PlaceOf, TextBefore;
    assert forall i :: 0 <= i < |KEY_PRIORITY| ==> |KEY_PRIORITY[i]| in {8, 10, 12, 13, 16};
    assert PlaceOf(KEY_PRIORITY, "parameters") == 0 by { FirstPlace(KEY_PRIORITY); }
  }

  lemma FirstPlace(keys: seq<string>)
    requires keys != []
    ensures PlaceOf(keys, keys[0]) == 0
  {
  }

  lemma LettersBefore(a: string, b: string)
    requires a != "" && b != "" && a[0] < b[0]
    ensures TextBefore(a, b)
  {
  }

  lemma LeftBeforeRight()
    ensures KeyBefore("leftExpression", "rightExpression")
  {
    hide KeyBefore, TextBefore, PlaceOf;
    LettersBefore("leftExpression", "rightExpression");
    Unlisted("leftExpression");
  }

  lemma ParametersBeforeBody()
    ensures KeyBefore("parameters", "body")
  {
    hide KeyBefore, TextBefore, PlaceOf;
    Unlisted("body");
  }

  lemma Ranked(w: Order, keys: set<string>, a: string, b: string)
    requires RanksKeys(w, keys) && a in keys && b in keys && KeyBefore(a, b)
    ensures w.key(a) < w.key(b)
  {
    hide KeyBefore;
  }

  const OPERANDS: set<string> := {"leftExpression", "rightExpression"}
  const FUNCTION_KEYS: set<string> := {"body", "parameters", "leftExpression", "rightExpression"}

  lemma OperandsRanked(w: Order)
    requires RanksKeys(w, OPERANDS)
    ensures w.key("leftExpression") < w.key("rightExpression")
  {
    hide KeyBefore, RanksKeys;
    LeftBeforeRight();
    Ranked(w, OPERANDS, "leftExpression", "rightExpression");
  }

  lemma KeysRanked(w: Order)
    requires RanksKeys(w, FUNCTION_KEYS)
    ensures w.key("parameters") < w.key("body") && w.key("leftExpression") < w.key("rightExpression")
  {
    hide KeyBefore, RanksKeys;
    LeftBeforeRight();
    ParametersBeforeBody();
    Ranked(w, FUNCTION_KEYS, "leftExpression", "rightExpression");
    Ranked(w, FUNCTION_KEYS, "parameters", "body");
  }

  lemma MetOfParameters(w: Order, p: int, q: int)
    requires RanksKeys(w, FUNCTION_KEYS)
    ensures Met(w, OfParameters(p, q))
         == [OfParameters(p, q), PARAMETERS, LEFT, RIGHT,
             Body(p, q), Return(5, p, q), Minus(6, p, q), Use(7, p), Use(8, q)]
  {
    hide Met, Ordered, RanksKeys;
    KeysRanked(w);
    var a, b := Field("parameters", PARAMETERS), Field("body", Body(p, q));
    OrderedPair(w, a, b);
    MetTwo(w, OfParameters(p, q), a, b);
    MetParameters(w);
    MetBody(w, p, q);
  }

  lemma ParametersGrounded(w: Order, p: int, q: int)
    requires RanksKeys(w, FUNCTION_KEYS) && 2 <= p <= 3 && 2 <= q <= 3
    ensures Grounded(Met(w, OfParameters(p, q))) && |Met(w, OfParameters(p, q))| == 9
    ensures forall i :: 0 <= i < 9 ==> IdOf(Met(w, OfParameters(p, q))[i]) == Some(i)
    ensures TargetOf(Met(w, OfParameters(p, q))[7]) == Some(p)
  {
    hide Met, RanksKeys, Grounded;
    MetOfParameters(w, p, q);
    InOrder(Met(w, OfParameters(p, q)));
  }

  /** Parameters: a - b and b - a have different fingerprints. */
  lemma ParametersDiffer(w: Order)
    requires RanksKeys(w, FUNCTION_KEYS)
    ensures Hash(w, OfParameters(2, 3)) != Hash(w, OfParameters(3, 2))
  {
    hide *;
    ParametersGrounded(w, 2, 3);
    ParametersGrounded(w, 3, 2);
    MovedReferenceShows(w, OfParameters(2, 3), OfParameters(3, 2), 7);
  }

  // ----- local variables -----

  function Local(id: int): Item {
    Plain("VariableDeclarationStatement", id,
          [Field("declarations", List([Plain("VariableDeclaration", id + 1, [])]))])
  }

  function Statements(p: int, q: int): seq<Item> { [Local(2), Local(4), Return(6, p, q)] }

  /** function f() { uint a; uint b; return p - q; } with a numbered 3 and b numbered 5. */
  function OfLocals(p: int, q: int): Item {
    Plain("FunctionDefinition", 0, [Field("body", Block(p, q))])
  }

  function Block(p: int, q: int): Item { Plain("Block", 1, [Field("statements", List(Statements(p, q)))]) }

  lemma MetLocal(w: Order, id: int)
    ensures Met(w, Local(id)) == [Local(id), Plain("VariableDeclaration", id + 1, [])]
  {
    hide Met, Ordered;
    var xs := [Plain("VariableDeclaration", id + 1, [])];
    MetList(w, "VariableDeclarationStatement", "declarations", xs);
    MetOne(w, Local(id), Field("declarations", List(xs)));
    MetLeaf(w, xs[0]);
    assert MetAll(w, xs, 0) == [];
    assert MetAll(w, xs, 1) == [] + Met(w, xs[0]);
  }

  lemma MetStatements(w: Order, p: int, q: int)
    requires w.key("leftExpression") < w.key("rightExpression")
    ensures MetAll(w, Statements(p, q), 3)
         == [Local(2), Plain("VariableDeclaration", 3, []), Local(4), Plain("VariableDeclaration", 5, []),
             Return(6, p, q), Minus(7, p, q), Use(8, p), Use(9, q)]
  {
    hide Met;
    var xs := Statements(p, q);
    MetLocal(w, 2);
    MetLocal(w, 4);
    MetReturn(w, 6, p, q);
    assert MetAll(w, xs, 0) == [];
    assert MetAll(w, xs, 1) == Met(w, xs[0]);
    assert MetAll(w, xs, 2) == Met(w, xs[0]) + Met(w, xs[1]);
    assert MetAll(w, xs, 3) == Met(w, xs[0]) + Met(w, xs[1]) + Met(w, xs[2]);
  }

  lemma MetBlock(w: Order, p: int, q: int)
    ensures Met(w, Block(p, q)) == [Block(p, q)] + MetAll(w, Statements(p, q), 3)
  {
    hide Met, MetAll;
    var xs := Statements(p, q);
    assert |xs| == 3 && xs[0].Node?;
    hide Statements;
    MetList(w, "Block", "statements", xs);
    MetOne(w, Block(p, q), Field("statements", List(xs)));
  }

  lemma MetOfLocals(w: Order, p: int, q: int)
    requires w.key("leftExpression") < w.key("rightExpression")
    ensures Met(w, OfLocals(p, q))
         == [OfLocals(p, q), Block(p, q), Local(2), Plain("VariableDeclaration", 3, []),
             Local(4), Plain("VariableDeclaration", 5, []), Return(6, p, q), Minus(7, p, q), Use(8, p), Use(9, q)]
  {
    hide Met, Ordered, MetAll;
    MetOne(w, OfLocals(p, q), Field("body", Block(p, q)));
    MetBlock(w, p, q);
    MetStatements(w, p, q);
  }

  lemma LocalsGrounded(w: Order, p: int, q: int)
    requires RanksKeys(w, OPERANDS) && p in {3, 5} && q in {3, 5}
    ensures Grounded(Met(w, OfLocals(p, q))) && |Met(w, OfLocals(p, q))| == 10
    ensures forall i :: 0 <= i < 10 ==> IdOf(Met(w, OfLocals(p, q))[i]) == Some(i)
    ensures TargetOf(Met(w, OfLocals(p, q))[8]) == Some(p)
  {
    hide Met, RanksKeys, Grounded;
    OperandsRanked(w);
    MetOfLocals(w, p, q);
    InOrder(Met(w, OfLocals(p, q)));
  }

  /** Local variables: a - b and b - a have different fingerprints. */
  lemma LocalsDiffer(w: Order)
    requires RanksKeys(w, OPERANDS)
    ensures Hash(w, OfLocals(3, 5)) != Hash(w, OfLocals(5, 3))
  {
    hide *;
    LocalsGrounded(w, 3, 5);
    LocalsGrounded(w, 5, 3);
    MovedReferenceShows(w, OfLocals(3, 5), OfLocals(5, 3), 8);
  }
}
