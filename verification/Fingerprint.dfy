/** The canonical AST fingerprint on free terms: hashing is read as building a term,
    so equal terms are equal hashes barring a sha256 collision. */
module Fingerprint {
  import opened Basics
  import opened IndexSort

  /** An AST value. A node keeps apart the entries the walk reads by name. */
  datatype Item =
    | Scalar(text: string)
    | List(xs: seq<Item>)
    | Node(nt: string, id: Option<int>, ref: Option<int>, name: Option<string>,
           attrs: seq<(string, string)>, names: seq<string>, fields: seq<Field>)

  datatype Field = Field(key: string, val: Item)

  datatype RefPart = NoRef | Hole | Builtin(rd: int) | Index(k: nat) | Spelled(name: string)

  datatype Term =
    | TScalar(text: string)
    | TList(ts: seq<Term>)
    | TNode(nt: string, attrs: seq<(string, string)>, tname: Option<string>, ref: RefPart,
            names: seq<string>, kids: seq<Kid>)

  datatype Kid = Child(key: string, t: Term) | Kids(key: string, ts: seq<Term>)

  /** The canonical key order (declaration-bearing keys first) and digest order. */
  datatype Order = Order(key: string -> int, digest: Term -> int)

  // ----- the canonical key order -----

  const KEY_PRIORITY: seq<string> := ["parameters", "returnParameters", "typeName", "declarations", "baseContracts"]

  /** The place of a key in a list, or the length of the list. */
  function PlaceOf(keys: seq<string>, key: string): (p: nat)
    ensures p <= |keys| && (p < |keys| ==> keys[p] == key) && (p == |keys| ==> key !in keys)
  {
    if keys == [] || keys[0] == key then 0 else 1 + PlaceOf(keys[1..], key)
  }

  /** Python's < on text. */
  predicate TextBefore(a: string, b: string) {
    if b == "" then false
    else if a == "" then true
    else a[0] < b[0] || (a[0] == b[0] && TextBefore(a[1..], b[1..]))
  }

  /** The keys of the priority list in its order, then all others alphabetically. */
  predicate KeyBefore(a: string, b: string) {
    var p, q := PlaceOf(KEY_PRIORITY, a), PlaceOf(KEY_PRIORITY, b);
    p < q || (p == q == |KEY_PRIORITY| && TextBefore(a, b))
  }

  /** w ranks these keys as the canonical order does. */
  ghost predicate RanksKeys(w: Order, keys: set<string>) {
    forall a, b :: a in keys && b in keys && KeyBefore(a, b) ==> w.key(a) < w.key(b)
  }

  const DECL_NODE_TYPES: set<string> := {
    "VariableDeclaration", "FunctionDefinition", "ContractDefinition", "StructDefinition",
    "EnumDefinition", "EnumValue", "ErrorDefinition", "EventDefinition", "ModifierDefinition",
    "UserDefinedValueTypeDefinition", "ImportDirective", "SourceUnit" }

  const NAMED_NODE_TYPES: set<string> := { "Identifier", "IdentifierPath", "UserDefinedTypeName" }

  const TYPE_NAME: string := "ElementaryTypeName"

  function Depth(x: Item): nat {
    match x
    case Scalar(_) => 0
    case List(xs) => 1 + DepthAll(xs)
    case Node(_, _, _, _, _, _, fs) => 1 + DepthFields(fs)
  }

  function DepthAll(xs: seq<Item>): (d: nat)
    ensures forall i :: 0 <= i < |xs| ==> Depth(xs[i]) <= d
    ensures d == 0 || exists i :: 0 <= i < |xs| && Depth(xs[i]) == d
  {
    if xs == [] then 0
    else
      var rest := DepthAll(xs[1..]);
      assert forall i :: 0 < i < |xs| ==> xs[i] == xs[1..][i - 1];
      if Depth(xs[0]) >= rest then Depth(xs[0]) else rest
  }

  function DepthFields(fs: seq<Field>): (d: nat)
    ensures forall i :: 0 <= i < |fs| ==> Depth(fs[i].val) <= d
    ensures d == 0 || exists i :: 0 <= i < |fs| && Depth(fs[i].val) == d
  {
    if fs == [] then 0
    else
      var rest := DepthFields(fs[1..]);
      assert forall i :: 0 < i < |fs| ==> fs[i] == fs[1..][i - 1];
      if Depth(fs[0].val) >= rest then Depth(fs[0].val) else rest
  }

  /** Is the entry a child or a list with some child? */
  predicate Visited(f: Field) {
    f.val.Node? || (f.val.List? && exists i :: 0 <= i < |f.val.xs| && f.val.xs[i].Node?)
  }

  /** Positions of the visited entries among the first k. */
  function VisitedPositions(fs: seq<Field>, k: nat): (r: seq<nat>)
    requires k <= |fs|
    ensures forall i :: 0 <= i < |r| ==> r[i] < |fs| && Visited(fs[r[i]])
  {
    if k == 0 then []
    else if Visited(fs[k - 1]) then VisitedPositions(fs, k - 1) + [k - 1]
    else VisitedPositions(fs, k - 1)
  }

  function KeyRanks(w: Order, fs: seq<Field>): (ks: seq<int>)
    ensures |ks| == |fs|
  {
    seq(|fs|, i requires 0 <= i < |fs| => w.key(fs[i].key))
  }

  /** Positions of the visited entries in canonical key order. */
  function VisitOrder(w: Order, fs: seq<Field>): (r: seq<nat>)
    ensures forall i :: 0 <= i < |r| ==> r[i] < |fs| && Visited(fs[r[i]])
  {
    var ps := VisitedPositions(fs, |fs|);
    Permute(ps, SortIndex(KeyRanks(w, Permute(fs, ps))))
  }

  /** The entries the walk descends into, in canonical key order. */
  function Ordered(w: Order, fs: seq<Field>): (r: seq<Field>)
    ensures DepthFields(r) <= DepthFields(fs)
    ensures forall i :: 0 <= i < |r| ==> Visited(r[i])
  {
    Permute(fs, VisitOrder(w, fs))
  }

  // ----- the alpha-renaming map, as the sequence of ids in first-visit order -----

  type Refs = Option<seq<int>>

  function Visit(o: seq<int>, id: int): seq<int> {
    if id in o then o else o + [id]
  }

  function Position(o: seq<int>, id: int): (k: nat)
    requires id in o
    ensures k < |o| && o[k] == id
  {
    if o[0] == id then 0 else 1 + Position(o[1..], id)
  }

  predicate Declares(x: Item) { x.Node? && x.nt in DECL_NODE_TYPES && x.id.Some? }

  function Declared(x: Item, refs: Refs): Refs {
    if refs.Some? && Declares(x) then Some(Visit(refs.value, x.id.value)) else refs
  }

  function RefOf(x: Item, refs: Refs): (RefPart, Refs)
    requires x.Node?
  {
    if x.ref.None? then
      (if x.nt in NAMED_NODE_TYPES && x.name.Some? then Spelled(x.name.value) else NoRef, refs)
    else if refs.None? then (Hole, refs)
    else if x.ref.value < 0 then (Builtin(x.ref.value), refs)
    else
      var o := Visit(refs.value, x.ref.value);
      (Index(Position(o, x.ref.value)), Some(o))
  }

  function TypeName(x: Item): Option<string>
    requires x.Node?
  {
    if x.nt == TYPE_NAME then x.name else None
  }

  /** The structural hash of one value; refs is None in the preliminary pass. */
  function Canon(w: Order, x: Item, refs: Refs): (Term, Refs)
    decreases Depth(x), 0, 0
  {
    match x
    case Scalar(text) => (TScalar(text), refs)
    case List(xs) =>
      var (ts, r) := CanonAll(w, xs, |xs|, refs);
      (TList(ts), r)
    case Node(nt, _, _, _, attrs, names, fields) =>
      var fs := Ordered(w, fields);
      var (ref, r1) := RefOf(x, Declared(x, refs));
      var (kids, r2) := CanonFields(w, nt, fs, |fs|, r1);
      (TNode(nt, attrs, TypeName(x), ref, names, kids), r2)
  }

  /** The first k values of a list, left to right. */
  function CanonAll(w: Order, xs: seq<Item>, k: nat, refs: Refs): (r: (seq<Term>, Refs))
    requires k <= |xs|
    ensures |r.0| == k
    decreases DepthAll(xs), 1, k
  {
    if k == 0 then ([], refs)
    else
      var (ts, r1) := CanonAll(w, xs, k - 1, refs);
      var (t, r2) := Canon(w, xs[k - 1], r1);
      (ts + [t], r2)
  }

  function Digests(w: Order, ts: seq<Term>): (ks: seq<int>)
    ensures |ks| == |ts|
  {
    seq(|ts|, i requires 0 <= i < |ts| => w.digest(ts[i]))
  }

  /** Source-unit members are visited in the order of their preliminary hashes. */
  function Members(w: Order, nt: string, f: Field): (xs: seq<Item>)
    requires f.val.List?
    ensures DepthAll(xs) <= DepthAll(f.val.xs)
    decreases DepthAll(f.val.xs), 2, 0
  {
    if nt == "SourceUnit" && f.key == "nodes" then
      var keys := Digests(w, CanonAll(w, f.val.xs, |f.val.xs|, None).0);
      var r := Permute(f.val.xs, SortIndex(keys));
      assert forall i :: 0 <= i < |r| ==> r[i] in f.val.xs;
      r
    else f.val.xs
  }

  function CanonField(w: Order, nt: string, f: Field, refs: Refs): (Kid, Refs)
    requires Visited(f)
    decreases Depth(f.val), 1, 0
  {
    if f.val.Node? then
      var (t, r) := Canon(w, f.val, refs);
      (Child(f.key, t), r)
    else
      var xs := Members(w, nt, f);
      var (ts, r) := CanonAll(w, xs, |xs|, refs);
      (Kids(f.key, ts), r)
  }

  function CanonFields(w: Order, nt: string, fs: seq<Field>, k: nat, refs: Refs): (r: (seq<Kid>, Refs))
    requires k <= |fs| && forall i :: 0 <= i < |fs| ==> Visited(fs[i])
    ensures |r.0| == k
    decreases DepthFields(fs), 2, k
  {
    if k == 0 then ([], refs)
    else
      var (kids, r1) := CanonFields(w, nt, fs, k - 1, refs);
      var (kid, r2) := CanonField(w, nt, fs[k - 1], r1);
      (kids + [kid], r2)
  }

  function Hash(w: Order, ast: Item): Term { Canon(w, ast, Some([])).0 }
}
