/** The canonical walk as written: one mutable map threaded through the recursion. */
module FingerprintWalk {
  import opened Basics
  import opened IndexSort
  import opened Fingerprint
  import opened FingerprintDistinct
  import opened FingerprintOrder

  lemma CanonAllStart(w: Order, xs: seq<Item>, refs: Refs)
    ensures CanonAll(w, xs, 0, refs) == ([], refs)
  {
  }

  lemma CanonFieldsStart(w: Order, nt: string, fs: seq<Field>, refs: Refs)
    requires forall i :: 0 <= i < |fs| ==> Visited(fs[i])
    ensures CanonFields(w, nt, fs, 0, refs) == ([], refs)
  {
  }

  class Walk {
    var refmap: map<int, int>
    ghost var order: seq<int>

    /** refmap is a bijection from the ids met so far onto 0..|order|, in visit order. */
    ghost predicate Valid()
      reads this
    {
      && NoRepeats(order)
      && |refmap| == |order|
      && (forall id :: id in refmap <==> id in order)
      && (forall k :: 0 <= k < |order| ==> refmap[order[k]] == k)
    }

    /** The map as the specification sees it: absent in the preliminary pass. */
    ghost function View(prelim: bool): Refs
      reads this
    {
      if prelim then None else Some(order)
    }

    constructor ()
      ensures Valid() && order == [] && refmap == map[]
    {
      refmap, order := map[], [];
    }

    /** refmap.setdefault(id, len(refmap)) */
    method SetDefault(id: int) returns (k: nat)
      requires Valid()
      modifies this
      ensures Valid() && order == Visit(old(order), id)
      ensures id in order && k == Position(order, id)
      ensures forall a :: a in old(refmap) ==> a in refmap && refmap[a] == old(refmap)[a]
    {
      if id !in refmap {
        ghost var was := order;
        order := order + [id];
        refmap := refmap[id := |refmap|];
        assert forall a :: a in order <==> a in was || a == id;
      }
      k := refmap[id];
    }

    method Head(x: Item, prelim: bool) returns (ref: RefPart)
      requires Valid() && x.Node?
      modifies this
      ensures Valid()
      ensures (ref, View(prelim)) == RefOf(x, Declared(x, old(View(prelim))))
      ensures prelim ==> order == old(order)
    {
      hide NoRepeats, Visit, Position;
      if !prelim && x.nt in DECL_NODE_TYPES && x.id.Some? {
        var _ := SetDefault(x.id.value);
      }
      assert View(prelim) == Declared(x, old(View(prelim)));
      if x.ref.Some? {
        if prelim {
          ref := Hole;
        } else if x.ref.value < 0 {
          ref := Builtin(x.ref.value);
        } else {
          var k := SetDefault(x.ref.value);
          ref := Index(k);
        }
      } else if x.nt in NAMED_NODE_TYPES && x.name.Some? {
        ref := Spelled(x.name.value);
      } else {
        ref := NoRef;
      }
    }

    method CanonNode(w: Order, x: Item, prelim: bool) returns (t: Term)
      requires Valid()
      modifies this
      ensures Valid() && (t, View(prelim)) == Canon(w, x, old(View(prelim)))
      ensures prelim ==> order == old(order)
      decreases Depth(x), 0, 0
    {
      hide Valid, RefOf, Declared, CanonAll, CanonFields, Ordered;
      match x
      case Scalar(text) =>
        t := TScalar(text);
      case List(xs) =>
        var ts := CanonList(w, xs, prelim);
        t := TList(ts);
      case Node(nt, _, _, _, attrs, names, fields) =>
        var ref := Head(x, prelim);
        var fs := Ordered(w, fields);
        var kids := CanonEntries(w, nt, fs, prelim);
        t := TNode(nt, attrs, TypeName(x), ref, names, kids);
    }

    method CanonList(w: Order, xs: seq<Item>, prelim: bool) returns (ts: seq<Term>)
      requires Valid()
      modifies this
      ensures Valid() && (ts, View(prelim)) == CanonAll(w, xs, |xs|, old(View(prelim)))
      ensures prelim ==> order == old(order)
      decreases DepthAll(xs), 1, 0
    {
      hide Valid, Canon, CanonAll;
      CanonAllStart(w, xs, View(prelim));
      ts := [];
      for i := 0 to |xs|
        invariant Valid()
        invariant (ts, View(prelim)) == CanonAll(w, xs, i, old(View(prelim)))
        invariant prelim ==> order == old(order)
      {
        CanonAllStep(w, xs, i + 1, old(View(prelim)));
        var t := CanonNode(w, xs[i], prelim);
        ts := ts + [t];
      }
    }

    /** sorted(val, key=lambda x: _canon(x, None)) for source-unit members. */
    method SortMembers(w: Order, nt: string, f: Field) returns (xs: seq<Item>)
      requires Valid() && f.val.List?
      modifies this
      ensures Valid() && order == old(order) && xs == Members(w, nt, f)
      decreases DepthAll(f.val.xs), 2, 0
    {
      hide Valid, CanonAll;
      if nt == "SourceUnit" && f.key == "nodes" {
        var ts := CanonList(w, f.val.xs, true);
        xs := Permute(f.val.xs, SortIndex(Digests(w, ts)));
      } else {
        xs := f.val.xs;
      }
    }

    method CanonEntry(w: Order, nt: string, f: Field, prelim: bool) returns (kid: Kid)
      requires Valid() && Visited(f)
      modifies this
      ensures Valid() && (kid, View(prelim)) == CanonField(w, nt, f, old(View(prelim)))
      ensures prelim ==> order == old(order)
      decreases Depth(f.val), 1, 0
    {
      hide Valid, Canon, CanonAll, Members;
      if f.val.Node? {
        var t := CanonNode(w, f.val, prelim);
        kid := Child(f.key, t);
      } else {
        var xs := SortMembers(w, nt, f);
        var ts := CanonList(w, xs, prelim);
        kid := Kids(f.key, ts);
      }
    }

    method CanonEntries(w: Order, nt: string, fs: seq<Field>, prelim: bool) returns (kids: seq<Kid>)
      requires Valid() && forall i :: 0 <= i < |fs| ==> Visited(fs[i])
      modifies this
      ensures Valid() && (kids, View(prelim)) == CanonFields(w, nt, fs, |fs|, old(View(prelim)))
      ensures prelim ==> order == old(order)
      decreases DepthFields(fs), 2, 0
    {
      hide Valid, CanonField, Visited, CanonFields;
      CanonFieldsStart(w, nt, fs, View(prelim));
      kids := [];
      for i := 0 to |fs|
        invariant Valid()
        invariant (kids, View(prelim)) == CanonFields(w, nt, fs, i, old(View(prelim)))
        invariant prelim ==> order == old(order)
      {
        CanonFieldsStep(w, nt, fs, i + 1, old(View(prelim)));
        var kid := CanonEntry(w, nt, fs[i], prelim);
        kids := kids + [kid];
      }
    }
  }

  /** One fresh map per file; the per-file hashes are sorted. */
  method CanonicalAstHash(w: Order, asts: seq<Item>) returns (combined: seq<int>)
    ensures combined == Combined(w, asts)
  {
    hide Canon;
    var perFile: seq<int> := [];
    for i := 0 to |asts|
      invariant perFile == FileDigests(w, asts)[..i]
    {
      var walk := new Walk();
      var t := walk.CanonNode(w, asts[i], false);
      assert t == Hash(w, asts[i]);
      perFile := perFile + [w.digest(t)];
    }
    assert perFile == FileDigests(w, asts);
    combined := Sort(itself, perFile);
  }
}
