/** The call-graph worklist of the minimality report. */
module Minimality {
  import opened Text


  /** A function definition: its name, the ids it references, and whether the
      report leaves it out (constructors and the like). */
  datatype Fn = Fn(name: string, refs: seq<int>, exempt: bool)

  type Program = map<int, Fn>

  /** The steps the search follows: references between indexed functions. */
  predicate Calls(p: Program, a: int, b: int) { a in p && b in p && b in p[a].refs }

  predicate Path(p: Program, entries: seq<int>, path: seq<int>) {
    && path != [] && path[0] in entries
    && forall i :: 0 <= i < |path| - 1 ==> Calls(p, path[i], path[i + 1])
  }

  /** Some chain of references leads from an entry to id. */
  ghost predicate Reachable(p: Program, entries: seq<int>, id: int) {
    exists path :: Path(p, entries, path) && path[|path| - 1] == id
  }

  ghost predicate Closed(p: Program, s: set<int>) {
    forall a, b :: a in s && Calls(p, a, b) ==> b in s
  }

  lemma EntryReachable(p: Program, entries: seq<int>, id: int)
    requires id in entries
    ensures Reachable(p, entries, id)
  {
    assert Path(p, entries, [id]);
  }

  lemma CallReachable(p: Program, entries: seq<int>, a: int, b: int)
    requires Reachable(p, entries, a) && Calls(p, a, b)
    ensures Reachable(p, entries, b)
  {
    var path :| Path(p, entries, path) && path[|path| - 1] == a;
    assert Path(p, entries, path + [b]);
  }

  lemma {:induction false} PathInside(p: Program, entries: seq<int>, path: seq<int>, s: set<int>, i: nat)
    requires Closed(p, s) && Path(p, entries, path) && i < |path|
    requires forall e :: e in entries ==> e in s
    ensures path[i] in s
  {
    if i > 0 {
      PathInside(p, entries, path, s, i - 1);
      var a, b := path[i - 1], path[(i - 1) + 1];
      assert Calls(p, a, b);
      assert b in s;
    } else {
      var e := path[i];
      assert e in entries;
      assert e in s;
    }
  }

  lemma ReachableInside(p: Program, entries: seq<int>, id: int, s: set<int>)
    requires Reachable(p, entries, id) && Closed(p, s) && forall e :: e in entries ==> e in s
    ensures id in s
  {
    var path :| Path(p, entries, path) && path[|path| - 1] == id;
    PathInside(p, entries, path, s, |path| - 1);
  }

  /** A closed set of reachable ids containing the entries is the set of reachable ids,
      hence the least such set. */
  lemma ReachableLeast(p: Program, entries: seq<int>, s: set<int>, t: set<int>)
    requires Closed(p, s) && forall e :: e in entries ==> e in s
    requires forall id :: id in s ==> Reachable(p, entries, id)
    ensures forall id :: id in s <==> Reachable(p, entries, id)
    ensures Closed(p, t) && (forall e :: e in entries ==> e in t) ==> s <= t
  {
    forall id | Reachable(p, entries, id)
      ensures id in s
    {
      ReachableInside(p, entries, id, s);
    }
    if Closed(p, t) && forall e :: e in entries ==> e in t {
      forall id | id in s
        ensures id in t
      {
        ReachableInside(p, entries, id, t);
      }
    }
  }

  /** Ids whose references are still to be followed. */
  predicate Pending(frontier: seq<int>, a: int) { a in frontier }

  method Search(p: Program, entries: seq<int>) returns (reachable: set<int>)
    requires forall e :: e in entries ==> e in p
    ensures forall id :: id in reachable <==> Reachable(p, entries, id)
  {
    reachable := set e | e in entries;
    var frontier := entries;
    forall e | e in entries
      ensures Reachable(p, entries, e)
    {
      EntryReachable(p, entries, e);
    }
    while frontier != []
      invariant forall e :: e in entries ==> e in reachable
      invariant forall a :: a in frontier ==> a in reachable
      invariant forall id :: id in reachable ==> id in p && Reachable(p, entries, id)
      invariant forall a, b :: a in reachable && !Pending(frontier, a) && Calls(p, a, b) ==> b in reachable
      decreases p.Keys - reachable, |frontier|
    {
      ghost var before := reachable;
      var id := frontier[|frontier| - 1];
      frontier := frontier[..|frontier| - 1];
      reachable, frontier := Follow(p, entries, reachable, frontier, id);
      if x :| x in reachable && x !in before {
        assert x in p.Keys - before && x !in p.Keys - reachable;
      }
    }
    ReachableLeast(p, entries, reachable, {});
  }

  ghost predicate Grew(seen: set<int>, now: set<int>) { exists x :: x in now && x !in seen }

  /** One iteration: pushes the functions that id references and that are new. */
  method Follow(p: Program, ghost entries: seq<int>, seen: set<int>, rest: seq<int>, id: int)
    returns (reachable: set<int>, frontier: seq<int>)
    requires id in seen && forall a :: a in rest ==> a in seen
    requires forall a :: a in seen ==> a in p && Reachable(p, entries, a)
    requires forall a, b :: a in seen && a != id && !Pending(rest, a) && Calls(p, a, b) ==> b in seen
    ensures seen <= reachable && ((reachable == seen && frontier == rest) || Grew(seen, reachable))
    ensures forall a :: a in frontier ==> a in reachable
    ensures forall a :: a in reachable ==> a in p && Reachable(p, entries, a)
    ensures forall a, b :: a in reachable && !Pending(frontier, a) && Calls(p, a, b) ==> b in reachable
  {
    reachable, frontier := seen, rest;
    var refs := p[id].refs;
    for i := 0 to |refs|
      invariant seen <= reachable && ((reachable == seen && frontier == rest) || Grew(seen, reachable))
      invariant forall a :: a in rest ==> a in frontier
      invariant forall a :: a in frontier ==> a in reachable
      invariant forall a :: a in reachable ==> a in p && Reachable(p, entries, a)
      invariant forall a :: a in reachable ==> a in seen || Pending(frontier, a)
      invariant forall j :: 0 <= j < i && refs[j] in p ==> refs[j] in reachable
    {
      var ref := refs[i];
      if ref in p && ref !in reachable {
        CallReachable(p, entries, id, ref);
        assert Grew(seen, reachable + {ref}) by { assert ref in reachable + {ref} && ref !in seen; }
        reachable := reachable + {ref};
        ghost var was := frontier;
        frontier := frontier + [ref];
        assert forall a :: a in frontier <==> a in was || a == ref;
      }
    }
    forall a, b | a in reachable && !Pending(frontier, a) && Calls(p, a, b)
      ensures b in reachable
    {
      assert a in seen;
      if a == id {
        var j :| 0 <= j < |refs| && refs[j] == b;
      }
    }
  }

  // ----- the reported names -----

  function PrintedName(p: Program, id: int): string
    requires id in p
  {
    if p[id].name != "" then p[id].name else "<fn#" + SignedDecimal(id) + ">"
  }

  function NamesOf(p: Program, ids: seq<int>): (ns: seq<string>)
    requires forall id :: id in ids ==> id in p
    ensures |ns| == |ids|
  {
    seq(|ids|, i requires 0 <= i < |ids| => PrintedName(p, ids[i]))
  }

  /** Code-point order of strings. */
  predicate NotAfter(a: string, b: string) {
    a == "" || (b != "" && (a[0] < b[0] || (a[0] == b[0] && NotAfter(a[1..], b[1..]))))
  }

  /** a is a prefix of b, or smaller at their first difference. */
  predicate FirstDiffers(a: string, b: string, k: nat) {
    k <= |a| && k <= |b| && a[..k] == b[..k] && (k == |a| || (k < |b| && a[k] < b[k]))
  }

  lemma {:induction false} NotAfterExactly(a: string, b: string)
    ensures NotAfter(a, b) <==> exists k: nat :: FirstDiffers(a, b, k)
  {
    if a == "" {
      assert FirstDiffers(a, b, 0);
    } else if b != "" && a[0] == b[0] {
      NotAfterExactly(a[1..], b[1..]);
      forall k: nat | FirstDiffers(a[1..], b[1..], k)
        ensures FirstDiffers(a, b, k + 1)
      {
        assert a[..k + 1] == [a[0]] + a[1..][..k] && b[..k + 1] == [b[0]] + b[1..][..k];
      }
      forall k: nat | k > 0 && FirstDiffers(a, b, k)
        ensures FirstDiffers(a[1..], b[1..], k - 1)
      {
        assert a[1..][..k - 1] == a[..k][1..] && b[1..][..k - 1] == b[..k][1..];
      }
    } else if b != "" && a[0] < b[0] {
      assert FirstDiffers(a, b, 0);
    }
  }

  predicate Alphabetical(ns: seq<string>) {
    forall i, j :: 0 <= i < j < |ns| ==> NotAfter(ns[i], ns[j])
  }

  lemma {:induction false} NotAfterTotal(a: string, b: string)
    ensures NotAfter(a, b) || NotAfter(b, a)
  {
    if a != "" && b != "" { NotAfterTotal(a[1..], b[1..]); }
  }

  lemma {:induction false} NotAfterTransitive(a: string, b: string, c: string)
    requires NotAfter(a, b) && NotAfter(b, c)
    ensures NotAfter(a, c)
  {
    if a != "" { if a[0] == b[0] == c[0] { NotAfterTransitive(a[1..], b[1..], c[1..]); } }
  }

  function InsertName(ns: seq<string>, n: string): seq<string> {
    if ns == [] then [n]
    else if NotAfter(n, ns[0]) then [n] + ns
    else [ns[0]] + InsertName(ns[1..], n)
  }

  /** sorted(ns) */
  function SortNames(ns: seq<string>): seq<string> {
    if ns == [] then [] else InsertName(SortNames(ns[1..]), ns[0])
  }

  lemma {:induction false} InsertNameKeeps(ns: seq<string>, n: string)
    ensures multiset(InsertName(ns, n)) == multiset(ns) + multiset{n}
  {
    if ns != [] && !NotAfter(n, ns[0]) {
      assert ns == [ns[0]] + ns[1..];
      InsertNameKeeps(ns[1..], n);
    }
  }

  lemma {:induction false} InsertNameSorts(ns: seq<string>, n: string)
    requires Alphabetical(ns)
    ensures Alphabetical(InsertName(ns, n))
  {
    if ns != [] && !NotAfter(n, ns[0]) {
      InsertNameSorts(ns[1..], n);
      InsertNameKeeps(ns[1..], n);
      NotAfterTotal(n, ns[0]);
      var r := InsertName(ns[1..], n);
      forall j | 0 <= j < |r|
        ensures NotAfter(ns[0], r[j])
      {
        assert r[j] in multiset(r);
        assert r[j] == n || r[j] in ns[1..];
      }
    } else if ns != [] {
      forall j | 0 <= j < |ns|
        ensures NotAfter(n, ns[j])
      {
        if j > 0 { NotAfterTransitive(n, ns[0], ns[j]); }
      }
    }
  }

  /** The reported list is the names in alphabetical order, each as often as it occurs. */
  lemma {:induction false} NamesSorted(ns: seq<string>)
    ensures Alphabetical(SortNames(ns)) && multiset(SortNames(ns)) == multiset(ns)
  {
    if ns != [] {
      assert ns == [ns[0]] + ns[1..];
      NamesSorted(ns[1..]);
      InsertNameKeeps(SortNames(ns[1..]), ns[0]);
      InsertNameSorts(SortNames(ns[1..]), ns[0]);
    }
  }

  lemma NamedShown(p: Program, ids: seq<int>, names: seq<string>)
    requires (forall id :: id in ids ==> id in p) && multiset(names) == multiset(NamesOf(p, ids))
    ensures forall id :: id in ids && p[id].name != "" ==> p[id].name in names
  {
    forall id | id in ids && p[id].name != ""
      ensures p[id].name in names
    {
      var i :| 0 <= i < |ids| && ids[i] == id;
      assert NamesOf(p, ids)[i] in multiset(NamesOf(p, ids));
      assert p[id].name in multiset(names);
    }
  }

  /** The report: `order` is the order in which the functions were indexed. */
  method Report(p: Program, order: seq<int>, entries: seq<int>)
    returns (minimal: bool, names: seq<string>, unreachable: seq<int>)
    requires forall e :: e in entries ==> e in p
    requires forall id :: id in order <==> id in p
    requires forall i, j :: 0 <= i < j < |order| ==> order[i] != order[j]
    ensures forall id :: id in unreachable <==> id in p && !p[id].exempt && !Reachable(p, entries, id)
    ensures forall i, j :: 0 <= i < j < |unreachable| ==> unreachable[i] != unreachable[j]
    ensures minimal <==> forall id :: id in p && !p[id].exempt ==> Reachable(p, entries, id)
    ensures names == SortNames(NamesOf(p, unreachable))
    ensures Alphabetical(names) && multiset(names) == multiset(NamesOf(p, unreachable))
    ensures forall id :: id in unreachable && p[id].name != "" ==> p[id].name in names
  {
    var reachable := Search(p, entries);
    unreachable := [];
    for i := 0 to |order|
      invariant forall id :: id in unreachable <==> id in order[..i] && id !in reachable && !p[id].exempt
      invariant forall j, k :: 0 <= j < k < |unreachable| ==> unreachable[j] != unreachable[k]
    {
      assert order[..i + 1] == order[..i] + [order[i]];
      assert order[i] !in order[..i];
      var id := order[i];
      assert id in order;
      if id !in reachable && !p[id].exempt {
        unreachable := unreachable + [id];
      }
    }
    assert order[..|order|] == order;
    names := SortNames(NamesOf(p, unreachable));
    NamesSorted(NamesOf(p, unreachable));
    NamedShown(p, unreachable, names);
    minimal := unreachable == [];
    if minimal {
      forall id | id in p && !p[id].exempt
        ensures Reachable(p, entries, id)
      {
        assert id !in unreachable;
      }
    } else {
      var id := unreachable[0];
      assert id in unreachable;
    }
  }
}
