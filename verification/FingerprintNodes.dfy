/** The walk meets every node once. */
module FingerprintNodes {
  import opened IndexSort
  import opened Fingerprint
  import opened FingerprintOrder
  import opened FingerprintShape
  import opened FingerprintBinding

  // ----- the nodes of a tree, in the order they are stored -----

  function Everything(x: Item): multiset<Item>
    decreases Depth(x), 0, 0
  {
    match x
    case Scalar(_) => multiset{}
    case List(xs) => EverythingIn(xs, |xs|)
    case Node(_, _, _, _, _, _, fields) => multiset{x} + EntriesIn(fields, |fields|)
  }

  function EverythingIn(xs: seq<Item>, k: nat): multiset<Item>
    requires k <= |xs|
    decreases DepthAll(xs), 1, k
  {
    if k == 0 then multiset{} else EverythingIn(xs, k - 1) + Everything(xs[k - 1])
  }

  /** A child, or the values of a list some of which are nodes; nothing else is looked into. */
  function EntryNodes(a: Field): multiset<Item>
    decreases Depth(a.val), 1, 0
  {
    match a.val
    case Node(_, _, _, _, _, _, _) => Everything(a.val)
    case List(xs) => if exists i :: 0 <= i < |xs| && xs[i].Node? then EverythingIn(xs, |xs|) else multiset{}
    case Scalar(_) => multiset{}
  }

  function EntriesIn(fs: seq<Field>, k: nat): multiset<Item>
    requires k <= |fs|
    decreases DepthFields(fs), 2, k
  {
    if k == 0 then multiset{} else EntriesIn(fs, k - 1) + EntryNodes(fs[k - 1])
  }

  // ----- sums do not depend on order -----

  ghost function Sum<T>(h: T -> multiset<Item>, xs: seq<T>): multiset<Item> {
    if xs == [] then multiset{} else Sum(h, xs[..|xs| - 1]) + h(xs[|xs| - 1])
  }

  lemma {:induction false} SumWithout<T>(h: T -> multiset<Item>, xs: seq<T>, i: nat)
    requires i < |xs|
    ensures Sum(h, xs) == Sum(h, xs[..i] + xs[i + 1..]) + h(xs[i])
  {
    var init, last := xs[..|xs| - 1], xs[|xs| - 1];
    if i < |init| {
      SumWithout(h, init, i);
      var rest := xs[..i] + xs[i + 1..];
      assert rest[..|rest| - 1] == init[..i] + init[i + 1..] && rest[|rest| - 1] == last;
    } else {
      assert xs[..i] + xs[i + 1..] == init;
    }
  }

  lemma DropOne<T>(ys: seq<T>, i: nat)
    requires i < |ys|
    ensures multiset(ys) == multiset(ys[..i] + ys[i + 1..]) + multiset{ys[i]}
  {
    assert ys == ys[..i] + [ys[i]] + ys[i + 1..];
  }

  lemma {:induction false} SumPermutes<T>(h: T -> multiset<Item>, xs: seq<T>, ys: seq<T>)
    requires multiset(xs) == multiset(ys)
    ensures Sum(h, xs) == Sum(h, ys)
  {
    if xs == [] {
      assert |ys| == |multiset(ys)|;
    } else {
      var init, last := xs[..|xs| - 1], xs[|xs| - 1];
      assert xs == init + [last];
      assert last in multiset(ys);
      var i :| 0 <= i < |ys| && ys[i] == last;
      DropOne(ys, i);
      assert multiset(init) == multiset(xs) - multiset{last};
      assert multiset(ys[..i] + ys[i + 1..]) == multiset(ys) - multiset{last};
      SumPermutes(h, init, ys[..i] + ys[i + 1..]);
      SumWithout(h, ys, i);
    }
  }

  ghost function NodesOf(): Item -> multiset<Item> { (x: Item) => Everything(x) }

  ghost function NodesAt(): Field -> multiset<Item> { (a: Field) => EntryNodes(a) }

  lemma {:induction false} EverythingSums(xs: seq<Item>, k: nat)
    requires k <= |xs|
    ensures EverythingIn(xs, k) == Sum(NodesOf(), xs[..k])
  {
    hide Everything;
    if k > 0 {
      EverythingSums(xs, k - 1);
      assert xs[..k][..k - 1] == xs[..k - 1];
    }
  }

  lemma NotVisitedEmpty(a: Field)
    ensures !Visited(a) ==> EntryNodes(a) == multiset{}
  {
  }

  /** Entries the walk does not visit hold nothing. */
  lemma {:induction false} EntriesSum(fs: seq<Field>, k: nat)
    requires k <= |fs|
    ensures EntriesIn(fs, k) == Sum(NodesAt(), OnlyVisited(fs, k))
  {
    hide EntryNodes, Visited;
    if k > 0 {
      EntriesSum(fs, k - 1);
      NotVisitedEmpty(fs[k - 1]);
      var before, a := OnlyVisited(fs, k - 1), fs[k - 1];
      if Visited(a) { assert (before + [a])[..|before|] == before; }
    }
  }

  // ----- the walk -----

  lemma {:induction false} MetExactly(w: Order, x: Item)
    ensures multiset(Met(w, x)) == Everything(x)
    decreases Depth(x), 1, 0
  {
    hide MetAll, MetFields, EverythingIn, EntriesIn, Ordered;
    match x {
      case Scalar(_) =>
      case List(xs) => MetAllExactly(w, xs, |xs|);
      case Node(_, _, _, _, _, _, _) => MetNodeExactly(w, x);
    }
  }

  lemma OrderedLower(w: Order, x: Item)
    requires x.Node?
    ensures DepthFields(Ordered(w, x.fields)) < Depth(x)
  {
  }

  lemma EverythingNode(x: Item)
    requires x.Node?
    ensures Everything(x) == multiset{x} + EntriesIn(x.fields, |x.fields|)
  {
    hide EntriesIn;
  }

  lemma {:induction false} MetNodeExactly(w: Order, x: Item)
    requires x.Node?
    ensures multiset(Met(w, x)) == Everything(x)
    decreases Depth(x), 0, 0
  {
    hide *;
    var fs := Ordered(w, x.fields);
    OrderedLower(w, x);
    MetNode(w, x);
    EverythingNode(x);
    MetFieldsExactly(w, x.nt, fs, |fs|);
    assert fs[..|fs|] == fs;
    OrderedSorts(w, x.fields);
    SortMultiset(KeyRank(w), OnlyVisited(x.fields, |x.fields|));
    SumPermutes(NodesAt(), fs, OnlyVisited(x.fields, |x.fields|));
    EntriesSum(x.fields, |x.fields|);
  }

  lemma {:induction false} MetAllExactly(w: Order, xs: seq<Item>, k: nat)
    requires k <= |xs|
    ensures multiset(MetAll(w, xs, k)) == EverythingIn(xs, k)
    decreases DepthAll(xs), 1, k
  {
    hide Met, Everything;
    if k > 0 {
      MetAllExactly(w, xs, k - 1);
      MetExactly(w, xs[k - 1]);
    }
  }

  lemma {:induction false} MetFieldExactly(w: Order, nt: string, a: Field)
    requires Visited(a)
    ensures multiset(MetField(w, nt, a)) == EntryNodes(a)
    decreases Depth(a.val), 2, 0
  {
    hide Met, MetAll, Members, Everything, EverythingIn;
    if a.val.Node? {
      MetExactly(w, a.val);
    } else {
      var xs := Members(w, nt, a);
      MetAllExactly(w, xs, |xs|);
      MembersPermute(w, nt, a);
      EverythingSums(xs, |xs|);
      EverythingSums(a.val.xs, |a.val.xs|);
      assert xs[..|xs|] == xs && a.val.xs[..|a.val.xs|] == a.val.xs;
      SumPermutes(NodesOf(), xs, a.val.xs);
    }
  }

  lemma {:induction false} MetFieldsExactly(w: Order, nt: string, fs: seq<Field>, k: nat)
    requires k <= |fs| && forall i :: 0 <= i < |fs| ==> Visited(fs[i])
    ensures multiset(MetFields(w, nt, fs, k)) == Sum(NodesAt(), fs[..k])
    decreases DepthFields(fs), 3, k
  {
    hide MetField, EntryNodes, Visited;
    if k > 0 {
      MetFieldsExactly(w, nt, fs, k - 1);
      MetFieldExactly(w, nt, fs[k - 1]);
      assert fs[..k][..k - 1] == fs[..k - 1];
    }
  }
}
