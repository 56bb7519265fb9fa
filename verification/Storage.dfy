/** The observed-storage section: two engines dump the same storage in different
    orders, with repeats, zeros and empty segments, and must compare equal. */
module Storage {
  import opened Text
  import opened PyText

  /** The effect of one segment on the map being built. */
  function AddSegment(m: map<int, int>, segment: string): map<int, int> {
    var pair := Strip(segment);
    var k, v := ParseInt(Before(pair, ':')), ParseInt(After(pair, ':'));
    if pair != "" && k.Some? && v.Some? && v.value != 0 then m[k.value := v.value] else m
  }

  function AddSegments(ss: seq<string>, k: nat): map<int, int>
    requires k <= |ss|
  {
    if k == 0 then map[] else AddSegment(AddSegments(ss, k - 1), ss[k - 1])
  }

  function StorageMap(section: string): map<int, int> {
    var ss := Split(Strip(section), ';');
    AddSegments(ss, |ss|)
  }

  method ParseStorageMap(section: string) returns (out: map<int, int>)
    ensures out == StorageMap(section)
  {
    hide Strip, ParseInt, Before, After, Split;
    out := map[];
    var ss := Split(Strip(section), ';');
    for i := 0 to |ss|
      invariant out == AddSegments(ss, i)
    {
      var pair := Strip(ss[i]);
      if pair != "" {
        var slot, val := ParseInt(Before(pair, ':')), ParseInt(After(pair, ':'));
        if slot.Some? && val.Some? {
          if val.value != 0 {
            out := out[slot.value := val.value];
          }
        }
      }
    }
  }

  /** A storage is a total function from slots to words, zero where absent. */
  function Load(st: map<nat, nat>, slot: nat): nat {
    if slot in st then st[slot] else 0
  }

  datatype Segment = Blank | Entry(slot: nat, val: nat)

  function SegmentText(g: Segment): string {
    match g
    case Blank => ""
    case Entry(k, v) => Decimal(k) + ":" + Decimal(v)
  }

  function SegmentTexts(gs: seq<Segment>): (ss: seq<string>)
    ensures |ss| == |gs| && forall i :: 0 <= i < |gs| ==> ss[i] == SegmentText(gs[i])
  {
    if gs == [] then [] else [SegmentText(gs[0])] + SegmentTexts(gs[1..])
  }

  function DumpText(gs: seq<Segment>): string { Join(";", SegmentTexts(gs)) }

  /** gs lists every non-zero slot of st at least once, always with its final value. */
  predicate Dumps(gs: seq<Segment>, st: map<nat, nat>) {
    && (forall g <- gs :: g.Entry? ==> g.val == Load(st, g.slot))
    && (forall k <- st :: st[k] != 0 ==> Entry(k, st[k]) in gs)
  }

  lemma SegmentClean(g: Segment)
    ensures Clean(SegmentText(g)) && Without(SegmentText(g), ';')
  {
    if g.Entry? {
      CleanHex(Decimal(g.slot));
      CleanHex(Decimal(g.val));
    }
  }

  lemma SegmentAdds(m: map<int, int>, g: Segment)
    ensures AddSegment(m, SegmentText(g))
         == if g.Entry? && g.val != 0 then m[g.slot := g.val] else m
  {
    SegmentClean(g);
    StripClean(SegmentText(g));
    if g.Entry? {
      CutAt(Decimal(g.slot), ':', Decimal(g.val));
      ParseDecimal(g.slot);
      ParseDecimal(g.val);
    }
  }

  /** m holds exactly the non-zero slots among the listed segments. */
  ghost predicate Holds(m: map<int, int>, gs: seq<Segment>, st: map<nat, nat>) {
    && (forall s: int <- m :: s >= 0 && m[s] == Load(st, s) != 0)
    && (forall g <- gs :: g.Entry? && g.val != 0 ==> g.slot in m)
    && (forall s: int <- m :: s >= 0 ==> Entry(s, Load(st, s)) in gs)
  }

  lemma {:induction false} SegmentsAdd(gs: seq<Segment>, st: map<nat, nat>, k: nat)
    requires Dumps(gs, st) && k <= |gs|
    ensures Holds(AddSegments(SegmentTexts(gs), k), gs[..k], st)
  {
    if k > 0 {
      SegmentsAdd(gs, st, k - 1);
      SegmentStep(gs, st, k, AddSegments(SegmentTexts(gs), k - 1));
    }
  }

  lemma SegmentStep(gs: seq<Segment>, st: map<nat, nat>, k: nat, m: map<int, int>)
    requires Dumps(gs, st) && 0 < k <= |gs| && Holds(m, gs[..k - 1], st)
    ensures Holds(AddSegment(m, SegmentTexts(gs)[k - 1]), gs[..k], st)
  {
    hide Holds, AddSegment, SegmentText, Load;
    var g := gs[k - 1];
    assert g in gs;
    SegmentAdds(m, g);
    HoldsAdd(m, gs[..k - 1], st, g);
    assert gs[..k] == gs[..k - 1] + [g];
  }

  lemma HoldsAdd(m: map<int, int>, gs: seq<Segment>, st: map<nat, nat>, g: Segment)
    requires Holds(m, gs, st) && (g.Entry? ==> g.val == Load(st, g.slot))
    ensures Holds(if g.Entry? && g.val != 0 then m[g.slot := g.val] else m, gs + [g], st)
  {
    assert forall h <- gs :: h in gs + [g];
    assert g in gs + [g];
  }

  lemma {:induction false} DumpStrips(gs: seq<Segment>)
    ensures Strip(DumpText(gs)) == DumpText(gs) && HashFree(DumpText(gs))
    ensures Split(DumpText(gs), ';') == if gs == [] then [""] else SegmentTexts(gs)
  {
    DumpVisible(gs);
    StripVisible(DumpText(gs));
    if gs != [] {
      forall i | 0 <= i < |gs|
        ensures Without(SegmentTexts(gs)[i], ';')
      {
        SegmentClean(gs[i]);
      }
      SplitJoin(SegmentTexts(gs), ';');
    }
  }

  predicate Visible(s: string) { forall i :: 0 <= i < |s| ==> !IsSpace(s[i]) && s[i] != '#' }

  lemma StripVisible(s: string)
    requires Visible(s)
    ensures Strip(s) == s
  {
  }

  lemma {:induction false} DumpVisible(gs: seq<Segment>)
    ensures Visible(DumpText(gs))
  {
    if gs != [] {
      SegmentClean(gs[0]);
      DumpVisible(gs[1..]);
      assert SegmentTexts(gs)[1..] == SegmentTexts(gs[1..]);
    }
  }

  /** m is the non-zero restriction of the storage st. */
  ghost predicate NonZeroPart(m: map<int, int>, st: map<nat, nat>) {
    && (forall s: int <- m :: s >= 0 && m[s] == Load(st, s) != 0)
    && (forall s: nat :: Load(st, s) != 0 ==> s in m)
  }

  /** Whatever the order, repeats, zeros and blanks, parsing a dump gives exactly the
      non-zero slots of the storage. */
  lemma StorageOfDump(gs: seq<Segment>, st: map<nat, nat>)
    requires Dumps(gs, st)
    ensures NonZeroPart(StorageMap(DumpText(gs)), st)
  {
    DumpStrips(gs);
    if gs == [] {
      assert StorageMap("") == AddSegment(map[], "");
    } else {
      SegmentsAdd(gs, st, |gs|);
      assert gs[..|gs|] == gs;
      forall s: nat | Load(st, s) != 0
        ensures s in StorageMap(DumpText(gs))
      {
        assert Entry(s, Load(st, s)) in gs;
      }
    }
  }

  lemma NonZeroPartsEqual(m1: map<int, int>, st1: map<nat, nat>, m2: map<int, int>, st2: map<nat, nat>)
    requires NonZeroPart(m1, st1) && NonZeroPart(m2, st2)
    ensures m1 == m2 <==> forall s: nat :: Load(st1, s) == Load(st2, s)
  {
    if m1 == m2 {
      forall s: nat
        ensures Load(st1, s) == Load(st2, s)
      {
        assert s in m1 <==> Load(st1, s) != 0;
        assert s in m2 <==> Load(st2, s) != 0;
      }
    }
    if forall s: nat :: Load(st1, s) == Load(st2, s) {
      KeysWithin(m1, st1, m2, st2);
      KeysWithin(m2, st2, m1, st1);
      assert m1.Keys == m2.Keys;
      assert forall s: int <- m1 :: m1[s] == m2[s];
      assert m1 == m2;
    }
  }

  lemma KeysWithin(m1: map<int, int>, st1: map<nat, nat>, m2: map<int, int>, st2: map<nat, nat>)
    requires NonZeroPart(m1, st1) && NonZeroPart(m2, st2)
    requires forall s: nat :: Load(st1, s) == Load(st2, s)
    ensures m1.Keys <= m2.Keys && forall s: int <- m1 :: s in m2 && m1[s] == m2[s]
  {
    forall s: int | s in m1
      ensures s in m2 && m1[s] == m2[s]
    {
      var n: nat := s;
      assert Load(st1, n) == Load(st2, n);
      assert n in m2;
    }
  }

  /** Two dumps parse to the same map exactly when the storages agree on every slot. */
  lemma DumpsCompare(g1: seq<Segment>, st1: map<nat, nat>, g2: seq<Segment>, st2: map<nat, nat>)
    requires Dumps(g1, st1) && Dumps(g2, st2)
    ensures StorageMap(DumpText(g1)) == StorageMap(DumpText(g2))
       <==> forall s: nat :: Load(st1, s) == Load(st2, s)
  {
    StorageOfDump(g1, st1);
    StorageOfDump(g2, st2);
    NonZeroPartsEqual(StorageMap(DumpText(g1)), st1, StorageMap(DumpText(g2)), st2);
  }
}
