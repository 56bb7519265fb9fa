/** The two printers of an observable line: the Lean helper over a call result, and the
    measurement harness over an EVM run. Both are handed the claim's slot list. */
module Printers {
  import opened Basics
  import opened Text
  import opened NormalForm
  import opened Storage
  import opened Observable

  // ----- the Lean helper -----

  datatype LeanRevert =
    | LEmpty
    | LPanic(w: nat)
    | LError(msg: string)
    | LCustom(name: string, vals: seq<LeanValue>)
    | LRaw(bs: seq<byte>)

  /** The log entries of the entry contract, construction first, and the storage map as
      listed by its hash table. */
  datatype LeanState = LeanState(entries: seq<Event>, storage: seq<(nat, nat)>)

  datatype CallResult = Finished(state: LeanState, vals: seq<LeanValue>) | Reverted(rd: LeanRevert)

  /** What the evaluated expression yields: a type error, or the number of construction
      logs, whether the deployment itself reverted, and the call result. */
  datatype EvalResult = Rejected(message: string) | Evaluated(ctorLogs: nat, deployReverted: bool, res: CallResult)

  function NormAll(ws: seq<nat>): (ns: seq<nat>)
    ensures |ns| == |ws| && forall i :: 0 <= i < |ws| ==> ns[i] == Norm(ws[i])
  {
    seq(|ws|, i requires 0 <= i < |ws| => Norm(ws[i]))
  }

  function RenderRevert(rd: LeanRevert): string {
    match rd
    case LEmpty => "empty"
    case LPanic(w) => "panic:" + Decimal(Norm(w))
    case LError(s) => "error:" + s
    case LCustom(name, vs) => "custom:" + name + ":" + Join(",", RenderAll(vs))
    case LRaw(bs) => "raw:0x" + Hex(bs)
  }

  function RenderEvent(v: Event): string {
    "t=[" + Join(",", Decimals(NormAll(v.topics))) + "];d=0x" + Hex(v.data)
  }

  function RenderEvents(vs: seq<Event>): seq<string> {
    if vs == [] then [] else [RenderEvent(vs[0])] + RenderEvents(vs[1..])
  }

  /** The entry call's events: those after the first `skip`. */
  function RenderEventsFrom(st: LeanState, skip: nat): string {
    Join("~", RenderEvents(if skip <= |st.entries| then st.entries[skip..] else []))
  }

  function StorageTexts(es: seq<(nat, nat)>): seq<string> {
    if es == [] then []
    else if Norm(es[0].1) == 0 then StorageTexts(es[1..])
    else [Decimal(Norm(es[0].0)) + ":" + Decimal(Norm(es[0].1))] + StorageTexts(es[1..])
  }

  const REJECT: string := "solidity-lean-reject|"

  /** renderFullDelta; the slot list is an argument the helper does not use. */
  function RenderFullDelta(slots: seq<int>, r: EvalResult): string {
    match r
    case Rejected(message) => REJECT + message
    case Evaluated(ctorLogs, deployReverted, res) =>
      match res
      case Finished(st, vals) =>
        "success|" + Join(",", RenderAll(vals)) + EVT_SEP + RenderEventsFrom(st, ctorLogs)
        + STO_SEP + Join(";", StorageTexts(st.storage))
      case Reverted(rd) =>
        (if deployReverted then "deployrevert|" else "revert|") + RenderRevert(rd) + EVT_SEP + "" + STO_SEP + ""
  }

  // ----- what the Lean result observably is -----

  function ObservedRevert(rd: LeanRevert): RevertData {
    match rd
    case LEmpty => Empty
    case LPanic(w) => Panic(Norm(w))
    case LError(s) => Error(s)
    case LCustom(name, vs) => Custom(name, ObservedAll(vs))
    case LRaw(bs) => Raw(bs)
  }

  function ObservedEvents(vs: seq<Event>): (os: seq<Event>)
    ensures |os| == |vs|
  {
    if vs == [] then [] else [Event(NormAll(vs[0].topics), vs[0].data)] + ObservedEvents(vs[1..])
  }

  /** A hash table lists no slot twice. */
  predicate DistinctSlots(es: seq<(nat, nat)>) {
    forall i, j :: 0 <= i < j < |es| ==> Norm(es[i].0) != Norm(es[j].0)
  }

  function StorageOf(es: seq<(nat, nat)>): map<nat, nat> {
    if es == [] then map[] else StorageOf(es[1..])[Norm(es[0].0) := Norm(es[0].1)]
  }

  function LeanOutcome(r: EvalResult): Outcome
    requires r.Evaluated?
  {
    match r.res
    case Finished(st, vals) =>
      var entries := if r.ctorLogs <= |st.entries| then st.entries[r.ctorLogs..] else [];
      Success(ObservedAll(vals), ObservedEvents(entries), StorageOf(st.storage))
    case Reverted(rd) => Revert(r.deployReverted, ObservedRevert(rd))
  }

  function StorageSegments(es: seq<(nat, nat)>): seq<Segment> {
    if es == [] then []
    else if Norm(es[0].1) == 0 then StorageSegments(es[1..])
    else [Entry(Norm(es[0].0), Norm(es[0].1))] + StorageSegments(es[1..])
  }

  function LeanSegments(r: EvalResult): seq<Segment>
    requires r.Evaluated?
  {
    if r.res.Finished? then StorageSegments(r.res.state.storage) else []
  }

  predicate PlainTable(r: EvalResult) {
    r.Evaluated? && r.res.Finished? ==> DistinctSlots(r.res.state.storage)
  }

  lemma {:induction false} EventsRendered(vs: seq<Event>)
    ensures RenderEvents(vs) == EventTexts(ObservedEvents(vs))
  {
    if vs != [] {
      hide Join, Hex, Decimals;
      EventsRendered(vs[1..]);
      var os := ObservedEvents(vs);
      assert os[1..] == ObservedEvents(vs[1..]);
    }
  }

  lemma {:induction false} StorageRendered(es: seq<(nat, nat)>)
    ensures StorageTexts(es) == SegmentTexts(StorageSegments(es))
  {
    if es != [] {
      StorageRendered(es[1..]);
      if Norm(es[0].1) != 0 {
        var gs := StorageSegments(es);
        assert gs[1..] == StorageSegments(es[1..]);
      }
    }
  }

  lemma {:induction false} StorageKeys(es: seq<(nat, nat)>, k: nat)
    requires forall i :: 0 <= i < |es| ==> Norm(es[i].0) != k
    ensures k !in StorageOf(es)
  {
    if es != [] { StorageKeys(es[1..], k); }
  }

  /** The dump lists exactly the non-zero slots of the table. */
  lemma {:induction false} StorageDumps(es: seq<(nat, nat)>)
    requires DistinctSlots(es)
    ensures Dumps(StorageSegments(es), StorageOf(es))
    ensures forall g :: g in StorageSegments(es) ==> g.Entry? && g.slot in StorageOf(es)
  {
    if es != [] {
      var k, v := Norm(es[0].0), Norm(es[0].1);
      var rest := es[1..];
      forall i | 0 <= i < |rest|
        ensures Norm(rest[i].0) != k
      {
        assert rest[i] == es[i + 1];
      }
      assert DistinctSlots(rest);
      StorageKeys(rest, k);
      StorageDumps(rest);
    }
  }

  /** Whatever slots the claim lists, the helper prints the whole outcome: every value,
      every event of the entry call, and every slot of the storage. */
  lemma LeanPrints(slots: seq<int>, r: EvalResult)
    requires r.Evaluated? && PlainTable(r)
    ensures DumpOf(LeanOutcome(r), LeanSegments(r))
    ensures RenderFullDelta(slots, r) == Line(LeanOutcome(r), LeanSegments(r))
  {
    match r.res {
      case Finished(st, vals) =>
        hide RenderEvents, StorageTexts, EventTexts, SegmentTexts, RenderAll, PrintAll, Join;
        RenderAllIsPrintAll(vals);
        EventsRendered(if r.ctorLogs <= |st.entries| then st.entries[r.ctorLogs..] else []);
        StorageRendered(st.storage);
        StorageDumps(st.storage);
      case Reverted(rd) =>
        hide RenderAll, PrintAll;
        if rd.LCustom? { RenderAllIsPrintAll(rd.vals); }
    }
  }

  lemma LeanNotRejected(slots: seq<int>, r: EvalResult)
    requires r.Evaluated?
    ensures !Prefixed(RenderFullDelta(slots, r), REJECT)
  {
    var t := RenderFullDelta(slots, r);
    hide RenderRevert, RenderEventsFrom, StorageTexts, RenderAll, Join;
    assert REJECT[1] == 'o';
    assert t[1] == if r.res.Finished? then 'u' else 'e';
    assert |REJECT| <= |t| ==> t[..|REJECT|][1] == t[1];
  }

  // ----- the measurement harness -----

  /** What the harness source depends on; the slot list is an argument it does not use. */
  datatype Harness = Harness(calldata: seq<byte>, ctorArgs: seq<byte>, value: nat)

  function HarnessSource(calldata: seq<byte>, ctorArgs: seq<byte>, value: nat, slots: seq<int>): Harness {
    Harness(calldata, ctorArgs, value)
  }

  /** The run of a harness: result bytes, the call's logs, the slots written, the slots
      seeded by the claim, and the storage afterwards. */
  datatype EvmRun = EvmRun(ok: bool, deployReverted: bool, data: seq<byte>, logs: seq<Event>,
                           written: seq<nat>, seeded: seq<nat>, after: map<nat, nat>, self: int)

  function TopicsUpTo(ts: seq<nat>, k: nat): string
    requires k <= |ts|
  {
    if k == 0 then "t=["
    else TopicsUpTo(ts, k - 1) + ((if k > 1 then "," else "") + Decimal(ts[k - 1]))
  }

  /** The growing events string. */
  function EvtUpTo(logs: seq<Event>, k: nat): string
    requires k <= |logs|
  {
    if k == 0 then ""
    else
      var v := logs[k - 1];
      EvtUpTo(logs, k - 1)
      + ((if k > 1 then "~" else "") + (TopicsUpTo(v.topics, |v.topics|) + "];d=0x" + Hex(v.data)))
  }

  /** The growing storage string: written slots, each after the first with a separator. */
  function StoUpTo(run: EvmRun, k: nat): string
    requires k <= |run.written|
  {
    if k == 0 then ""
    else StoUpTo(run, k - 1) + ((if k > 1 then ";" else "") + SlotText(run, run.written[k - 1]))
  }

  function SlotText(run: EvmRun, slot: nat): string { Decimal(slot) + ":" + Decimal(Load(run.after, slot)) }

  /** Then the seeded slots, always with a separator. */
  function SeededUpTo(run: EvmRun, k: nat): string
    requires k <= |run.seeded|
  {
    if k == 0 then StoUpTo(run, |run.written|)
    else SeededUpTo(run, k - 1) + (";" + SlotText(run, run.seeded[k - 1]))
  }

  function EvmEvents(run: EvmRun): string { if run.ok then EvtUpTo(run.logs, |run.logs|) else "" }

  function EvmStorage(run: EvmRun): string { if run.ok then SeededUpTo(run, |run.seeded|) else "" }

  function Entries(run: EvmRun, slots: seq<nat>): (gs: seq<Segment>)
    ensures |gs| == |slots| && forall i :: 0 <= i < |gs| ==> gs[i] == Entry(slots[i], Load(run.after, slots[i]))
  {
    seq(|slots|, i requires 0 <= i < |slots| => Entry(slots[i], Load(run.after, slots[i])))
  }

  /** The segments printed by the written and the first k seeded slots: a seeded slot
      brings its separator even when nothing was written. */
  function SegmentsUpTo(run: EvmRun, k: nat): seq<Segment>
    requires k <= |run.seeded|
  {
    (if run.written == [] && k > 0 then [Blank] else [])
    + Entries(run, run.written) + Entries(run, run.seeded[..k])
  }

  function EvmSegments(run: EvmRun): seq<Segment> {
    if run.ok then SegmentsUpTo(run, |run.seeded|) else []
  }

  /** Every slot that is not zero afterwards was written or seeded. */
  predicate Covers(run: EvmRun) {
    forall k <- run.after :: run.after[k] != 0 ==> k in run.written || k in run.seeded
  }

  /** Python's and Solidity's ways to separate: a join grows by separator and item. */
  lemma JoinGrows(sep: string, ss: seq<string>, k: nat)
    requires 0 < k <= |ss|
    ensures Join(sep, ss[..k]) == Join(sep, ss[..k - 1]) + ((if k > 1 then sep else "") + ss[k - 1])
  {
    assert ss[..k] == ss[..k - 1] + [ss[k - 1]];
    if k > 1 {
      JoinSnoc(sep, ss[..k - 1], ss[k - 1]);
    } else {
      assert ss[..1] == [ss[0]];
    }
  }

  lemma {:induction false} TopicsPrint(ts: seq<nat>, k: nat)
    requires k <= |ts|
    ensures TopicsUpTo(ts, k) == "t=[" + Join(",", Decimals(ts)[..k])
  {
    if k > 0 {
      hide Join, Decimal;
      TopicsPrint(ts, k - 1);
      JoinGrows(",", Decimals(ts), k);
    } else {
      assert Join(",", Decimals(ts)[..0]) == "";
    }
  }

  lemma {:induction false} EvtPrints(logs: seq<Event>, k: nat)
    requires k <= |logs|
    ensures EvtUpTo(logs, k) == Join("~", EventTexts(logs)[..k])
  {
    if k > 0 {
      hide Join, Hex, TopicsUpTo;
      var v := logs[k - 1];
      EvtPrints(logs, k - 1);
      JoinGrows("~", EventTexts(logs), k);
      TopicsPrint(v.topics, |v.topics|);
      assert Decimals(v.topics)[..|v.topics|] == Decimals(v.topics);
    }
  }

  lemma DumpSnoc(gs: seq<Segment>, g: Segment)
    ensures DumpText(gs + [g]) == DumpText(gs) + ((if gs != [] then ";" else "") + SegmentText(g))
  {
    assert SegmentTexts(gs + [g]) == SegmentTexts(gs) + [SegmentText(g)];
    if gs != [] {
      JoinSnoc(";", SegmentTexts(gs), SegmentText(g));
      Assoc(DumpText(gs), ";", SegmentText(g));
    } else {
      assert gs + [g] == [g];
    }
  }

  lemma {:induction false} StoPrints(run: EvmRun, k: nat)
    requires k <= |run.written|
    ensures StoUpTo(run, k) == DumpText(Entries(run, run.written[..k]))
  {
    if k > 0 {
      hide DumpText, SegmentText;
      StoPrints(run, k - 1);
      var slot := run.written[k - 1];
      assert run.written[..k] == run.written[..k - 1] + [slot];
      assert Entries(run, run.written[..k])
          == Entries(run, run.written[..k - 1]) + [Entry(slot, Load(run.after, slot))];
      DumpSnoc(Entries(run, run.written[..k - 1]), Entry(slot, Load(run.after, slot)));
      SlotSegment(run, slot);
    } else {
      assert Entries(run, run.written[..0]) == [];
    }
  }

  lemma SlotSegment(run: EvmRun, slot: nat)
    ensures SegmentText(Entry(slot, Load(run.after, slot))) == SlotText(run, slot)
    ensures DumpText([Blank]) == ""
  {
  }

  lemma {:induction false} SeededPrints(run: EvmRun, k: nat)
    requires k <= |run.seeded|
    ensures SeededUpTo(run, k) == DumpText(SegmentsUpTo(run, k))
  {
    hide DumpText, SegmentText, StoUpTo;
    if k == 0 {
      StoPrints(run, |run.written|);
      assert run.written[..|run.written|] == run.written;
      assert SegmentsUpTo(run, 0) == Entries(run, run.written);
    } else {
      SeededPrints(run, k - 1);
      var slot := run.seeded[k - 1];
      var g := Entry(slot, Load(run.after, slot));
      assert run.seeded[..k] == run.seeded[..k - 1] + [slot];
      SlotSegment(run, slot);
      var before := if run.written == [] && k == 1 then [Blank] else SegmentsUpTo(run, k - 1);
      assert SegmentsUpTo(run, k) == before + [g];
      DumpSnoc(before, g);
      if run.written == [] && k == 1 {
        assert SegmentsUpTo(run, 0) == [];
        EmptyText();
      }
    }
  }

  lemma EmptyText()
    ensures DumpText([]) == ""
  {
  }

  lemma SegmentsDump(run: EvmRun)
    requires run.ok && Covers(run)
    ensures Dumps(EvmSegments(run), run.after)
  {
    var gs, k := EvmSegments(run), |run.seeded|;
    assert run.seeded[..k] == run.seeded;
    forall slot <- run.after | run.after[slot] != 0
      ensures Entry(slot, run.after[slot]) in gs
    {
      if slot in run.written {
        var i :| 0 <= i < |run.written| && run.written[i] == slot;
        assert Entries(run, run.written)[i] in Entries(run, run.written);
      } else {
        var i :| 0 <= i < |run.seeded| && run.seeded[i] == slot;
        assert Entries(run, run.seeded)[i] in Entries(run, run.seeded);
      }
    }
  }

  /** Whatever slots the claim lists, the harness it is turned into is the same, and a run
      prints every event of the call and every slot written or seeded. */
  lemma HarnessPrints(calldata: seq<byte>, ctorArgs: seq<byte>, value: nat, slots: seq<int>, other: seq<int>,
                      run: EvmRun)
    requires run.ok && Covers(run)
    ensures HarnessSource(calldata, ctorArgs, value, slots) == HarnessSource(calldata, ctorArgs, value, other)
    ensures EvmEvents(run) == Join("~", EventTexts(run.logs))
    ensures EvmStorage(run) == DumpText(EvmSegments(run)) && Dumps(EvmSegments(run), run.after)
  {
    EvtPrints(run.logs, |run.logs|);
    assert EventTexts(run.logs)[..|run.logs|] == EventTexts(run.logs);
    SeededPrints(run, |run.seeded|);
    SegmentsDump(run);
  }
}
