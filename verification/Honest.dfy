/** The verdict on a call both engines answered, from what the two did. */
module Honest {
  import opened Basics
  import opened Text
  import opened PyText
  import opened AbiTypes
  import opened Storage
  import opened Observable
  import opened Reverts
  import opened Printers
  import opened Adjudicate
  import opened AdjudicateProofs
  import opened EndToEnd
  import opened RevertScope
  import Register

  /** The errors both outcomes are read with. */
  function ErrorsOf(t: Declared, a: Outcome, d: Deed): Errors {
    if d.Threw? then TableFor(t, a, d.data) else t.errors
  }

  /** Declared errors have identifiers for names. */
  predicate DeclaredNames(t: Declared) {
    && NamesVisible(t.errors) && FourBytes(t)
    && forall i :: 0 <= i < |t.definitions| ==>
         var name := t.definitions[i].1.name; Visible(name) && Without(name, ':') && Without(name, '|')
  }

  /** The definition found is the first listed with the selector and the name. */
  lemma {:induction false} DefinitionFound(defs: seq<(seq<byte>, ErrorDef)>, sel: seq<byte>, name: string)
    ensures var found := Definition(defs, sel, name);
      && (found.None? <==> forall i :: 0 <= i < |defs| ==> !(defs[i].0 == sel && defs[i].1.name == name))
      && (found.Some? ==>
            found.value.name == name
            && exists i :: 0 <= i < |defs| && defs[i] == (sel, found.value)
                 && forall j :: 0 <= j < i ==> !(defs[j].0 == sel && defs[j].1.name == name))
  {
    if defs != [] {
      if defs[0].0 == sel && defs[0].1.name == name {
        assert defs[0] == (sel, defs[0].1);
      } else {
        DefinitionFound(defs[1..], sel, name);
        var found := Definition(defs[1..], sel, name);
        if found.Some? {
          var i :| 0 <= i < |defs[1..]| && defs[1..][i] == (sel, found.value)
                   && forall j :: 0 <= j < i ==> !(defs[1..][j].0 == sel && defs[1..][j].1.name == name);
          assert defs[i + 1] == (sel, found.value);
          assert forall j :: 0 < j < i + 1 ==> defs[j] == defs[1..][j - 1];
        } else {
          assert forall j :: 0 < j < |defs| ==> defs[j] == defs[1..][j - 1];
        }
      }
    }
  }

  lemma NamesKept(t: Declared, a: Outcome, d: Deed)
    requires DeclaredNames(t)
    ensures NamesVisible(ErrorsOf(t, a, d))
  {
    hide Visible, Without, Definition;
    if d.Threw? && Shared(t, a, d.data) { DefinitionFound(t.definitions, d.data[..4], a.data.name); }
  }

  lemma EvaluatedRuns(w: World, s: Request, sig: Signature, m: Option<Measured>, r: EvalResult)
    requires ValueOk(s.value) && w.importing == Imported
    requires LeanCall(w, s, sig, m).Some? && w.lean(LeanCall(w, s, sig, m).value) == Printed(r)
    requires r.Evaluated? && PlainTable(r)
    ensures RunTyped(w, s, sig, m) == Some(Ran(Strip(Line(LeanOutcome(r), LeanSegments(r)))))
    ensures DumpOf(LeanOutcome(r), LeanSegments(r))
  {
    hide LeanCall, ValueOk, Line, RenderFullDelta, LeanOutcome, LeanSegments;
    LeanPrints(s.slots, r);
    LineParses(LeanOutcome(r), LeanSegments(r));
    LeanNotRejected(s.slots, r);
  }

  /** A fail-closed message with nothing in it that the reading of a line would take away. */
  predicate PlainMessage(message: string) { HashFree(message) && (message != "" ==> !IsSpace(message[|message| - 1])) }

  /** A rejection at run time is read as one, and as generic exactly when its message says so. */
  lemma RejectionRead(slots: seq<int>, message: string)
    requires PlainMessage(message)
    ensures ReadLine(Printed(Rejected(message)), slots)
         == FailedClosed(Run, false, Contains("solidity_lean fail-closed: " + message, "checked executable"), false)
  {
    var raw := REJECT + message;
    assert raw[0] == 's';
    if message == "" {
      assert raw == REJECT + "";
      RStripAppend(REJECT, "");
      assert RStrip("") == "";
    } else {
      RStripAppend(REJECT, message);
    }
    StripRight(raw);
    assert Strip(raw) == raw;
    PrefixTail(REJECT, message);
    assert "solidity-lean-reject" + ['|'] + message == raw;
    CutAt("solidity-lean-reject", '|', message);
    RejectHashFree(message);
    HashFreeHolds(raw);
    SectionlessRaw(raw);
    hide Contains, Strip, RSplit;
  }

  lemma RejectHashFree(message: string)
    requires HashFree(message)
    ensures HashFree(REJECT + message)
  {
    forall i | 0 <= i < |REJECT + message|
      ensures (REJECT + message)[i] != '#'
    {
      if i >= |REJECT| { assert (REJECT + message)[i] == message[i - |REJECT|]; }
    }
  }

  lemma SectionlessRaw(raw: string)
    requires !HoldsMarker(raw)
    ensures SplitSections(raw).outcome == raw
  {
    FindLastNone(raw, STO_SEP, |raw|);
    FindLastNone(raw, EVT_SEP, |raw|);
  }

  /** The answer to a typed call, from what the importer and the evaluation did. */
  lemma AnswerExactly(w: World, s: Request, at: Register.Version)
    requires ValueOk(s.value) && Answered(w, s, at, TheSignature(w))
    ensures var sig := TheSignature(w); var r := TheAnswer(w, s, at, sig);
      match w.importing
      case Refused(excluded) => r == FailedClosed(Import, false, false, excluded)
      case ImporterTimedOut => r == FailedClosed(Import, false, false, false)
      case Imported =>
        LeanCall(w, s, sig, Measurement(w, s, sig)).Some?
        && match w.lean(LeanCall(w, s, sig, Measurement(w, s, sig)).value)
           case NoLine => r == FailedClosed(Lean, true, false, false)
           case Printed(Rejected(message)) =>
             (PlainMessage(message) ==>
                r == FailedClosed(Run, false, Contains("solidity_lean fail-closed: " + message, "checked executable"),
                                  false))
           case Printed(Evaluated(n, deploy, res)) =>
             var e := Evaluated(n, deploy, res);
             PlainTable(e) ==> r == Ran(Strip(Line(LeanOutcome(e), LeanSegments(e))))
  {
    var sig := TheSignature(w);
    var m := Measurement(w, s, sig);
    hide Reproduced, LeanCall, Measurement, Line, Strip, LeanOutcome, LeanSegments, PlainTable, Contains, PlainMessage;
    if w.importing == Imported {
      match w.lean(LeanCall(w, s, sig, m).value) {
        case NoLine =>
        case Printed(Rejected(message)) =>
          hide ReadLine;
          if PlainMessage(message) { RejectionRead(s.slots, message); }
        case Printed(Evaluated(n, deploy, res)) =>
          hide ReadLine;
          var e := Evaluated(n, deploy, res);
          if PlainTable(e) { EvaluatedRuns(w, s, sig, m, e); }
      }
    }
  }

  /** What the two outcomes and the declarations call for. */
  ghost function Deserved(e: Env, t: Declared, declared: Declaration, a: Outcome, d: Deed,
                          at: Register.Version): Report
  {
    if d.Threw? && RevertRefused(e, t, a, d.data, at) then Report(RejectedOos, None)
    else if declared.IllTyped? then Report(Raised, None)
    else if Expected(Canonical(e, ErrorsOf(t, a, d), a), OutcomeOf(e, ErrorsOf(t, a, d), d)).None?
      then Report(NoDivergence, None)
    else Report(SoundnessGap, Some('S'))
  }

  /** The verdict on a claim in scope whose call both engines answered, from what they did
      and whatever slots it lists: out of scope exactly when the revert thrown is refused,
      no verdict if the declared observable is ill-typed, otherwise a soundness gap exactly
      when the two outcomes call for a difference. */
  lemma HonestVerdict(w: World, c: Submission, at: Register.Version, r: EvalResult, run: EvmRun, d: Deed)
    requires Legible(c) && InScope(w, Asked(c), at) && Reproduced(w, Asked(c), at, TheSignature(w))
    requires w.importing == Imported && DeclaredNames(w.declared)
    requires var s, sig := Asked(c), TheSignature(w); var m := Measurement(w, s, sig);
      && w.measure(TheHarness(w, s, sig)) == Some(run) && Did(w.e, sig.results, run, d) && Typed(w.e, sig.results, d)
      && LeanCall(w, s, sig, m).Some? && w.lean(LeanCall(w, s, sig, m).value) == Printed(r)
    requires r.Evaluated? && PlainTable(r) && WellNamed(LeanOutcome(r))
    ensures Decide(w, c, at, false) == Deserved(w.e, w.declared, Asked(c).declared, LeanOutcome(r), d, at)
  {
    var s, sig := Asked(c), TheSignature(w);
    var m := Dumped(run);
    var a, g := LeanOutcome(r), LeanSegments(r);
    var line := Strip(Line(a, g));
    MeasurementIs(w, s, sig, run);
    assert Decide(w, c, at, false) == Settle(w, s, at, false);
    hide *;
    EvaluatedRuns(w, s, sig, Some(m), r);
    RunMeasures(w.e, sig.results, run, d);
    RanCompares(w, s, at, sig, m, line);
    ComparesAsDeserved(w, s.declared, sig, a, g, m, d, EvmSegments(run), at);
  }

  lemma DeedMeasured(e: Env, types: seq<Ty>, m: Measured, d: Deed, segs: seq<Segment>)
    requires Measures(e, types, m, d, segs)
    ensures m.ok == d.Returned? && (d.Threw? ==> m.data == d.data)
  {
  }

  lemma ErrorsAre(t: Declared, m: Measured, line: string)
    requires m.ok
    ensures ErrorsFor(t, m, line) == t.errors
  {
  }

  lemma ComparesAsDeserved(w: World, declared: Declaration, sig: Signature, a: Outcome, g: seq<Segment>,
                           m: Measured, d: Deed, h: seq<Segment>, at: Register.Version)
    requires WellNamed(a) && DumpOf(a, g) && DeclaredNames(w.declared)
    requires Typed(w.e, sig.results, d) && Measures(w.e, sig.results, m, d, h)
    ensures CompareReport(w, declared, sig, m, Strip(Line(a, g)), at)
         == Deserved(w.e, w.declared, declared, a, d, at)
  {
    var er, line := ErrorsOf(w.declared, a, d), Strip(Line(a, g));
    NamesKept(w.declared, a, d);
    assert FourBytes(w.declared);
    hide RevertRefused, Expected, Canonical, OutcomeOf, WellNamed, DumpOf, Typed, Measures;
    hide ErrorsFor, TableFor, NamesVisible, CompareReport, RevertOutOfScope, EvmLine, Difference, Line, Strip;
    DeedMeasured(w.e, sig.results, m, d, h);
    RevertScopeExactly(w, m, a, g, at);
    if d.Threw? { TableIs(w.declared, m, a, g); } else { ErrorsAre(w.declared, m, line); }
    DifferenceExact(w.e, er, sig.results, a, g, m, d, h);
    CompareDecides(w, declared, sig, m, line, at);
  }

  /** What is measured of a run is read back as it was, and solidity-lean is told its address. */
  lemma MeasurementIs(w: World, s: Request, sig: Signature, run: EvmRun)
    requires ValueOk(s.value) && Sent(w, s, sig).Some?
    requires w.measure(TheHarness(w, s, sig)) == Some(run)
    ensures Measurement(w, s, sig) == Some(Dumped(run))
    ensures var m := Dumped(run);
      && m.ok == run.ok && m.deployReverted == run.deployReverted && m.data == run.data && m.self == run.self
      && (run.ok && Covers(run) ==>
            m.events == Join("~", EventTexts(run.logs)) && m.storage == DumpText(EvmSegments(run)))
      && (!run.ok ==> m.events == "" && m.storage == "")
    ensures var call := LeanCall(w, s, sig, Measurement(w, s, sig)); call.Some? ==> call.value.self == Some(run.self)
  {
    hide Encoded, Rendered, EvtUpTo, SeededUpTo, Join, EventTexts, DumpText, EvmSegments, Covers;
    if run.ok && Covers(run) { HarnessPrints([], [], 0, [], [], run); }
  }

  lemma RanCompares(w: World, s: Request, at: Register.Version, sig: Signature, m: Measured, line: string)
    requires InScope(w, s, at) && sig == TheSignature(w) && Reproduced(w, s, at, sig)
    requires Measurement(w, s, sig) == Some(m) && RunTyped(w, s, sig, Some(m)) == Some(Ran(line))
    ensures Settle(w, s, at, false) == CompareReport(w, s.declared, sig, m, line, at)
  {
    hide ArgumentStage, Sent, LegalCall, Unreturnable, GateHits, LeanCall;
    hide CompareReport, RunTyped, Measurement;
    ArgumentStageExactly(w, s, at);
  }

  lemma CompareDecides(w: World, declared: Declaration, sig: Signature, m: Measured, line: string, at: Register.Version)
    ensures var er := ErrorsFor(w.declared, m, line); var evm := EvmLine(w.e, er, sig.results, m);
      evm.Some? ==> (
        CompareReport(w, declared, sig, m, line, at)
        == if RevertOutOfScope(w, m, line, at) then Report(RejectedOos, None)
           else if declared.IllTyped? then Report(Raised, None)
           else if Difference(w.e, er, line, evm.value).None? then Report(NoDivergence, None)
           else Report(SoundnessGap, Some('S')))
  {
    hide RevertOutOfScope, ErrorsFor, EvmLine, Difference;
  }
}
