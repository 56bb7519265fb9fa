/** The adjudicator stage by stage, filing what it reads of the untrusted claim. */
module AdjudicateRun {
  import opened Basics
  import opened PyText
  import opened Adjudicate
  import opened AdjudicateProofs
  import Register

  /** A report with the notes kept beside it: a declared register version that is not the
      one in force, a declared observable that is not the measured one, and the feature
      slug of the deduplication key. */
  datatype Filing = Filing(report: Report, versionNote: bool, mismatchNote: bool, feature: Option<string>)

  function SlugOr(c: Submission, default: string): string {
    if c.feature.Some? then c.feature.value else default
  }

  /** The verdicts on what solidity-lean did. */
  predicate Concludes(r: Report) { Qualifies(r) || r.verdict == NoDivergence }

  /** The claim's feature, seen version, fuel, slots and declared observable are all read;
      the report is the one of the claim without the first four, and, unless the declared
      observable is ill-typed, without that too. */
  method Run(w: World, c: Submission, version: string, skip: bool) returns (f: Filing)
    ensures f.report == Decide(w, Blind(c), Register.Parse(version), skip)
    ensures !c.declared.IllTyped? ==>
      f.report == Decide(w, Blind(c).(declared := Undeclared), Register.Parse(version), skip)
    ensures f.versionNote ==> c.versionSeen.Some? && c.versionSeen.value != "" && c.versionSeen.value != version
    ensures Concludes(f.report) ==>
      (f.versionNote <==> c.versionSeen.Some? && c.versionSeen.value != "" && c.versionSeen.value != version)
    ensures f.mismatchNote ==> c.declared.Stated?
    ensures f.feature.Some? <==> f.report.verdict == SoundnessGap
    ensures f.feature.Some? ==>
      f.feature.value == SlugOr(c, if c.overAccept then "over-accept" else "unspecified-feature")
  {
    var at := Register.Parse(version);
    NonInterference(w, c, at, skip);
    DeclaredExactly(w, Blind(c), at, skip);
    ReadKeeps(c);
    hide ReadFields, ArgumentStage, ScanStage, BehaviourStage, GateHits;
    hide RunTyped, RunUntyped, RevertOutOfScope, ErrorsFor, EvmLine, Difference, Sent, Measurement, Strip;
    f := Filing(Report(RejectMalformed, None), false, false, None);
    var fields := ReadFields(c);
    if fields.Overflow? {
      f := f.(report := Report(Raised, None));
      return;
    }
    if fields.Unreadable? { return; }
    var s := fields.value;
    if !s.overAccept {
      var illegal := ArgumentStage(w, s, at);
      if illegal.Some? {
        EarlyReports(w, s, at, skip);
        f := f.(report := illegal.value);
        return;
      }
    }
    var scanned := ScanStage(w, s);
    EarlyReports(w, s, at, skip);
    if scanned.Some? {
      f := f.(report := scanned.value);
      return;
    }
    var behaviour := BehaviourStage(w, s, at, skip);
    if behaviour.Some? {
      f := f.(report := behaviour.value);
      return;
    }
    if c.versionSeen.Some? && c.versionSeen.value != "" && c.versionSeen.value != version {
      f := f.(versionNote := true);
    }
    if GateHits(w, s, at) != [] {
      f := f.(report := Report(RejectedOos, None));
      return;
    }
    if !w.sourceFound { return; }
    if s.overAccept {
      var report := OverAcceptReport(w, s);
      f := f.(report := report,
              feature := if report.verdict == SoundnessGap then Some(SlugOr(c, "over-accept")) else None);
      return;
    }
    if !w.signature.Known? || w.signature.value.None? { return; }
    var sig := w.signature.value.value;
    var measured := if skip || Sent(w, s, sig).None? then None else Measurement(w, s, sig);
    match RunTyped(w, s, sig, measured)
    case None =>
      f := f.(report := Report(Raised, None));
    case Some(FailedClosed(stage, inconclusive, generic, excluded)) =>
      f := f.(report := CoverageReport(FailedClosed(stage, inconclusive, generic, excluded)));
    case Some(Ran(line)) =>
      if measured.Some? {
        f := Note(w, c, at, sig, measured.value, line, f);
      }
  }

  /** Step 3c: the comparison, noting a declared observable that is not the measured one. */
  method Note(w: World, c: Submission, at: Register.Version, sig: Signature, m: Measured, line: string, start: Filing)
    returns (f: Filing)
    requires start.feature.None? && !start.mismatchNote
    ensures f.report == CompareReport(w, c.declared, sig, m, line, at) && f.versionNote == start.versionNote
    ensures f.mismatchNote
       <==> && c.declared.Stated? && c.declared.text != "" && !RevertOutOfScope(w, m, line, at)
            && var evm := EvmLine(w.e, ErrorsFor(w.declared, m, line), sig.results, m);
               evm.Some? && Strip(c.declared.text) != Strip(evm.value)
    ensures f.feature == if f.report.verdict == SoundnessGap then Some(SlugOr(c, "unspecified-feature")) else None
  {
    hide RevertOutOfScope, ErrorsFor, EvmLine, Difference, Strip;
    f := start;
    if RevertOutOfScope(w, m, line, at) {
      f := f.(report := Report(RejectedOos, None));
      return;
    }
    var er := ErrorsFor(w.declared, m, line);
    var evm := EvmLine(w.e, er, sig.results, m);
    if evm.None? {
      f := f.(report := Report(NeedsReview, None));
      return;
    }
    match c.declared {
      case IllTyped =>
        f := f.(report := Report(Raised, None));
        return;
      case Stated(text) =>
        f := f.(mismatchNote := text != "" && Strip(text) != Strip(evm.value));
      case Undeclared =>
    }
    if Difference(w.e, er, line, evm.value).None? {
      f := f.(report := Report(NoDivergence, None));
    } else {
      f := f.(report := Report(SoundnessGap, Some('S')), feature := Some(SlugOr(c, "unspecified-feature")));
    }
  }

  /** The early stages only ever reject, defer, invalidate or raise. */
  lemma EarlyReports(w: World, s: Request, at: Register.Version, skip: bool)
    ensures var r := ArgumentStage(w, s, at); r.Some? ==> !Concludes(r.value)
    ensures var r := ScanStage(w, s); r.Some? ==> !Concludes(r.value)
    ensures ScanStage(w, s).None? ==> ValueOk(s.value)
    ensures ValueOk(s.value) ==> var r := BehaviourStage(w, s, at, skip); r.Some? ==> !Concludes(r.value)
  {
    hide ArgumentStage, Sent, Unreturnable, Measurement;
    ArgumentStageExactly(w, s, at);
  }
}
