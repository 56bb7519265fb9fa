/** What a verdict depends on, what a credited gap implies, and the verdict on honest runs. */
module AdjudicateProofs {
  import opened Basics
  import opened PyText
  import opened AbiTypes
  import opened NormalForm
  import opened Decoder
  import opened Claim
  import opened Commute
  import opened Observable
  import opened Printers
  import opened Adjudicate
  import Register
  import AstWalk
  import CoverageGuard

  // ----- credit -----

  /** The arguments are a legal call of the uniquely named entry. */
  predicate LegalCall(w: World, s: Request, at: Register.Version, sig: Signature)
  {
    && w.signature == Known(Some(sig)) && sig.overloads <= 1
    && (forall i :: 0 <= i < |sig.params| ==> Register.Admitted(w.e, at, sig.params[i]))
    && AllAccepted(w.e, s.args, sig.params, ExternalOk(at))
    && AllAccepted(w.e, s.ctorArgs, w.ctorParams, ExternalOk(at))
  }

  function TheSignature(w: World): Signature {
    if w.signature.Known? && w.signature.value.Some? then w.signature.value.value else Signature([], [], 0, [])
  }

  lemma ArgumentStageExactly(w: World, s: Request, at: Register.Version)
    ensures ArgumentStage(w, s, at).None? <==> LegalCall(w, s, at, TheSignature(w))
    ensures LegalCall(w, s, at, TheSignature(w)) ==> w.signature == Known(Some(TheSignature(w)))
    ensures ArgumentStage(w, s, at).Some?
        ==> ArgumentStage(w, s, at).value.verdict in {RejectMalformed, RejectedOos, NeedsReview}
  {
    hide ArgDomain, Register.Admitted, ExternalOk;
    if w.signature.Known? && w.signature.value.Some? {
      var sig := w.signature.value.value;
      if |s.args| == |sig.params| {
        DomainsLegal(w.e, s.args, sig.params, ExternalOk(at), |sig.params|);
      }
      if |s.ctorArgs| == |w.ctorParams| {
        DomainsLegal(w.e, s.ctorArgs, w.ctorParams, ExternalOk(at), |w.ctorParams|);
      }
    }
  }

  /** In scope and free of cheatcodes, with sources to look at. */
  predicate InScope(w: World, s: Request, at: Register.Version) {
    && ValueOk(s.value)
    && (w.sources.Known? || (w.sources.Failed? && s.overAccept && w.parseOnly.Some?))
    && !w.banned && !w.unmirrorable && GateHits(w, s, at) == [] && w.sourceFound
  }

  /** A legal call whose EVM behaviour was reproduced and measured. */
  predicate Reproduced(w: World, s: Request, at: Register.Version, sig: Signature)
    requires ValueOk(s.value)
  {
    && !s.overAccept && LegalCall(w, s, at, sig) && (s.manifest || w.forge.Known?)
    && !Unreturnable(w, sig.results, at)
    && Sent(w, s, sig).Some? && Measurement(w, s, sig).Some?
  }

  /** Failed closed in a way the decision credits. */
  predicate CreditedFailure(r: LeanResult) {
    r.FailedClosed? && !r.inconclusive && !(r.stage == Run && r.generic) && !(r.stage == Import && r.excluded)
  }

  /** solidity-lean ran, and its observable differs from the measured one. */
  predicate MeasuredDifference(w: World, sig: Signature, m: Measured, r: LeanResult, at: Register.Version) {
    Comparable(w, sig, m, r, at) && Compared(w, sig, m, r).Some?
  }

  /** solidity-lean ran, and the measured observable is in scope and decodes. */
  predicate Comparable(w: World, sig: Signature, m: Measured, r: LeanResult, at: Register.Version) {
    && r.Ran? && !RevertOutOfScope(w, m, r.line, at)
    && EvmLine(w.e, ErrorsFor(w.declared, m, r.line), sig.results, m).Some?
  }

  function Compared(w: World, sig: Signature, m: Measured, r: LeanResult): Option<Component>
    requires r.Ran? && EvmLine(w.e, ErrorsFor(w.declared, m, r.line), sig.results, m).Some?
  {
    var er := ErrorsFor(w.declared, m, r.line);
    Difference(w.e, er, r.line, EvmLine(w.e, er, sig.results, m).value)
  }

  /** solc rejects the program, for the declared cause if one is given. */
  predicate Rejected(w: World, s: Request) {
    w.solc.Rejects?
    && (s.errorCode.NoCode? || (s.errorCode.Code? && s.errorCode.text in w.solc.codes))
  }

  /** solc rejects the program, and the declared cause cannot be looked for. */
  predicate CauseRaises(w: World, s: Request) { w.solc.Rejects? && s.errorCode.Unhashable? }

  /** solidity-lean runs what solc rejects. */
  predicate OverAccepted(w: World, s: Request)
  {
    s.overAccept && Rejected(w, s) && RunUntyped(w, s).Some? && RunUntyped(w, s).value.Ran?
  }

  predicate Answered(w: World, s: Request, at: Register.Version, sig: Signature)
    requires ValueOk(s.value)
  {
    Reproduced(w, s, at, sig) && RunTyped(w, s, sig, Measurement(w, s, sig)).Some?
  }

  function TheAnswer(w: World, s: Request, at: Register.Version, sig: Signature): LeanResult
    requires ValueOk(s.value) && Answered(w, s, at, sig)
  {
    RunTyped(w, s, sig, Measurement(w, s, sig)).value
  }

  /** The fields of the claim can be read. */
  predicate Legible(c: Submission) { ReadFields(c).Value? }

  function Asked(c: Submission): Request
    requires Legible(c)
  {
    ReadFields(c).value
  }

  /** With Forge on, the comparison of step 3c is reached. */
  predicate Comparing(w: World, s: Request, at: Register.Version) {
    var sig := TheSignature(w);
    InScope(w, s, at) && Answered(w, s, at, sig)
    && Comparable(w, sig, Measurement(w, s, sig).value, TheAnswer(w, s, at, sig), at)
  }

  /** With Forge on, a verdict earns credit exactly when the claim is in scope and either
      solc rejects what solidity-lean runs, or a legal, reproduced and measured call makes
      solidity-lean fail in a way that is credited or answer differently, the declared
      observable being well-typed. */
  lemma CreditExactly(w: World, c: Submission, at: Register.Version)
    ensures var r, sig := Decide(w, c, at, false), TheSignature(w);
      && (r == Report(CoverageGap, Some('C')) <==>
            Legible(c)
            && var s := Asked(c);
               InScope(w, s, at) && Answered(w, s, at, sig) && CreditedFailure(TheAnswer(w, s, at, sig)))
      && (r == Report(SoundnessGap, Some('S')) <==>
            Legible(c)
            && var s := Asked(c);
               InScope(w, s, at)
               && (OverAccepted(w, s)
                   || (Answered(w, s, at, sig) && !s.declared.IllTyped?
                       && MeasuredDifference(w, sig, Measurement(w, s, sig).value, TheAnswer(w, s, at, sig), at))))
      && (Qualifies(r) ==> r == Report(CoverageGap, Some('C')) || r == Report(SoundnessGap, Some('S')))
  {
    hide ReadFields, ArgumentStage, Sent, LegalCall, Unreturnable, GateHits, LeanCall, Measurement;
    hide RevertOutOfScope, ErrorsFor, EvmLine, Difference, Untyped;
    if Legible(c) {
      ArgumentStageExactly(w, Asked(c), at);
    }
  }

  /** A claim is invalid exactly when solc does not reject, for the declared cause, what it
      calls rejected, or the legal call's own Forge test fails; it shows no divergence
      exactly when both sides reject, or the answered call compares equal. */
  lemma TerminalExactly(w: World, c: Submission, at: Register.Version)
    ensures var r, sig := Decide(w, c, at, false), TheSignature(w);
      && (r.verdict == Invalid <==>
            Legible(c)
            && var s := Asked(c);
               ScanStage(w, s).None?
               && (if s.overAccept then !w.solc.TimedOut? && !Rejected(w, s) && !CauseRaises(w, s)
                   else LegalCall(w, s, at, sig) && !s.manifest && w.forge.Failed?))
      && (r.verdict == NoDivergence <==>
            Legible(c)
            && var s := Asked(c);
               InScope(w, s, at)
               && (if s.overAccept then
                     Rejected(w, s)
                     && (ImportFailure(w).Some?
                         || (Untyped(s.args) && Untyped(s.ctorArgs) && RunUntyped(w, s).value.FailedClosed?))
                   else
                     Answered(w, s, at, sig) && !s.declared.IllTyped?
                     && Agreement(w, sig, Measurement(w, s, sig).value, TheAnswer(w, s, at, sig), at)))
  {
    hide ReadFields, ArgumentStage, Sent, LegalCall, Unreturnable, GateHits, LeanCall, Measurement;
    hide RevertOutOfScope, ErrorsFor, EvmLine, Difference, Untyped;
    if Legible(c) {
      ArgumentStageExactly(w, Asked(c), at);
    }
  }

  /** solidity-lean ran, and its observable is the measured one. */
  predicate Agreement(w: World, sig: Signature, m: Measured, r: LeanResult, at: Register.Version) {
    Comparable(w, sig, m, r, at) && Compared(w, sig, m, r).None?
  }

  /** The importer or the evaluation of a typed call ended without an answer. */
  predicate TypedLost(w: World, s: Request, sig: Signature)
    requires ValueOk(s.value) && Sent(w, s, sig).Some?
  {
    w.importing == ImporterTimedOut
    || (w.importing == Imported
        && var call := LeanCall(w, s, sig, Measurement(w, s, sig)); call.Some? && w.lean(call.value) == NoLine)
  }

  predicate UntypedLost(w: World, s: Request)
  {
    w.importing == ImporterTimedOut
    || (w.importing == Imported && Untyped(s.args) && Untyped(s.ctorArgs)
        && w.leanUntyped(s.args, s.ctorArgs, FUEL_CAP) == NoLine)
  }

  /** Some tool the decision asks gives no answer: reading the sources or the signature,
      the reject check, the Forge test, the measurement, or solidity-lean. */
  predicate ToolFailed(w: World, s: Request, at: Register.Version)
    requires ValueOk(s.value)
  {
    var sig := TheSignature(w);
    || w.sources.Infra?
    || (if s.overAccept then w.solc == TimedOut || (Rejected(w, s) && UntypedLost(w, s))
        else
          || w.signature.Infra?
          || (!s.manifest && w.forge.Infra?)
          || ((s.manifest || w.forge.Known?) && Sent(w, s, sig).Some? && Measurement(w, s, sig).None?)
          || (Reproduced(w, s, at, sig) && TypedLost(w, s, sig)))
  }

  predicate Decisive(v: Verdict) { v in {Invalid, NoDivergence, SoundnessGap, CoverageGap} }

  /** When a tool fails, the verdict nevertheless rejects, agrees or credits in exactly two
      cases: an over-accept run that times out anywhere counts as agreement with solc, and
      an importer timeout counts as a coverage gap. */
  lemma ToolFailureExactly(w: World, c: Submission, at: Register.Version)
    requires Legible(c) && ValueOk(Asked(c).value) && ToolFailed(w, Asked(c), at)
    ensures var v, s, sig := Decide(w, c, at, false).verdict, Asked(c), TheSignature(w);
      && (Decisive(v) <==>
            InScope(w, s, at)
            && (if s.overAccept then Rejected(w, s)
                else Reproduced(w, s, at, sig) && w.importing == ImporterTimedOut))
      && (Decisive(v) ==> v == if s.overAccept then NoDivergence else CoverageGap)
  {
    hide ReadFields, ArgumentStage, Sent, LegalCall, Unreturnable, GateHits, LeanCall, Measurement;
    hide RevertOutOfScope, ErrorsFor, EvmLine, Difference, Untyped;
    ArgumentStageExactly(w, Asked(c), at);
    TerminalExactly(w, c, at);
    CreditExactly(w, c, at);
  }

  /** If importing fails on every program solc rejects, the over-accept lane never credits. */
  lemma OverAcceptNeverCredits(w: World, c: Submission, at: Register.Version)
    requires c.overAccept && (w.solc.Rejects? ==> w.importing != Imported)
    ensures !Qualifies(Decide(w, c, at, false))
  {
    CreditExactly(w, c, at);
    ReadKeeps(c);
    if Legible(c) { NotOverAccepted(w, Asked(c)); }
    hide ReadFields, InScope, Answered, OverAccepted, CreditedFailure, MeasuredDifference, Settle;
  }

  lemma NotOverAccepted(w: World, s: Request)
    requires w.solc.Rejects? ==> w.importing != Imported
    ensures !OverAccepted(w, s)
    ensures forall at, sig :: s.overAccept && ValueOk(s.value) ==> !Answered(w, s, at, sig)
  {
    hide ReadLine, Untyped, LegalCall, Unreturnable, Sent, Measurement, RunTyped;
  }

  /** Reading the fields keeps the rest of the claim. */
  lemma ReadKeeps(c: Submission)
    ensures Legible(c) ==>
      var s := Asked(c);
      s.value == c.value && s.overAccept == c.overAccept && s.manifest == c.manifest
      && s.errorCode == c.errorCode && s.declared == c.declared
  {
    hide ReadArgs, ReadSlots, IsIdentifier;
  }

  /** On a clean submission the importer never meets an excluded node. */
  lemma CleanNotExcluded(w: World, s: Request, at: Register.Version, T: CoverageGuard.Tables, v: AstWalk.Json)
    requires InScope(w, s, at) && w.sources.Known? && v in w.sources.value
    requires CoverageGuard.Separate(T) && !Register.SemverLt(at, Register.V100)
    ensures CoverageGuard.Guard(T, v) != Some(CoverageGuard.ExcludedNodes)
  {
    hide CoverageGuard.RowHits, CoverageGuard.Guard, CoverageGuard.Separate, Register.SemverLt;
    CoverageGuard.NoDrift(T, at, w.sources.value, v);
  }

  // ----- when the adjudicator itself raises -----

  lemma EncodedExactly(e: Env, args: seq<Arg>, ts: seq<Ty>, ext: bool)
    requires AllAccepted(e, args, ts, ext) && |SpecEncodings(e, args, ts, ext)| < TWO256
    ensures Encoded(e, args, ts).Some? <==> AllPlain(e, args, ts, |ts|)
    ensures Rendered(e, args, ts).Some? <==> AllPlain(e, args, ts, |ts|)
  {
    hide EncodeTuple, AllPlain, LeanArgs, ArgDomain;
    MeaningAllTyped(e, args, ts, ext);
    EncodeAllAccepted(e, args, ts, ext);
    RenderAllAccepted(e, args, ts, ext);
  }

  /** No component of an external function value in the call is a JSON boolean. */
  predicate PlainCall(w: World, s: Request, sig: Signature)
    requires |s.args| == |sig.params| && |s.ctorArgs| == |w.ctorParams|
  {
    AllPlain(w.e, s.args, sig.params, |sig.params|) && AllPlain(w.e, s.ctorArgs, w.ctorParams, |w.ctorParams|)
  }

  /** The encodings of a legal call are shorter than 2^256 bytes. */
  predicate Sized(w: World, s: Request, at: Register.Version, sig: Signature) {
    LegalCall(w, s, at, sig) ==>
      && |SpecEncodings(w.e, s.args, sig.params, ExternalOk(at))| < TWO256
      && |SpecEncodings(w.e, s.ctorArgs, w.ctorParams, ExternalOk(at))| < TWO256
  }

  lemma CallRaises(w: World, s: Request, at: Register.Version, sig: Signature)
    requires LegalCall(w, s, at, sig) && Sized(w, s, at, sig)
    ensures |s.args| == |sig.params| && |s.ctorArgs| == |w.ctorParams|
    ensures Sent(w, s, sig).Some? <==> PlainCall(w, s, sig)
    ensures ValueOk(s.value) ==> forall m :: LeanCall(w, s, sig, m).Some? <==> PlainCall(w, s, sig)
  {
    EncodedExactly(w.e, s.args, sig.params, ExternalOk(at));
    EncodedExactly(w.e, s.ctorArgs, w.ctorParams, ExternalOk(at));
    hide Encoded, Rendered, AllPlain, ValueOk, Accepted, SpecEncodings;
  }

  /** Once a legal call is past the scope checks, whether it raises with Forge on. */
  predicate TypedRaises(w: World, s: Request, at: Register.Version, sig: Signature)
    requires LegalCall(w, s, at, sig)
  {
    && (s.manifest || w.forge.Known?) && !Unreturnable(w, sig.results, at)
    && (!PlainCall(w, s, sig) || (s.declared.IllTyped? && Comparing(w, s, at)))
  }

  /** Everything in a claim that makes the adjudicator raise: an infinite number among the
      fields; for an over-accept claim an error code that cannot be looked for, or a list
      argument once the import succeeds; for a typed call a boolean component, or an
      ill-typed declared observable once the comparison is reached. */
  lemma RaisedExactly(w: World, c: Submission, at: Register.Version, skip: bool)
    requires Legible(c) ==> Sized(w, Asked(c), at, TheSignature(w))
    ensures Decide(w, c, at, skip).verdict == Raised
      <==>
        || ReadFields(c).Overflow?
        || (Legible(c)
            && var s, sig := Asked(c), TheSignature(w);
               ScanStage(w, s).None?
               && if s.overAccept then
                    CauseRaises(w, s)
                    || (Rejected(w, s) && Reached(w, s, at) && !(Untyped(s.args) && Untyped(s.ctorArgs)))
                  else
                    LegalCall(w, s, at, sig)
                    && if skip then Reached(w, s, at) && !PlainCall(w, s, sig) else TypedRaises(w, s, at, sig))
  {
    if Legible(c) {
      SettleRaises(w, Asked(c), at, skip);
    }
  }

  /** The gate and the import are behind. */
  predicate Reached(w: World, s: Request, at: Register.Version) {
    GateHits(w, s, at) == [] && w.sourceFound && w.importing == Imported
  }

  lemma SettleRaises(w: World, s: Request, at: Register.Version, skip: bool)
    requires Sized(w, s, at, TheSignature(w))
    ensures var sig := TheSignature(w);
      Settle(w, s, at, skip).verdict == Raised
      <==>
        ScanStage(w, s).None?
        && if s.overAccept then
             CauseRaises(w, s)
             || (Rejected(w, s) && Reached(w, s, at) && !(Untyped(s.args) && Untyped(s.ctorArgs)))
           else
             LegalCall(w, s, at, sig)
             && if skip then Reached(w, s, at) && !PlainCall(w, s, sig) else TypedRaises(w, s, at, sig)
  {
    var sig := TheSignature(w);
    ArgumentStageExactly(w, s, at);
    hide Settle, ScanStage, CauseRaises, Rejected, Reached, Untyped, LegalCall, PlainCall, TypedRaises, Sized;
    if s.overAccept {
      OverAcceptRaises(w, s, at, skip);
    } else if LegalCall(w, s, at, sig) {
      CallRaises(w, s, at, sig);
      TypedCallRaises(w, s, at, skip, sig);
    } else {
      IllegalCall(w, s, at, skip);
    }
  }

  lemma IllegalCall(w: World, s: Request, at: Register.Version, skip: bool)
    requires !s.overAccept && ArgumentStage(w, s, at).Some?
    ensures Settle(w, s, at, skip) == ArgumentStage(w, s, at).value
  {
  }

  lemma OverAcceptRaises(w: World, s: Request, at: Register.Version, skip: bool)
    requires s.overAccept
    ensures Settle(w, s, at, skip).verdict == Raised
      <==> ScanStage(w, s).None?
           && (CauseRaises(w, s)
               || (Rejected(w, s) && Reached(w, s, at) && !(Untyped(s.args) && Untyped(s.ctorArgs))))
  {
    hide GateHits, Untyped, ReadLine;
  }

  lemma TypedCallRaises(w: World, s: Request, at: Register.Version, skip: bool, sig: Signature)
    requires !s.overAccept && sig == TheSignature(w) && LegalCall(w, s, at, sig)
    requires ArgumentStage(w, s, at).None? && w.signature == Known(Some(sig))
    requires |s.args| == |sig.params| && |s.ctorArgs| == |w.ctorParams|
    requires Sent(w, s, sig).Some? <==> PlainCall(w, s, sig)
    requires ValueOk(s.value) ==> forall m :: LeanCall(w, s, sig, m).Some? <==> PlainCall(w, s, sig)
    ensures Settle(w, s, at, skip).verdict == Raised
      <==> ScanStage(w, s).None?
           && if skip then Reached(w, s, at) && !PlainCall(w, s, sig) else TypedRaises(w, s, at, sig)
  {
    hide ArgumentStage, Sent, LegalCall, Unreturnable, GateHits, LeanCall, PlainCall, Measurement;
    hide RevertOutOfScope, ErrorsFor, EvmLine, Difference, ReadLine;
  }

  /** The comment that unencodable arguments were already rejected is true exactly when no
      component of an external function value is a JSON boolean; otherwise the measurement
      raises and no verdict is given. */
  lemma RaisesExactly(w: World, c: Submission, at: Register.Version)
    requires Legible(c) && ScanStage(w, Asked(c)).None? && !Asked(c).overAccept
    requires LegalCall(w, Asked(c), at, TheSignature(w)) && Sized(w, Asked(c), at, TheSignature(w))
    requires (Asked(c).manifest || w.forge.Known?) && !Unreturnable(w, TheSignature(w).results, at)
    ensures var s, sig := Asked(c), TheSignature(w);
      && |s.args| == |sig.params| && |s.ctorArgs| == |w.ctorParams|
      && (Decide(w, c, at, false).verdict == Raised
          <==> !PlainCall(w, s, sig) || (s.declared.IllTyped? && Comparing(w, s, at)))
  {
    RaisedExactly(w, c, at, false);
    CallRaises(w, Asked(c), at, TheSignature(w));
  }

  // ----- non-interference -----

  /** A claim with what the verdict never depends on erased. */
  function Blind(c: Submission): Submission {
    c.(feature := None, versionSeen := None,
       fuel := if FuelOk(c.fuel) then Value(1) else c.fuel,
       slots := if ReadSlotList(c.slots).Value? then Some([]) else c.slots)
  }

  function Slotless(s: Request): Request { s.(slots := []) }

  lemma SlotsIgnored(answer: LeanAnswer, a: seq<int>, b: seq<int>)
    ensures ReadLine(answer, a) == ReadLine(answer, b)
  {
    hide Strip, Contains, SplitSections, After;
    if answer.Printed? {
      assert RenderFullDelta(a, answer.r) == RenderFullDelta(b, answer.r);
    }
  }

  lemma SentAlike(w: World, s: Request)
    requires ValueOk(s.value)
    ensures forall sig :: Sent(w, s, sig) == Sent(w, Slotless(s), sig)
    ensures forall sig :: Sent(w, s, sig).Some? ==> Measurement(w, s, sig) == Measurement(w, Slotless(s), sig)
    ensures forall sig, m :: LeanCall(w, s, sig, m) == LeanCall(w, Slotless(s), sig, m)
  {
    hide Encoded, Rendered, Dumped;
  }

  lemma RunsAlike(w: World, s: Request, sig: Signature, m: Option<Measured>)
    requires ValueOk(s.value)
    ensures RunTyped(w, s, sig, m) == RunTyped(w, Slotless(s), sig, m)
    ensures RunUntyped(w, s) == RunUntyped(w, Slotless(s))
  {
    hide ReadLine, LeanCall;
    SentAlike(w, s);
    if LeanCall(w, s, sig, m).Some? {
      SlotsIgnored(w.lean(LeanCall(w, s, sig, m).value), s.slots, []);
    }
    SlotsIgnored(w.leanUntyped(s.args, s.ctorArgs, FUEL_CAP), s.slots, []);
  }

  lemma SettlesAlike(w: World, s: Request, at: Register.Version, skip: bool)
    ensures Settle(w, s, at, skip) == Settle(w, Slotless(s), at, skip)
  {
    hide ArgDomains, Register.Admitted, DomainReport, CoverageGuard.RowHits, Unreturnable;
    hide Sent, Measurement, RunTyped, RunUntyped, CompareReport, CoverageReport, LeanCall, ExternalOk;
    if ValueOk(s.value) {
      SentAlike(w, s);
      var sig := TheSignature(w);
      RunsAlike(w, s, sig, if skip || Sent(w, s, sig).None? then None else Measurement(w, s, sig));
    }
  }

  lemma FieldsAlike(c: Submission)
    ensures ReadFields(c).Overflow? == ReadFields(Blind(c)).Overflow?
    ensures Legible(c) == Legible(Blind(c)) && (Legible(c) ==> Asked(Blind(c)) == Slotless(Asked(c)))
  {
    hide ReadArgs, ReadSlots, IsIdentifier;
    assert ReadSlots([], 0) == Value([]) by { NoSlots(); }
  }

  lemma NoSlots()
    ensures ReadSlots([], 0) == Value([])
  {
  }

  /** Verdict and lane never depend on the feature slug, the register version the submitter
      saw, the fuel within range, or the slots listed, though the slots are handed to both
      printers. */
  lemma {:induction false} NonInterference(w: World, c: Submission, at: Register.Version, skip: bool)
    ensures Decide(w, c, at, skip) == Decide(w, Blind(c), at, skip)
  {
    hide ReadFields, Settle, Blind;
    FieldsAlike(c);
    if Legible(c) {
      SettlesAlike(w, Asked(c), at, skip);
    }
  }

  /** They depend on the declared observable exactly when it is ill-typed and the comparison
      is reached. */
  lemma DeclaredExactly(w: World, c: Submission, at: Register.Version, skip: bool)
    ensures Decide(w, c, at, skip) == Decide(w, c.(declared := Undeclared), at, skip)
      <==> !(!skip && c.declared.IllTyped? && Legible(c) && Comparing(w, Asked(c), at))
  {
    ReadsAlike(c);
    hide ReadFields;
    if Legible(c) {
      SettleDeclared(w, Asked(c), at, skip);
    }
  }

  lemma ReadsAlike(c: Submission)
    ensures var d := c.(declared := Undeclared);
      && ReadFields(c).Overflow? == ReadFields(d).Overflow? && Legible(c) == Legible(d)
      && (Legible(c) ==> Asked(d) == Asked(c).(declared := Undeclared) && Asked(c).declared == c.declared)
  {
    hide ReadArgs, ReadSlots, IsIdentifier;
  }

  lemma SettleDeclared(w: World, s: Request, at: Register.Version, skip: bool)
    ensures Settle(w, s, at, skip) == Settle(w, s.(declared := Undeclared), at, skip)
      <==> !(!skip && s.declared.IllTyped? && Comparing(w, s, at))
  {
    var d := s.(declared := Undeclared);
    ArgumentStageExactly(w, s, at);
    DeclaredUnsent(w, s, at);
    hide ArgumentStage, Sent, LegalCall, Unreturnable, GateHits, LeanCall, Measurement, RunTyped, RunUntyped;
    hide RevertOutOfScope, ErrorsFor, EvmLine, Difference, Untyped;
  }

  /** The declared observable is read by no step before the comparison. */
  lemma DeclaredUnsent(w: World, s: Request, at: Register.Version)
    ensures var d := s.(declared := Undeclared);
      && ArgumentStage(w, s, at) == ArgumentStage(w, d, at) && GateHits(w, s, at) == GateHits(w, d, at)
      && (forall sig :: LegalCall(w, s, at, sig) == LegalCall(w, d, at, sig))
      && (forall sig :: Sent(w, s, sig) == Sent(w, d, sig))
      && (ValueOk(s.value) ==>
            && (forall sig :: Sent(w, s, sig).Some? ==> Measurement(w, s, sig) == Measurement(w, d, sig))
            && (forall sig, m :: RunTyped(w, s, sig, m) == RunTyped(w, d, sig, m))
            && RunUntyped(w, s) == RunUntyped(w, d))
  {
    hide ArgDomains, Register.Admitted, DomainReport, CoverageGuard.RowHits, ReadLine, Encoded, Rendered, Dumped;
    hide Accepted, ExternalOk;
  }

  // ----- the same logical call -----

  /** Both oracles are handed one call: the harness's calldata is the selector followed by
      bytes that decode, whatever follows them, to the text the Lean call's arguments print,
      likewise for the constructor; both carry the claim's value, and solidity-lean the
      harness's calldata, the cap as fuel and the measured address. */
  predicate SameCall(w: World, s: Request, sig: Signature, m: Option<Measured>, junk: seq<byte>)
    requires ValueOk(s.value)
  {
    Sent(w, s, sig).Some? && LeanCall(w, s, sig, m).Some?
    && var h, call := TheHarness(w, s, sig), LeanCall(w, s, sig, m).value;
       && |sig.selector| <= |h.calldata| && h.calldata[..|sig.selector|] == sig.selector
       && Prints(w.e, h.calldata[|sig.selector|..] + junk, sig.params, call.args)
       && Prints(w.e, h.ctorArgs + junk, w.ctorParams, call.ctorArgs)
       && h.value == s.value.value == call.value && call.calldata == Some(h.calldata) && call.fuel == FUEL_CAP
       && call.self == (if m.Some? then Some(m.value.self) else None)
  }

  predicate Prints(e: Env, bs: seq<byte>, ts: seq<Ty>, vs: seq<LeanValue>) {
    DecodeTuple(e, bs, ts, |ts|).Some? && PrintAll(DecodeTuple(e, bs, ts, |ts|).value) == RenderAll(vs)
  }

  lemma AgreeIsPrints(e: Env, args: seq<Arg>, ts: seq<Ty>, junk: seq<byte>)
    requires |args| == |ts|
    ensures AgreeAll(e, args, ts, junk)
       <==> Encoded(e, args, ts).Some? && Rendered(e, args, ts).Some?
            && Prints(e, Encoded(e, args, ts).value + junk, ts, Rendered(e, args, ts).value)
  {
  }

  lemma CallParts(w: World, s: Request, sig: Signature, m: Option<Measured>, junk: seq<byte>)
    requires ValueOk(s.value) && |s.args| == |sig.params| && |s.ctorArgs| == |w.ctorParams|
    ensures SameCall(w, s, sig, m, junk)
       <==> AgreeAll(w.e, s.args, sig.params, junk) && AgreeAll(w.e, s.ctorArgs, w.ctorParams, junk)
  {
    hide Prints, AgreeAll, Encoded, Rendered, ValueOk;
    AgreeIsPrints(w.e, s.args, sig.params, junk);
    AgreeIsPrints(w.e, s.ctorArgs, w.ctorParams, junk);
    if Encoded(w.e, s.args, sig.params).Some? {
      var body := Encoded(w.e, s.args, sig.params).value;
      assert (sig.selector + body)[..|sig.selector|] == sig.selector;
      assert (sig.selector + body)[|sig.selector|..] == body;
    }
  }

  /** On a legal call both oracles are handed the same logical call exactly when function
      components are plain and every leaf is in signed form. */
  lemma SameCallExactly(w: World, s: Request, at: Register.Version, m: Option<Measured>, junk: seq<byte>)
    requires ValueOk(s.value) && LegalCall(w, s, at, TheSignature(w))
    requires |SpecEncodings(w.e, s.args, TheSignature(w).params, ExternalOk(at))| < TWO256
    requires |SpecEncodings(w.e, s.ctorArgs, w.ctorParams, ExternalOk(at))| < TWO256
    ensures var ps, cs := TheSignature(w).params, w.ctorParams;
      SameCall(w, s, TheSignature(w), m, junk)
      <==> AllPlain(w.e, s.args, ps, |ps|) && AllSignedForms(w.e, s.args, ps, |ps|)
           && AllPlain(w.e, s.ctorArgs, cs, |cs|) && AllSignedForms(w.e, s.ctorArgs, cs, |cs|)
  {
    var sig := TheSignature(w);
    ArgumentsCommuteExactly(w.e, s.args, sig.params, ExternalOk(at), junk);
    ArgumentsCommuteExactly(w.e, s.ctorArgs, w.ctorParams, ExternalOk(at), junk);
    hide AgreeAll, AllPlain, AllSignedForms, SpecEncodings, Accepted;
    CallParts(w, s, sig, m, junk);
  }
}
