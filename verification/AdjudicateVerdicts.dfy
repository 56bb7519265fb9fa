/** The verdicts that end a claim early: malformed, out of scope, and for review. */
module AdjudicateVerdicts {
  import opened Basics
  import opened AbiTypes
  import opened Claim
  import opened Forms
  import opened Adjudicate
  import opened AdjudicateProofs
  import AstWalk
  import CoverageGuard
  import Register

  // ----- argument lists -----

  /** External functions may be arguments before 1.2.0 and from 1.6.0 on. */
  predicate ExternalAllowed(at: Register.Version) {
    Register.SemverLt(at, Register.V120) || !Register.SemverLt(at, Register.V160)
  }

  lemma ExternalOkExactly(at: Register.Version)
    ensures ExternalOk(at) <==> ExternalAllowed(at)
  {
    hide Register.SemverLt, Register.ActiveRow;
    Register.OneRowInForce(at);
    Register.MilestonesFor(at);
  }

  predicate AllTaken(e: Env, args: seq<Arg>, ts: seq<Ty>, at: Register.Version)
    requires |args| == |ts|
  {
    forall i :: 0 <= i < |args| ==> Takes(e, args[i], ts[i], ExternalAllowed(at))
  }

  /** The first value that is not taken is of a type the register leaves out. */
  ghost predicate ListEscapes(e: Env, args: seq<Arg>, ts: seq<Ty>, at: Register.Version)
    requires |args| == |ts|
  {
    !Register.SemverLt(at, Register.V120) && FirstEscapes(e, args, ts, ExternalAllowed(at))
  }

  ghost predicate ListMalformed(e: Env, args: seq<Arg>, ts: seq<Ty>, at: Register.Version)
    requires |args| == |ts|
  {
    !AllTaken(e, args, ts, at) && !ListEscapes(e, args, ts, at)
  }

  lemma ListVerdict(e: Env, args: seq<Arg>, ts: seq<Ty>, at: Register.Version)
    requires |args| == |ts|
    ensures var r := DomainReport(ArgDomains(e, args, ts, ExternalOk(at), |ts|), at);
      && r in {None, Plain(RejectedOos), Plain(RejectMalformed)}
      && (AllTaken(e, args, ts, at) <==> r == None)
      && (ListEscapes(e, args, ts, at) <==> r == Plain(RejectedOos))
      && (ListMalformed(e, args, ts, at) <==> r == Plain(RejectMalformed))
  {
    hide Takes, Escapes, ArgDomain, ArgDomains, Register.SemverLt, Register.ActiveRow, ExternalOk, Accepted;
    var ext := ExternalOk(at);
    ExternalOkExactly(at);
    Register.OneRowInForce(at);
    DomainsLegal(e, args, ts, ext, |ts|);
    FirstScope(e, args, ts, ext, |ts|);
    forall i | 0 <= i < |args|
      ensures ArgDomain(e, args[i], ts[i], ext) == OutOfScope <==> Escapes(e, args[i], ts[i], ext)
      ensures Accepted(e, args[i], ts[i], ext) <==> Takes(e, args[i], ts[i], ext)
    {
      ScopeExactly(e, args[i], ts[i], ext);
      FormsExactly(e, args[i], ts[i], ext);
    }
  }

  // ----- the call against the signature -----

  predicate UniqueEntry(w: World, s: Request) {
    && w.signature.Known? && w.signature.value.Some?
    && var sig := w.signature.value.value; sig.overloads <= 1 && |s.args| == |sig.params|
  }

  predicate AllAdmitted(w: World, at: Register.Version) {
    forall i :: 0 <= i < |TheSignature(w).params| ==> Register.Admitted(w.e, at, TheSignature(w).params[i])
  }

  ghost predicate ArgumentsMalformed(w: World, s: Request, at: Register.Version) {
    var ps := TheSignature(w).params;
    || w.signature.Failed? || w.signature == Known(None)
    || (w.signature.Known? && !UniqueEntry(w, s))
    || (UniqueEntry(w, s) && AllAdmitted(w, at)
        && (|| ListMalformed(w.e, s.args, ps, at)
            || (AllTaken(w.e, s.args, ps, at)
                && (|s.ctorArgs| != |w.ctorParams| || ListMalformed(w.e, s.ctorArgs, w.ctorParams, at)))))
  }

  ghost predicate ArgumentsOutOfScope(w: World, s: Request, at: Register.Version) {
    var ps := TheSignature(w).params;
    && UniqueEntry(w, s)
    && (|| !AllAdmitted(w, at)
        || ListEscapes(w.e, s.args, ps, at)
        || (AllTaken(w.e, s.args, ps, at) && |s.ctorArgs| == |w.ctorParams|
            && ListEscapes(w.e, s.ctorArgs, w.ctorParams, at)))
  }

  lemma ArgumentVerdicts(w: World, s: Request, at: Register.Version)
    ensures var r := ArgumentStage(w, s, at);
      && r in {None, Plain(NeedsReview), Plain(RejectMalformed), Plain(RejectedOos)}
      && (r == Plain(NeedsReview) <==> w.signature.Infra?)
      && (r == Plain(RejectMalformed) <==> ArgumentsMalformed(w, s, at))
      && (r == Plain(RejectedOos) <==> ArgumentsOutOfScope(w, s, at))
      && (r == None <==> LegalCall(w, s, at, TheSignature(w)))
  {
    ArgumentStageExactly(w, s, at);
    ArgumentShape(w, s, at);
    hide ListMalformed, ListEscapes, AllTaken, DomainReport, ArgDomains, ExternalOk, LegalCall, Register.Admitted;
    if UniqueEntry(w, s) { ListVerdict(w.e, s.args, TheSignature(w).params, at); }
    if |s.ctorArgs| == |w.ctorParams| { ListVerdict(w.e, s.ctorArgs, w.ctorParams, at); }
  }

  lemma ArgumentShape(w: World, s: Request, at: Register.Version)
    ensures var r := ArgumentStage(w, s, at);
      r.Some? ==> r in {Plain(NeedsReview), Plain(RejectMalformed), Plain(RejectedOos)}
  {
    hide ArgDomains, ExternalOk, Register.Admitted, Register.ActiveRow;
  }

  // ----- how far a claim gets -----

  predicate CallAccepted(w: World, s: Request, at: Register.Version) {
    s.overAccept || LegalCall(w, s, at, TheSignature(w))
  }

  predicate SourcesRead(w: World, s: Request) {
    w.sources.Known? || (w.sources.Failed? && s.overAccept && w.parseOnly.Some?)
  }

  predicate Scanned(w: World, s: Request, at: Register.Version) {
    CallAccepted(w, s, at) && ValueOk(s.value) && SourcesRead(w, s) && !w.banned && !w.unmirrorable
  }

  /** The submitter's own test, where there is one, passed. */
  predicate Tested(w: World, s: Request, at: Register.Version) {
    !s.overAccept && Scanned(w, s, at) && (s.manifest || w.forge.Known?)
  }

  /** The real behaviour is established: solc rejects, or the call was measured. */
  predicate Established(w: World, s: Request, at: Register.Version) {
    Scanned(w, s, at)
    && if s.overAccept then Rejected(w, s)
       else Reproduced(w, s, at, TheSignature(w))
  }

  /** The request is answered by solidity-lean, in scope. */
  predicate AnsweredInScope(w: World, s: Request, at: Register.Version) {
    InScope(w, s, at) && Answered(w, s, at, TheSignature(w))
  }

  /** The syntax trees the gate looks at. */
  function GateSources(w: World): seq<AstWalk.Json> {
    match w.sources
    case Known(sources) => sources
    case _ => if w.parseOnly.Some? then w.parseOnly.value else []
  }

  predicate KeptOut(t: string) {
    t == "ImportDirective" || t == "InlineAssembly" || (|t| >= 3 && t[0] == 'Y' && t[1] == 'u' && t[2] == 'l')
  }

  lemma RowsInForce(at: Register.Version)
    requires !Register.SemverLt(at, Register.V100)
    ensures Register.IsActive(Register.X_ASM, Some(at)) && Register.IsActive(Register.X_IMPORT, Some(at))
  {
    hide Register.SemverLt;
  }

  /** From 1.0.0 on the gate passes exactly when no source holds an import, inline assembly or
      Yul at any depth, and no other row or check reports anything. */
  lemma GateExactly(w: World, s: Request, at: Register.Version)
    requires !Register.SemverLt(at, Register.V100)
    ensures GateHits(w, s, at) == []
       <==> w.otherHits == [] && forall v, t :: v in GateSources(w) && t in AstWalk.NodeTypes(v) ==> !KeptOut(t)
  {
    hide CoverageGuard.RowHits, CoverageGuard.Hits, CoverageGuard.Dicts, AstWalk.NodeTypes;
    hide Register.IsActive, Register.SemverLt;
    RowsInForce(at);
    var asts := GateSources(w);
    CoverageGuard.RowHitsExactly(Register.X_ASM, at, CoverageGuard.IsAssembly, asts);
    CoverageGuard.RowHitsExactly(Register.X_IMPORT, at, CoverageGuard.IsImport, asts);
    forall v | v in asts
      ensures CoverageGuard.Hits("X-ASM", CoverageGuard.IsAssembly, CoverageGuard.Dicts(v)) != []
           || CoverageGuard.Hits("X-IMPORT", CoverageGuard.IsImport, CoverageGuard.Dicts(v)) != []
         <==> exists t :: t in AstWalk.NodeTypes(v) && KeptOut(t)
    {
      CoverageGuard.DetectorsExactly(v);
    }
  }

  lemma ScanVerdicts(w: World, s: Request)
    ensures var r := ScanStage(w, s);
      && r in {None, Plain(NeedsReview), Plain(RejectMalformed), Plain(RejectedOos)}
      && (r == Plain(RejectMalformed) <==>
            !ValueOk(s.value) || (w.sources.Failed? && !(s.overAccept && w.parseOnly.Some?)))
      && (r == Plain(NeedsReview) <==> ValueOk(s.value) && w.sources.Infra?)
      && (r == Plain(RejectedOos) <==> ValueOk(s.value) && SourcesRead(w, s) && (w.banned || w.unmirrorable))
      && (r == None <==> ValueOk(s.value) && SourcesRead(w, s) && !w.banned && !w.unmirrorable)
  {
  }

  /** With Forge on, a claim is malformed exactly when a field cannot be read, the arguments
      are not those of one call, the value or the sources are unusable, or the entry has no
      source. */
  lemma MalformedExactly(w: World, c: Submission, at: Register.Version)
    ensures Decide(w, c, at, false).verdict == RejectMalformed
      <==> ReadFields(c).Unreadable?
           || (Legible(c)
               && var s := Asked(c);
                  || (!s.overAccept && ArgumentsMalformed(w, s, at))
                  || (CallAccepted(w, s, at)
                      && (!(s.value.Some? && 0 <= s.value.value < TWO256)
                          || (w.sources.Failed? && !(s.overAccept && w.parseOnly.Some?))))
                  || (Established(w, s, at) && GateHits(w, s, at) == [] && !w.sourceFound))
  {
    if Legible(c) { SettleVerdicts(w, Asked(c), at); }
    hide ArgumentsMalformed, CallAccepted, Established, Settle, ReadFields;
  }

  /** Out of scope exactly for an excluded parameter or argument type, a banned cheatcode or
      environment, an excluded return type, a hit of the gate, an excluded node met by the
      importer, or a revert that is refused. */
  lemma OutOfScopeExactly(w: World, c: Submission, at: Register.Version)
    ensures Decide(w, c, at, false).verdict == RejectedOos
      <==> Legible(c) && OutOfScopeRequest(w, Asked(c), at)
  {
    if Legible(c) { SettleVerdicts(w, Asked(c), at); }
    hide OutOfScopeRequest, Settle, ReadFields;
  }

  ghost predicate OutOfScopeRequest(w: World, s: Request, at: Register.Version) {
    var sig := TheSignature(w);
    || (!s.overAccept && ArgumentsOutOfScope(w, s, at))
    || (CallAccepted(w, s, at) && ValueOk(s.value) && SourcesRead(w, s) && (w.banned || w.unmirrorable))
    || (Tested(w, s, at) && Unreturnable(w, sig.results, at))
    || (Established(w, s, at) && GateHits(w, s, at) != [])
    || (AnsweredInScope(w, s, at)
        && var r := TheAnswer(w, s, at, sig);
           if r.Ran? then RevertOutOfScope(w, Measurement(w, s, sig).value, r.line, at)
           else r.stage == Import && r.excluded && !r.inconclusive)
  }

  /** For review exactly when a tool gives no answer, solidity-lean fails inconclusively or
      without a reason of its own, or the measured data does not decode. */
  lemma ReviewExactly(w: World, c: Submission, at: Register.Version)
    ensures Decide(w, c, at, false).verdict == NeedsReview
      <==> Legible(c) && ReviewRequest(w, Asked(c), at)
  {
    if Legible(c) { SettleVerdicts(w, Asked(c), at); }
    hide ReviewRequest, Settle, ReadFields;
  }

  ghost predicate ReviewRequest(w: World, s: Request, at: Register.Version) {
    var sig := TheSignature(w);
    || (!s.overAccept && w.signature.Infra?)
    || (CallAccepted(w, s, at) && ValueOk(s.value) && w.sources.Infra?)
    || (s.overAccept && Scanned(w, s, at) && w.solc.TimedOut?)
    || (!s.overAccept && Scanned(w, s, at) && !s.manifest && w.forge.Infra?)
    || (Tested(w, s, at) && !Unreturnable(w, sig.results, at) && Sent(w, s, sig).Some?
        && Measurement(w, s, sig).None?)
    || (AnsweredInScope(w, s, at)
        && var m, r := Measurement(w, s, sig).value, TheAnswer(w, s, at, sig);
           if r.Ran? then
             !RevertOutOfScope(w, m, r.line, at) && EvmLine(w.e, ErrorsFor(w.declared, m, r.line), sig.results, m).None?
           else r.inconclusive || (r.stage == Run && r.generic))
  }

  lemma SettleVerdicts(w: World, s: Request, at: Register.Version)
    ensures Settle(w, s, at, false).verdict == RejectMalformed
      <==> || (!s.overAccept && ArgumentsMalformed(w, s, at))
           || (CallAccepted(w, s, at)
               && (!ValueOk(s.value) || (w.sources.Failed? && !(s.overAccept && w.parseOnly.Some?))))
           || (Established(w, s, at) && GateHits(w, s, at) == [] && !w.sourceFound)
    ensures Settle(w, s, at, false).verdict == RejectedOos <==> OutOfScopeRequest(w, s, at)
    ensures Settle(w, s, at, false).verdict == NeedsReview <==> ReviewRequest(w, s, at)
  {
    ArgumentStageExactly(w, s, at);
    ArgumentVerdicts(w, s, at);
    ScanVerdicts(w, s);
    hide ArgumentStage, ScanStage, ArgumentsMalformed, ArgumentsOutOfScope, LegalCall, SourcesRead;
    hide Unreturnable, Sent, Measurement, GateHits, LeanCall, Untyped, RevertOutOfScope, ErrorsFor, EvmLine, Difference;
  }

  /** Without Forge nothing is measured, so only the over-accept lane reaches a verdict on
      the two engines' behaviour. */
  lemma UnmeasuredNeverCompared(w: World, c: Submission, at: Register.Version)
    ensures Decide(w, c, at, true).verdict in {SoundnessGap, NoDivergence} ==> Legible(c) && Asked(c).overAccept
    ensures Legible(c) && !Asked(c).overAccept && InScope(w, Asked(c), at)
            && LegalCall(w, Asked(c), at, TheSignature(w))
            && RunTyped(w, Asked(c), TheSignature(w), None).Some?
            && RunTyped(w, Asked(c), TheSignature(w), None).value.Ran?
      ==> Decide(w, c, at, true) == Report(RejectMalformed, None)
  {
    if Legible(c) {
      ArgumentStageExactly(w, Asked(c), at);
      ScanVerdicts(w, Asked(c));
    }
    hide ReadFields, RunTyped, Measurement, Sent, GateHits, ArgumentStage, ScanStage, LegalCall;
    hide CompareReport;
  }
}
