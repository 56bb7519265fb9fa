/** The adjudication decision, as a function of the claim and the oracles' answers. */
module Adjudicate {
  import opened Basics
  import opened Text
  import opened PyText
  import opened AbiTypes
  import opened NormalForm
  import opened Decoder
  import opened Claim
  import opened Observable
  import opened Reverts
  import opened Printers
  import Register
  import AstWalk
  import CoverageGuard

  datatype Verdict =
    | RejectMalformed | RejectedOos | NeedsReview | Invalid
    | NoDivergence | SoundnessGap | CoverageGap
    | Raised                                // an exception leaves the adjudicator

  datatype Report = Report(verdict: Verdict, lane: Option<char>)

  function Plain(v: Verdict): Option<Report> { Some(Report(v, None)) }

  predicate Qualifies(r: Report) { r.verdict == CoverageGap || r.verdict == SoundnessGap }

  // ----- the untrusted claim -----

  /** How converting a JSON value ends: an integer-like value, an error the adjudicator
      catches, or, for an infinite number, one it does not. */
  datatype Reading<T> = Value(value: T) | Unreadable | Overflow

  type Leaf = a: Arg | !a.AList? && !a.AOther? witness ABool(true)

  datatype RawArg = RLeaf(reading: Reading<Leaf>) | RList(elems: seq<RawArg>)

  /** The declared observable: absent or falsy, an object with a normal form, or a value
      that reading as one raises. */
  datatype Declaration = Undeclared | Stated(text: string) | IllTyped

  /** The declared solc error code: absent or falsy, text, another value a set can be
      searched for, or one it cannot. */
  datatype ErrorCode = NoCode | Code(text: string) | OtherCode | Unhashable

  /** claim.json; None where a list is expected and the value is not one. */
  datatype Submission = Submission(
    contract: string, function_: string, fuel: Reading<int>, value: Option<int>,
    args: Option<seq<RawArg>>, ctorArgs: Option<seq<RawArg>>, slots: Option<seq<Reading<int>>>,
    overAccept: bool, manifest: bool, errorCode: ErrorCode,
    declared: Declaration, feature: Option<string>, versionSeen: Option<string>)

  /** What is asked of the oracles once the fields have been read. */
  datatype Request = Request(
    args: seq<Arg>, ctorArgs: seq<Arg>, slots: seq<int>, value: Option<int>,
    overAccept: bool, manifest: bool, errorCode: ErrorCode, declared: Declaration)

  datatype Answer<T> = Known(value: T) | Infra | Failed

  datatype Signature = Signature(params: seq<Ty>, results: seq<Ty>, overloads: nat, selector: seq<byte>)

  /** A measurement as read back: a run's result bytes and its printed sections. */
  datatype Measured = Measured(ok: bool, deployReverted: bool, data: seq<byte>,
                               events: string, storage: string, self: int)

  function Dumped(run: EvmRun): Measured {
    Measured(run.ok, run.deployReverted, run.data, EvmEvents(run), EvmStorage(run), run.self)
  }

  datatype Stage = Import | Lean | Run

  datatype LeanResult =
    | Ran(line: string)
    | FailedClosed(stage: Stage, inconclusive: bool, generic: bool, excluded: bool)

  /** How importing the source ends. */
  datatype Importing = Imported | Refused(excluded: bool) | ImporterTimedOut

  /** How evaluating the call ends: with a result, or, on a timeout, a non-zero exit or
      missing output, without one. */
  datatype LeanAnswer = Printed(r: EvalResult) | NoLine

  datatype Call = Call(args: seq<LeanValue>, ctorArgs: seq<LeanValue>, calldata: Option<seq<byte>>,
                       value: nat, self: Option<int>, fuel: nat)

  /** The reject check: an error diagnostic with its codes, a timeout, or no rejection. */
  datatype SolcStatus = Rejects(codes: set<string>) | TimedOut | Accepts

  /** Every answer the adjudicator asks for. */
  datatype World = World(
    signature: Answer<Option<Signature>>, e: Env, ctorParams: seq<Ty>,
    sources: Answer<seq<AstWalk.Json>>, parseOnly: Option<seq<AstWalk.Json>>,
    banned: bool, unmirrorable: bool,
    solc: SolcStatus, forge: Answer<()>,
    measure: Harness -> Option<EvmRun>,
    otherHits: seq<CoverageGuard.Hit>, sourceFound: bool,
    importing: Importing, lean: Call -> LeanAnswer, leanUntyped: (seq<Arg>, seq<Arg>, nat) -> LeanAnswer,
    declared: Declared)

  /** The submission's errors: by selector, the selectors several share, and all of them. */
  datatype Declared = Declared(errors: Errors, collisions: set<seq<byte>>, definitions: seq<(seq<byte>, ErrorDef)>)

  const FUEL_CAP: nat := 100_000
  const MAX_SLOTS: nat := 64
  const MAX_NESTING: nat := 16

  // ----- step 0a: the claim's fields -----

  predicate LetterChar(c: char) { 'a' <= c <= 'z' || 'A' <= c <= 'Z' || c == '_' || c == '$' }

  predicate IdentifierWord(s: string) {
    s != "" && LetterChar(s[0]) && forall i :: 0 <= i < |s| ==> LetterChar(s[i]) || '0' <= s[i] <= '9'
  }

  /** The anchored regular expression, whose end anchor lets one final newline pass. */
  predicate IsIdentifier(s: string) {
    IdentifierWord(s) || (s != "" && s[|s| - 1] == '\n' && IdentifierWord(s[..|s| - 1]))
  }

  predicate FuelOk(fuel: Reading<int>) { fuel.Value? && 1 <= fuel.value <= FUEL_CAP }

  predicate SlotOk(slot: Reading<int>) { slot.Value? && 0 <= slot.value < TWO256 }

  /** The first k slots, stopping at the first that is refused or raises. */
  function ReadSlots(slots: seq<Reading<int>>, k: nat): (r: Reading<seq<int>>)
    requires k <= |slots|
    ensures r.Value? ==> |r.value| == k
  {
    if k == 0 then Value([])
    else
      match ReadSlots(slots, k - 1)
      case Overflow => Overflow
      case Unreadable => Unreadable
      case Value(read) =>
        if SlotOk(slots[k - 1]) then Value(read + [slots[k - 1].value])
        else if slots[k - 1].Overflow? then Overflow
        else Unreadable
  }

  predicate ValueOk(v: Option<int>) { v.Some? && 0 <= v.value < TWO256 }

  /** The structural check of one argument, before its type is known. */
  function ReadArg(a: RawArg, depth: nat): Reading<Arg>
    decreases a, 0
  {
    if depth > MAX_NESTING then Unreadable
    else
      match a
      case RLeaf(Value(leaf)) => Value(leaf)
      case RLeaf(Unreadable) => Unreadable
      case RLeaf(Overflow) => Overflow
      case RList(elems) =>
        if |elems| > MAX_ARRAY_ARG_LEN then Unreadable
        else
          match ReadArgs(elems, |elems|, depth + 1)
          case Overflow => Overflow
          case Unreadable => Unreadable
          case Value(args) => Value(AList(args))
  }

  /** The first k elements, stopping at the first that is refused or raises. */
  function ReadArgs(elems: seq<RawArg>, k: nat, depth: nat): (r: Reading<seq<Arg>>)
    requires k <= |elems|
    ensures r.Value? ==> |r.value| == k
    decreases elems, k
  {
    if k == 0 then Value([])
    else
      match ReadArgs(elems, k - 1, depth)
      case Overflow => Overflow
      case Unreadable => Unreadable
      case Value(read) =>
        match ReadArg(elems[k - 1], depth)
        case Overflow => Overflow
        case Unreadable => Unreadable
        case Value(arg) => Value(read + [arg])
  }

  function ReadList(args: Option<seq<RawArg>>): Reading<seq<Arg>> {
    match args
    case None => Unreadable
    case Some(elems) => ReadArgs(elems, |elems|, 0)
  }

  function ReadSlotList(slots: Option<seq<Reading<int>>>): Reading<seq<int>> {
    if slots.None? || |slots.value| > MAX_SLOTS then Unreadable else ReadSlots(slots.value, |slots.value|)
  }

  /** Step 0a: names, fuel, arguments, constructor arguments, slots, in this order. */
  function ReadFields(c: Submission): Reading<Request> {
    if !IsIdentifier(c.contract) || !IsIdentifier(c.function_) then Unreadable
    else if c.fuel.Overflow? then Overflow
    else if !FuelOk(c.fuel) then Unreadable
    else
      match ReadList(c.args)
      case Overflow => Overflow
      case Unreadable => Unreadable
      case Value(args) =>
        match ReadList(c.ctorArgs)
        case Overflow => Overflow
        case Unreadable => Unreadable
        case Value(ctorArgs) =>
          match ReadSlotList(c.slots)
          case Overflow => Overflow
          case Unreadable => Unreadable
          case Value(slots) =>
            Value(Request(args, ctorArgs, slots, c.value, c.overAccept, c.manifest, c.errorCode, c.declared))
  }

  // ----- step 0a': the arguments against the signature -----

  predicate ExternalOk(at: Register.Version) {
    var row := Register.ActiveRow(Register.PARAM_ROWS, Some(at));
    row.None? || row.value == Register.X_INTFNARG
  }

  function DomainReport(d: Domain, at: Register.Version): Option<Report> {
    match d
    case Legal => None
    case Malformed => Plain(RejectMalformed)
    case OutOfScope =>
      if Register.ActiveRow(Register.PARAM_ROWS, Some(at)).Some? then Plain(RejectedOos) else Plain(RejectMalformed)
  }

  function ArgumentStage(w: World, s: Request, at: Register.Version): Option<Report>
  {
    match w.signature
    case Infra => Plain(NeedsReview)
    case Failed => Plain(RejectMalformed)
    case Known(None) => Plain(RejectMalformed)
    case Known(Some(sig)) =>
      var args, ps := s.args, sig.params;
      if sig.overloads > 1 || |args| != |ps| then Plain(RejectMalformed)
      else if exists i :: 0 <= i < |ps| && !Register.Admitted(w.e, at, ps[i]) then Plain(RejectedOos)
      else
        var entry := DomainReport(ArgDomains(w.e, args, ps, ExternalOk(at), |ps|), at);
        if entry.Some? then entry
        else if |s.ctorArgs| != |w.ctorParams| then Plain(RejectMalformed)
        else DomainReport(ArgDomains(w.e, s.ctorArgs, w.ctorParams, ExternalOk(at), |w.ctorParams|), at)
  }

  // ----- step 0b: value, sources, cheatcodes -----

  function ScanStage(w: World, s: Request): Option<Report> {
    if !ValueOk(s.value) then Plain(RejectMalformed)
    else if w.sources.Infra? then Plain(NeedsReview)
    else if w.sources.Failed? && !(s.overAccept && w.parseOnly.Some?) then Plain(RejectMalformed)
    else if w.banned || w.unmirrorable then Plain(RejectedOos)
    else None
  }

  // ----- step 1: real behaviour -----

  function Encoded(e: Env, args: seq<Arg>, ts: seq<Ty>): Option<seq<byte>> {
    if |args| == |ts| then EncodeTuple(e, args, ts) else None
  }

  /** What the EVM is sent: calldata after the selector, and constructor arguments. */
  function Sent(w: World, s: Request, sig: Signature): Option<(seq<byte>, seq<byte>)>
  {
    match (Encoded(w.e, s.args, sig.params), Encoded(w.e, s.ctorArgs, w.ctorParams))
    case (Some(body), Some(ctor)) => Some((sig.selector + body, ctor))
    case _ => None
  }

  function Measurement(w: World, s: Request, sig: Signature): Option<Measured>
    requires ValueOk(s.value) && Sent(w, s, sig).Some?
  {
    match w.measure(TheHarness(w, s, sig))
    case None => None
    case Some(run) => Some(Dumped(run))
  }

  function TheHarness(w: World, s: Request, sig: Signature): Harness
    requires ValueOk(s.value) && Sent(w, s, sig).Some?
  {
    HarnessSource(Sent(w, s, sig).value.0, Sent(w, s, sig).value.1, s.value.value, s.slots)
  }

  predicate Unreturnable(w: World, ts: seq<Ty>, at: Register.Version) {
    exists i :: 0 <= i < |ts| && !Register.Returnable(w.e, at, ts[i])
  }

  /** Does solc reject the program for the declared cause? */
  function RejectStage(solc: SolcStatus, code: ErrorCode): Option<Report> {
    match solc
    case Accepts => Plain(Invalid)
    case TimedOut => Plain(NeedsReview)
    case Rejects(codes) =>
      match code
      case NoCode => None
      case Code(text) => if text in codes then None else Plain(Invalid)
      case OtherCode => Plain(Invalid)
      case Unhashable => Plain(Raised)
  }

  function BehaviourStage(w: World, s: Request, at: Register.Version, skip: bool): Option<Report>
    requires ValueOk(s.value)
  {
    if s.overAccept then
      RejectStage(w.solc, s.errorCode)
    else if skip then None
    else if !s.manifest && w.forge.Infra? then Plain(NeedsReview)
    else if !s.manifest && w.forge.Failed? then Plain(Invalid)
    else if !w.signature.Known? || w.signature.value.None? then Plain(RejectMalformed)
    else
      var sig := w.signature.value.value;
      if Unreturnable(w, sig.results, at) then Plain(RejectedOos)
      else if Sent(w, s, sig).None? then Plain(Raised)
      else if Measurement(w, s, sig).None? then Plain(NeedsReview)
      else None
  }

  // ----- step 2: the gate -----

  function GateHits(w: World, s: Request, at: Register.Version): seq<CoverageGuard.Hit> {
    var asts := if w.sources.Known? then w.sources.value else if w.parseOnly.Some? then w.parseOnly.value else [];
    CoverageGuard.RowHits(Register.X_ASM, at, CoverageGuard.IsAssembly, asts)
    + CoverageGuard.RowHits(Register.X_IMPORT, at, CoverageGuard.IsImport, asts) + w.otherHits
  }

  // ----- step 3: solidity-lean and the comparison -----

  predicate Untyped(args: seq<Arg>) { forall i :: 0 <= i < |args| ==> !args[i].AList? }

  const GENERIC: string := "checked executable"

  predicate Contains(s: string, sub: string) { exists i :: 0 <= i <= |s| && OccursAt(s, sub, i) }

  /** The result read off an evaluation, printed with the claim's slots. */
  function ReadLine(answer: LeanAnswer, slots: seq<int>): LeanResult {
    match answer
    case NoLine => FailedClosed(Lean, true, false, false)
    case Printed(r) =>
      var line := Strip(RenderFullDelta(slots, r));
      if Prefixed(line, REJECT) then
        FailedClosed(Run, false,
                     Contains("solidity_lean fail-closed: " + After(SplitSections(line).outcome, '|'), GENERIC), false)
      else Ran(line)
  }

  /** A failed import, if any; it comes before any argument is rendered. A timeout is not
      marked inconclusive here. */
  function ImportFailure(w: World): Option<LeanResult> {
    match w.importing
    case Imported => None
    case Refused(excluded) => Some(FailedClosed(Import, false, false, excluded))
    case ImporterTimedOut => Some(FailedClosed(Import, false, false, false))
  }

  /** The untyped run of an over-accept claim; None where rendering a list raises. */
  function RunUntyped(w: World, s: Request): Option<LeanResult>
  {
    if ImportFailure(w).Some? then ImportFailure(w)
    else if !Untyped(s.args) || !Untyped(s.ctorArgs) then None
    else Some(ReadLine(w.leanUntyped(s.args, s.ctorArgs, FUEL_CAP), s.slots))
  }

  function OverAcceptReport(w: World, s: Request): Report
  {
    match RunUntyped(w, s)
    case None => Report(Raised, None)
    case Some(Ran(_)) => Report(SoundnessGap, Some('S'))
    case Some(FailedClosed(_, _, _, _)) => Report(NoDivergence, None)
  }

  function Rendered(e: Env, args: seq<Arg>, ts: seq<Ty>): Option<seq<LeanValue>> {
    if |args| == |ts| then LeanArgs(e, args, ts, |ts|) else None
  }

  /** The call solidity-lean runs, at the cap and never at the submitter's fuel. */
  function LeanCall(w: World, s: Request, sig: Signature, measured: Option<Measured>): Option<Call>
    requires ValueOk(s.value)
  {
    match (Rendered(w.e, s.args, sig.params), Rendered(w.e, s.ctorArgs, w.ctorParams))
    case (Some(args), Some(ctor)) =>
      Some(Call(args, ctor, if Sent(w, s, sig).Some? then Some(Sent(w, s, sig).value.0) else None, s.value.value,
                if measured.Some? then Some(measured.value.self) else None, FUEL_CAP))
    case _ => None
  }

  /** The run of a typed call; None where rendering the arguments raises. */
  function RunTyped(w: World, s: Request, sig: Signature, measured: Option<Measured>): Option<LeanResult>
    requires ValueOk(s.value)
  {
    if ImportFailure(w).Some? then ImportFailure(w)
    else
      match LeanCall(w, s, sig, measured)
      case None => None
      case Some(call) => Some(ReadLine(w.lean(call), s.slots))
  }

  function CoverageReport(r: LeanResult): Report
    requires r.FailedClosed?
  {
    if r.inconclusive then Report(NeedsReview, None)
    else if r.stage == Run && r.generic then Report(NeedsReview, None)
    else if r.stage == Import && r.excluded then Report(RejectedOos, None)
    else Report(CoverageGap, Some('C'))
  }

  /** s.split(sep, 1)[0] */
  function FirstPart(s: string, sep: string, i: nat): string
    requires i <= |s|
    decreases |s| - i
  {
    if i == |s| || Prefixed(s[i..], sep) then s[..i] else FirstPart(s, sep, i + 1)
  }

  const MODEL_HEAD: string := "revert|custom:"
  const MODEL_DEPLOY_HEAD: string := "deployrevert|custom:"

  /** The custom-error name the model reports; empty if none. */
  function ModelErrorName(raw: string): string {
    var line := Strip(FirstPart(raw, EVT_SEP, 0));
    if Prefixed(line, MODEL_HEAD) then Before(line[|MODEL_HEAD|..], ':')
    else if Prefixed(line, MODEL_DEPLOY_HEAD) then Before(line[|MODEL_DEPLOY_HEAD|..], ':')
    else ""
  }

  function Definition(defs: seq<(seq<byte>, ErrorDef)>, sel: seq<byte>, name: string): Option<ErrorDef> {
    if defs == [] then None
    else if defs[0].0 == sel && defs[0].1.name == name then Some(defs[0].1)
    else Definition(defs[1..], sel, name)
  }

  function Selector(m: Measured): seq<byte> { if |m.data| >= 4 then m.data[..4] else [] }

  predicate Colliding(t: Declared, m: Measured) {
    !m.ok && Selector(m) != [] && Selector(m) in t.collisions
  }

  /** The error table used to read the reverts: a colliding selector goes to the error the
      model reports, when it is one of those sharing the selector. */
  function ErrorsFor(t: Declared, m: Measured, lean: string): Errors {
    var name := ModelErrorName(lean);
    if Colliding(t, m) && name != "" && Definition(t.definitions, Selector(m), name).Some? then
      t.errors.(defs := t.errors.defs[Selector(m) := Definition(t.definitions, Selector(m), name).value])
    else t.errors
  }

  predicate RevertOutOfScope(w: World, m: Measured, lean: string, at: Register.Version) {
    var er := ErrorsFor(w.declared, m, lean);
    && !m.ok
    && ((Colliding(w.declared, m) && Register.IsActive(Register.X_ERRSEL, Some(at)))
        || (Selector(m) in er.defs && Unreturnable(w, er.defs[Selector(m)].types, at)))
  }

  function ReturnLine(e: Env, types: seq<Ty>, data: seq<byte>): Option<string> {
    if types == [] then Some("success|")
    else
      match DecodeTuple(e, data, types, |types|)
      case None => None
      case Some(vs) => Some("success|" + Join(",", PrintAll(vs)))
  }

  /** evm_observable; None where decoding the return data raises. */
  function EvmLine(e: Env, er: Errors, types: seq<Ty>, m: Measured): Option<string> {
    match if m.ok then ReturnLine(e, types, m.data)
          else Some(RevertLine(m.deployReverted, DecodeRevert(e, er, m.data)))
    case None => None
    case Some(outcome) => Some(Strip(WithSections(outcome, m.events, m.storage)))
  }

  function Difference(e: Env, er: Errors, lean: string, evm: string): Option<Component> {
    Compare(Canonicalize(e, er, lean), Canonicalize(e, er, evm))
  }

  /** Step 3c, in its order: scope of the revert, decoding, the declared observable, the
      comparison. */
  function CompareReport(w: World, declared: Declaration, sig: Signature, m: Measured, lean: string,
                         at: Register.Version): Report
  {
    var er := ErrorsFor(w.declared, m, lean);
    if RevertOutOfScope(w, m, lean, at) then Report(RejectedOos, None)
    else
      match EvmLine(w.e, er, sig.results, m)
      case None => Report(NeedsReview, None)
      case Some(evm) =>
        if declared.IllTyped? then Report(Raised, None)
        else if Difference(w.e, er, lean, evm).None? then Report(NoDivergence, None)
        else Report(SoundnessGap, Some('S'))
  }

  function LeanStage(w: World, s: Request, at: Register.Version, skip: bool): Report
    requires ValueOk(s.value)
  {
    if !w.sourceFound then Report(RejectMalformed, None)
    else if s.overAccept then OverAcceptReport(w, s)
    else if !w.signature.Known? || w.signature.value.None? then Report(RejectMalformed, None)
    else
      var sig := w.signature.value.value;
      var measured := if skip || Sent(w, s, sig).None? then None else Measurement(w, s, sig);
      match RunTyped(w, s, sig, measured)
      case None => Report(Raised, None)
      case Some(FailedClosed(stage, inconclusive, generic, excluded)) =>
        CoverageReport(FailedClosed(stage, inconclusive, generic, excluded))
      case Some(Ran(line)) =>
        if measured.None? then Report(RejectMalformed, None)
        else CompareReport(w, s.declared, sig, measured.value, line, at)
  }

  /** What follows the reading of the fields, in the order of the source. */
  function Settle(w: World, s: Request, at: Register.Version, skip: bool): Report {
    if !s.overAccept && ArgumentStage(w, s, at).Some? then ArgumentStage(w, s, at).value
    else if ScanStage(w, s).Some? then ScanStage(w, s).value
    else if BehaviourStage(w, s, at, skip).Some? then BehaviourStage(w, s, at, skip).value
    else if GateHits(w, s, at) != [] then Report(RejectedOos, None)
    else LeanStage(w, s, at, skip)
  }

  /** The whole decision. */
  function Decide(w: World, c: Submission, at: Register.Version, skip: bool): Report {
    match ReadFields(c)
    case Overflow => Report(Raised, None)
    case Unreadable => Report(RejectMalformed, None)
    case Value(s) => Settle(w, s, at, skip)
  }
}
