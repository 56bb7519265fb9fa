/** Concrete claims on which the decision departs from what it is meant to be. */
module AdjudicateWitnesses {
  import opened Basics
  import opened AbiTypes
  import opened AbiSpec
  import opened Claim
  import opened Observable
  import opened Reverts
  import opened Printers
  import opened Adjudicate
  import opened AdjudicateProofs
  import opened EndToEnd
  import opened Honest
  import Register
  import CoverageGuard

  const NO_TABLE: Table := Table(map[], map[], map[])

  const NOTHING: EvmRun := EvmRun(true, false, [], [], [], [], map[], 0)

  const SELECTOR: seq<byte> := [1, 2, 3, 4]

  const NO_ERRORS: Declared := Declared(Errors(map[], (bs: seq<byte>) => ""), {}, [])

  /** One source and an entry f() without results, which does nothing on the EVM. */
  function AnyWorld(solc: SolcStatus, importing: Importing, answer: LeanAnswer): World {
    World(Known(Some(Signature([], [], 1, SELECTOR))), NO_TABLE, [], Known([]), None, false, false,
          solc, Known(()), (h: Harness) => Some(NOTHING), [], true,
          importing, (c: Call) => answer, (a: seq<Arg>, c: seq<Arg>, fuel: nat) => answer,
          NO_ERRORS)
  }

  function ClaimOf(args: seq<RawArg>, overAccept: bool): Submission {
    Submission("C", "f", Value(1), Some(0), Some(args), Some([]), Some([]), overAccept, true, NoCode,
               Undeclared, None, None)
  }

  function RequestOf(args: seq<Arg>, c: Submission): Request {
    Request(args, [], [], Some(0), c.overAccept, true, c.errorCode, c.declared)
  }

  lemma NothingReads()
    ensures ReadArgs([], 0, 0) == Value([]) && ReadSlots([], 0) == Value([])
  {
  }

  lemma Reads(c: Submission, args: seq<Arg>)
    requires c.args.Some?
    requires c == ClaimOf(c.args.value, c.overAccept).(errorCode := c.errorCode, declared := c.declared)
    requires ReadArgs(c.args.value, |c.args.value|, 0) == Value(args)
    ensures ReadFields(c) == Value(RequestOf(args, c))
  {
    hide ReadArgs, ReadSlots;
    NothingReads();
    assert IdentifierWord("C") && IdentifierWord("f");
  }

  lemma Scope(w: World, solc: SolcStatus, importing: Importing, answer: LeanAnswer, args: seq<Arg>, c: Submission,
              at: Register.Version)
    requires w == AnyWorld(solc, importing, answer)
    ensures InScope(w, RequestOf(args, c), at) && ScanStage(w, RequestOf(args, c)).None?
  {
    assert CoverageGuard.RowHits(Register.X_ASM, at, CoverageGuard.IsAssembly, []) == [];
    assert CoverageGuard.RowHits(Register.X_IMPORT, at, CoverageGuard.IsImport, []) == [];
  }

  // ----- infinite numbers -----

  const INFINITE: RawArg := RLeaf(Overflow)

  /** A fuel, a slot or a word of 1e999 raises before anything is asked. */
  lemma InfiniteNumbersRaise(w: World, at: Register.Version, skip: bool)
    ensures Decide(w, ClaimOf([], false).(fuel := Overflow), at, skip).verdict == Raised
    ensures Decide(w, ClaimOf([], false).(slots := Some([Overflow])), at, skip).verdict == Raised
    ensures Decide(w, ClaimOf([INFINITE], false), at, skip).verdict == Raised
  {
    hide Settle;
    assert IdentifierWord("C") && IdentifierWord("f");
    NothingReads();
    assert ReadSlots([Overflow], 0) == Value([]);
    assert ReadSlots([Overflow], 1) == Overflow;
    assert ReadArg(INFINITE, 0) == Overflow;
    assert ReadArgs([INFINITE], 0, 0) == Value([]);
    assert ReadArgs([INFINITE], 1, 0) == Overflow;
  }

  // ----- over-accept claims -----

  /** A declared error code that is a list raises once solc rejects. */
  lemma UnhashableCodeRaises(codes: set<string>, importing: Importing, answer: LeanAnswer, at: Register.Version)
    ensures Decide(AnyWorld(Rejects(codes), importing, answer), ClaimOf([], true).(errorCode := Unhashable), at, false)
              .verdict == Raised
  {
    var w, c := AnyWorld(Rejects(codes), importing, answer), ClaimOf([], true).(errorCode := Unhashable);
    NothingReads();
    Reads(c, []);
    Scope(w, Rejects(codes), importing, answer, [], c, at);
    hide ReadFields, GateHits, LeanStage, ScanStage;
  }

  const NESTED: RawArg := RList([RLeaf(Value(AInt(1)))])

  lemma NestedReads()
    ensures ReadArgs([NESTED], 1, 0) == Value([AList([AInt(1)])])
  {
    var inner := NESTED.elems;
    assert ReadArgs(inner, 0, 1) == Value([]);
    assert ReadArg(inner[0], 1) == Value(AInt(1));
    assert [] + [AInt(1)] == [AInt(1)] && [] + [AList([AInt(1)])] == [AList([AInt(1)])];
    assert ReadArgs(inner, 1, 1) == Value([AInt(1)]);
    assert ReadArg(NESTED, 0) == Value(AList([AInt(1)]));
    assert ReadArgs([NESTED], 0, 0) == Value([]);
  }

  /** An over-accept claim with a list argument: no divergence when the import fails,
      no verdict at all when it succeeds. */
  lemma ListArgument(codes: set<string>, answer: LeanAnswer, at: Register.Version)
    ensures var c := ClaimOf([NESTED], true);
      && Decide(AnyWorld(Rejects(codes), Refused(false), answer), c, at, false).verdict == NoDivergence
      && Decide(AnyWorld(Rejects(codes), Imported, answer), c, at, false).verdict == Raised
  {
    var c, args := ClaimOf([NESTED], true), [AList([AInt(1)])];
    var w, v := AnyWorld(Rejects(codes), Refused(false), answer), AnyWorld(Rejects(codes), Imported, answer);
    NestedReads();
    Reads(c, args);
    Scope(w, Rejects(codes), Refused(false), answer, args, c, at);
    Scope(v, Rejects(codes), Imported, answer, args, c, at);
    assert args[0].AList? && !Untyped(args);
    hide ReadFields, GateHits, Untyped, ScanStage, ReadLine;
  }

  /** An over-accept run that times out counts as agreement with solc. */
  lemma SilenceAgrees(codes: set<string>, at: Register.Version)
    ensures Decide(AnyWorld(Rejects(codes), Imported, NoLine), ClaimOf([], true), at, false).verdict == NoDivergence
  {
    var w, c := AnyWorld(Rejects(codes), Imported, NoLine), ClaimOf([], true);
    NothingReads();
    Reads(c, []);
    Scope(w, Rejects(codes), Imported, NoLine, [], c, at);
    hide ReadFields, GateHits, ScanStage;
  }

  // ----- typed calls -----

  lemma NothingEncodes(e: Env)
    ensures Encoded(e, [], []) == Some([]) && AbiTuple(e, [], []) == [] && HaveTypes(e, [], [])
  {
    assert EncodeParts(e, [], [], 0) == Some([]);
    assert Layout([]) == [];
    assert Parts(e, [], []) == [];
  }

  lemma NothingCalled(w: World, solc: SolcStatus, importing: Importing, answer: LeanAnswer, c: Submission,
                      at: Register.Version)
    requires w == AnyWorld(solc, importing, answer) && !c.overAccept
    ensures var s, sig := RequestOf([], c), TheSignature(w);
      && Reproduced(w, s, at, sig) && w.measure(TheHarness(w, s, sig)) == Some(NOTHING)
      && LeanCall(w, s, sig, Measurement(w, s, sig)).Some?
      && w.lean(LeanCall(w, s, sig, Measurement(w, s, sig)).value) == answer
  {
    NothingEncodes(w.e);
    hide Encoded, Dumped, ExternalOk, ReadLine;
    assert LegalCall(w, RequestOf([], c), at, TheSignature(w));
    assert Rendered(w.e, [], []).Some?;
  }

  /** An importer timeout on a legal, measured call is credited as a coverage gap. */
  lemma ImporterTimeoutCredited(solc: SolcStatus, answer: LeanAnswer, at: Register.Version)
    ensures Decide(AnyWorld(solc, ImporterTimedOut, answer), ClaimOf([], false), at, false)
         == Report(CoverageGap, Some('C'))
  {
    var w, c := AnyWorld(solc, ImporterTimedOut, answer), ClaimOf([], false);
    NothingReads();
    Reads(c, []);
    Scope(w, solc, ImporterTimedOut, answer, [], c, at);
    NothingCalled(w, solc, ImporterTimedOut, answer, c, at);
    TimeoutAnswer(w, RequestOf([], c), at, TheSignature(w));
    assert Legible(c) && Asked(c) == RequestOf([], c);
    hide *;
    CreditExactly(w, c, at);
  }

  lemma TimeoutAnswer(w: World, s: Request, at: Register.Version, sig: Signature)
    requires ValueOk(s.value) && Reproduced(w, s, at, sig) && w.importing == ImporterTimedOut
    ensures Answered(w, s, at, sig) && CreditedFailure(TheAnswer(w, s, at, sig))
  {
    hide Reproduced, Measurement;
  }

  const SAME: EvalResult := Evaluated(0, false, Finished(LeanState([], []), []))

  /** An ill-typed declared observable turns agreement into an exception. */
  lemma IllTypedDeclarationRaises(solc: SolcStatus, at: Register.Version)
    ensures var w, c := AnyWorld(solc, Imported, Printed(SAME)), ClaimOf([], false);
      && Decide(w, c, at, false).verdict == NoDivergence
      && Decide(w, c.(declared := IllTyped), at, false).verdict == Raised
  {
    Agreeing(solc, at, ClaimOf([], false));
    Agreeing(solc, at, ClaimOf([], false).(declared := IllTyped));
  }

  /** Both engines return nothing and change nothing. */
  lemma NothingDeserved(e: Env, declared: Declaration, at: Register.Version)
    ensures Deserved(e, NO_ERRORS, declared, LeanOutcome(SAME), Returned([], [], map[]), at).verdict
         == if declared.IllTyped? then Raised else NoDivergence
    ensures SAME.Evaluated? && PlainTable(SAME) && WellNamed(LeanOutcome(SAME)) && DeclaredNames(NO_ERRORS)
  {
  }

  lemma Agreeing(solc: SolcStatus, at: Register.Version, c: Submission)
    requires c == ClaimOf([], false).(declared := c.declared)
    ensures Decide(AnyWorld(solc, Imported, Printed(SAME)), c, at, false).verdict
         == if c.declared.IllTyped? then Raised else NoDivergence
  {
    var w, d := AnyWorld(solc, Imported, Printed(SAME)), Returned([], [], map[]);
    NothingReads();
    Reads(c, []);
    Scope(w, solc, Imported, Printed(SAME), [], c, at);
    NothingCalled(w, solc, Imported, Printed(SAME), c, at);
    NothingEncodes(w.e);
    assert Did(w.e, [], NOTHING, d) && Typed(w.e, [], d);
    assert Legible(c) && Asked(c) == RequestOf([], c) && TheSignature(w).results == [];
    assert w.declared == NO_ERRORS;
    hide *;
    NothingDeserved(w.e, c.declared, at);
    HonestVerdict(w, c, at, SAME, NOTHING, d);
  }
}
