/** End to end: what each engine did, the lines printed for it, and the verdict. */
module EndToEnd {
  import opened Basics
  import opened Text
  import opened PyText
  import opened AbiTypes
  import opened NormalForm
  import opened AbiSpec
  import opened Decoder
  import opened RoundTrip
  import opened Storage
  import opened Observable
  import opened Reverts
  import opened Printers
  import opened Adjudicate

  /** What the EVM did: returned values, or reverted with some bytes. */
  datatype Deed =
    | Returned(vals: seq<Val>, events: seq<Event>, storage: map<nat, nat>)
    | Threw(deploy: bool, data: seq<byte>)

  function OutcomeOf(e: Env, er: Errors, d: Deed): Outcome {
    match d
    case Returned(vals, events, storage) => Success(vals, events, storage)
    case Threw(deploy, data) => Revert(deploy, DecodeRevert(e, er, data))
  }

  predicate Typed(e: Env, types: seq<Ty>, d: Deed) {
    d.Returned? ==> HaveTypes(e, d.vals, types) && |AbiTuple(e, d.vals, types)| < TWO256
  }

  /** The measurement of a deed: ABI-encoded return data, and its logs and storage dump. */
  predicate Measures(e: Env, types: seq<Ty>, m: Measured, d: Deed, segs: seq<Segment>) {
    match d
    case Returned(vals, events, storage) =>
      && HaveTypes(e, vals, types) && m.ok && m.data == AbiTuple(e, vals, types)
      && m.events == Join("~", EventTexts(events)) && Dumps(segs, storage) && m.storage == DumpText(segs)
    case Threw(deploy, data) =>
      !m.ok && m.deployReverted == deploy && m.data == data && m.events == "" && m.storage == "" && segs == []
  }

  lemma ReturnLineIs(e: Env, types: seq<Ty>, vals: seq<Val>)
    requires HaveTypes(e, vals, types) && |AbiTuple(e, vals, types)| < TWO256
    ensures ReturnLine(e, types, AbiTuple(e, vals, types)) == Some("success|" + Join(",", PrintAll(vals)))
  {
    if types == [] {
      assert vals == [];
      assert "success|" + "" == "success|";
    } else {
      TupleOfAbi(e, vals, types, []);
      assert AbiTuple(e, vals, types) + [] == AbiTuple(e, vals, types);
    }
  }

  /** The EVM side prints the line of what the EVM did. */
  lemma EvmLineIs(e: Env, er: Errors, types: seq<Ty>, m: Measured, d: Deed, segs: seq<Segment>)
    requires Typed(e, types, d) && Measures(e, types, m, d, segs)
    ensures DumpOf(OutcomeOf(e, er, d), segs)
    ensures EvmLine(e, er, types, m) == Some(Line(OutcomeOf(e, er, d), segs))
  {
    hide DecodeRevert, AbiTuple, ReturnLine, HaveTypes, RevertText, DumpText, EventTexts;
    var o := OutcomeOf(e, er, d);
    if d.Returned? {
      ReturnLineIs(e, types, d.vals);
    } else {
      assert DumpText([]) == "" by { EmptyDump(); }
    }
    LineParses(o, segs);
    assert Line(o, segs) == WithSections(OutcomeText(o), EventsSection(o), DumpText(segs));
  }

  lemma EmptyDump()
    ensures DumpText([]) == ""
  {
  }

  /** A raw revert stands for what its bytes decode to. */
  function Canonical(e: Env, er: Errors, o: Outcome): Outcome {
    if o.Revert? && o.data.Raw? then o.(data := DecodeRevert(e, er, o.data.bs)) else o
  }

  lemma DecodedNames(e: Env, er: Errors, bs: seq<byte>, deploy: bool)
    requires NamesVisible(er)
    ensures WellNamed(Revert(deploy, DecodeRevert(e, er, bs)))
  {
    hide DecodeTuple;
  }

  lemma NotRaw(o: Outcome)
    requires o.Success? || !o.data.Raw?
    ensures !Prefixed(OutcomeText(o), RAW_REVERT) && !Prefixed(OutcomeText(o), RAW_DEPLOY)
  {
    if o.Success? {
      assert OutcomeText(o)[0] == 's';
      assert RAW_REVERT[0] == 'r' && RAW_DEPLOY[0] == 'd';
    } else {
      RawPrefix(o.deploy, o.data, "");
      assert RevertLine(o.deploy, o.data) + "" == RevertLine(o.deploy, o.data);
    }
  }

  /** Canonicalising a printed line prints the canonical outcome. */
  lemma CanonicalLine(e: Env, er: Errors, o: Outcome, segs: seq<Segment>)
    requires DumpOf(o, segs)
    ensures DumpOf(Canonical(e, er, o), segs)
    ensures Canonicalize(e, er, Line(o, segs)) == Line(Canonical(e, er, o), segs)
  {
    hide DecodeRevert, RevertText, FromHex, SplitSections;
    SectionsOf(o, segs);
    if o.Revert? && o.data.Raw? {
      EmptyDump();
      RawAndDecodedAgree(e, er, o.deploy, o.data.bs, "", "");
      RawLine(o, o.data);
      RawLine(o, DecodeRevert(e, er, o.data.bs));
    } else {
      NotRaw(o);
    }
  }

  lemma RawLine(o: Outcome, rd: RevertData)
    requires o.Revert?
    ensures Line(o.(data := rd), []) == WithSections(RevertLine(o.deploy, rd), "", "")
  {
    EmptyDump();
  }

  /** End to end, whatever errors are declared: comparing what solidity-lean printed for an
      outcome with what was measured of a deed finds exactly the difference between the
      two, raw reverts read by the same decoder. */
  lemma DifferenceExact(e: Env, er: Errors, types: seq<Ty>, a: Outcome, g: seq<Segment>,
                        m: Measured, d: Deed, h: seq<Segment>)
    requires WellNamed(a) && DumpOf(a, g) && NamesVisible(er)
    requires Typed(e, types, d) && Measures(e, types, m, d, h)
    ensures EvmLine(e, er, types, m).Some?
    ensures Difference(e, er, Strip(Line(a, g)), EvmLine(e, er, types, m).value)
         == Expected(Canonical(e, er, a), OutcomeOf(e, er, d))
  {
    hide DecodeRevert, Canonicalize, Compare, Line, Expected, EvmLine, DumpOf, WellNamed, Measures;
    var b := OutcomeOf(e, er, d);
    EvmLineIs(e, er, types, m, d, h);
    LineParses(a, g);
    CanonicalLine(e, er, a, g);
    CanonicalLine(e, er, b, h);
    CanonicalDeed(e, er, d);
    CanonicalNamed(e, er, a);
    if d.Threw? { DecodedNames(e, er, d.data, d.deploy); } else { SuccessNamed(b); }
    LineParses(Canonical(e, er, a), g);
    LineParses(b, h);
    CompareExact(Canonical(e, er, a), g, b, h);
  }

  lemma SuccessNamed(o: Outcome)
    requires o.Success?
    ensures WellNamed(o)
  {
  }

  lemma CanonicalNamed(e: Env, er: Errors, a: Outcome)
    requires WellNamed(a) && NamesVisible(er)
    ensures WellNamed(Canonical(e, er, a))
  {
    hide DecodeRevert;
    if a.Revert? && a.data.Raw? { DecodedNames(e, er, a.data.bs, a.deploy); }
  }

  /** What the decoder leaves raw stays raw. */
  lemma CanonicalDeed(e: Env, er: Errors, d: Deed)
    ensures Canonical(e, er, OutcomeOf(e, er, d)) == OutcomeOf(e, er, d)
  {
    hide DecodeTuple;
  }

  /** A run did a deed: its data is the encoding of the values returned, or the bytes of a
      revert, and its printed storage covers the slots that are not zero. */
  predicate Did(e: Env, types: seq<Ty>, run: EvmRun, d: Deed) {
    match d
    case Returned(vals, events, storage) =>
      && run.ok && HaveTypes(e, vals, types) && run.data == AbiTuple(e, vals, types)
      && run.logs == events && run.after == storage && Covers(run)
    case Threw(deploy, data) => !run.ok && run.deployReverted == deploy && run.data == data
  }

  /** The printed sections of a run measure what it did. */
  lemma RunMeasures(e: Env, types: seq<Ty>, run: EvmRun, d: Deed)
    requires Did(e, types, run, d)
    ensures Measures(e, types, Dumped(run), d, EvmSegments(run))
  {
    hide AbiTuple, HaveTypes, EvtUpTo, SeededUpTo, DumpText, EventTexts, Join;
    if run.ok { HarnessPrints([], [], 0, [], [], run); }
  }
}
