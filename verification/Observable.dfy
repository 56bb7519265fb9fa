/** Observable lines, their sections, and the component-wise comparator. */
module Observable {
  import opened Basics
  import opened Text
  import opened PyText
  import opened NormalForm
  import opened Storage

  const EVT_SEP: string := "##EVT##"
  const STO_SEP: string := "##STO##"

  datatype Sections = Sections(outcome: string, events: Option<string>, storage: Option<string>)

  function SplitSections(raw: string): Sections {
    var (text, storage) := RSplit(raw, STO_SEP);
    var (outcome, events) := RSplit(text, EVT_SEP);
    Sections(outcome, events, storage)
  }

  datatype OutcomeClass = KSuccess | KReject | KDeployRevert | KPanic | KRevert | KOther(head: string)

  /** The outcome class of an outcome line. */
  function Kind(outcomeLine: string): OutcomeClass {
    KindFrom(Before(outcomeLine, '|'), After(outcomeLine, '|'))
  }

  function KindFrom(head: string, body: string): OutcomeClass {
    if head == "success" then KSuccess
    else if head == "solidity-lean-reject" then KReject
    else if head == "deployrevert" then KDeployRevert
    else if head == "revert" then
      if Prefixed(body, "panic:") then KPanic else KRevert
    else KOther(head)
  }

  /** The differing component of an unequal comparison. */
  datatype Component =
    | DeployRevertVsSuccess | DeployVsCallRevert | RevertVsSuccess
    | WrongValue | WrongPanic | WrongRevert | WrongDeployRevert | WrongEvents | WrongState

  function ClassifyOutcomes(k1: OutcomeClass, k2: OutcomeClass): Component {
    if k1 != k2 then
      if k1 == KDeployRevert || k2 == KDeployRevert then
        if k1 == KSuccess || k2 == KSuccess then DeployRevertVsSuccess else DeployVsCallRevert
      else if (k1 == KSuccess || k2 == KSuccess)
           && (k1 == KRevert || k1 == KPanic || k2 == KRevert || k2 == KPanic) then RevertVsSuccess
      else if k1 == KPanic || k2 == KPanic then WrongPanic
      else WrongRevert
    else if k1 == KSuccess then WrongValue
    else if k1 == KPanic then WrongPanic
    else if k1 == KDeployRevert then WrongDeployRevert
    else WrongRevert
  }

  /** None when equal, else the differing component. */
  function Compare(lean: string, evm: string): Option<Component> {
    CompareSections(SplitSections(lean), SplitSections(evm))
  }

  function CompareSections(l: Sections, r: Sections): Option<Component> {
    if Strip(l.outcome) != Strip(r.outcome) then
      Some(ClassifyOutcomes(Kind(l.outcome), Kind(r.outcome)))
    else if Kind(l.outcome) == KSuccess then
      if l.events.Some? && r.events.Some? && Strip(l.events.value) != Strip(r.events.value) then Some(WrongEvents)
      else if l.storage.Some? && r.storage.Some? && StorageMap(l.storage.value) != StorageMap(r.storage.value) then
        Some(WrongState)
      else None
    else None
  }

  // ----- abstract outcomes and the lines both engines print for them -----

  datatype RevertData =
    | Empty
    | Panic(code: nat)
    | Error(msg: string)
    | Custom(name: string, vals: seq<Val>)
    | Raw(bs: seq<byte>)

  function RevertText(rd: RevertData): string {
    match rd
    case Empty => "empty"
    case Panic(c) => "panic:" + Decimal(c)
    case Error(m) => "error:" + m
    case Custom(n, vs) => "custom:" + n + ":" + Join(",", PrintAll(vs))
    case Raw(bs) => "raw:0x" + Hex(bs)
  }

  datatype Event = Event(topics: seq<nat>, data: seq<byte>)

  function Decimals(ns: seq<nat>): (ss: seq<string>)
    ensures |ss| == |ns| && forall i :: 0 <= i < |ns| ==> ss[i] == Decimal(ns[i])
  {
    if ns == [] then [] else [Decimal(ns[0])] + Decimals(ns[1..])
  }

  function EventText(v: Event): string {
    "t=[" + Join(",", Decimals(v.topics)) + "];d=0x" + Hex(v.data)
  }

  function EventTexts(vs: seq<Event>): (ss: seq<string>)
    ensures |ss| == |vs| && forall i :: 0 <= i < |vs| ==> ss[i] == EventText(vs[i])
  {
    if vs == [] then [] else [EventText(vs[0])] + EventTexts(vs[1..])
  }

  /** What a measured or modelled call observably did. */
  datatype Outcome =
    | Success(vals: seq<Val>, events: seq<Event>, storage: map<nat, nat>)
    | Revert(deploy: bool, data: RevertData)

  function OutcomeText(o: Outcome): string {
    match o
    case Success(vs, _, _) => "success|" + Join(",", PrintAll(vs))
    case Revert(deploy, rd) => (if deploy then "deployrevert|" else "revert|") + RevertText(rd)
  }

  function EventsSection(o: Outcome): string {
    if o.Success? then Join("~", EventTexts(o.events)) else ""
  }

  /** The printed line; segs is the order in which the engine dumps its storage. */
  function Line(o: Outcome, segs: seq<Segment>): string {
    OutcomeText(o) + EVT_SEP + EventsSection(o) + STO_SEP + DumpText(segs)
  }

  predicate DumpOf(o: Outcome, segs: seq<Segment>) {
    if o.Success? then Dumps(segs, o.storage) else segs == []
  }

  /** Custom-error names are identifiers. */
  predicate WellNamed(o: Outcome) {
    o.Revert? && o.data.Custom? ==> Visible(o.data.name) && Without(o.data.name, ':') && Without(o.data.name, '|')
  }

  /** Error(string) reasons are compared up to trailing white space. */
  function Trimmed(rd: RevertData): RevertData {
    if rd.Error? then Error(RStrip(rd.msg)) else rd
  }

  /** The verdict the comparator should reach, from the outcomes alone. */
  ghost function Expected(a: Outcome, b: Outcome): Option<Component> {
    match (a, b)
    case (Success(v, x, s), Success(w, y, t)) =>
      if v != w then Some(WrongValue)
      else if x != y then Some(WrongEvents)
      else if exists k: nat :: Load(s, k) != Load(t, k) then Some(WrongState)
      else None
    case (Success(_, _, _), Revert(deploy, _)) =>
      Some(if deploy then DeployRevertVsSuccess else RevertVsSuccess)
    case (Revert(deploy, _), Success(_, _, _)) =>
      Some(if deploy then DeployRevertVsSuccess else RevertVsSuccess)
    case (Revert(d1, x), Revert(d2, y)) =>
      if d1 != d2 then Some(DeployVsCallRevert)
      else if Trimmed(x) == Trimmed(y) then None
      else if d1 then Some(WrongDeployRevert)
      else if x.Panic? || y.Panic? then Some(WrongPanic)
      else Some(WrongRevert)
  }

  // ----- visible text -----

  lemma VisibleConcat(a: string, b: string)
    requires Visible(a) && Visible(b)
    ensures Visible(a + b)
  {
  }

  lemma {:induction false} VisibleJoin(sep: string, ss: seq<string>)
    requires Visible(sep) && forall i :: 0 <= i < |ss| ==> Visible(ss[i])
    ensures Visible(Join(sep, ss))
  {
    if |ss| > 1 {
      VisibleJoin(sep, ss[1..]);
      VisibleConcat(ss[0], sep);
      VisibleConcat(ss[0] + sep, Join(sep, ss[1..]));
    }
  }

  lemma {:induction false} PrintVisible(v: Val)
    ensures Visible(Print(v))
    decreases v
  {
    match v {
      case VList(xs) => PrintAllVisible(xs);
      case VTuple(xs) => PrintAllVisible(xs);
      case VFn(a, s) =>
        VisibleConcat("f:" + Decimal(a), ":");
        VisibleConcat("f:" + Decimal(a) + ":", Decimal(s));
      case _ =>
    }
  }

  lemma {:induction false} PrintAllVisible(xs: seq<Val>)
    ensures Visible(Join(",", PrintAll(xs)))
    decreases xs
  {
    forall i | 0 <= i < |xs|
      ensures Visible(PrintAll(xs)[i])
    {
      PrintVisible(xs[i]);
    }
    VisibleJoin(",", PrintAll(xs));
  }

  lemma EventVisible(v: Event)
    ensures Visible(EventText(v))
  {
    forall i | 0 <= i < |v.topics|
      ensures Visible(Decimals(v.topics)[i])
    {
      CleanHex(Decimal(v.topics[i]));
    }
    VisibleJoin(",", Decimals(v.topics));
    VisibleConcat("t=[", Join(",", Decimals(v.topics)));
    CleanHex(Hex(v.data));
    VisibleConcat("];d=0x", Hex(v.data));
    VisibleConcat("t=[" + Join(",", Decimals(v.topics)), "];d=0x" + Hex(v.data));
    assert EventText(v) == "t=[" + Join(",", Decimals(v.topics)) + ("];d=0x" + Hex(v.data));
  }

  lemma EventsVisible(vs: seq<Event>)
    ensures Visible(Join("~", EventTexts(vs)))
  {
    forall i | 0 <= i < |vs|
      ensures Visible(EventTexts(vs)[i])
    {
      EventVisible(vs[i]);
    }
    VisibleJoin("~", EventTexts(vs));
  }

  // ----- unique readability of events and revert data -----

  lemma {:induction false} DecimalsCancel(ms: seq<nat>, ns: seq<nat>, r1: string, r2: string)
    requires Closed(r1) && r1 != "" && Closed(r2) && r2 != ""
    requires Join(",", Decimals(ms)) + r1 == Join(",", Decimals(ns)) + r2
    ensures ms == ns && r1 == r2
  {
    NumberListHead(ms, r1);
    NumberListHead(ns, r2);
    if ms != [] {
      var s1, s2 := NumberRest(ms, r1), NumberRest(ns, r2);
      DecimalCancel(ms[0], ns[0], s1, s2);
      assert |ms| > 1 <==> |ns| > 1;
      if |ms| > 1 {
        PeelOne(",", Join(",", Decimals(ms[1..])) + r1, Join(",", Decimals(ns[1..])) + r2);
        DecimalsCancel(ms[1..], ns[1..], r1, r2);
        assert ms == [ms[0]] + ms[1..] && ns == [ns[0]] + ns[1..];
      }
    } else {
      assert "" + r1 == r1 && "" + r2 == r2;
    }
  }

  function NumberRest(ns: seq<nat>, r: string): (s: string)
    requires ns != [] && Closed(r) && r != ""
    ensures s != "" && Ends(s) && (s[0] == ',' <==> |ns| > 1)
    ensures Join(",", Decimals(ns)) + r == Decimal(ns[0]) + s
  {
    if |ns| == 1 then r
    else
      assert Decimals(ns)[1..] == Decimals(ns[1..]);
      Assoc(Decimal(ns[0]) + ",", Join(",", Decimals(ns[1..])), r);
      Assoc(Decimal(ns[0]), ",", Join(",", Decimals(ns[1..])) + r);
      "," + (Join(",", Decimals(ns[1..])) + r)
  }

  lemma NumberListHead(ns: seq<nat>, r: string)
    requires Closed(r) && r != ""
    ensures Join(",", Decimals(ns)) + r != ""
    ensures DigitChar((Join(",", Decimals(ns)) + r)[0]) <==> ns != []
  {
    if ns != [] {
      assert DigitChar(Decimal(ns[0])[0]);
      assert Join(",", Decimals(ns)) + r == Decimal(ns[0]) + NumberRest(ns, r);
    } else {
      assert "" + r == r;
    }
  }

  /** What may follow an event: nothing or the next one. */
  predicate EventEnd(r: string) { r == "" || r[0] == '~' }

  lemma EventCancel(v: Event, w: Event, r1: string, r2: string)
    requires EventEnd(r1) && EventEnd(r2) && EventText(v) + r1 == EventText(w) + r2
    ensures v == w && r1 == r2
  {
    var t1, t2 := Join(",", Decimals(v.topics)), Join(",", Decimals(w.topics));
    var m1, m2 := Hex(v.data) + r1, Hex(w.data) + r2;
    EventShape(v, r1);
    EventShape(w, r2);
    Peel2("t=[", t1, "];d=0x" + m1, t2, "];d=0x" + m2);
    DecimalsCancel(v.topics, w.topics, "];d=0x" + m1, "];d=0x" + m2);
    PeelOne("];d=0x", m1, m2);
    HexCancel(v.data, w.data, r1, r2);
  }

  lemma EventShape(v: Event, r: string)
    ensures EventText(v) + r == "t=[" + Join(",", Decimals(v.topics)) + ("];d=0x" + (Hex(v.data) + r))
  {
  }

  lemma {:induction false} EventsCancel(vs: seq<Event>, ws: seq<Event>)
    requires Join("~", EventTexts(vs)) == Join("~", EventTexts(ws))
    ensures vs == ws
  {
    EventsHead(vs);
    EventsHead(ws);
    if vs != [] {
      var s1, s2 := EventsRest(vs), EventsRest(ws);
      EventCancel(vs[0], ws[0], s1, s2);
      assert |vs| > 1 <==> |ws| > 1;
      if |vs| > 1 {
        PeelOne("~", Join("~", EventTexts(vs[1..])), Join("~", EventTexts(ws[1..])));
        EventsCancel(vs[1..], ws[1..]);
        assert vs == [vs[0]] + vs[1..] && ws == [ws[0]] + ws[1..];
      }
    }
  }

  lemma EventsHead(vs: seq<Event>)
    ensures Join("~", EventTexts(vs)) == "" <==> vs == []
  {
    if vs != [] {
      assert Join("~", EventTexts(vs)) == EventText(vs[0]) + EventsRest(vs);
    }
  }

  function EventsRest(vs: seq<Event>): (s: string)
    requires vs != []
    ensures EventEnd(s) && (s == "" <==> |vs| == 1)
    ensures Join("~", EventTexts(vs)) == EventText(vs[0]) + s
  {
    if |vs| == 1 then ""
    else
      assert EventTexts(vs)[1..] == EventTexts(vs[1..]);
      Assoc(EventText(vs[0]), "~", Join("~", EventTexts(vs[1..])));
      "~" + Join("~", EventTexts(vs[1..]))
  }

  lemma FirstDiffers(a: string, b: string, i: nat)
    requires i < |a| && i < |b| && a[i] != b[i]
    ensures a != b
  {
  }

  /** Custom-error texts are read back as name and values. */
  lemma CustomCancel(m: string, vs: seq<Val>, n: string, ws: seq<Val>)
    requires Without(m, ':') && Without(n, ':')
    requires RevertText(Custom(m, vs)) == RevertText(Custom(n, ws))
    ensures m == n && vs == ws
  {
    var t1, t2 := Join(",", PrintAll(vs)), Join(",", PrintAll(ws));
    Peel("custom:", m, ":", t1, n, t2);
    assert m + (":" + t1) == m + [':'] + t1 && n + (":" + t2) == n + [':'] + t2;
    CutAt(m, ':', t1);
    CutAt(n, ':', t2);
    PrintAllInjective(vs, ws);
  }

  predicate NamedData(rd: RevertData) { rd.Custom? ==> Without(rd.name, ':') }

  lemma RevertHead(rd: RevertData)
    ensures RevertText(rd) != ""
    ensures RevertText(rd)[0] == match rd {
              case Empty => 'e' case Error(_) => 'e' case Panic(_) => 'p' case Custom(_, _) => 'c' case Raw(_) => 'r'
            }
    ensures rd.Error? ==> Prefixed(RevertText(rd), "error:")
    ensures Prefixed(RevertText(rd), "panic:") <==> rd.Panic?
  {
    assert Prefixed(RevertText(rd), "panic:") ==> RevertText(rd)[0] == "panic:"[0];
  }

  /** Different revert data never print alike. */
  lemma RevertTextInjective(x: RevertData, y: RevertData)
    requires NamedData(x) && NamedData(y)
    ensures RevertText(x) == RevertText(y) <==> x == y
  {
    RevertHead(x);
    RevertHead(y);
    if x.Empty? && y.Error? { FirstDiffers("empty", "error:" + y.msg, 1); }
    if x.Error? && y.Empty? { FirstDiffers("error:" + x.msg, "empty", 1); }
    if RevertText(x) == RevertText(y) {
      match x {
        case Empty =>
        case Panic(c) =>
          PeelOne("panic:", Decimal(c), Decimal(y.code));
          DecimalCancelEnd(c, y.code);
        case Error(m) =>
          PeelOne("error:", m, y.msg);
        case Custom(n, vs) => CustomCancel(n, vs, y.name, y.vals);
        case Raw(bs) =>
          PeelOne("raw:0x", Hex(bs), Hex(y.bs));
          HexInjective(bs, y.bs);
      }
    }
  }

  lemma DecimalCancelEnd(m: nat, n: nat)
    requires Decimal(m) == Decimal(n)
    ensures m == n
  {
    FromDecimalOfDecimal(m);
    FromDecimalOfDecimal(n);
  }

  lemma RevertVisible(rd: RevertData)
    requires !rd.Error? && (rd.Custom? ==> Visible(rd.name))
    ensures Visible(RevertText(rd))
  {
    match rd {
      case Custom(n, vs) =>
        PrintAllVisible(vs);
        VisibleConcat("custom:", n);
        VisibleConcat("custom:" + n, ":");
        VisibleConcat("custom:" + n + ":", Join(",", PrintAll(vs)));
      case _ =>
    }
  }

  lemma VisibleRStrip(s: string)
    requires Visible(s)
    ensures RStrip(s) == s
  {
  }

  /** Stripping a revert outcome trims the reason text and nothing else. */
  lemma StripOutcome(o: Outcome)
    requires WellNamed(o)
    ensures Strip(OutcomeText(o)) == OutcomeText(if o.Success? then o else o.(data := Trimmed(o.data)))
  {
    match o {
      case Success(vs, _, _) =>
        PrintAllVisible(vs);
        VisibleConcat("success|", Join(",", PrintAll(vs)));
        StripVisible(OutcomeText(o));
      case Revert(deploy, rd) =>
        var head := if deploy then "deployrevert|" else "revert|";
        StripRight(OutcomeText(o));
        RStripAppend(head, RevertText(rd));
        if rd.Error? {
          RStripAppend("error:", rd.msg);
        } else {
          RevertVisible(rd);
          VisibleRStrip(RevertText(rd));
        }
    }
  }

  lemma OutcomeTextInjective(a: Outcome, b: Outcome)
    requires WellNamed(a) && WellNamed(b)
    ensures OutcomeText(a) == OutcomeText(b) <==> (
      (a.Success? && b.Success? && a.vals == b.vals) || (a.Revert? && a == b))
  {
    OutcomeKind(a);
    OutcomeKind(b);
    if OutcomeText(a) == OutcomeText(b) {
      if a.Success? {
        PeelOne("success|", Join(",", PrintAll(a.vals)), Join(",", PrintAll(b.vals)));
        PrintAllInjective(a.vals, b.vals);
      } else {
        PeelOne(if a.deploy then "deployrevert|" else "revert|", RevertText(a.data), RevertText(b.data));
        RevertTextInjective(a.data, b.data);
      }
    }
  }

  function ClassOf(o: Outcome): OutcomeClass {
    if o.Success? then KSuccess else if o.deploy then KDeployRevert
    else if o.data.Panic? then KPanic else KRevert
  }

  /** An outcome line is its head, a bar and its body. */
  function Head(o: Outcome): string {
    if o.Success? then "success" else if o.deploy then "deployrevert" else "revert"
  }

  function Body(o: Outcome): string {
    if o.Success? then Join(",", PrintAll(o.vals)) else RevertText(o.data)
  }

  lemma OutcomeCut(o: Outcome)
    ensures OutcomeText(o) == Head(o) + ['|'] + Body(o)
    ensures Before(OutcomeText(o), '|') == Head(o) && After(OutcomeText(o), '|') == Body(o)
  {
    hide RevertText, PrintAll, Join;
    CutAt(Head(o), '|', Body(o));
    if o.Revert? && !o.deploy {
      assert "revert|" + RevertText(o.data) == "revert" + ['|'] + RevertText(o.data);
    } else if o.Revert? {
      assert "deployrevert|" + RevertText(o.data) == "deployrevert" + ['|'] + RevertText(o.data);
    } else {
      assert "success|" + Body(o) == "success" + ['|'] + Body(o);
    }
  }

  lemma OutcomeKind(o: Outcome)
    ensures Before(OutcomeText(o), '|') == Head(o) && Kind(OutcomeText(o)) == ClassOf(o)
  {
    OutcomeCut(o);
    if o.Revert? {
      RevertHead(o.data);
    }
    hide Before, After, OutcomeText, RevertText, Join, PrintAll;
  }

  lemma VisibleHashFree(s: string)
    requires Visible(s)
    ensures HashFree(s)
  {
  }

  /** The structural markers are recovered whatever the outcome text contains. */
  lemma LineSections(outcome: string, events: string, storage: string)
    requires HashFree(events) && HashFree(storage)
    ensures SplitSections(outcome + EVT_SEP + events + STO_SEP + storage)
         == Sections(outcome, Some(events), Some(storage))
  {
    RSplitMarker(outcome + EVT_SEP + events, STO_SEP, storage);
    RSplitMarker(outcome, EVT_SEP, events);
  }

  lemma SectionsOf(o: Outcome, segs: seq<Segment>)
    requires DumpOf(o, segs)
    ensures SplitSections(Line(o, segs)) == Sections(OutcomeText(o), Some(EventsSection(o)), Some(DumpText(segs)))
    ensures Visible(EventsSection(o))
  {
    DumpStrips(segs);
    if o.Success? {
      EventsVisible(o.events);
    }
    VisibleHashFree(EventsSection(o));
    LineSections(OutcomeText(o), EventsSection(o), DumpText(segs));
  }

  /** Reading a printed line back does not change it. */
  lemma LineParses(o: Outcome, segs: seq<Segment>)
    requires DumpOf(o, segs)
    ensures Strip(Line(o, segs)) == Line(o, segs)
  {
    var p := OutcomeText(o) + EVT_SEP + EventsSection(o) + STO_SEP;
    DumpVisible(segs);
    VisibleRStrip(DumpText(segs));
    assert p[|p| - 1] == '#';
    RStripAppend(p, DumpText(segs));
    StripRight(p + DumpText(segs));
  }

  /** The comparator neither invents nor hides a difference: on the lines two engines
      print it reaches exactly the verdict, and the differing component, that the
      abstract outcomes call for. */
  lemma CompareExact(a: Outcome, g: seq<Segment>, b: Outcome, h: seq<Segment>)
    requires WellNamed(a) && WellNamed(b) && DumpOf(a, g) && DumpOf(b, h)
    ensures Compare(Strip(Line(a, g)), Strip(Line(b, h))) == Expected(a, b)
  {
    LineParses(a, g);
    LineParses(b, h);
    SectionsOf(a, g);
    SectionsOf(b, h);
    if a.Success? && b.Success? {
      SuccessesExact(a, g, b, h);
    } else {
      RevertsExact(a, g, b, h);
    }
  }

  function SectionsFor(o: Outcome, segs: seq<Segment>): Sections {
    Sections(OutcomeText(o), Some(EventsSection(o)), Some(DumpText(segs)))
  }

  lemma SuccessesExact(a: Outcome, g: seq<Segment>, b: Outcome, h: seq<Segment>)
    requires a.Success? && b.Success? && DumpOf(a, g) && DumpOf(b, h)
    ensures CompareSections(SectionsFor(a, g), SectionsFor(b, h)) == Expected(a, b)
  {
    hide Kind, Strip, OutcomeText, EventsSection, StorageMap, DumpText;
    SectionsOf(a, g);
    SectionsOf(b, h);
    OutcomeKind(a);
    OutcomeKind(b);
    SameOutcomeText(a, b);
    StripVisible(EventsSection(a));
    StripVisible(EventsSection(b));
    SameEvents(a, b);
    DumpsCompare(g, a.storage, h, b.storage);
  }

  lemma RevertsExact(a: Outcome, g: seq<Segment>, b: Outcome, h: seq<Segment>)
    requires WellNamed(a) && WellNamed(b) && (a.Revert? || b.Revert?)
    ensures CompareSections(SectionsFor(a, g), SectionsFor(b, h)) == Expected(a, b)
  {
    hide Kind, Strip, OutcomeText, EventsSection, StorageMap, DumpText;
    OutcomeKind(a);
    OutcomeKind(b);
    SameOutcomeText(a, b);
  }

  lemma SameOutcomeText(a: Outcome, b: Outcome)
    requires WellNamed(a) && WellNamed(b)
    ensures Strip(OutcomeText(a)) == Strip(OutcomeText(b)) <==> (
      || (a.Success? && b.Success? && a.vals == b.vals)
      || (a.Revert? && b.Revert? && a.deploy == b.deploy && Trimmed(a.data) == Trimmed(b.data)))
  {
    StripOutcome(a);
    StripOutcome(b);
    OutcomeTextInjective(if a.Success? then a else a.(data := Trimmed(a.data)),
                         if b.Success? then b else b.(data := Trimmed(b.data)));
  }

  lemma SameEvents(a: Outcome, b: Outcome)
    requires a.Success? && b.Success?
    ensures EventsSection(a) == EventsSection(b) <==> a.events == b.events
  {
    if EventsSection(a) == EventsSection(b) {
      EventsCancel(a.events, b.events);
    }
  }

  /** Consequently two reverts are told apart except when both carry Error(string)
      reasons that differ in trailing white space alone, as here. */
  lemma TrailingSpaceMasked()
    ensures Compare(Strip(Line(Revert(false, Error("no ")), [])), Strip(Line(Revert(false, Error("no")), []))) == None
  {
    CompareExact(Revert(false, Error("no ")), [], Revert(false, Error("no")), []);
    assert "no "[..2] == "no";
    assert RStrip("no ") == RStrip("no");
  }
}
