/** Revert data: decoding by selector, and the canonical form of raw reverts. */
module Reverts {
  import opened Basics
  import opened Text
  import opened PyText
  import opened AbiTypes
  import opened NormalForm
  import opened AbiSpec
  import opened Decoder
  import opened RoundTrip
  import opened Storage
  import opened Observable

  const ERROR_SELECTOR: seq<byte> := [0x08, 0xc3, 0x79, 0xa0]
  const PANIC_SELECTOR: seq<byte> := [0x4e, 0x48, 0x7b, 0x71]

  datatype ErrorDef = ErrorDef(name: string, types: seq<Ty>)

  /** The submission's errors by selector, and UTF-8 decoding with replacement. */
  datatype Errors = Errors(defs: map<seq<byte>, ErrorDef>, utf8: seq<byte> -> string)

  /** Python's s[a:b] for non-negative bounds. */
  function Slice(s: seq<byte>, a: nat, b: nat): seq<byte> {
    if a >= |s| || b <= a then [] else if b <= |s| then s[a..b] else s[a..]
  }

  function DecodeRevert(e: Env, er: Errors, data: seq<byte>): RevertData {
    var selector := Slice(data, 0, 4);
    if data == [] then Empty
    else if selector == ERROR_SELECTOR && |data| >= 68 then
      var base := 4 + FromBytes(data[4..36]);
      var length := FromBytes(Slice(data, base, base + 32));
      Error(er.utf8(Slice(data, base + 32, base + 32 + length)))
    else if selector == PANIC_SELECTOR && |data| >= 36 then Panic(FromBytes(data[4..36]))
    else if selector in er.defs then DecodeCustom(e, er.defs[selector], data)
    else Raw(data)
  }

  function DecodeCustom(e: Env, def: ErrorDef, data: seq<byte>): RevertData {
    match DecodeTuple(e, Slice(data, 4, |data|), def.types, |def.types|)
    case None => Raw(data)
    case Some(vals) => Custom(def.name, vals)
  }

  predicate ErrorShaped(data: seq<byte>) {
    |data| >= 68 && data[0] == 0x08 && data[1] == 0xc3 && data[2] == 0x79 && data[3] == 0xa0
  }

  predicate PanicShaped(data: seq<byte>) {
    |data| >= 36 && data[0] == 0x4e && data[1] == 0x48 && data[2] == 0x7b && data[3] == 0x71
  }

  /** The bytes after the selector decode at the types of the error declared for it. */
  predicate CustomShaped(e: Env, er: Errors, data: seq<byte>) {
    && |data| >= 4 && data[..4] in er.defs
    && DecodeTuple(e, data[4..], er.defs[data[..4]].types, |er.defs[data[..4]].types|).Some?
  }

  /** Any bytes at all: empty data is empty; data with the shape of Error, Panic or a declared
      error is read as that; and everything else keeps all its bytes. */
  lemma DecodeRevertExactly(e: Env, er: Errors, data: seq<byte>)
    requires forall selector <- er.defs :: |selector| == 4
    ensures var rd := DecodeRevert(e, er, data);
      && (data == [] <==> rd == Empty)
      && (ErrorShaped(data) <==> rd.Error?)
      && (PanicShaped(data) <==> rd.Panic?)
      && (rd.Panic? ==> rd.code == FromBytes(data[4..36]))
      && (CustomShaped(e, er, data) && !ErrorShaped(data) && !PanicShaped(data) <==> rd.Custom?)
      && (rd.Custom? ==> var def := er.defs[data[..4]];
                         rd.name == def.name && Some(rd.vals) == DecodeTuple(e, data[4..], def.types, |def.types|))
      && (data != [] && !ErrorShaped(data) && !PanicShaped(data) && !CustomShaped(e, er, data) <==> rd.Raw?)
      && (rd.Raw? ==> rd.bs == data)
  {
    hide DecodeTuple, FromBytes;
    if |data| >= 4 {
      assert Slice(data, 0, 4) == data[..4];
      assert Slice(data, 4, |data|) == data[4..];
    } else {
      assert |Slice(data, 0, 4)| < 4;
    }
  }

  function Lesser(a: nat, b: nat): nat { if a <= b then a else b }

  /** The reason of an Error is the text of the bytes its own offset and length point to, as
      far as there are any. */
  lemma ErrorReason(e: Env, er: Errors, data: seq<byte>)
    requires ErrorShaped(data)
    ensures var base := 4 + FromBytes(data[4..36]);
      var start := Lesser(base + 32, |data|); var length := FromBytes(data[Lesser(base, |data|)..start]);
      DecodeRevert(e, er, data) == Error(er.utf8(data[start..Lesser(base + 32 + length, |data|)]))
  {
    hide DecodeTuple, FromBytes;
    assert Slice(data, 0, 4) == data[..4];
    var base := 4 + FromBytes(data[4..36]);
    var start := Lesser(base + 32, |data|);
    assert Slice(data, base, base + 32) == data[Lesser(base, |data|)..start];
    var length := FromBytes(Slice(data, base, base + 32));
    assert Slice(data, base + 32, base + 32 + length) == data[start..Lesser(base + 32 + length, |data|)];
  }

  const RAW_REVERT: string := "revert|raw:0x"
  const RAW_DEPLOY: string := "deployrevert|raw:0x"

  function RevertLine(deploy: bool, rd: RevertData): string {
    OutcomeText(Revert(deploy, rd))
  }

  /** Re-decodes a raw revert line through the EVM-side decoder. */
  function Canonicalize(e: Env, er: Errors, raw: string): string {
    var s := SplitSections(raw);
    var deploy := Prefixed(s.outcome, RAW_DEPLOY);
    if !deploy && !Prefixed(s.outcome, RAW_REVERT) then raw
    else
      match FromHex(s.outcome[if deploy then |RAW_DEPLOY| else |RAW_REVERT|..])
      case None => raw
      case Some(bs) =>
        var rd := DecodeRevert(e, er, bs);
        if rd.Raw? then raw
        else if s.events.None? && s.storage.None? then RevertLine(deploy, rd)
        else WithSections(RevertLine(deploy, rd), OrEmpty(s.events), OrEmpty(s.storage))
  }

  function OrEmpty(t: Option<string>): string { if t.Some? then t.value else "" }

  function WithSections(outcome: string, events: string, storage: string): string {
    outcome + EVT_SEP + events + STO_SEP + storage
  }

  /** Only raw revert data prints with a raw prefix. */
  lemma RawPrefix(deploy: bool, rd: RevertData, rest: string)
    requires !rd.Raw?
    ensures !Prefixed(RevertLine(deploy, rd) + rest, RAW_REVERT)
    ensures !Prefixed(RevertLine(deploy, rd) + rest, RAW_DEPLOY)
  {
    RevertHead(rd);
    var t := RevertLine(deploy, rd) + rest;
    assert RAW_REVERT[0] == 'r' && RAW_REVERT[7] == 'r';
    assert RAW_DEPLOY[0] == 'd' && RAW_DEPLOY[13] == 'r';
    if deploy {
      assert t[0] == 'd' && t[13] == RevertText(rd)[0];
    } else {
      assert t[0] == 'r' && t[7] == RevertText(rd)[0];
    }
  }

  lemma RawRoundTrip(deploy: bool, bs: seq<byte>)
    ensures Prefixed(RevertLine(deploy, Raw(bs)), RAW_DEPLOY) == deploy
    ensures !deploy ==> Prefixed(RevertLine(deploy, Raw(bs)), RAW_REVERT)
    ensures FromHex(RevertLine(deploy, Raw(bs))[if deploy then |RAW_DEPLOY| else |RAW_REVERT|..]) == Some(bs)
  {
    FromHexOfHex(bs);
    hide Hex, FromHex;
    RawPrefixes(Hex(bs));
    PrefixTail(if deploy then RAW_DEPLOY else RAW_REVERT, Hex(bs));
    FirstChar(RAW_REVERT, RAW_DEPLOY, Hex(bs));
  }

  lemma RawPrefixes(h: string)
    ensures "deployrevert|" + ("raw:0x" + h) == RAW_DEPLOY + h
    ensures "revert|" + ("raw:0x" + h) == RAW_REVERT + h
  {
    assert "deployrevert|" + "raw:0x" == RAW_DEPLOY;
    assert "revert|" + "raw:0x" == RAW_REVERT;
  }

  lemma FirstChar(p: string, q: string, h: string)
    requires p != "" && q != "" && p[0] != q[0]
    ensures !Prefixed(p + h, q)
  {
    var s := p + h;
    assert s[0] == p[0];
    assert |q| <= |s| ==> s[..|q|][0] == s[0];
  }

  /** For every byte string and either phase, the raw form and the decoded form of the
      same revert data canonicalise to the same line: the decoded one. */
  lemma RawAndDecodedAgree(e: Env, er: Errors, deploy: bool, bs: seq<byte>, events: string, storage: string)
    requires HashFree(events) && HashFree(storage)
    ensures var decoded := WithSections(RevertLine(deploy, DecodeRevert(e, er, bs)), events, storage);
            && Canonicalize(e, er, WithSections(RevertLine(deploy, Raw(bs)), events, storage)) == decoded
            && Canonicalize(e, er, decoded) == decoded
  {
    var rd := DecodeRevert(e, er, bs);
    LineSections(RevertLine(deploy, Raw(bs)), events, storage);
    LineSections(RevertLine(deploy, rd), events, storage);
    RawRoundTrip(deploy, bs);
    if rd.Raw? {
      assert rd == Raw(bs);
    } else {
      RawPrefix(deploy, rd, "");
      assert RevertLine(deploy, rd) + "" == RevertLine(deploy, rd);
    }
  }

  lemma OutcomeIsPrefix(raw: string)
    ensures Prefixed(raw, SplitSections(raw).outcome)
  {
  }

  lemma PrefixTransitive(s: string, p: string, q: string)
    requires Prefixed(s, p) && Prefixed(p, q)
    ensures Prefixed(s, q)
  {
  }

  /** Canonicalising twice changes nothing, on any text at all. */
  lemma CanonicalizeIdempotent(e: Env, er: Errors, raw: string)
    ensures Canonicalize(e, er, Canonicalize(e, er, raw)) == Canonicalize(e, er, raw)
  {
    var once := Canonicalize(e, er, raw);
    if once != raw {
      var deploy, rd, rest := CanonicalShape(e, er, raw);
      RawPrefix(deploy, rd, rest);
      OutcomeIsPrefix(once);
      var outcome := SplitSections(once).outcome;
      if Prefixed(outcome, RAW_REVERT) { PrefixTransitive(once, outcome, RAW_REVERT); }
      if Prefixed(outcome, RAW_DEPLOY) { PrefixTransitive(once, outcome, RAW_DEPLOY); }
    }
  }

  lemma CanonicalShape(e: Env, er: Errors, raw: string)
    returns (deploy: bool, rd: RevertData, rest: string)
    requires Canonicalize(e, er, raw) != raw
    ensures !rd.Raw? && Canonicalize(e, er, raw) == RevertLine(deploy, rd) + rest
  {
    var s := SplitSections(raw);
    deploy := Prefixed(s.outcome, RAW_DEPLOY);
    var bs := FromHex(s.outcome[if deploy then |RAW_DEPLOY| else |RAW_REVERT|..]).value;
    rd := DecodeRevert(e, er, bs);
    rest := if s.events.None? && s.storage.None? then "" else Tail(OrEmpty(s.events), OrEmpty(s.storage));
    hide RevertLine, DecodeRevert, FromHex, SplitSections, WithSections;
    AppendTail(RevertLine(deploy, rd), OrEmpty(s.events), OrEmpty(s.storage));
  }

  function Tail(events: string, storage: string): string {
    EVT_SEP + events + STO_SEP + storage
  }

  lemma AppendTail(outcome: string, events: string, storage: string)
    ensures WithSections(outcome, events, storage) == outcome + Tail(events, storage)
    ensures outcome + "" == outcome
  {
  }

  /** On a line with both sections the phase head, events and storage survive. */
  lemma SectionsPreserved(e: Env, er: Errors, outcome: string, events: string, storage: string)
    requires HashFree(events) && HashFree(storage)
    ensures var after := SplitSections(Canonicalize(e, er, WithSections(outcome, events, storage)));
            && after.events == Some(events) && after.storage == Some(storage)
            && Before(after.outcome, '|') == Before(outcome, '|')
  {
    LineSections(outcome, events, storage);
    var deploy := Prefixed(outcome, RAW_DEPLOY);
    if deploy || Prefixed(outcome, RAW_REVERT) {
      RawHead(outcome, deploy);
      var hex := FromHex(outcome[if deploy then |RAW_DEPLOY| else |RAW_REVERT|..]);
      if hex.Some? {
        var rd := DecodeRevert(e, er, hex.value);
        LineSections(RevertLine(deploy, rd), events, storage);
        OutcomeCut(Revert(deploy, rd));
      }
    }
  }

  lemma RawHead(outcome: string, deploy: bool)
    requires Prefixed(outcome, if deploy then RAW_DEPLOY else RAW_REVERT)
    ensures Before(outcome, '|') == if deploy then "deployrevert" else "revert"
  {
    if deploy {
      var rest := outcome[13..];
      assert outcome == "deployrevert" + ['|'] + rest;
      CutAt("deployrevert", '|', rest);
    } else {
      var rest := outcome[7..];
      assert outcome == "revert" + ['|'] + rest;
      CutAt("revert", '|', rest);
    }
  }

  predicate HoldsMarker(s: string) {
    (exists i :: 0 <= i <= |s| && OccursAt(s, STO_SEP, i)) || (exists i :: 0 <= i <= |s| && OccursAt(s, EVT_SEP, i))
  }

  lemma {:induction false} FindLastNone(s: string, sep: string, k: nat)
    ensures FindLast(s, sep, k).None? <==> forall i :: 0 <= i <= k ==> !OccursAt(s, sep, i)
  {
    if !OccursAt(s, sep, k) && k > 0 { FindLastNone(s, sep, k - 1); }
  }

  lemma SplitsAtMarkers(s: string)
    ensures SplitSections(s).events.None? && SplitSections(s).storage.None? <==> !HoldsMarker(s)
  {
    FindLastNone(s, STO_SEP, |s|);
    FindLastNone(s, EVT_SEP, |s|);
  }

  lemma MarkerHead(s: string, m: string, i: nat)
    requires Marker(m) && OccursAt(s, m, i)
    ensures i < |s| && s[i] == '#'
  {
    assert s[i] == s[i..i + |m|][0];
  }

  /** A prefix without hashes neither holds nor starts a marker. */
  lemma MarkerAfter(p: string, r: string, m: string)
    requires Marker(m) && HashFree(p)
    ensures (exists i :: 0 <= i <= |p + r| && OccursAt(p + r, m, i)) <==> exists i :: 0 <= i <= |r| && OccursAt(r, m, i)
  {
    var s := p + r;
    if i :| 0 <= i <= |s| && OccursAt(s, m, i) {
      MarkerHead(s, m, i);
      if i >= |p| {
        assert s[i..i + 7] == r[i - |p|..i - |p| + 7];
        assert OccursAt(r, m, i - |p|);
      }
    }
    if i :| 0 <= i <= |r| && OccursAt(r, m, i) {
      assert s[i + |p|..i + |p| + 7] == r[i..i + 7];
      assert OccursAt(s, m, i + |p|);
    }
  }

  lemma HoldsAfter(p: string, r: string)
    requires HashFree(p)
    ensures HoldsMarker(p + r) <==> HoldsMarker(r)
  {
    MarkerAfter(p, r, STO_SEP);
    MarkerAfter(p, r, EVT_SEP);
  }

  lemma HashFreeHolds(s: string)
    requires HashFree(s)
    ensures !HoldsMarker(s)
  {
    forall i | 0 <= i <= |s|
      ensures !OccursAt(s, STO_SEP, i) && !OccursAt(s, EVT_SEP, i)
    {
      assert i + 7 <= |s| ==> s[i..i + 7][0] == s[i];
    }
  }

  /** Declared names are identifiers. */
  predicate NamesVisible(er: Errors) {
    forall sel <- er.defs ::
      var name := er.defs[sel].name; Visible(name) && Without(name, ':') && Without(name, '|')
  }

  /** The printed text holds a marker only inside a decoded reason. */
  lemma TextHolds(deploy: bool, rd: RevertData)
    requires rd.Custom? ==> Visible(rd.name)
    ensures HoldsMarker(RevertLine(deploy, rd)) <==> rd.Error? && HoldsMarker(rd.msg)
  {
    var head := if deploy then "deployrevert|" else "revert|";
    HoldsAfter(head, RevertText(rd));
    if rd.Error? {
      HoldsAfter("error:", rd.msg);
    } else {
      RevertVisible(rd);
      VisibleHashFree(RevertText(rd));
      HashFreeHolds(RevertText(rd));
    }
  }

  lemma DecodedName(e: Env, er: Errors, bs: seq<byte>)
    requires NamesVisible(er)
    ensures var rd := DecodeRevert(e, er, bs); rd.Custom? ==> Visible(rd.name)
  {
    hide DecodeTuple;
  }

  /** A raw line without sections canonicalises to a line without sections exactly when its
      bytes do not decode to a reason holding a marker. */
  lemma SectionlessExactly(e: Env, er: Errors, deploy: bool, bs: seq<byte>)
    requires NamesVisible(er)
    ensures var rd, after := DecodeRevert(e, er, bs), SplitSections(Canonicalize(e, er, RevertLine(deploy, Raw(bs))));
            after.events.None? && after.storage.None? <==> !(rd.Error? && HoldsMarker(rd.msg))
  {
    var raw, rd := RevertLine(deploy, Raw(bs)), DecodeRevert(e, er, bs);
    TextHolds(deploy, Raw(bs));
    SplitsAtMarkers(raw);
    RawRoundTrip(deploy, bs);
    DecodedName(e, er, bs);
    TextHolds(deploy, rd);
    SplitsAtMarkers(RevertLine(deploy, rd));
    hide DecodeRevert, FromHex, HoldsMarker, RevertLine;
    assert SplitSections(raw).outcome == raw by { SectionlessOutcome(raw); }
  }

  lemma SectionlessOutcome(s: string)
    requires SplitSections(s).events.None? && SplitSections(s).storage.None?
    ensures SplitSections(s).outcome == s
  {
  }

  function Letters(bs: seq<byte>): string {
    seq(|bs|, i requires 0 <= i < |bs| => bs[i] as char)
  }

  const MARKER_BYTES: seq<byte> := [0x23, 0x23, 0x45, 0x56, 0x54, 0x23, 0x23]

  /** Error("##EVT##"), raw and without sections, canonicalises to a line the comparator
      reads as having an events section. */
  lemma QuotedMarkerSplits(e: Env)
    ensures var er := Errors(map[], Letters);
            var bs := ThrownBytes(e, er, TError(MARKER_BYTES));
            && SplitSections(RevertLine(false, Raw(bs))).events.None?
            && !(SplitSections(Canonicalize(e, er, RevertLine(false, Raw(bs)))).events.None?
                 && SplitSections(Canonicalize(e, er, RevertLine(false, Raw(bs)))).storage.None?)
  {
    var er := Errors(map[], Letters);
    assert Throwable(e, er, TError(MARKER_BYTES));
    var bs := ThrownBytes(e, er, TError(MARKER_BYTES));
    ErrorSize(e, MARKER_BYTES);
    DecodeThrown(e, er, TError(MARKER_BYTES));
    QuotedMarker();
    hide *;
    SectionlessExactly(e, er, false, bs);
    TextHolds(false, Raw(bs));
    SplitsAtMarkers(RevertLine(false, Raw(bs)));
  }

  lemma QuotedMarker()
    ensures Letters(MARKER_BYTES) == EVT_SEP && HoldsMarker(EVT_SEP)
  {
    assert OccursAt(EVT_SEP, EVT_SEP, 0);
  }

  lemma ErrorSize(e: Env, m: seq<byte>)
    requires |m| < 1000
    ensures |ThrownBytes(e, Errors(map[], Letters), TError(m))| < TWO256
  {
    hide Word;
    var enc := Word(|m|) + m + Padding(|m|);
    assert Abi(e, VBytes(m), TBytes) == enc;
    var ps := Parts(e, [VBytes(m)], [TBytes]);
    assert ps == [Part(IsDynamic(e, TBytes), enc)];
    OnePart(ps[0]);
  }

  // ----- canonical encodings are told apart -----

  datatype Thrown = TError(msg: seq<byte>) | TPanic(code: nat) | TCustom(sel: seq<byte>, vals: seq<Val>)

  predicate Throwable(e: Env, er: Errors, t: Thrown) {
    match t
    case TError(m) => true
    case TPanic(c) => c < TWO256
    case TCustom(sel, vals) =>
      && sel in er.defs && |sel| == 4 && sel != ERROR_SELECTOR && sel != PANIC_SELECTOR
      && HaveTypes(e, vals, er.defs[sel].types)
  }

  function ThrownBytes(e: Env, er: Errors, t: Thrown): seq<byte>
    requires Throwable(e, er, t)
  {
    match t
    case TError(m) => ERROR_SELECTOR + AbiTuple(e, [VBytes(m)], [TBytes])
    case TPanic(c) => PANIC_SELECTOR + AbiTuple(e, [VWord(c)], [TUint(256)])
    case TCustom(sel, vals) => sel + AbiTuple(e, vals, er.defs[sel].types)
  }

  function ThrownData(e: Env, er: Errors, t: Thrown): RevertData
    requires Throwable(e, er, t)
  {
    match t
    case TError(m) => Error(er.utf8(m))
    case TPanic(c) => Panic(c)
    case TCustom(sel, vals) => Custom(er.defs[sel].name, vals)
  }

  lemma ErrorLayout(e: Env, m: seq<byte>)
    requires |AbiTuple(e, [VBytes(m)], [TBytes])| < TWO256
    ensures AbiTuple(e, [VBytes(m)], [TBytes]) == Word(32) + (Word(|m|) + m + Padding(|m|))
  {
    hide Word;
    var enc := Word(|m|) + m + Padding(|m|);
    assert Abi(e, VBytes(m), TBytes) == enc;
    var ps := Parts(e, [VBytes(m)], [TBytes]);
    assert ps[0] == Part(IsDynamic(e, TBytes), Abi(e, VBytes(m), TBytes));
    assert ps == [Part(true, enc)];
    OnePart(Part(true, enc));
  }

  lemma OnePart(p: Part)
    ensures Layout([p]) == if p.dyn then Word(32) + p.enc else p.enc
  {
    hide Word;
    var ps := [p];
    assert HeadLen(ps, 1) == HeadLen(ps, 0) + if p.dyn then 32 else |p.enc|;
    assert Tails(ps, 1) == Tails(ps, 0) + if p.dyn then p.enc else [];
    assert Heads(ps, 1) == Heads(ps, 0) + if p.dyn then Word(Offset(ps, 0)) else p.enc;
  }

  lemma PanicLayout(e: Env, c: nat)
    requires c < TWO256
    ensures AbiTuple(e, [VWord(c)], [TUint(256)]) == Word(c)
  {
    hide Word;
    assert Abi(e, VWord(c), TUint(256)) == Word(c);
    assert Parts(e, [VWord(c)], [TUint(256)]) == [Part(false, Word(c))];
    OnePart(Part(false, Word(c)));
  }

  /** The decoder recovers what was thrown. */
  lemma DecodeThrown(e: Env, er: Errors, t: Thrown)
    requires Throwable(e, er, t) && |ThrownBytes(e, er, t)| < TWO256
    ensures DecodeRevert(e, er, ThrownBytes(e, er, t)) == ThrownData(e, er, t)
  {
    match t {
      case TError(m) => DecodeThrownError(e, er, m);
      case TPanic(c) => DecodeThrownPanic(e, er, c);
      case TCustom(sel, vals) =>
        var body := AbiTuple(e, vals, er.defs[sel].types);
        var data := sel + body;
        TupleOfAbi(e, vals, er.defs[sel].types, []);
        assert body + [] == body;
        assert Slice(data, 0, 4) == sel;
        assert Slice(data, 4, |data|) == body;
    }
  }

  lemma DecodeThrownError(e: Env, er: Errors, m: seq<byte>)
    requires |AbiTuple(e, [VBytes(m)], [TBytes])| < TWO256
    ensures DecodeRevert(e, er, ERROR_SELECTOR + AbiTuple(e, [VBytes(m)], [TBytes])) == Error(er.utf8(m))
  {
    hide Word;
    ErrorLayout(e, m);
    var data := ERROR_SELECTOR + AbiTuple(e, [VBytes(m)], [TBytes]);
    assert Slice(data, 0, 4) == ERROR_SELECTOR;
    assert data[4..36] == Word(32);
    assert Slice(data, 36, 68) == Word(|m|);
    WordRead(32);
    WordRead(|m|);
    assert Slice(data, 68, 68 + |m|) == m;
  }

  lemma DecodeThrownPanic(e: Env, er: Errors, c: nat)
    requires c < TWO256
    ensures DecodeRevert(e, er, PANIC_SELECTOR + AbiTuple(e, [VWord(c)], [TUint(256)])) == Panic(c)
  {
    hide Word;
    PanicLayout(e, c);
    WordRead(c);
    var data := PANIC_SELECTOR + Word(c);
    assert Slice(data, 0, 4) == PANIC_SELECTOR;
    assert data[4..36] == Word(c);
  }

  predicate ErrorNames(er: Errors) {
    forall s <- er.defs :: Without(er.defs[s].name, ':')
  }

  /** Same-named errors carrying the same values under different selectors: the one
      pair of different canonical encodings the printed line cannot separate. */
  predicate Homonyms(er: Errors, t: Thrown, u: Thrown) {
    t.TCustom? && u.TCustom? && t.sel in er.defs && u.sel in er.defs
    && t.sel != u.sel && er.defs[t.sel].name == er.defs[u.sel].name && t.vals == u.vals
  }

  /** Canonical revert encodings print alike exactly when the bytes are equal or the
      two are homonyms (reasons being valid UTF-8, so decoding keeps them apart). */
  lemma ThrownSeparated(e: Env, er: Errors, t: Thrown, u: Thrown)
    requires Throwable(e, er, t) && Throwable(e, er, u) && ErrorNames(er)
    requires |ThrownBytes(e, er, t)| < TWO256 && |ThrownBytes(e, er, u)| < TWO256
    requires t.TError? && u.TError? && er.utf8(t.msg) == er.utf8(u.msg) ==> t.msg == u.msg
    ensures RevertText(DecodeRevert(e, er, ThrownBytes(e, er, t)))
         == RevertText(DecodeRevert(e, er, ThrownBytes(e, er, u)))
       <==> ThrownBytes(e, er, t) == ThrownBytes(e, er, u) || Homonyms(er, t, u)
  {
    DecodeThrown(e, er, t);
    DecodeThrown(e, er, u);
    RevertTextInjective(ThrownData(e, er, t), ThrownData(e, er, u));
  }

  // ----- a pair of homonyms -----

  const FIRST: seq<byte> := [1, 2, 3, 4]
  const SECOND: seq<byte> := [5, 6, 7, 8]

  function TwoNamesakes(utf8: seq<byte> -> string): Errors {
    Errors(map[FIRST := ErrorDef("E", [TUint(256)]), SECOND := ErrorDef("E", [TUint(8)])], utf8)
  }

  lemma OneWord(e: Env, n: nat, bits: width)
    requires n < TWO256
    ensures HaveTypes(e, [VWord(n)], [TUint(bits)]) && AbiTuple(e, [VWord(n)], [TUint(bits)]) == Word(n)
  {
    hide Word;
    assert Abi(e, VWord(n), TUint(bits)) == Word(n);
    assert Parts(e, [VWord(n)], [TUint(bits)]) == [Part(false, Word(n))];
    OnePart(Part(false, Word(n)));
  }

  /** E(uint256) and E(uint8), both thrown with 5: different bytes, one text. */
  lemma NamesakesPrintAlike(e: Env, utf8: seq<byte> -> string)
    ensures var er := TwoNamesakes(utf8); var t, u := TCustom(FIRST, [VWord(5)]), TCustom(SECOND, [VWord(5)]);
      && Throwable(e, er, t) && Throwable(e, er, u) && ThrownBytes(e, er, t) != ThrownBytes(e, er, u)
      && RevertText(DecodeRevert(e, er, ThrownBytes(e, er, t)))
         == RevertText(DecodeRevert(e, er, ThrownBytes(e, er, u)))
  {
    hide Word, DecodeRevert, RevertText, AbiTuple;
    var er := TwoNamesakes(utf8);
    var t, u := TCustom(FIRST, [VWord(5)]), TCustom(SECOND, [VWord(5)]);
    OneWord(e, 5, 256);
    OneWord(e, 5, 8);
    assert er.defs[FIRST].types == [TUint(256)] && er.defs[SECOND].types == [TUint(8)];
    assert FIRST[0] != ERROR_SELECTOR[0] && FIRST[0] != PANIC_SELECTOR[0];
    assert SECOND[0] != ERROR_SELECTOR[0] && SECOND[0] != PANIC_SELECTOR[0];
    assert Throwable(e, er, t) && Throwable(e, er, u);
    assert ThrownBytes(e, er, t)[0] == 1 && ThrownBytes(e, er, u)[0] == 5;
    DecodeThrown(e, er, t);
    DecodeThrown(e, er, u);
  }
}
