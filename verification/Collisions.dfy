/** Reverts whose four-byte selector is shared by several declared errors. */
module Collisions {
  import opened Basics
  import opened Text
  import opened PyText
  import opened AbiTypes
  import opened NormalForm
  import opened AbiSpec
  import opened Decoder
  import opened RoundTrip
  import opened Storage
  import opened Observable
  import opened Reverts
  import opened Adjudicate
  import opened EndToEnd

  lemma PrefixHead(s: string, p: string)
    requires p != ""
    ensures Prefixed(s, p) ==> s != "" && s[0] == p[0]
  {
    if Prefixed(s, p) { assert s[..|p|][0] == s[0]; }
  }

  lemma {:induction false} FirstMarker(p: string, m: string, r: string, i: nat)
    requires i <= |p| && HashFree(p) && Marker(m)
    ensures FirstPart(p + m + r, m, i) == p
    decreases |p| - i
  {
    var s := p + m + r;
    if i < |p| {
      assert s[i..][0] == p[i];
      PrefixHead(s[i..], m);
      FirstMarker(p, m, r, i + 1);
    } else {
      assert s[i..] == m + r;
      assert s[..i] == p;
    }
  }

  /** What follows the name in a custom-error line. */
  function AfterName(vals: seq<Val>): string { ":" + Join(",", PrintAll(vals)) }

  lemma CustomText(deploy: bool, name: string, vals: seq<Val>)
    ensures OutcomeText(Revert(deploy, Custom(name, vals)))
         == (if deploy then MODEL_DEPLOY_HEAD else MODEL_HEAD) + (name + AfterName(vals))
  {
    var j := Join(",", PrintAll(vals));
    assert "deployrevert|" + "custom:" == MODEL_DEPLOY_HEAD;
    assert "revert|" + "custom:" == MODEL_HEAD;
    Assoc("custom:" + name, ":", j);
    Assoc("custom:", name, ":" + j);
    Assoc(if deploy then "deployrevert|" else "revert|", "custom:", name + (":" + j));
  }

  /** The name read off the model's line is the name it reported. */
  lemma ModelNameRead(deploy: bool, name: string, vals: seq<Val>)
    requires WellNamed(Revert(deploy, Custom(name, vals)))
    ensures ModelErrorName(Line(Revert(deploy, Custom(name, vals)), [])) == name
  {
    var o := Revert(deploy, Custom(name, vals));
    var text := OutcomeText(o);
    RevertVisible(o.data);
    VisibleConcat(if deploy then "deployrevert|" else "revert|", RevertText(o.data));
    VisibleHashFree(text);
    StripVisible(text);
    EmptyDump();
    assert Line(o, []) == text + EVT_SEP + STO_SEP;
    FirstMarker(text, EVT_SEP, STO_SEP, 0);
    CustomText(deploy, name, vals);
    NameAfterHead(deploy, name, AfterName(vals));
  }

  lemma NameAfterHead(deploy: bool, name: string, rest: string)
    requires Without(name, ':') && rest != "" && rest[0] == ':'
    ensures var line := (if deploy then MODEL_DEPLOY_HEAD else MODEL_HEAD) + (name + rest);
            Prefixed(line, MODEL_HEAD) == !deploy
            && (deploy ==> Prefixed(line, MODEL_DEPLOY_HEAD))
            && Before(line[if deploy then |MODEL_DEPLOY_HEAD| else |MODEL_HEAD|..], ':') == name
  {
    assert rest == [':'] + rest[1..];
    assert name + rest == name + [':'] + rest[1..];
    CutAt(name, ':', rest[1..]);
    PrefixTail(if deploy then MODEL_DEPLOY_HEAD else MODEL_HEAD, name + rest);
    FirstChar(MODEL_DEPLOY_HEAD, MODEL_HEAD, name + rest);
  }

  /** A colliding selector is read as the error the model names. */
  lemma ResolvedToModel(t: Declared, m: Measured, deploy: bool, name: string, vals: seq<Val>, def: ErrorDef)
    requires WellNamed(Revert(deploy, Custom(name, vals))) && name != "" && Colliding(t, m)
    requires Definition(t.definitions, Selector(m), name) == Some(def)
    ensures ErrorsFor(t, m, Line(Revert(deploy, Custom(name, vals)), []))
         == t.errors.(defs := t.errors.defs[Selector(m) := def])
  {
    hide Line, WellNamed;
    ModelNameRead(deploy, name, vals);
  }

  lemma {:induction false} DefinitionNamed(defs: seq<(seq<byte>, ErrorDef)>, sel: seq<byte>, name: string)
    ensures Definition(defs, sel, name).Some? ==> Definition(defs, sel, name).value.name == name
  {
    if defs != [] { DefinitionNamed(defs[1..], sel, name); }
  }

  // ----- a collision and what the two engines reported -----

  /** The model reports the named error, and the measured selector is shared by it. */
  predicate Resolvable(t: Declared, m: Measured, name: string, def: ErrorDef) {
    && WellNamed(Revert(false, Custom(name, []))) && name != "" && NamesVisible(t.errors)
    && Colliding(t, m) && Definition(t.definitions, Selector(m), name) == Some(def)
    && m.events == "" && m.storage == ""
  }

  function ModelLine(deploy: bool, name: string, model: seq<Val>): string {
    Strip(Line(Revert(deploy, Custom(name, model)), []))
  }

  /** The comparison finds no difference between the model's error and the measured one. */
  predicate Alike(e: Env, t: Declared, types: seq<Ty>, m: Measured, deploy: bool, name: string, model: seq<Val>) {
    var er := ErrorsFor(t, m, ModelLine(deploy, name, model));
    EvmLine(e, er, types, m).Some?
    && Difference(e, er, ModelLine(deploy, name, model), EvmLine(e, er, types, m).value).None?
  }

  /** The bytes after the selector. */
  function Arguments(m: Measured): seq<byte> { if |m.data| >= 4 then m.data[4..] else [] }

  /** Data of this selector and length is read as a declared error, not as Error or Panic. */
  predicate ReadAsCustom(m: Measured) {
    !(Selector(m) == ERROR_SELECTOR && |m.data| >= 68) && !(Selector(m) == PANIC_SELECTOR && |m.data| >= 36)
  }

  function CustomOrRaw(e: Env, m: Measured, def: ErrorDef): RevertData {
    match DecodeTuple(e, Arguments(m), def.types, |def.types|)
    case None => Raw(m.data)
    case Some(vs) => Custom(def.name, vs)
  }

  lemma DecodedAs(e: Env, er: Errors, m: Measured, def: ErrorDef)
    requires Selector(m) != [] && Selector(m) in er.defs && er.defs[Selector(m)] == def
    ensures ReadAsCustom(m) ==> DecodeRevert(e, er, m.data) == CustomOrRaw(e, m, def)
    ensures !ReadAsCustom(m) ==> !DecodeRevert(e, er, m.data).Custom? && !DecodeRevert(e, er, m.data).Raw?
  {
    hide DecodeTuple, FromBytes;
    assert Slice(m.data, 0, 4) == m.data[..4];
    assert Slice(m.data, 4, |m.data|) == m.data[4..];
  }

  lemma NoDifference(deploy: bool, x: RevertData, phase: bool, y: RevertData)
    ensures Expected(Revert(deploy, x), Revert(phase, y)).None? <==> deploy == phase && Trimmed(x) == Trimmed(y)
  {
  }

  /** For any measured bytes at all, the lines agree exactly when the phases do and the
      bytes after the shared selector decode, at the named error's types, to the arguments
      the model reports. */
  lemma CollisionExact(e: Env, t: Declared, types: seq<Ty>, m: Measured, def: ErrorDef, deploy: bool, name: string,
                       model: seq<Val>)
    requires Resolvable(t, m, name, def)
    ensures Alike(e, t, types, m, deploy, name, model)
       <==> deploy == m.deployReverted && ReadAsCustom(m)
            && DecodeTuple(e, Arguments(m), def.types, |def.types|) == Some(model)
  {
    var a := Revert(deploy, Custom(name, model));
    var er := t.errors.(defs := t.errors.defs[Selector(m) := def]);
    var d := Threw(m.deployReverted, m.data);
    DefinitionNamed(t.definitions, Selector(m), name);
    ResolvedToModel(t, m, deploy, name, model, def);
    hide DecodeTuple, Line, EvmLine, Difference, DecodeRevert, ErrorsFor, Expected, ReadAsCustom;
    LineParses(a, []);
    assert NamesVisible(er);
    DifferenceExact(e, er, types, a, [], m, d, []);
    DecodedAs(e, er, m, def);
    NoDifference(deploy, Custom(name, model), m.deployReverted, DecodeRevert(e, er, m.data));
  }

  // ----- when resolution is faithful to the bytes -----

  /** The measured bytes are the encoding of the model's error, in the same phase. */
  predicate BytesAgree(e: Env, m: Measured, def: ErrorDef, deploy: bool, model: seq<Val>)
    requires HaveTypes(e, model, def.types)
  {
    deploy == m.deployReverted && m.data == Selector(m) + AbiTuple(e, model, def.types)
  }

  /** No difference is found exactly when the bytes agree, whatever the model reports. */
  ghost predicate Faithful(e: Env, t: Declared, types: seq<Ty>, m: Measured, def: ErrorDef, name: string) {
    forall deploy, model :: HaveTypes(e, model, def.types) ==>
      (Alike(e, t, types, m, deploy, name, model) <==> BytesAgree(e, m, def, deploy, model))
  }

  predicate Decodes(e: Env, m: Measured, def: ErrorDef) {
    DecodeTuple(e, Arguments(m), def.types, |def.types|).Some?
  }

  /** The decoded argument bytes re-encode to themselves. */
  predicate ReEncodes(e: Env, m: Measured, def: ErrorDef)
    requires Decodes(e, m, def)
  {
    var vs := DecodeTuple(e, Arguments(m), def.types, |def.types|).value;
    HaveTypes(e, vs, def.types) && AbiTuple(e, vs, def.types) == Arguments(m)
  }

  lemma DecodedTyped(e: Env, m: Measured, def: ErrorDef)
    ensures var vs := DecodeTuple(e, Arguments(m), def.types, |def.types|);
            vs.Some? ==> HaveTypes(e, vs.value, def.types)
  {
    hide DecodeTuple, HasType;
    if DecodeTuple(e, Arguments(m), def.types, |def.types|).Some? {
      TupleTyped(e, Arguments(m), def.types, |def.types|);
    }
  }

  lemma ArgumentsAre(e: Env, m: Measured, def: ErrorDef, deploy: bool, model: seq<Val>)
    requires Selector(m) != [] && HaveTypes(e, model, def.types) && |m.data| < TWO256
    ensures BytesAgree(e, m, def, deploy, model)
       <==> deploy == m.deployReverted && AbiTuple(e, model, def.types) == Arguments(m)
    ensures AbiTuple(e, model, def.types) == Arguments(m)
        ==> DecodeTuple(e, Arguments(m), def.types, |def.types|) == Some(model)
  {
    hide DecodeTuple, AbiTuple, HaveTypes;
    assert m.data == Selector(m) + Arguments(m);
    assert (Selector(m) + AbiTuple(e, model, def.types))[4..] == AbiTuple(e, model, def.types);
    if AbiTuple(e, model, def.types) == Arguments(m) {
      TupleOfAbi(e, model, def.types, []);
      assert Arguments(m) + [] == Arguments(m);
    }
  }

  /** Resolving a colliding selector neither fabricates nor masks a difference exactly when
      the argument bytes do not decode at the named error's types, or re-encode to
      themselves; on data read as Error or Panic, exactly when they do not. */
  lemma FaithfulExactly(e: Env, t: Declared, types: seq<Ty>, m: Measured, def: ErrorDef, name: string)
    requires Resolvable(t, m, name, def) && |m.data| < TWO256
    ensures Faithful(e, t, types, m, def, name)
       <==> (Decodes(e, m, def) ==> (ReEncodes(e, m, def) <==> ReadAsCustom(m)))
  {
    hide Alike, DecodeTuple, AbiTuple, HaveTypes, BytesAgree, ReadAsCustom;
    DecodedTyped(e, m, def);
    forall deploy, model | HaveTypes(e, model, def.types)
      ensures Alike(e, t, types, m, deploy, name, model)
         <==> deploy == m.deployReverted && ReadAsCustom(m)
              && DecodeTuple(e, Arguments(m), def.types, |def.types|) == Some(model)
      ensures BytesAgree(e, m, def, deploy, model)
         <==> deploy == m.deployReverted && AbiTuple(e, model, def.types) == Arguments(m)
      ensures AbiTuple(e, model, def.types) == Arguments(m)
          ==> DecodeTuple(e, Arguments(m), def.types, |def.types|) == Some(model)
    {
      CollisionExact(e, t, types, m, def, deploy, name, model);
      ArgumentsAre(e, m, def, deploy, model);
    }
    var vs := DecodeTuple(e, Arguments(m), def.types, |def.types|);
    if Faithful(e, t, types, m, def, name) && vs.Some? {
      assert Alike(e, t, types, m, m.deployReverted, name, vs.value)
        <==> BytesAgree(e, m, def, m.deployReverted, vs.value);
    }
  }

  /** In particular every encoding at the named error's types followed by more bytes is
      taken for the encoding itself. */
  lemma TrailingBytesMasked(e: Env, t: Declared, types: seq<Ty>, m: Measured, def: ErrorDef, name: string,
                            model: seq<Val>, junk: seq<byte>)
    requires Resolvable(t, m, name, def) && ReadAsCustom(m)
    requires HaveTypes(e, model, def.types) && |AbiTuple(e, model, def.types)| < TWO256
    requires m.data == Selector(m) + (AbiTuple(e, model, def.types) + junk)
    ensures Alike(e, t, types, m, m.deployReverted, name, model)
    ensures junk != [] ==> !BytesAgree(e, m, def, m.deployReverted, model)
  {
    hide Alike, DecodeTuple, AbiTuple, HaveTypes, ReadAsCustom;
    TupleOfAbi(e, model, def.types, junk);
    assert Arguments(m) == AbiTuple(e, model, def.types) + junk;
    CollisionExact(e, t, types, m, def, m.deployReverted, name, model);
    if junk != [] { assert |m.data| > |Selector(m) + AbiTuple(e, model, def.types)|; }
  }

  // ----- the witness: E1(uint256) with 5 against E2(uint256, uint256) with 5 and 7 -----

  const SHARED: seq<byte> := [1, 2, 3, 4]
  const NARROW: ErrorDef := ErrorDef("E1", [TUint(256)])
  const WIDE: ErrorDef := ErrorDef("E2", [TUint(256), TUint(256)])

  function TwoErrors(utf8: seq<byte> -> string): Declared {
    Declared(Errors(map[SHARED := WIDE], utf8), {SHARED}, [(SHARED, NARROW), (SHARED, WIDE)])
  }

  function WideThrown(e: Env): seq<byte> { AbiTuple(e, [VWord(5), VWord(7)], WIDE.types) }

  lemma TwoWords(e: Env, a: nat, b: nat)
    requires a < TWO256 && b < TWO256
    ensures AbiTuple(e, [VWord(a)], [TUint(256)]) == Word(a)
    ensures AbiTuple(e, [VWord(a), VWord(b)], [TUint(256), TUint(256)]) == Word(a) + Word(b)
  {
    hide Word;
    PanicLayout(e, a);
    var p, q := Part(false, Word(a)), Part(false, Word(b));
    assert Parts(e, [VWord(a), VWord(b)], [TUint(256), TUint(256)]) == [p, q];
    TwoParts(p, q);
  }

  lemma TwoParts(p: Part, q: Part)
    requires !p.dyn && !q.dyn
    ensures Layout([p, q]) == p.enc + q.enc
  {
    var ps := [p, q];
    assert Tails(ps, 1) == Tails(ps, 0) && Tails(ps, 2) == Tails(ps, 1);
    assert Heads(ps, 1) == Heads(ps, 0) + p.enc && Heads(ps, 2) == Heads(ps, 1) + q.enc;
  }

  /** The measured error is the wider one, the model reports the narrower one, the bytes
      differ in length, and no difference is found. */
  lemma CollisionMasks(e: Env, utf8: seq<byte> -> string)
    ensures var m := Measured(false, false, SHARED + WideThrown(e), "", "", 0);
      && Resolvable(TwoErrors(utf8), m, "E1", NARROW)
      && Alike(e, TwoErrors(utf8), [], m, false, "E1", [VWord(5)])
      && !BytesAgree(e, m, NARROW, false, [VWord(5)])
  {
    hide Word, Alike, AbiTuple;
    TwoWords(e, 5, 7);
    var m := Measured(false, false, SHARED + WideThrown(e), "", "", 0);
    assert m.data[..4] == SHARED;
    assert TwoErrors(utf8).definitions[0] == (SHARED, NARROW);
    TrailingBytesMasked(e, TwoErrors(utf8), [], m, NARROW, "E1", [VWord(5)], Word(7));
  }
}
