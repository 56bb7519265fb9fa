/** Which reverts are compared, from the bytes thrown, the errors declared and what the
    model reports. */
module RevertScope {
  import opened Basics
  import opened Text
  import opened PyText
  import opened AbiTypes
  import opened Storage
  import opened Observable
  import opened Reverts
  import opened Adjudicate
  import opened Collisions
  import Register

  /** The error the model reports shares the selector thrown with other errors. */
  predicate Shared(t: Declared, a: Outcome, data: seq<byte>) {
    && |data| >= 4 && data[..4] in t.collisions
    && a.Revert? && a.data.Custom? && a.data.name != "" && Definition(t.definitions, data[..4], a.data.name).Some?
  }

  /** The errors by selector, a shared one standing for the error the model reports. */
  function TableFor(t: Declared, a: Outcome, data: seq<byte>): Errors {
    if Shared(t, a, data) then
      t.errors.(defs := t.errors.defs[data[..4] := Definition(t.definitions, data[..4], a.data.name).value])
    else t.errors
  }

  /** The register in force keeps values of t out of the comparison. */
  ghost predicate Excluded(e: Env, t: Ty, at: Register.Version) {
    && !Register.SemverLt(at, Register.V120)
    && (if Register.SemverLt(at, Register.V130)
        then t.TArray? || t.TFixedArray? || t.TStruct? || t.TTuple? || t.TFunction?
        else Register.HoldsForbidden(e, t, !Register.SemverLt(at, Register.V140)))
  }

  /** A selector several errors share is refused from 1.2.0 until 1.3.0, a declared error
      when one of its parameters is excluded, and nothing else. */
  ghost predicate RevertRefused(e: Env, t: Declared, a: Outcome, data: seq<byte>, at: Register.Version) {
    && |data| >= 4
    && (|| (data[..4] in t.collisions
            && !Register.SemverLt(at, Register.V120) && Register.SemverLt(at, Register.V130))
        || (data[..4] in TableFor(t, a, data).defs
            && exists i :: 0 <= i < |TableFor(t, a, data).defs[data[..4]].types|
                 && Excluded(e, TableFor(t, a, data).defs[data[..4]].types[i], at)))
  }

  // ----- the name read off the model's line -----

  lemma {:induction false} FirstPartPrefix(s: string, sep: string, i: nat)
    requires i <= |s|
    ensures Prefixed(s, FirstPart(s, sep, i))
    decreases |s| - i
  {
    if i < |s| && !Prefixed(s[i..], sep) { FirstPartPrefix(s, sep, i + 1); }
  }

  lemma {:induction false} RStripPrefix(s: string)
    ensures Prefixed(s, RStrip(s))
  {
    if s != "" && IsSpace(s[|s| - 1]) { RStripPrefix(s[..|s| - 1]); }
  }

  /** A head found after cutting and stripping was there before. */
  lemma HeadBefore(raw: string, head: string)
    requires raw != "" && !IsSpace(raw[0]) && head != ""
    ensures Prefixed(Strip(FirstPart(raw, EVT_SEP, 0)), head) ==> Prefixed(raw, head)
  {
    var part := FirstPart(raw, EVT_SEP, 0);
    FirstPartPrefix(raw, EVT_SEP, 0);
    if part != "" {
      assert part[0] == raw[0];
      StripRight(part);
      RStripPrefix(part);
      PrefixTransitive(part, RStrip(part), head);
      PrefixTransitive(raw, part, head);
    }
  }

  lemma PrefixTransitive(s: string, p: string, q: string)
    requires Prefixed(s, p)
    ensures Prefixed(p, q) ==> Prefixed(s, q)
  {
  }

  lemma NoCustomHead(o: Outcome, segs: seq<Segment>)
    requires o.Revert? ==> !o.data.Custom?
    ensures var raw := Line(o, segs);
      raw != "" && !IsSpace(raw[0]) && !Prefixed(raw, MODEL_HEAD) && !Prefixed(raw, MODEL_DEPLOY_HEAD)
  {
    var raw := Line(o, segs);
    assert MODEL_HEAD[0] == 'r' && MODEL_HEAD[7] == 'c' && MODEL_DEPLOY_HEAD[0] == 'd' && MODEL_DEPLOY_HEAD[13] == 'c';
    if o.Revert? {
      RevertHead(o.data);
      var text := RevertText(o.data);
      assert raw[0] == if o.deploy then 'd' else 'r';
      assert raw[if o.deploy then 13 else 7] == text[0];
    } else {
      assert raw[0] == 's';
    }
    HeadAt(raw, MODEL_HEAD, 0);
    HeadAt(raw, MODEL_HEAD, 7);
    HeadAt(raw, MODEL_DEPLOY_HEAD, 0);
    HeadAt(raw, MODEL_DEPLOY_HEAD, 13);
  }

  lemma HeadAt(raw: string, head: string, i: nat)
    requires i < |head|
    ensures Prefixed(raw, head) ==> i < |raw| && raw[i] == head[i]
  {
    if Prefixed(raw, head) { assert raw[..|head|][i] == raw[i]; }
  }

  /** Only a custom error gives the model's line a name, and then the error's own. */
  lemma NameIs(o: Outcome, segs: seq<Segment>)
    requires WellNamed(o) && DumpOf(o, segs)
    ensures ModelErrorName(Line(o, segs)) == if o.Revert? && o.data.Custom? then o.data.name else ""
  {
    hide Line, Strip, FirstPart, Before;
    if o.Revert? && o.data.Custom? {
      assert segs == [];
      assert o == Revert(o.deploy, Custom(o.data.name, o.data.vals));
      ModelNameRead(o.deploy, o.data.name, o.data.vals);
    } else {
      NoCustomHead(o, segs);
      HeadBefore(Line(o, segs), MODEL_HEAD);
      HeadBefore(Line(o, segs), MODEL_DEPLOY_HEAD);
    }
  }

  // ----- the scope of a revert -----

  /** Declared errors are listed by four-byte selectors. */
  predicate FourBytes(t: Declared) { forall selector <- t.errors.defs :: |selector| == 4 }

  /** Whatever the model prints, the table used is the one the outcomes call for. */
  lemma TableIs(t: Declared, m: Measured, a: Outcome, g: seq<Segment>)
    requires WellNamed(a) && DumpOf(a, g) && !m.ok
    ensures ErrorsFor(t, m, Strip(Line(a, g))) == TableFor(t, a, m.data)
  {
    hide Line, Strip, ModelErrorName, WellNamed, DumpOf;
    LineParses(a, g);
    NameIs(a, g);
  }

  lemma TypesExcluded(w: World, types: seq<Ty>, at: Register.Version)
    ensures Unreturnable(w, types, at) <==> exists i :: 0 <= i < |types| && Excluded(w.e, types[i], at)
  {
    hide Register.Returnable, Excluded;
    forall i | 0 <= i < |types|
      ensures Register.Returnable(w.e, at, types[i]) <==> !Excluded(w.e, types[i], at)
    {
      TypeExcluded(w.e, types[i], at);
    }
  }

  lemma TypeExcluded(e: Env, t: Ty, at: Register.Version)
    ensures Register.Returnable(e, at, t) <==> !Excluded(e, t, at)
  {
    hide Register.Returnable, Register.SemverLt, Register.HoldsForbidden;
    Register.ReturnableExactly(e, at, t);
  }

  lemma SharedWindow(at: Register.Version)
    ensures Register.IsActive(Register.X_ERRSEL, Some(at))
       <==> !Register.SemverLt(at, Register.V120) && Register.SemverLt(at, Register.V130)
  {
    hide Register.SemverLt;
  }

  lemma SelectorListed(t: Declared, a: Outcome, data: seq<byte>)
    requires FourBytes(t)
    ensures forall selector <- TableFor(t, a, data).defs :: |selector| == 4
  {
  }

  /** A revert is out of scope exactly when it is refused, by its own bytes, the declarations
      and the error the model reports. */
  lemma RevertScopeExactly(w: World, m: Measured, a: Outcome, g: seq<Segment>, at: Register.Version)
    requires WellNamed(a) && DumpOf(a, g) && FourBytes(w.declared)
    ensures RevertOutOfScope(w, m, Strip(Line(a, g)), at) <==> !m.ok && RevertRefused(w.e, w.declared, a, m.data, at)
  {
    hide Line, Strip, ErrorsFor, TableFor, Excluded, Unreturnable, Register.IsActive, WellNamed, DumpOf;
    SelectorListed(w.declared, a, m.data);
    if !m.ok {
      TableIs(w.declared, m, a, g);
      SharedWindow(at);
      var defs := TableFor(w.declared, a, m.data).defs;
      if |m.data| >= 4 && m.data[..4] in defs { TypesExcluded(w, defs[m.data[..4]].types, at); }
    }
  }

  /** Short data and undeclared selectors, Error and Panic among them, are never refused; a
      declared error that shares its selector with no other is refused exactly when one of
      its parameters is excluded. */
  lemma UndeclaredCompared(e: Env, t: Declared, a: Outcome, data: seq<byte>, at: Register.Version)
    ensures |data| < 4 ==> !RevertRefused(e, t, a, data, at)
    ensures |data| >= 4 && data[..4] !in t.errors.defs && data[..4] !in t.collisions ==>
      !RevertRefused(e, t, a, data, at)
    ensures |data| >= 4 && data[..4] in t.errors.defs && data[..4] !in t.collisions ==>
      var types := t.errors.defs[data[..4]].types;
      RevertRefused(e, t, a, data, at) <==> exists i :: 0 <= i < |types| && Excluded(e, types[i], at)
  {
    hide Excluded;
  }
}
