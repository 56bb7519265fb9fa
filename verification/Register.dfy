/** The exclusion register's versions, windows and parameter fences. */
module Register {
  import opened Basics
  import opened Text
  import opened AbiTypes
  import opened Components
  import opened PyText

  type Version = seq<int>

  // ----- versions -----

  function Part(p: string): int {
    match ParseInt(p)
    case Some(n) => n
    case None => 0
  }

  function Parse(v: string): Version {
    var ps := Split(v, '.');
    seq(|ps|, i requires 0 <= i < |ps| => Part(ps[i]))
  }

  /** A dotted version is parsed to its numbers. */
  lemma PrintedVersion(ns: seq<nat>, ps: seq<string>)
    requires ns != [] && |ps| == |ns| && forall i :: 0 <= i < |ns| ==> ps[i] == Decimal(ns[i])
    ensures Parse(Join(".", ps)) == ns
  {
    hide ParseInt;
    forall i | 0 <= i < |ns|
      ensures Without(ps[i], '.') && ParseInt(ps[i]) == Some(ns[i])
    {
      ParseDecimal(ns[i]);
    }
    SplitJoin(ps, '.');
  }

  method SemverTuple(v: string) returns (parts: Version)
    ensures parts == Parse(v)
    ensures var ps := Split(v, '.');
      |parts| == |ps| && forall i :: 0 <= i < |ps| && ParseInt(ps[i]).None? ==> parts[i] == 0
  {
    var ps := Split(v, '.');
    parts := [];
    for i := 0 to |ps|
      invariant parts == Parse(v)[..i]
    {
      parts := parts + [Part(ps[i])];
    }
  }

  /** Component i, zero past the end. */
  function At(v: Version, i: nat): int { if i < |v| then v[i] else 0 }

  function Pad(v: Version, n: nat): (r: Version)
    ensures |r| == |v| + n
  {
    v + seq(n, _ => 0)
  }

  /** Python's < on tuples. */
  predicate TupleLt(a: seq<int>, b: seq<int>) {
    if b == [] then false
    else if a == [] then true
    else a[0] < b[0] || (a[0] == b[0] && TupleLt(a[1..], b[1..]))
  }

  predicate SemverLt(a: Version, b: Version) {
    var n := if |a| >= |b| then |a| else |b|;
    TupleLt(Pad(a, n - |a|), Pad(b, n - |b|))
  }

  /** a is below b first at component i. */
  predicate BelowAt(a: Version, b: Version, i: nat) {
    At(a, i) < At(b, i) && forall j :: 0 <= j < i ==> At(a, j) == At(b, j)
  }

  lemma {:induction false} TupleLtFirst(a: seq<int>, b: seq<int>)
    requires |a| == |b|
    ensures TupleLt(a, b) <==> exists i :: 0 <= i < |a| && BelowAt(a, b, i)
  {
    if a != [] {
      TupleLtFirst(a[1..], b[1..]);
      if a[0] < b[0] { assert BelowAt(a, b, 0); }
      if i :| 0 <= i < |a[1..]| && BelowAt(a[1..], b[1..], i) && a[0] == b[0] {
        assert BelowAt(a, b, i + 1) by {
          forall j | 0 <= j < i + 1
            ensures At(a, j) == At(b, j)
          {
            if j > 0 { assert At(a[1..], j - 1) == At(b[1..], j - 1); }
          }
        }
      }
      if i :| 0 <= i < |a| && BelowAt(a, b, i) {
        if i > 0 {
          assert At(a, 0) == At(b, 0);
          assert BelowAt(a[1..], b[1..], i - 1) by {
            forall j | 0 <= j < i - 1
              ensures At(a[1..], j) == At(b[1..], j)
            {
              assert At(a, j + 1) == At(b, j + 1);
            }
          }
        }
      }
    }
  }

  /** _semver_lt compares the first differing component, missing components being 0. */
  lemma SemverLtExactly(a: Version, b: Version)
    ensures SemverLt(a, b) <==> exists i: nat :: BelowAt(a, b, i)
  {
    var n := if |a| >= |b| then |a| else |b|;
    var p, q := Pad(a, n - |a|), Pad(b, n - |b|);
    TupleLtFirst(p, q);
    assert forall i: nat :: At(p, i) == At(a, i) && At(q, i) == At(b, i);
    if i :| 0 <= i < |p| && BelowAt(p, q, i) { assert BelowAt(a, b, i); }
    if i: nat :| BelowAt(a, b, i) { assert i < n && BelowAt(p, q, i); }
  }

  /** The same version up to trailing zeros. */
  ghost predicate SameVersion(a: Version, b: Version) { forall i: nat :: At(a, i) == At(b, i) }

  lemma {:induction false} FirstDifference(a: Version, b: Version, n: nat)
    requires forall j :: 0 <= j < n ==> At(a, j) == At(b, j)
    requires !SameVersion(a, b)
    ensures exists i: nat :: BelowAt(a, b, i) || BelowAt(b, a, i)
    decreases (if |a| >= |b| then |a| else |b|) - n
  {
    if At(a, n) < At(b, n) {
      assert BelowAt(a, b, n);
    } else if At(a, n) > At(b, n) {
      assert BelowAt(b, a, n);
    } else if n < |a| || n < |b| {
      FirstDifference(a, b, n + 1);
    }
  }

  /** A strict weak order whose ties are exactly the versions equal up to trailing zeros. */
  lemma SemverOrder(a: Version, b: Version, c: Version)
    ensures !SemverLt(a, a)
    ensures SemverLt(a, b) ==> !SemverLt(b, a)
    ensures SemverLt(a, b) && SemverLt(b, c) ==> SemverLt(a, c)
    ensures !SemverLt(a, b) && !SemverLt(b, a) <==> SameVersion(a, b)
    ensures SameVersion(a, b) ==> (SemverLt(a, c) <==> SemverLt(b, c)) && (SemverLt(c, a) <==> SemverLt(c, b))
  {
    hide SemverLt;
    SemverLtExactly(a, a);
    SemverLtExactly(a, b);
    SemverLtExactly(b, a);
    SemverLtExactly(b, c);
    SemverLtExactly(a, c);
    SemverLtExactly(c, a);
    SemverLtExactly(c, b);
    if SemverLt(a, b) && SemverLt(b, c) { Transitive(a, b, c); }
    if !SameVersion(a, b) { FirstDifference(a, b, 0); }
    if SameVersion(a, b) { SameBelow(a, b, c); }
  }

  lemma Transitive(a: Version, b: Version, c: Version)
    requires (exists i: nat :: BelowAt(a, b, i)) && (exists j: nat :: BelowAt(b, c, j))
    ensures exists k: nat :: BelowAt(a, c, k)
  {
    var i: nat :| BelowAt(a, b, i);
    var j: nat :| BelowAt(b, c, j);
    assert BelowAt(a, c, if i <= j then i else j);
  }

  lemma SameBelow(a: Version, b: Version, c: Version)
    requires SameVersion(a, b)
    ensures forall i: nat :: (BelowAt(a, c, i) <==> BelowAt(b, c, i)) && (BelowAt(c, a, i) <==> BelowAt(c, b, i))
    ensures forall i: nat :: !BelowAt(a, b, i) && !BelowAt(b, a, i)
  {
  }

  // ----- windows -----

  datatype Row = Row(id: string, since: Version, removed: Option<Version>)

  /** With no version, the live register: rows never removed. */
  predicate IsActive(row: Row, at: Option<Version>) {
    match at
    case None => row.removed.None?
    case Some(v) =>
      if SemverLt(v, row.since) then false
      else if row.removed.Some? && !SemverLt(v, row.removed.value) then false
      else true
  }

  const V100: Version := [1, 0, 0]
  const V120: Version := [1, 2, 0]
  const V130: Version := [1, 3, 0]
  const V140: Version := [1, 4, 0]
  const V160: Version := [1, 6, 0]

  const X_ASM: Row := Row("X-ASM", V100, None)
  const X_IMPORT: Row := Row("X-IMPORT", V100, None)
  const X_RETABI: Row := Row("X-RETABI", V120, Some(V130))
  const X_ARGVAL: Row := Row("X-ARGVAL", V130, Some(V140))
  const X_FNARG: Row := Row("X-FNARG", V140, Some(V160))
  const X_INTFNARG: Row := Row("X-INTFNARG", V160, None)
  const X_FNVAL: Row := Row("X-FNVAL", V130, Some(V140))
  const X_INTFNVAL: Row := Row("X-INTFNVAL", V140, None)
  const X_ERRSEL: Row := Row("X-ERRSEL", V120, Some(V130))

  /** The first active row of a list. */
  function ActiveRow(rows: seq<Row>, at: Option<Version>): Option<Row> {
    if rows == [] then None
    else if IsActive(rows[0], at) then Some(rows[0])
    else ActiveRow(rows[1..], at)
  }

  const PARAM_ROWS: seq<Row> := [X_INTFNARG, X_FNARG, X_ARGVAL, X_RETABI]
  const RETURN_ROWS: seq<Row> := [X_INTFNVAL, X_FNVAL]

  lemma Milestones()
    ensures SemverLt(V100, V120) && SemverLt(V120, V130) && SemverLt(V130, V140) && SemverLt(V140, V160)
  {
    SemverLtExactly(V100, V120);
    SemverLtExactly(V120, V130);
    SemverLtExactly(V130, V140);
    SemverLtExactly(V140, V160);
    assert BelowAt(V100, V120, 1) && BelowAt(V120, V130, 1) && BelowAt(V130, V140, 1) && BelowAt(V140, V160, 1);
  }

  /** Before a milestone stays before every later one. */
  lemma MilestonesFor(v: Version)
    ensures SemverLt(v, V120) ==> SemverLt(v, V130)
    ensures SemverLt(v, V130) ==> SemverLt(v, V140)
    ensures SemverLt(v, V140) ==> SemverLt(v, V160)
    ensures SemverLt(v, V100) ==> SemverLt(v, V120)
  {
    hide SemverLt;
    Milestones();
    SemverOrder(v, V120, V130);
    SemverOrder(v, V130, V140);
    SemverOrder(v, V140, V160);
    SemverOrder(v, V100, V120);
  }

  function Active(rows: seq<Row>, v: Version): nat {
    if rows == [] then 0 else (if IsActive(rows[0], Some(v)) then 1 else 0) + Active(rows[1..], v)
  }

  /** From 1.2.0 on exactly one parameter row and exactly one return row is in force;
      before it none is. */
  lemma OneRowInForce(v: Version)
    ensures Active(PARAM_ROWS, v) == if SemverLt(v, V120) then 0 else 1
    ensures Active([X_RETABI, X_FNVAL, X_INTFNVAL], v) == if SemverLt(v, V120) then 0 else 1
    ensures ActiveRow(PARAM_ROWS, Some(v))
         == if SemverLt(v, V120) then None
            else if SemverLt(v, V130) then Some(X_RETABI)
            else if SemverLt(v, V140) then Some(X_ARGVAL)
            else if SemverLt(v, V160) then Some(X_FNARG)
            else Some(X_INTFNARG)
    ensures ActiveRow(RETURN_ROWS, Some(v))
         == if SemverLt(v, V130) then None
            else if SemverLt(v, V140) then Some(X_FNVAL)
            else Some(X_INTFNVAL)
  {
    hide SemverLt;
    MilestonesFor(v);
    CountFour(X_INTFNARG, X_FNARG, X_ARGVAL, X_RETABI, v);
    CountThree(X_RETABI, X_FNVAL, X_INTFNVAL, v);
    ActiveCons(X_FNVAL, [], v);
    ActiveCons(X_INTFNVAL, [X_FNVAL], v);
    assert [X_FNVAL] + [] == [X_FNVAL] && [X_INTFNVAL] + [X_FNVAL] == RETURN_ROWS;
  }

  lemma ActiveCons(a: Row, rest: seq<Row>, v: Version)
    ensures Active([a] + rest, v) == (if IsActive(a, Some(v)) then 1 else 0) + Active(rest, v)
    ensures ActiveRow([a] + rest, Some(v)) == if IsActive(a, Some(v)) then Some(a) else ActiveRow(rest, Some(v))
  {
    hide IsActive;
    assert ([a] + rest)[1..] == rest;
  }

  lemma CountThree(a: Row, b: Row, c: Row, v: Version)
    ensures Active([a, b, c], v)
         == (if IsActive(a, Some(v)) then 1 else 0) + (if IsActive(b, Some(v)) then 1 else 0)
            + (if IsActive(c, Some(v)) then 1 else 0)
  {
    hide IsActive;
    ActiveCons(c, [], v);
    ActiveCons(b, [c], v);
    ActiveCons(a, [b, c], v);
    assert [c] + [] == [c] && [b] + [c] == [b, c] && [a] + [b, c] == [a, b, c];
  }

  lemma CountFour(a: Row, b: Row, c: Row, d: Row, v: Version)
    ensures Active([a, b, c, d], v) == (if IsActive(a, Some(v)) then 1 else 0) + Active([b, c, d], v)
    ensures Active([b, c, d], v)
         == (if IsActive(b, Some(v)) then 1 else 0) + (if IsActive(c, Some(v)) then 1 else 0)
            + (if IsActive(d, Some(v)) then 1 else 0)
    ensures ActiveRow([a, b, c, d], Some(v))
         == if IsActive(a, Some(v)) then Some(a) else if IsActive(b, Some(v)) then Some(b)
            else if IsActive(c, Some(v)) then Some(c) else if IsActive(d, Some(v)) then Some(d) else None
  {
    hide IsActive;
    CountThree(b, c, d, v);
    ActiveCons(d, [], v);
    ActiveCons(c, [d], v);
    ActiveCons(b, [c, d], v);
    ActiveCons(a, [b, c, d], v);
    assert [d] + [] == [d] && [c] + [d] == [c, d] && [b] + [c, d] == [b, c, d] && [a] + [b, c, d] == [a, b, c, d];
  }

  // ----- the shape fences -----

  /** The pre-1.4.0 rule: no arrays, structs, tuples or functions. */
  predicate Representable(t: Ty) {
    match t
    case TArray(_) => false
    case TFixedArray(_, _) => false
    case TStruct(_) => false
    case TTuple => false
    case TFunction(_) => false
    case _ => true
  }

  /** The later rule: arrays, resolvable structs, and external functions if allowed. On
      types as data the parameter and the return predicate coincide. */
  predicate Encodable(e: Env, t: Ty, externalOk: bool)
    decreases e.Height(t), 0
  {
    match t
    case TArray(el) => Encodable(e, el, externalOk)
    case TFixedArray(el, _) => Encodable(e, el, externalOk)
    case TFunction(external) => externalOk && external
    case TStruct(s) =>
      s in e.structs && forall i :: 0 <= i < |e.structs[s]| ==> Encodable(e, e.structs[s][i], externalOk)
    case TTuple => false
    case TMapping => false
    case _ => true
  }

  /** Is a parameter of type t let past the shape fence at version v? */
  predicate Admitted(e: Env, v: Version, t: Ty) {
    match ActiveRow(PARAM_ROWS, Some(v))
    case None => true
    case Some(row) =>
      if row == X_ARGVAL || row == X_RETABI then Representable(t)
      else Encodable(e, t, row == X_INTFNARG)
  }

  /** Is a return or revert type let past the shape fence at version v? */
  predicate Returnable(e: Env, v: Version, t: Ty) {
    if IsActive(X_RETABI, Some(v)) then Representable(t)
    else
      match ActiveRow(RETURN_ROWS, Some(v))
      case None => true
      case Some(row) => Encodable(e, t, row == X_INTFNVAL)
  }

  // ----- what the fences keep out, by the components of a type -----

  /** A type no value of which crosses a call boundary; external functions only may. */
  predicate Forbidden(e: Env, t: Ty, externalOk: bool) {
    match t
    case TMapping => true
    case TTuple => true
    case TFunction(external) => !(external && externalOk)
    case TStruct(s) => s !in e.structs
    case _ => false
  }

  /** A chain of components leads from t to such a type. */
  ghost predicate HoldsForbidden(e: Env, t: Ty, externalOk: bool) {
    exists u :: Forbidden(e, u, externalOk) && Reaches(e, t, u)
  }

  lemma InsideEncodable(e: Env, t: Ty, externalOk: bool)
    ensures Encodable(e, t, externalOk)
       <==> !Forbidden(e, t, externalOk) && forall u :: Inside(e, t, u) ==> Encodable(e, u, externalOk)
  {
    match t {
      case TArray(el) => assert Inside(e, t, el);
      case TFixedArray(el, _) => assert Inside(e, t, el);
      case TStruct(s) =>
        if s in e.structs {
          forall i | 0 <= i < |e.structs[s]|
            ensures Inside(e, t, e.structs[s][i])
          {
          }
        }
      case _ =>
    }
  }

  lemma {:induction false} EncodableExactly(e: Env, t: Ty, externalOk: bool)
    ensures Encodable(e, t, externalOk) <==> !HoldsForbidden(e, t, externalOk)
    decreases e.Height(t)
  {
    hide Encodable, Reaches, Inside, Forbidden;
    InsideEncodable(e, t, externalOk);
    if Forbidden(e, t, externalOk) {
      ReachSelf(e, t);
    } else {
      if u :| Inside(e, t, u) && !Encodable(e, u, externalOk) {
        InsideLower(e, t, u);
        EncodableExactly(e, u, externalOk);
        var z :| Forbidden(e, z, externalOk) && Reaches(e, u, z);
        ReachStep(e, t, u, z);
      }
      if z :| Forbidden(e, z, externalOk) && Reaches(e, t, z) {
        var u := ReachSplit(e, t, z);
        InsideLower(e, t, u);
        EncodableExactly(e, u, externalOk);
      }
    }
  }

  /** A parameter type is admitted always before 1.2.0; to 1.4.0 exactly when it is no array,
      struct, tuple or function; then when nothing inside is forbidden, external functions
      counting as forbidden before 1.6.0. */
  lemma AdmittedExactly(e: Env, v: Version, t: Ty)
    ensures Admitted(e, v, t)
       <==> || SemverLt(v, V120)
            || (if SemverLt(v, V140)
                then !(t.TArray? || t.TFixedArray? || t.TStruct? || t.TTuple? || t.TFunction?)
                else !HoldsForbidden(e, t, !SemverLt(v, V160)))
  {
    hide SemverLt, ActiveRow, Active, HoldsForbidden, Encodable;
    OneRowInForce(v);
    MilestonesFor(v);
    EncodableExactly(e, t, !SemverLt(v, V160));
  }

  /** The same for return types and the parameters of errors, one release earlier, external
      functions being forbidden before 1.4.0. */
  lemma ReturnableExactly(e: Env, v: Version, t: Ty)
    ensures Returnable(e, v, t)
       <==> || SemverLt(v, V120)
            || (if SemverLt(v, V130)
                then !(t.TArray? || t.TFixedArray? || t.TStruct? || t.TTuple? || t.TFunction?)
                else !HoldsForbidden(e, t, !SemverLt(v, V140)))
  {
    hide SemverLt, ActiveRow, Active, HoldsForbidden, Encodable;
    OneRowInForce(v);
    MilestonesFor(v);
    EncodableExactly(e, t, !SemverLt(v, V140));
  }

  lemma {:induction false} EncodableGrows(e: Env, t: Ty)
    ensures Encodable(e, t, false) ==> Encodable(e, t, true)
    decreases e.Height(t)
  {
    match t {
      case TArray(el) => EncodableGrows(e, el);
      case TFixedArray(el, _) => EncodableGrows(e, el);
      case TStruct(s) =>
        if s in e.structs {
          forall i | 0 <= i < |e.structs[s]|
            ensures Encodable(e, e.structs[s][i], false) ==> Encodable(e, e.structs[s][i], true)
          {
            EncodableGrows(e, e.structs[s][i]);
          }
        }
      case _ =>
    }
  }

  /** From 1.2.0 on, a later register admits every type an earlier one did; mappings are
      the one exception, and only across 1.4.0. */
  lemma AdmittedGrows(e: Env, a: Version, b: Version, t: Ty)
    requires !SemverLt(a, V120) && !SemverLt(b, a) && Admitted(e, a, t)
    ensures Admitted(e, b, t) <==> !(t.TMapping? && SemverLt(a, V140) && !SemverLt(b, V140))
  {
    hide SemverLt, ActiveRow, Active;
    OneRowInForce(a);
    OneRowInForce(b);
    MilestonesFor(a);
    MilestonesFor(b);
    NotBefore(a, b, V120);
    NotBefore(a, b, V130);
    NotBefore(a, b, V140);
    NotBefore(a, b, V160);
    EncodableGrows(e, t);
  }

  /** The same for return types, where mappings drop out one release earlier. */
  lemma ReturnableGrows(e: Env, a: Version, b: Version, t: Ty)
    requires !SemverLt(a, V120) && !SemverLt(b, a) && Returnable(e, a, t)
    ensures Returnable(e, b, t) <==> !(t.TMapping? && SemverLt(a, V130) && !SemverLt(b, V130))
  {
    hide SemverLt, ActiveRow, Active;
    OneRowInForce(a);
    OneRowInForce(b);
    MilestonesFor(a);
    MilestonesFor(b);
    NotBefore(a, b, V120);
    NotBefore(a, b, V130);
    NotBefore(a, b, V140);
    EncodableGrows(e, t);
  }

  /** A milestone reached at a is reached at every later b. */
  lemma NotBefore(a: Version, b: Version, m: Version)
    requires !SemverLt(b, a)
    ensures SemverLt(b, m) ==> SemverLt(a, m)
  {
    hide SemverLt;
    SemverOrder(a, b, m);
    SemverOrder(b, m, a);
    SemverOrder(m, a, b);
    SemverOrder(b, a, m);
  }

  /** A mapping passes the parameter fence at 1.3.0 and not at 1.4.0, the return fence at
      1.2.0 and not at 1.3.0. */
  lemma MappingDropsOut(e: Env)
    ensures Admitted(e, V130, TMapping) && !Admitted(e, V140, TMapping)
    ensures Returnable(e, V120, TMapping) && !Returnable(e, V130, TMapping)
  {
    hide SemverLt, ActiveRow, Active;
    Milestones();
    OneRowInForce(V120);
    OneRowInForce(V130);
    OneRowInForce(V140);
    MilestonesFor(V120);
    MilestonesFor(V130);
    SemverOrder(V120, V120, V130);
    SemverOrder(V130, V130, V120);
    SemverOrder(V140, V140, V130);
    SemverOrder(V130, V140, V120);
    SemverOrder(V120, V130, V140);
  }
}
