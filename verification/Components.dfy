/** Which types a type is built from, by chains of components. */
module Components {
  import opened AbiTypes

  /** u is the element type of the array t, or a member type of the struct t. */
  predicate Inside(e: Env, t: Ty, u: Ty) {
    match t
    case TArray(el) => u == el
    case TFixedArray(el, _) => u == el
    case TStruct(s) => s in e.structs && u in e.structs[s]
    case _ => false
  }

  predicate Chain(e: Env, path: seq<Ty>) {
    path != [] && forall i :: 0 <= i < |path| - 1 ==> Inside(e, path[i], path[i + 1])
  }

  /** Some chain of components leads from t to u. */
  ghost predicate Reaches(e: Env, t: Ty, u: Ty) {
    exists path :: Chain(e, path) && path[0] == t && path[|path| - 1] == u
  }

  lemma ReachSelf(e: Env, t: Ty)
    ensures Reaches(e, t, t)
  {
    assert Chain(e, [t]);
  }

  lemma ReachStep(e: Env, t: Ty, u: Ty, z: Ty)
    requires Inside(e, t, u) && Reaches(e, u, z)
    ensures Reaches(e, t, z)
  {
    hide Inside;
    var path :| Chain(e, path) && path[0] == u && path[|path| - 1] == z;
    var longer := [t] + path;
    assert Chain(e, longer) by {
      forall i | 0 <= i < |longer| - 1
        ensures Inside(e, longer[i], longer[i + 1])
      {
        if i > 0 { assert Inside(e, path[i - 1], path[i]); }
      }
    }
  }

  lemma ReachSplit(e: Env, t: Ty, z: Ty) returns (u: Ty)
    requires Reaches(e, t, z) && t != z
    ensures Inside(e, t, u) && Reaches(e, u, z)
  {
    hide Inside;
    var path :| Chain(e, path) && path[0] == t && path[|path| - 1] == z;
    u := path[1];
    assert Inside(e, path[0], path[1]);
    var rest := path[1..];
    assert Chain(e, rest) by {
      forall i | 0 <= i < |rest| - 1
        ensures Inside(e, rest[i], rest[i + 1])
      {
        assert Inside(e, path[i + 1], path[i + 2]);
      }
    }
  }

  /** A component is less deep. */
  lemma InsideLower(e: Env, t: Ty, u: Ty)
    requires Inside(e, t, u)
    ensures e.Height(u) < e.Height(t)
  {
    if t.TStruct? {
      var i :| 0 <= i < |e.structs[t.name]| && e.structs[t.name][i] == u;
      assert e.Height(e.structs[t.name][i]) < e.rank[t.name];
    }
  }

  // ----- dynamic types -----

  predicate Unsized(t: Ty) { t.TBytes? || t.TArray? }

  /** Somewhere inside t are bytes, a string or a T[]. */
  ghost predicate HoldsUnsized(e: Env, t: Ty) { exists u :: Unsized(u) && Reaches(e, t, u) }

  lemma InsideDynamic(e: Env, t: Ty)
    ensures IsDynamic(e, t) <==> Unsized(t) || exists u :: Inside(e, t, u) && IsDynamic(e, u)
  {
    match t {
      case TFixedArray(el, _) =>
        assert Inside(e, t, el);
      case TStruct(s) =>
        if s in e.structs {
          if i :| 0 <= i < |e.structs[s]| && IsDynamic(e, e.structs[s][i]) {
            assert Inside(e, t, e.structs[s][i]);
          }
        }
      case _ =>
    }
  }

  /** A type is dynamic exactly when a chain of components leads to bytes, a string or a
      T[]; the lengths of fixed arrays play no part. */
  lemma {:induction false} DynamicExactly(e: Env, t: Ty)
    ensures IsDynamic(e, t) <==> HoldsUnsized(e, t)
    decreases e.Height(t)
  {
    hide IsDynamic, Reaches, Inside;
    InsideDynamic(e, t);
    if Unsized(t) {
      ReachSelf(e, t);
    } else {
      if u :| Inside(e, t, u) && IsDynamic(e, u) {
        InsideLower(e, t, u);
        DynamicExactly(e, u);
        var z :| Unsized(z) && Reaches(e, u, z);
        ReachStep(e, t, u, z);
      }
      if z :| Unsized(z) && Reaches(e, t, z) {
        var u := ReachSplit(e, t, z);
        InsideLower(e, t, u);
        DynamicExactly(e, u);
      }
    }
  }
}
