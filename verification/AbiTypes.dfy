/** Solidity types as the harness sees them, the struct table they refer to, and
    the ABI layout predicates both halves of the codec share. */
module AbiTypes {
  import opened Basics

  type pos = n: nat | 1 <= n witness 1
  type width = n: nat | 8 <= n <= 256 witness 256
  type bytesWidth = n: nat | 1 <= n <= 32 witness 32

  datatype Ty =
    | TBytes                                // bytes and string
    | TBool
    | TUint(bits: width)
    | TInt(bits: width)
    | TAddress                              // address and contract types
    | TInterface                            // a typeString starting "interface "
    | TFixedBytes(size: bytesWidth)
    | TEnum(enumName: string)
    | TFixedPoint
    | TMapping
    | TTuple                                // a bare tuple typeString
    | TFunction(external: bool)
    | TArray(elem: Ty)                      // T[]
    | TFixedArray(elem: Ty, count: pos)     // T[N]
    | TStruct(name: string)

  /** The submission's definitions: struct members, enum member counts, and a rank
      witnessing that no struct contains itself (solc rejects recursive ABI structs). */
  datatype Table = Table(structs: map<string, seq<Ty>>, enums: map<string, nat>, rank: map<string, nat>) {

    ghost predicate WellFormed() {
      && (forall s <- structs :: s in rank && structs[s] != []
            && forall i :: 0 <= i < |structs[s]| ==> Height(structs[s][i]) < rank[s])
      && (forall n <- enums :: enums[n] <= 256)
    }

    /** Bounds the nesting reached through arrays and the struct table. */
    function Height(t: Ty): nat {
      match t
      case TArray(el) => 1 + Height(el)
      case TFixedArray(el, _) => 1 + Height(el)
      case TStruct(s) => if s in rank then rank[s] else 0
      case _ => 0
    }

    function HeightAll(ts: seq<Ty>): (h: nat)
      ensures forall i :: 0 <= i < |ts| ==> Height(ts[i]) <= h
      ensures h == 0 || exists i :: 0 <= i < |ts| && Height(ts[i]) == h
    {
      if ts == [] then 0
      else
        var rest := HeightAll(ts[1..]);
        assert forall i :: 0 < i < |ts| ==> ts[i] == ts[1..][i - 1];
        if Height(ts[0]) >= rest then Height(ts[0]) else rest
    }
  }

  type Env = e: Table | e.WellFormed() witness Table(map[], map[], map[])

  /** Python's [t] * n. */
  function Repeat(t: Ty, n: nat): (ts: seq<Ty>)
    ensures |ts| == n && forall i :: 0 <= i < n ==> ts[i] == t
  {
    if n == 0 then [] else [t] + Repeat(t, n - 1)
  }

  /** Arrays and resolvable structs: the types laid out as a tuple of components. */
  predicate Composite(e: Env, t: Ty) {
    t.TArray? || t.TFixedArray? || (t.TStruct? && t.name in e.structs)
  }

  /** The component types of a composite; n is the length of a dynamic array. */
  function Fields(e: Env, t: Ty, n: nat): (ts: seq<Ty>)
    requires Composite(e, t)
    ensures e.HeightAll(ts) < e.Height(t)
    ensures t.TArray? ==> |ts| == n
  {
    match t
    case TArray(el) => Repeat(el, n)
    case TFixedArray(el, k) => Repeat(el, k)
    case TStruct(s) =>
      assert e.Height(e.structs[s][0]) < e.rank[s];
      e.structs[s]
  }

  /** ABI-dynamic: bytes/string, T[], and whatever contains one inline. */
  predicate IsDynamic(e: Env, t: Ty)
    decreases e.Height(t)
  {
    match t
    case TBytes => true
    case TArray(_) => true
    case TFixedArray(el, _) => IsDynamic(e, el)
    case TStruct(s) => s in e.structs && exists i :: 0 <= i < |e.structs[s]| && IsDynamic(e, e.structs[s][i])
    case _ => false
  }

  /** Bytes a value of type t occupies in the head of its tuple. */
  function HeadSize(e: Env, t: Ty): nat
    decreases e.Height(t), 0, 0
  {
    if IsDynamic(e, t) then 32
    else match t
      case TFixedArray(el, n) => n * HeadSize(e, el)
      case TStruct(s) =>
        if s in e.structs then
          var ms := Fields(e, t, 0);
          HeadTotal(e, ms, |ms|)
        else 32
      case _ => 32
  }

  /** Head bytes of the first k fields: the position of field k in the region. */
  function HeadTotal(e: Env, ts: seq<Ty>, k: nat): nat
    requires k <= |ts|
    decreases e.HeightAll(ts), 1, k
  {
    if k == 0 then 0 else HeadTotal(e, ts, k - 1) + HeadSize(e, ts[k - 1])
  }

  lemma {:induction false} HeadSizeWords(e: Env, t: Ty)
    ensures HeadSize(e, t) >= 32 && Whole(HeadSize(e, t))
    decreases e.Height(t), 0, 0
  {
    if !IsDynamic(e, t) {
      match t {
        case TFixedArray(el, n) =>
          HeadSizeWords(e, el);
          MultipleOfWord(HeadSize(e, el), n);
        case TStruct(s) =>
          if s in e.structs {
            var ms := Fields(e, t, 0);
            HeadTotalWords(e, ms, |ms|);
          }
        case _ =>
      }
    }
  }

  lemma {:induction false} HeadTotalWords(e: Env, ts: seq<Ty>, k: nat)
    requires k <= |ts|
    ensures HeadTotal(e, ts, k) >= 32 * k && Whole(HeadTotal(e, ts, k))
    decreases e.HeightAll(ts), 1, k
  {
    if k > 0 {
      HeadTotalWords(e, ts, k - 1);
      HeadSizeWords(e, ts[k - 1]);
      WholeAdd(HeadTotal(e, ts, k - 1), HeadSize(e, ts[k - 1]));
    }
  }

  lemma {:induction false} MultipleOfWord(h: nat, n: pos)
    requires h >= 32 && Whole(h)
    ensures n * h >= 32 && Whole(n * h)
    decreases n
  {
    if n > 1 {
      MultipleOfWord(h, n - 1);
      assert n * h == (n - 1) * h + h;
      WholeAdd((n - 1) * h, h);
    }
  }

  lemma {:induction false} HeadTotalOfRepeat(e: Env, t: Ty, n: nat, k: nat)
    requires k <= n
    ensures HeadTotal(e, Repeat(t, n), k) == k * HeadSize(e, t)
    decreases k
  {
    if k > 0 {
      HeadTotalOfRepeat(e, t, n, k - 1);
      assert k * HeadSize(e, t) == (k - 1) * HeadSize(e, t) + HeadSize(e, t);
    }
  }

  /** A static composite occupies the sum of its components' head sizes. */
  lemma CompositeHeadSize(e: Env, t: Ty, n: nat)
    requires Composite(e, t) && !IsDynamic(e, t)
    ensures HeadSize(e, t) == HeadTotal(e, Fields(e, t, n), |Fields(e, t, n)|)
    ensures forall i :: 0 <= i < |Fields(e, t, n)| ==> !IsDynamic(e, Fields(e, t, n)[i])
  {
    if t.TFixedArray? {
      HeadTotalOfRepeat(e, t.elem, t.count, t.count);
    }
  }
}
