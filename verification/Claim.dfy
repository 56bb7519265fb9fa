/** Claim arguments: the validator, the calldata encoder and the Lean value renderer. */
module Claim {
  import opened Basics
  import opened AbiTypes
  import opened NormalForm
  import opened AbiSpec

  /** A JSON argument of claim.json. */
  datatype Arg =
    | ABool(b: bool)
    | AInt(n: int)                  // a bare JSON integer
    | AWord(w: int)                 // {"word": n}
    | ASigned(z: int)               // {"int": n}
    | ABytes(bs: seq<byte>)         // {"bytes": "0x.."}
    | AList(elems: seq<Arg>)
    | AOther                        // any other JSON value

  datatype Domain = Legal | OutOfScope | Malformed

  const MAX_ARRAY_ARG_LEN: nat := 1024

  function ArgAsWord(a: Arg): Option<nat> {
    match a
    case ABool(b) => Some(if b then 1 else 0)
    case AInt(n) => if n >= 0 then Some(n) else None
    case AWord(w) => if w >= 0 then Some(w) else None
    case _ => None
  }

  function ArgAsSigned(a: Arg): Option<int> {
    match a
    case AInt(n) => Some(n)
    case ASigned(z) => Some(z)
    case AWord(w) => if w >= 0 then Some(w) else None
    case _ => None
  }

  function Below(w: Option<nat>, bound: nat): Domain {
    if w.Some? && w.value < bound then Legal else Malformed
  }

  function ScalarDomain(e: Env, a: Arg, t: Ty): Domain {
    match t
    case TBytes => if a.ABytes? then Legal else Malformed
    case TBool => Below(ArgAsWord(a), 2)
    case TUint(n) => Below(ArgAsWord(a), Pow2(n))
    case TInt(n) =>
      var z, half: int := ArgAsSigned(a), Pow2(n - 1);
      if z.Some? && -half <= z.value < half then Legal else Malformed
    case TAddress => Below(ArgAsWord(a), TWO160)
    case TInterface => Below(ArgAsWord(a), TWO160)
    case TFixedBytes(n) => if n == 32 then Below(ArgAsWord(a), TWO256) else OutOfScope
    case TEnum(s) => if s in e.enums then Below(ArgAsWord(a), e.enums[s]) else OutOfScope
    case _ => OutOfScope
  }

  function FunctionDomain(a: Arg): Domain {
    if !a.AList? || |a.elems| != 2 then Malformed
    else if Below(ArgAsWord(a.elems[0]), TWO160) != Legal then Malformed
    else Below(ArgAsWord(a.elems[1]), TWO32)
  }

  /** Is a a legal high-level value for parameter type t? ext is the register's
      external-function-argument switch. */
  function ArgDomain(e: Env, a: Arg, t: Ty, ext: bool): Domain
    decreases e.Height(t), 0, 0
  {
    if a.AInt? && a.n < 0 then Malformed
    else if Composite(e, t) then
      if !a.AList? then Malformed
      else
        var ts := Fields(e, t, |a.elems|);
        if |a.elems| != |ts| || (t.TArray? && |a.elems| > MAX_ARRAY_ARG_LEN) then Malformed
        else ArgDomains(e, a.elems, ts, ext, |ts|)
    else if t.TFunction? then
      if ext && t.external then FunctionDomain(a) else OutOfScope
    else if t.TStruct? then OutOfScope
    else if a.AList? then Malformed
    else ScalarDomain(e, a, t)
  }

  /** The verdict of the first of the first k components that is not legal. */
  function ArgDomains(e: Env, args: seq<Arg>, ts: seq<Ty>, ext: bool, k: nat): Domain
    requires |args| == |ts| && k <= |ts|
    decreases e.HeightAll(ts), 1, k
  {
    if k == 0 then Legal
    else
      var before := ArgDomains(e, args, ts, ext, k - 1);
      if before != Legal then before else ArgDomain(e, args[k - 1], ts[k - 1], ext)
  }

  predicate Accepted(e: Env, a: Arg, t: Ty, ext: bool) { ArgDomain(e, a, t, ext) == Legal }

  predicate AllAccepted(e: Env, args: seq<Arg>, ts: seq<Ty>, ext: bool) {
    |args| == |ts| && forall i :: 0 <= i < |args| ==> Accepted(e, args[i], ts[i], ext)
  }

  lemma {:induction false} DomainsLegal(e: Env, args: seq<Arg>, ts: seq<Ty>, ext: bool, k: nat)
    requires |args| == |ts| && k <= |ts|
    ensures ArgDomains(e, args, ts, ext, k) == Legal
       <==> forall i :: 0 <= i < k ==> Accepted(e, args[i], ts[i], ext)
  {
    if k > 0 {
      DomainsLegal(e, args, ts, ext, k - 1);
    }
  }

  method ValidateArg(e: Env, a: Arg, t: Ty, ext: bool) returns (r: Domain)
    ensures r == ArgDomain(e, a, t, ext)
    decreases e.Height(t), 0
  {
    if a.AInt? && a.n < 0 { return Malformed; }
    if Composite(e, t) {
      if !a.AList? { return Malformed; }
      var ts := Fields(e, t, |a.elems|);
      if |a.elems| != |ts| || (t.TArray? && |a.elems| > MAX_ARRAY_ARG_LEN) { return Malformed; }
      r := ValidateArgs(e, a.elems, ts, ext);
      return;
    }
    if t.TFunction? {
      return if ext && t.external then FunctionDomain(a) else OutOfScope;
    }
    if t.TStruct? { return OutOfScope; }
    if a.AList? { return Malformed; }
    return ScalarDomain(e, a, t);
  }

  method ValidateArgs(e: Env, args: seq<Arg>, ts: seq<Ty>, ext: bool) returns (r: Domain)
    requires |args| == |ts|
    ensures r == ArgDomains(e, args, ts, ext, |ts|)
    decreases e.HeightAll(ts), 1
  {
    for k := 0 to |ts|
      invariant ArgDomains(e, args, ts, ext, k) == Legal
    {
      var one := ValidateArg(e, args[k], ts[k], ext);
      if one != Legal {
        FirstFailure(e, args, ts, ext, k + 1, |ts|);
        return one;
      }
    }
    return Legal;
  }

  lemma {:induction false} FirstFailure(e: Env, args: seq<Arg>, ts: seq<Ty>, ext: bool, j: nat, k: nat)
    requires |args| == |ts| && j <= k <= |ts|
    requires ArgDomains(e, args, ts, ext, j) != Legal
    ensures ArgDomains(e, args, ts, ext, k) == ArgDomains(e, args, ts, ext, j)
    decreases k
  {
    if j < k {
      FirstFailure(e, args, ts, ext, j, k - 1);
    }
  }

  // ----- the calldata encoder; None where the source raises -----

  /** A scalar by its claim form alone. */
  function EncodeScalar(a: Arg): Option<Part> {
    match a
    case ABool(b) => Some(Part(false, Word(if b then 1 else 0)))
    case AInt(n) => Some(Part(false, Word(n % TWO256)))
    case AWord(w) => Some(Part(false, Word(w % TWO256)))
    case ASigned(z) => Some(Part(false, Word(z % TWO256)))
    case ABytes(bs) =>
      if |bs| < TWO256 then Some(Part(true, Word(|bs|) + bs + Padding(|bs|))) else None
    case _ => None
  }

  /** A component of an [address, selector] argument: JSON booleans raise. */
  function ComponentWord(a: Arg): Option<int> {
    match a
    case AInt(n) => Some(n)
    case AWord(w) => Some(w)
    case _ => None
  }

  function EncodeFunction(a: Arg): Option<Part> {
    if !a.AList? || |a.elems| != 2 then None
    else
      var addr, sel := ComponentWord(a.elems[0]), ComponentWord(a.elems[1]);
      if addr.None? || sel.None? then None
      else Some(Part(false, Word((addr.value % TWO160) * TWO96 + (sel.value % TWO32) * TWO64)))
  }

  function EncodeTyped(e: Env, a: Arg, t: Ty): Option<Part>
    decreases e.Height(t), 0, 0
  {
    if Composite(e, t) then
      if !a.AList? then None
      else
        var ts := Fields(e, t, |a.elems|);
        if |a.elems| != |ts| then None
        else match EncodeTuple(e, a.elems, ts)
          case None => None
          case Some(body) =>
            if t.TArray? then
              if |a.elems| < TWO256 then Some(Part(true, Word(|a.elems|) + body)) else None
            else Some(Part(IsDynamic(e, t), body))
    else if t.TFunction? then
      if t.external then EncodeFunction(a) else None
    else if t.TStruct? || a.AList? then None
    else EncodeScalar(a)
  }

  /** Every offset word must fit: int.to_bytes raises otherwise. */
  predicate OffsetsFit(ps: seq<Part>, k: nat)
    requires k <= |ps|
  {
    forall i :: 0 <= i < k && ps[i].dyn ==> Offset(ps, i) < TWO256
  }

  function EncodeTuple(e: Env, args: seq<Arg>, ts: seq<Ty>): Option<seq<byte>>
    requires |args| == |ts|
    decreases e.HeightAll(ts), 2, 0
  {
    match EncodeParts(e, args, ts, |ts|)
    case None => None
    case Some(ps) => if OffsetsFit(ps, |ps|) then Some(Layout(ps)) else None
  }

  function EncodeParts(e: Env, args: seq<Arg>, ts: seq<Ty>, k: nat): (r: Option<seq<Part>>)
    requires |args| == |ts| && k <= |ts|
    ensures r.Some? ==> |r.value| == k
    decreases e.HeightAll(ts), 1, k
  {
    if k == 0 then Some([])
    else match EncodeParts(e, args, ts, k - 1)
      case None => None
      case Some(ps) =>
        match EncodeTyped(e, args[k - 1], ts[k - 1])
        case None => None
        case Some(p) => Some(ps + [p])
  }

  method EncodeTypedBytes(e: Env, a: Arg, t: Ty) returns (r: Option<Part>)
    ensures r == EncodeTyped(e, a, t)
    decreases e.Height(t), 0
  {
    if Composite(e, t) {
      if !a.AList? { return None; }
      var ts := Fields(e, t, |a.elems|);
      if |a.elems| != |ts| { return None; }
      var body := EncodeTupleBytes(e, a.elems, ts);
      if body.None? { return None; }
      if t.TArray? {
        if |a.elems| >= TWO256 { return None; }
        return Some(Part(true, Word(|a.elems|) + body.value));
      }
      return Some(Part(IsDynamic(e, t), body.value));
    }
    if t.TFunction? {
      return if t.external then EncodeFunction(a) else None;
    }
    if t.TStruct? || a.AList? { return None; }
    return EncodeScalar(a);
  }

  /** Encodes the components, then grows head and tail side by side. */
  method EncodeTupleBytes(e: Env, args: seq<Arg>, ts: seq<Ty>) returns (r: Option<seq<byte>>)
    requires |args| == |ts|
    ensures r == EncodeTuple(e, args, ts)
    decreases e.HeightAll(ts), 1
  {
    var encoded: seq<Part>, headSize := [], 0;
    for k := 0 to |ts|
      invariant EncodeParts(e, args, ts, k) == Some(encoded)
      invariant headSize == HeadLen(encoded, |encoded|)
    {
      var part := EncodeTypedBytes(e, args[k], ts[k]);
      if part.None? {
        PartsFail(e, args, ts, k + 1, |ts|);
        return None;
      }
      HeadLenPrefix(encoded, part.value, |encoded|);
      encoded := encoded + [part.value];
      headSize := headSize + if part.value.dyn then 32 else |part.value.enc|;
    }
    r := LayOut(encoded, headSize);
  }

  method LayOut(encoded: seq<Part>, headSize: nat) returns (r: Option<seq<byte>>)
    requires headSize == HeadLen(encoded, |encoded|)
    ensures r == if OffsetsFit(encoded, |encoded|) then Some(Layout(encoded)) else None
  {
    var head: seq<byte>, tail: seq<byte> := [], [];
    for k := 0 to |encoded|
      invariant head == Heads(encoded, k) && tail == Tails(encoded, k)
      invariant OffsetsFit(encoded, k)
    {
      if encoded[k].dyn {
        if headSize + |tail| >= TWO256 { return None; }
        head := head + Word(headSize + |tail|);
        tail := tail + encoded[k].enc;
      } else {
        head := head + encoded[k].enc;
      }
    }
    return Some(head + tail);
  }

  lemma {:induction false} PartsFail(e: Env, args: seq<Arg>, ts: seq<Ty>, j: nat, k: nat)
    requires |args| == |ts| && j <= k <= |ts| && EncodeParts(e, args, ts, j).None?
    ensures EncodeParts(e, args, ts, k).None?
    decreases k
  {
    if j < k {
      PartsFail(e, args, ts, j, k - 1);
    }
  }

  lemma {:induction false} HeadLenPrefix(ps: seq<Part>, p: Part, k: nat)
    requires k <= |ps|
    ensures HeadLen(ps + [p], k) == HeadLen(ps, k)
  {
    if k > 0 {
      HeadLenPrefix(ps, p, k - 1);
    }
  }

  // ----- the Lean rendering of an argument; None where the source raises or the
  //       emitted literal does not elaborate -----

  function NatWord(n: int): Option<LeanValue> {
    if n >= 0 then Some(LWord(n)) else None
  }

  function LeanScalar(a: Arg): Option<LeanValue> {
    match a
    case ABool(b) => Some(LWord(if b then 1 else 0))
    case AInt(n) => NatWord(n)
    case AWord(w) => NatWord(w)
    case ASigned(z) => Some(LInt(SignedToWord(z)))
    case ABytes(bs) => Some(LBytes(bs))
    case _ => None
  }

  function LeanFunction(a: Arg): Option<LeanValue> {
    if !a.AList? || |a.elems| != 2 then None
    else
      var addr, sel := ComponentWord(a.elems[0]), ComponentWord(a.elems[1]);
      if addr.None? || sel.None? || addr.value < 0 || sel.value < 0 then None
      else Some(LExternalFunction(addr.value, sel.value))
  }

  function LeanList(t: Ty, xs: seq<LeanValue>): LeanValue {
    if t.TArray? then LDynamicArray(xs) else if t.TFixedArray? then LFixedArray(xs) else LTuple(xs)
  }

  function LeanArg(e: Env, a: Arg, t: Ty): Option<LeanValue>
    decreases e.Height(t), 0, 0
  {
    if Composite(e, t) then
      if !a.AList? then None
      else
        var ts := Fields(e, t, |a.elems|);
        if |a.elems| != |ts| then None
        else match LeanArgs(e, a.elems, ts, |ts|)
          case None => None
          case Some(xs) => Some(LeanList(t, xs))
    else if t.TFunction? then
      if t.external then LeanFunction(a) else None
    else if t.TStruct? then None
    else LeanScalar(a)
  }

  function LeanArgs(e: Env, args: seq<Arg>, ts: seq<Ty>, k: nat): (r: Option<seq<LeanValue>>)
    requires |args| == |ts| && k <= |ts|
    ensures r.Some? ==> |r.value| == k
    decreases e.HeightAll(ts), 1, k
  {
    if k == 0 then Some([])
    else match LeanArgs(e, args, ts, k - 1)
      case None => None
      case Some(xs) =>
        match LeanArg(e, args[k - 1], ts[k - 1])
        case None => None
        case Some(x) => Some(xs + [x])
  }
}
