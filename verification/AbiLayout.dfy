/** The bytes of an encoded tuple, told from its values and the components of its types. */
module AbiLayout {
  import opened Basics
  import opened AbiTypes
  import opened Components
  import opened NormalForm
  import opened AbiSpec

  /** T[N] holds N values of T, T[] any number, a struct one value a member. */
  lemma ComponentsTyped(e: Env, v: Val, t: Ty)
    ensures t.TArray? ==> (HasType(e, v, t)
              <==> v.VList? && forall i :: 0 <= i < |v.xs| ==> HasType(e, v.xs[i], t.elem))
    ensures t.TFixedArray? ==> (HasType(e, v, t)
              <==> v.VList? && |v.xs| == t.count && forall i :: 0 <= i < |v.xs| ==> HasType(e, v.xs[i], t.elem))
    ensures t.TStruct? && t.name in e.structs ==> (HasType(e, v, t)
              <==> v.VTuple? && |v.xs| == |e.structs[t.name]|
                   && forall i :: 0 <= i < |v.xs| ==> HasType(e, v.xs[i], e.structs[t.name][i]))
  {
    if Composite(e, t) && (v.VList? || v.VTuple?) {
      var ts := Fields(e, t, |v.xs|);
      assert HaveTypes(e, v.xs, ts)
        <==> |v.xs| == |ts| && forall i :: 0 <= i < |v.xs| ==> HasType(e, v.xs[i], ts[i]);
    }
  }

  /** The words of the leaves of v, in order. */
  function LeafWords(e: Env, v: Val, t: Ty): seq<byte>
    requires HasType(e, v, t)
    decreases e.Height(t), 0, 0
  {
    if Composite(e, t) then LeavesUpTo(e, v.xs, Fields(e, t, |v.xs|), |v.xs|)
    else if t.TBytes? then []
    else Word(WordOf(v, t))
  }

  function LeavesUpTo(e: Env, vs: seq<Val>, ts: seq<Ty>, k: nat): seq<byte>
    requires HaveTypes(e, vs, ts) && k <= |vs|
    decreases e.HeightAll(ts), 1, k
  {
    if k == 0 then [] else LeavesUpTo(e, vs, ts, k - 1) + LeafWords(e, vs[k - 1], ts[k - 1])
  }

  /** Without bytes and T[] inside, a value is its leaf words and nothing else. */
  lemma {:induction false} StaticValue(e: Env, v: Val, t: Ty)
    requires HasType(e, v, t) && !HoldsUnsized(e, t)
    ensures Abi(e, v, t) == LeafWords(e, v, t)
    decreases e.Height(t), 1
  {
    hide Reaches, Inside, HasType, HaveTypes, AbiTuple, LeavesUpTo, Fields, Word;
    ReachSelf(e, t);
    if Composite(e, t) {
      CompositeShape(e, v, t);
      AbiComposite(e, v, t);
      var ts := Fields(e, t, |v.xs|);
      forall i | 0 <= i < |ts|
        ensures !HoldsUnsized(e, ts[i])
      {
        FieldHolds(e, t, |v.xs|, i);
      }
      StaticTuple(e, v.xs, ts);
    }
  }

  /** What a component holds the composite holds. */
  lemma FieldHolds(e: Env, t: Ty, n: nat, i: nat)
    requires Composite(e, t) && i < |Fields(e, t, n)|
    ensures Inside(e, t, Fields(e, t, n)[i])
    ensures HoldsUnsized(e, Fields(e, t, n)[i]) ==> HoldsUnsized(e, t)
  {
    var u := Fields(e, t, n)[i];
    assert Inside(e, t, u);
    hide Reaches, Inside;
    if z :| Unsized(z) && Reaches(e, u, z) { ReachStep(e, t, u, z); }
  }

  lemma {:induction false} StaticHeads(e: Env, ps: seq<Part>, vs: seq<Val>, ts: seq<Ty>, k: nat)
    requires HaveTypes(e, vs, ts) && |ps| == |vs| && k <= |vs|
    requires forall i :: 0 <= i < |ps| ==> !ps[i].dyn && ps[i].enc == LeafWords(e, vs[i], ts[i])
    ensures Heads(ps, k) == LeavesUpTo(e, vs, ts, k)
  {
    hide LeafWords, HaveTypes;
    if k > 0 { StaticHeads(e, ps, vs, ts, k - 1); }
  }

  /** A tuple of such types is the concatenation of the leaf words of its values. */
  lemma {:induction false} StaticTuple(e: Env, vs: seq<Val>, ts: seq<Ty>)
    requires HaveTypes(e, vs, ts) && forall i :: 0 <= i < |ts| ==> !HoldsUnsized(e, ts[i])
    ensures AbiTuple(e, vs, ts) == LeavesUpTo(e, vs, ts, |vs|)
    decreases e.HeightAll(ts), 2
  {
    hide HoldsUnsized, Abi, LeafWords, LeavesUpTo, Heads, Tails;
    var ps := Parts(e, vs, ts);
    forall i | 0 <= i < |ps|
      ensures !ps[i].dyn && ps[i].enc == LeafWords(e, vs[i], ts[i])
    {
      DynamicExactly(e, ts[i]);
      StaticValue(e, vs[i], ts[i]);
    }
    StaticHeads(e, ps, vs, ts, |vs|);
    NoTails(ps, |ps|);
    assert Heads(ps, |ps|) + [] == Heads(ps, |ps|);
  }

  // ----- any tuple -----

  /** Where the slot of value k starts: offset words and inlined leaves before it. */
  ghost function SlotStart(e: Env, vs: seq<Val>, ts: seq<Ty>, k: nat): nat
    requires HaveTypes(e, vs, ts) && k <= |vs|
  {
    if k == 0 then 0
    else SlotStart(e, vs, ts, k - 1)
         + if HoldsUnsized(e, ts[k - 1]) then 32 else |LeafWords(e, vs[k - 1], ts[k - 1])|
  }

  /** Where the tail of value k starts: after all slots and the tails before it. */
  ghost function TailStart(e: Env, vs: seq<Val>, ts: seq<Ty>, k: nat): nat
    requires HaveTypes(e, vs, ts) && k <= |vs|
  {
    if k == 0 then SlotStart(e, vs, ts, |vs|)
    else TailStart(e, vs, ts, k - 1) + if HoldsUnsized(e, ts[k - 1]) then |Abi(e, vs[k - 1], ts[k - 1])| else 0
  }

  lemma PartIs(e: Env, vs: seq<Val>, ts: seq<Ty>, i: nat)
    requires HaveTypes(e, vs, ts) && i < |vs|
    ensures var p := Parts(e, vs, ts)[i];
      && p.dyn == HoldsUnsized(e, ts[i]) && p.enc == Abi(e, vs[i], ts[i])
      && (!p.dyn ==> p.enc == LeafWords(e, vs[i], ts[i]))
  {
    hide HoldsUnsized, Abi, LeafWords;
    DynamicExactly(e, ts[i]);
    if !HoldsUnsized(e, ts[i]) { StaticValue(e, vs[i], ts[i]); }
  }

  lemma {:induction false} SlotIs(e: Env, vs: seq<Val>, ts: seq<Ty>, k: nat)
    requires HaveTypes(e, vs, ts) && k <= |vs|
    ensures HeadLen(Parts(e, vs, ts), k) == SlotStart(e, vs, ts, k)
  {
    hide Parts, HaveTypes, HoldsUnsized, LeafWords, Abi;
    if k > 0 {
      SlotIs(e, vs, ts, k - 1);
      PartIs(e, vs, ts, k - 1);
    }
  }

  lemma {:induction false} TailIs(e: Env, vs: seq<Val>, ts: seq<Ty>, k: nat)
    requires HaveTypes(e, vs, ts) && k <= |vs|
    ensures Offset(Parts(e, vs, ts), k) == TailStart(e, vs, ts, k)
  {
    hide Parts, HaveTypes, HoldsUnsized, LeafWords, Abi;
    if k == 0 {
      SlotIs(e, vs, ts, |vs|);
    } else {
      TailIs(e, vs, ts, k - 1);
      PartIs(e, vs, ts, k - 1);
    }
  }

  /** In any tuple, a value whose type holds neither bytes nor T[] stands inline in its slot,
      and every other value has an offset word there, its encoding starting at that offset. */
  lemma TupleSlots(e: Env, vs: seq<Val>, ts: seq<Ty>, k: nat)
    requires HaveTypes(e, vs, ts) && k < |vs|
    ensures var body, start := AbiTuple(e, vs, ts), SlotStart(e, vs, ts, k);
      if HoldsUnsized(e, ts[k]) then
        var enc, offset := Abi(e, vs[k], ts[k]), TailStart(e, vs, ts, k);
        && start + 32 <= |body| && body[start..start + 32] == Word(offset)
        && offset + |enc| <= |body| && body[offset..offset + |enc|] == enc
      else
        var leaves := LeafWords(e, vs[k], ts[k]);
        start + |leaves| <= |body| && body[start..start + |leaves|] == leaves
  {
    hide Parts, HaveTypes, HoldsUnsized, LeafWords, Abi, Word, Heads, Tails, HeadLen;
    var ps := Parts(e, vs, ts);
    var body := AbiTuple(e, vs, ts);
    assert body == Layout(ps) && body + [] == body;
    PartIs(e, vs, ts, k);
    SlotIs(e, vs, ts, k);
    SlotIs(e, vs, ts, k + 1);
    TailIs(e, vs, ts, k);
    LayoutHead(ps, k, []);
    if ps[k].dyn {
      var enc, offset := ps[k].enc, Offset(ps, k);
      var rest := LayoutTail(ps, k, []);
      assert body[offset..][..|enc|] == enc;
    }
  }

  /** The slots and tails are all there is. */
  lemma TupleEnds(e: Env, vs: seq<Val>, ts: seq<Ty>)
    requires HaveTypes(e, vs, ts)
    ensures |AbiTuple(e, vs, ts)| == TailStart(e, vs, ts, |vs|)
  {
    hide HaveTypes, Parts, Abi, LeafWords, HoldsUnsized;
    TailIs(e, vs, ts, |vs|);
  }

  /** Bytes and strings are a length word, the bytes, and zeros up to a word boundary. */
  lemma BytesPadded(e: Env, v: Val, t: Ty)
    requires HasType(e, v, t) && t.TBytes?
    ensures var enc, n := Abi(e, v, t), |v.bs|;
      && |enc| % 32 == 0 && 32 + n <= |enc| < 64 + n
      && enc[..32] == Word(n) && enc[32..32 + n] == v.bs
      && forall i :: 32 + n <= i < |enc| ==> enc[i] == 0
  {
    hide Word, Padding, Whole;
    PaddingZero(|v.bs|);
    var enc := Abi(e, v, t);
    assert enc == Word(|v.bs|) + v.bs + Padding(|v.bs|);
  }
}
