/** The content-addressed cache: a least-recently-used memory tier bounded in count and
    bytes, and a disk tier checked by a recorded digest. A payload is identified with its
    canonical JSON encoding. */
module HarnessCache {
  import opened Basics

  const SCHEMA: int := 1
  const MAX_ENTRY: nat := 32 * 1024 * 1024
  const MAX_SLOTS: nat := 64

  /** The encoding of None, which a reader cannot tell from a miss. */
  const NULL: seq<byte> := [0x6E, 0x75, 0x6C, 0x6C]

  datatype Key = Key(ns: string, hash: string)

  datatype Slot = Slot(key: Key, raw: seq<byte>)

  /** A disk entry; Unreadable stands for every I/O or format error. */
  datatype File = Unreadable | File(size: nat, schema: int, hash: string, sha: string, payload: seq<byte>)

  /** What the host supplies: sha256 and the size of an encoded entry. */
  datatype Host = Host(digest: seq<byte> -> string, size: File -> nat)

  /** One call's environment. */
  datatype Mode = Mode(enabled: bool, memory: bool, disk: bool, writable: bool)

  datatype State = State(memory: seq<Slot>, disk: map<Key, File>)

  // ----- the memory tier on values -----

  function Find(s: seq<Slot>, k: Key): Option<seq<byte>> {
    if s == [] then None
    else if s[|s| - 1].key == k then Some(s[|s| - 1].raw)
    else Find(s[..|s| - 1], k)
  }

  function Without(s: seq<Slot>, k: Key): (r: seq<Slot>)
    ensures |r| <= |s|
    ensures forall i :: 0 <= i < |r| ==> r[i] in s && r[i].key != k
  {
    if s == [] then []
    else
      var rest := Without(s[..|s| - 1], k);
      if s[|s| - 1].key == k then rest else rest + [s[|s| - 1]]
  }

  function Bytes(s: seq<Slot>): nat {
    if s == [] then 0 else |s[0].raw| + Bytes(s[1..])
  }

  predicate Fits(s: seq<Slot>) { |s| <= MAX_SLOTS && Bytes(s) <= MAX_ENTRY }

  function Evict(s: seq<Slot>): (r: seq<Slot>)
    ensures Fits(r)
  {
    if Fits(s) then s else Evict(s[1..])
  }

  predicate Accepted(raw: seq<byte>) { |raw| <= MAX_ENTRY / 2 }

  function Touch(s: seq<Slot>, k: Key): seq<Slot> {
    match Find(s, k)
    case None => s
    case Some(raw) => Without(s, k) + [Slot(k, raw)]
  }

  function Store(s: seq<Slot>, k: Key, raw: seq<byte>): seq<Slot> {
    if Accepted(raw) then Evict(Without(s, k) + [Slot(k, raw)]) else s
  }

  predicate UniqueKeys(s: seq<Slot>) {
    forall i, j :: 0 <= i < j < |s| ==> s[i].key != s[j].key
  }

  lemma {:induction false} BytesSnoc(s: seq<Slot>, x: Slot)
    ensures Bytes(s + [x]) == Bytes(s) + |x.raw|
  {
    if s == [] {
      assert [] + [x] == [x];
    } else {
      BytesSnoc(s[1..], x);
      assert (s + [x])[1..] == s[1..] + [x];
    }
  }

  lemma {:induction false} BytesWithout(s: seq<Slot>, k: Key)
    requires UniqueKeys(s)
    ensures Bytes(s) == Bytes(Without(s, k)) + match Find(s, k) case None => 0 case Some(raw) => |raw|
  {
    if s != [] {
      var init, x := s[..|s| - 1], s[|s| - 1];
      assert s == init + [x];
      BytesSnoc(init, x);
      BytesWithout(init, k);
      if x.key == k {
        NotFound(init, k);
      } else {
        BytesSnoc(Without(init, k), x);
      }
    }
  }

  lemma {:induction false} NotFound(s: seq<Slot>, k: Key)
    ensures Find(s, k).None? <==> forall i :: 0 <= i < |s| ==> s[i].key != k
    ensures Find(s, k).Some? ==> Slot(k, Find(s, k).value) in s
    ensures Find(s, k).None? ==> Without(s, k) == s
  {
    if s != [] {
      NotFound(s[..|s| - 1], k);
      assert s == s[..|s| - 1] + [s[|s| - 1]];
    }
  }

  lemma {:induction false} EvictSuffix(s: seq<Slot>)
    ensures |Evict(s)| <= |s| && Evict(s) == s[|s| - |Evict(s)|..]
    ensures forall i :: 0 <= i < |s| - |Evict(s)| ==> !Fits(s[i..])
  {
    if Fits(s) {
      assert s == s[0..];
    } else {
      EvictSuffix(s[1..]);
      var d := |s| - |Evict(s)|;
      assert Evict(s) == s[d..];
      forall i | 0 <= i < d
        ensures !Fits(s[i..])
      {
        if i == 0 {
          assert s[0..] == s;
        } else {
          assert s[1..][i - 1..] == s[i..];
        }
      }
    }
  }

  /** What is kept is the longest suffix, most recent last, that fits .. */
  lemma SurvivorsLongest(s: seq<Slot>, k: Key, raw: seq<byte>, i: nat)
    requires Accepted(raw) && i <= |Without(s, k)|
    ensures var all := Without(s, k) + [Slot(k, raw)]; var r := Store(s, k, raw);
            |r| <= |all| && r == all[|all| - |r|..] && (Fits(all[i..]) <==> i >= |all| - |r|)
  {
    var all := Without(s, k) + [Slot(k, raw)];
    EvictSuffix(all);
    var d := |all| - |Evict(all)|;
    if i >= d { FitsShorter(all, d, i); }
  }

  lemma {:induction false} FitsShorter(s: seq<Slot>, i: nat, j: nat)
    requires i <= j <= |s| && Fits(s[i..])
    ensures Fits(s[j..])
    decreases j - i
  {
    if i < j {
      assert s[i..][1..] == s[i + 1..];
      FitsShorter(s, i + 1, j);
    }
  }

  /** .. and the entry just put always survives its own eviction. */
  lemma JustPutSurvives(s: seq<Slot>, k: Key, raw: seq<byte>)
    requires Accepted(raw)
    ensures Find(Store(s, k, raw), k) == Some(raw)
  {
    var all := Without(s, k) + [Slot(k, raw)];
    var n := |Without(s, k)|;
    assert all[n..] == [Slot(k, raw)];
    assert Bytes([Slot(k, raw)]) == |raw| + Bytes([]);
    SurvivorsLongest(s, k, raw, n);
  }

  // ----- every run of get and put on the memory tier -----

  datatype Op = Get(k: Key) | Put(k: Key, raw: seq<byte>)

  function Step(s: seq<Slot>, op: Op): seq<Slot> {
    match op
    case Get(k) => Touch(s, k)
    case Put(k, raw) => Store(s, k, raw)
  }

  /** The memory tier after the first n operations. */
  function Run(ops: seq<Op>, n: nat): seq<Slot>
    requires n <= |ops|
  {
    if n == 0 then [] else Step(Run(ops, n - 1), ops[n - 1])
  }

  predicate Uses(op: Op, k: Key) {
    op.k == k && (op.Put? ==> Accepted(op.raw))
  }

  /** When k was last used; -1 if never. */
  function LastUse(ops: seq<Op>, n: nat, k: Key): (t: int)
    requires n <= |ops|
    ensures -1 <= t < n
  {
    if n == 0 then -1
    else if Uses(ops[n - 1], k) then n - 1
    else LastUse(ops, n - 1, k)
  }

  function LastPut(ops: seq<Op>, n: nat, k: Key): Option<seq<byte>>
    requires n <= |ops|
  {
    if n == 0 then None
    else if ops[n - 1].Put? && Uses(ops[n - 1], k) then Some(ops[n - 1].raw)
    else LastPut(ops, n - 1, k)
  }

  /** Slots lie in order of last use and hold the last accepted put of their key. */
  predicate Faithful(ops: seq<Op>, n: nat, s: seq<Slot>)
    requires n <= |ops|
  {
    && (forall i :: 0 <= i < |s| ==> LastPut(ops, n, s[i].key) == Some(s[i].raw))
    && (forall i, j :: 0 <= i < j < |s| ==> LastUse(ops, n, s[i].key) < LastUse(ops, n, s[j].key))
  }

  /** Slots other than the one used keep their times and values. */
  lemma FaithfulOthers(ops: seq<Op>, n: nat, s: seq<Slot>)
    requires n < |ops| && Faithful(ops, n, s)
    requires forall i :: 0 <= i < |s| ==> !Uses(ops[n], s[i].key)
    ensures Faithful(ops, n + 1, s)
  {
  }

  /** Appending the slot just used. */
  lemma FaithfulUsed(ops: seq<Op>, n: nat, s: seq<Slot>, x: Slot)
    requires n < |ops| && Faithful(ops, n, s)
    requires forall i :: 0 <= i < |s| ==> s[i].key != x.key
    requires Uses(ops[n], x.key) && LastPut(ops, n + 1, x.key) == Some(x.raw)
    ensures Faithful(ops, n + 1, s + [x])
  {
  }

  lemma {:induction false} FaithfulWithout(ops: seq<Op>, n: nat, s: seq<Slot>, k: Key)
    requires n <= |ops| && Faithful(ops, n, s)
    ensures Faithful(ops, n, Without(s, k))
  {
    if s != [] {
      hide LastUse, LastPut;
      var init, x := s[..|s| - 1], s[|s| - 1];
      FaithfulWithout(ops, n, init, k);
      var rest := Without(init, k);
      assert forall i :: 0 <= i < |rest| ==> rest[i] in init;
    }
  }

  lemma FaithfulSuffix(ops: seq<Op>, n: nat, s: seq<Slot>, d: nat)
    requires n <= |ops| && Faithful(ops, n, s) && d <= |s|
    ensures Faithful(ops, n, s[d..])
  {
  }

  lemma {:induction false} BytesKept(s: seq<Slot>, k: Key)
    requires UniqueKeys(s) && Find(s, k).Some?
    ensures Bytes(Touch(s, k)) == Bytes(s) && |Touch(s, k)| == |s|
  {
    BytesWithout(s, k);
    BytesSnoc(Without(s, k), Slot(k, Find(s, k).value));
    WithoutCount(s, k);
  }

  lemma {:induction false} WithoutCount(s: seq<Slot>, k: Key)
    requires UniqueKeys(s)
    ensures |Without(s, k)| == if Find(s, k).Some? then |s| - 1 else |s|
  {
    if s != [] {
      WithoutCount(s[..|s| - 1], k);
      if s[|s| - 1].key == k { NotFound(s[..|s| - 1], k); }
    }
  }

  lemma FaithfulUnique(ops: seq<Op>, n: nat, s: seq<Slot>)
    requires n <= |ops| && Faithful(ops, n, s)
    ensures UniqueKeys(s)
  {
  }

  lemma GetFaithful(ops: seq<Op>, n: nat, s: seq<Slot>)
    requires n < |ops| && ops[n].Get? && Faithful(ops, n, s) && Fits(s)
    ensures Faithful(ops, n + 1, Touch(s, ops[n].k)) && Fits(Touch(s, ops[n].k))
  {
    hide Faithful, Find, Without, LastUse;
    var k := ops[n].k;
    NotFound(s, k);
    match Find(s, k) {
      case None => FaithfulOthers(ops, n, s);
      case Some(raw) =>
        FaithfulUnique(ops, n, s);
        BytesKept(s, k);
        FaithfulWithout(ops, n, s, k);
        assert LastPut(ops, n, k) == Some(raw) by { HeldIsLast(ops, n, s, Slot(k, raw)); }
        FaithfulUsed(ops, n, Without(s, k), Slot(k, raw));
    }
  }

  lemma HeldIsLast(ops: seq<Op>, n: nat, s: seq<Slot>, x: Slot)
    requires n <= |ops| && Faithful(ops, n, s) && x in s
    ensures LastPut(ops, n, x.key) == Some(x.raw)
  {
  }

  lemma PutFaithful(ops: seq<Op>, n: nat, s: seq<Slot>)
    requires n < |ops| && ops[n].Put? && Faithful(ops, n, s) && Fits(s)
    ensures Faithful(ops, n + 1, Store(s, ops[n].k, ops[n].raw)) && Fits(Store(s, ops[n].k, ops[n].raw))
  {
    hide Faithful, Without, LastUse, Evict;
    var k, raw := ops[n].k, ops[n].raw;
    if Accepted(raw) {
      FaithfulWithout(ops, n, s, k);
      FaithfulUsed(ops, n, Without(s, k), Slot(k, raw));
      var all := Without(s, k) + [Slot(k, raw)];
      EvictSuffix(all);
      FaithfulSuffix(ops, n + 1, all, |all| - |Evict(all)|);
    } else {
      FaithfulOthers(ops, n, s);
    }
  }

  lemma StepFaithful(ops: seq<Op>, n: nat, s: seq<Slot>)
    requires n < |ops| && Faithful(ops, n, s) && Fits(s)
    ensures Faithful(ops, n + 1, Step(s, ops[n])) && Fits(Step(s, ops[n])) && UniqueKeys(Step(s, ops[n]))
  {
    hide Faithful, Fits, UniqueKeys, Touch, Store;
    if ops[n].Get? { GetFaithful(ops, n, s); } else { PutFaithful(ops, n, s); }
    FaithfulUnique(ops, n + 1, Step(s, ops[n]));
  }

  lemma StartFaithful(ops: seq<Op>)
    ensures Fits(Run(ops, 0)) && UniqueKeys(Run(ops, 0)) && Faithful(ops, 0, Run(ops, 0))
  {
  }

  /** After any run: both bounds hold, no key is held twice, slots lie in order of last
      use, and a hit is the last accepted put of its key. */
  lemma {:induction false} EveryRun(ops: seq<Op>, n: nat)
    requires n <= |ops|
    ensures Fits(Run(ops, n)) && UniqueKeys(Run(ops, n)) && Faithful(ops, n, Run(ops, n))
  {
    hide Faithful, Fits, UniqueKeys, Step;
    if n == 0 {
      StartFaithful(ops);
    } else {
      EveryRun(ops, n - 1);
      StepFaithful(ops, n - 1, Run(ops, n - 1));
    }
  }

  lemma HitIsLastPut(ops: seq<Op>, k: Key)
    ensures Find(Run(ops, |ops|), k).Some? ==> Find(Run(ops, |ops|), k) == LastPut(ops, |ops|, k)
  {
    hide Faithful, Run;
    EveryRun(ops, |ops|);
    var s := Run(ops, |ops|);
    NotFound(s, k);
    if Find(s, k).Some? { HeldIsLast(ops, |ops|, s, Slot(k, Find(s, k).value)); }
  }

  // ----- both tiers -----

  /** None travels as null, so a stored null reads as a miss. */
  function Answer(raw: seq<byte>): Option<seq<byte>> { if raw == NULL then None else Some(raw) }

  predicate Readable(h: Host, f: File, k: Key) {
    f.File? && f.size <= MAX_ENTRY && f.schema == SCHEMA && f.hash == k.hash && h.digest(f.payload) == f.sha
  }

  function ReadFile(h: Host, disk: map<Key, File>, k: Key): Option<seq<byte>> {
    if k in disk && Readable(h, disk[k], k) then Answer(disk[k].payload) else None
  }

  function Entry(h: Host, k: Key, raw: seq<byte>): File {
    var f := File(0, SCHEMA, k.hash, h.digest(raw), raw);
    f.(size := h.size(f))
  }

  function Fetch(h: Host, s: State, k: Key, m: Mode): (Option<seq<byte>>, State) {
    if !m.enabled then (None, s)
    else if m.memory && Find(s.memory, k).Some? then
      (Answer(Find(s.memory, k).value), s.(memory := Touch(s.memory, k)))
    else if !m.disk then (None, s)
    else (ReadFile(h, s.disk, k), s)
  }

  function Publish(h: Host, s: State, k: Key, raw: seq<byte>, m: Mode): State {
    if !m.enabled || !Accepted(raw) then s
    else State(if m.memory then Store(s.memory, k, raw) else s.memory,
               if m.disk && m.writable then s.disk[k := Entry(h, k, raw)] else s.disk)
  }

  function Ask(h: Host, s: State, k: Key, computed: seq<byte>, m: Mode): (seq<byte>, State) {
    match Fetch(h, s, k, m)
    case (Some(hit), t) => (hit, t)
    case (None, t) => (computed, Publish(h, t, k, computed, m))
  }

  class Cache {
    var memory: seq<Slot>
    var memoryBytes: int
    var disk: map<Key, File>

    ghost predicate Valid()
      reads this
    {
      memoryBytes == Bytes(memory) && UniqueKeys(memory) && Fits(memory)
    }

    ghost function View(): State
      reads this
    {
      State(memory, disk)
    }

    constructor ()
      ensures Valid() && View() == State([], map[])
    {
      memory, memoryBytes, disk := [], 0, map[];
    }

    method Get(h: Host, k: Key, m: Mode) returns (hit: Option<seq<byte>>)
      requires Valid()
      modifies this
      ensures Valid() && (hit, View()) == Fetch(h, old(View()), k, m)
    {
      if !m.enabled { return None; }
      if m.memory {
        var raw := Find(memory, k);
        if raw.Some? {
          TouchBounds(memory, k);
          memory := Without(memory, k) + [Slot(k, raw.value)];
          return Answer(raw.value);
        }
      }
      if !m.disk { return None; }
      hit := ReadFile(h, disk, k);
    }

    method Put(h: Host, k: Key, raw: seq<byte>, m: Mode)
      requires Valid()
      modifies this
      ensures Valid() && View() == Publish(h, old(View()), k, raw, m)
    {
      if !m.enabled || |raw| > MAX_ENTRY / 2 { return; }
      if m.memory {
        Remember(k, raw);
      }
      if m.disk && m.writable {
        disk := disk[k := Entry(h, k, raw)];
      }
    }

    /** The locked part of put: replace, append, then evict from the front. */
    method Remember(k: Key, raw: seq<byte>)
      requires Valid() && Accepted(raw)
      modifies this`memory, this`memoryBytes
      ensures Valid() && memory == Store(old(memory), k, raw)
    {
      hide Without, Find, Evict;
      BytesWithout(memory, k);
      WithoutUnique(memory, k);
      var previous := Find(memory, k);
      if previous.Some? {
        memoryBytes := memoryBytes - |previous.value|;
      }
      memory := Without(memory, k);
      BytesSnoc(memory, Slot(k, raw));
      memory := memory + [Slot(k, raw)];
      memoryBytes := memoryBytes + |raw|;
      while |memory| > MAX_SLOTS || memoryBytes > MAX_ENTRY
        invariant memoryBytes == Bytes(memory) && UniqueKeys(memory)
        invariant Evict(memory) == Store(old(memory), k, raw)
        decreases |memory|
      {
        EvictStep(memory);
        memoryBytes := memoryBytes - |memory[0].raw|;
        memory := memory[1..];
      }
      EvictStep(memory);
    }

    method Cached(h: Host, k: Key, compute: Key -> seq<byte>, m: Mode) returns (value: seq<byte>)
      requires Valid()
      modifies this
      ensures Valid() && (value, View()) == Ask(h, old(View()), k, compute(k), m)
    {
      var hit := Get(h, k, m);
      if hit.Some? { return hit.value; }
      value := compute(k);
      Put(h, k, value, m);
    }
  }

  lemma EvictStep(s: seq<Slot>)
    ensures Fits(s) ==> Evict(s) == s
    ensures !Fits(s) ==> s != [] && Evict(s) == Evict(s[1..]) && Bytes(s) == |s[0].raw| + Bytes(s[1..])
  {
  }

  lemma {:induction false} WithoutUnique(s: seq<Slot>, k: Key)
    requires UniqueKeys(s)
    ensures UniqueKeys(Without(s, k))
  {
    if s != [] {
      var init := s[..|s| - 1];
      WithoutUnique(init, k);
      var rest := Without(init, k);
      assert forall i :: 0 <= i < |rest| ==> rest[i] in init;
    }
  }

  lemma TouchBounds(s: seq<Slot>, k: Key)
    requires UniqueKeys(s) && Fits(s) && Find(s, k).Some?
    ensures UniqueKeys(Touch(s, k)) && Fits(Touch(s, k)) && Bytes(Touch(s, k)) == Bytes(s)
  {
    BytesKept(s, k);
    WithoutUnique(s, k);
  }

  /** An accepted entry written to disk is answered from there once memory has lost it, as
      long as its file is kept: exactly when the file, envelope included, is not too large. */
  lemma PublishedReadBack(h: Host, s: State, k: Key, raw: seq<byte>, m: Mode, t: State, n: Mode)
    requires m.enabled && m.disk && m.writable && Accepted(raw)
    requires k in t.disk && t.disk[k] == Publish(h, s, k, raw, m).disk[k]
    requires n.enabled && n.disk && (n.memory ==> forall x :: x in t.memory ==> x.key != k)
    ensures Fetch(h, t, k, n)
         == (if Entry(h, k, raw).size <= MAX_ENTRY && raw != NULL then Some(raw) else None, t)
  {
    NotFound(t.memory, k);
  }

  // ----- content-addressed use, with a hostile disk -----

  predicate Holds(truth: Key -> seq<byte>, x: Slot) { x.raw == truth(x.key) }

  /** The digest recorded for a key is that of its true value; the payload may be anything. */
  predicate Recorded(h: Host, truth: Key -> seq<byte>, k: Key, f: File) {
    f.File? && f.schema == SCHEMA && f.hash == k.hash ==> f.sha == h.digest(truth(k))
  }

  ghost predicate Honest(h: Host, truth: Key -> seq<byte>, s: State) {
    && (forall x :: x in s.memory ==> Holds(truth, x))
    && (forall k :: k in s.disk ==> Recorded(h, truth, k, s.disk[k]))
  }

  ghost predicate CollisionFree(h: Host) {
    forall a, b :: h.digest(a) == h.digest(b) ==> a == b
  }

  lemma TouchHonest(h: Host, truth: Key -> seq<byte>, s: State, k: Key)
    requires Honest(h, truth, s)
    ensures Honest(h, truth, s.(memory := Touch(s.memory, k)))
    ensures Find(s.memory, k).Some? ==> Find(s.memory, k).value == truth(k)
  {
    NotFound(s.memory, k);
    if Find(s.memory, k).Some? { assert Holds(truth, Slot(k, Find(s.memory, k).value)); }
  }

  lemma PublishHonest(h: Host, truth: Key -> seq<byte>, s: State, k: Key, m: Mode)
    requires Honest(h, truth, s)
    ensures Honest(h, truth, Publish(h, s, k, truth(k), m))
  {
    hide Without, Evict;
    var all := Without(s.memory, k) + [Slot(k, truth(k))];
    EvictSuffix(all);
    assert forall x :: x in all ==> Holds(truth, x);
    assert forall x :: x in Evict(all) ==> x in all;
  }

  lemma AskHonest(h: Host, truth: Key -> seq<byte>, s: State, k: Key, m: Mode)
    requires CollisionFree(h) && Honest(h, truth, s)
    ensures Ask(h, s, k, truth(k), m).0 == truth(k)
    ensures Honest(h, truth, Ask(h, s, k, truth(k), m).1)
  {
    hide Find, Touch, Publish;
    TouchHonest(h, truth, s, k);
    PublishHonest(h, truth, Fetch(h, s, k, m).1, k, m);
  }

  /** What may happen between calls: payloads rewritten under the recorded digest, files
      made unreadable, files deleted. */
  datatype Event =
    | Asked(k: Key, m: Mode)
    | Rewritten(k: Key, payload: seq<byte>, size: nat)
    | Corrupted(k: Key)
    | Deleted(k: Key)

  function Happen(h: Host, truth: Key -> seq<byte>, s: State, e: Event): State {
    match e
    case Asked(k, m) => Ask(h, s, k, truth(k), m).1
    case Rewritten(k, payload, size) =>
      if k in s.disk && s.disk[k].File? then
        s.(disk := s.disk[k := s.disk[k].(payload := payload, size := size)])
      else s
    case Corrupted(k) => s.(disk := s.disk[k := Unreadable])
    case Deleted(k) => s.(disk := s.disk - {k})
  }

  function History(h: Host, truth: Key -> seq<byte>, es: seq<Event>, n: nat): State
    requires n <= |es|
  {
    if n == 0 then State([], map[]) else Happen(h, truth, History(h, truth, es, n - 1), es[n - 1])
  }

  lemma HappenHonest(h: Host, truth: Key -> seq<byte>, s: State, e: Event)
    requires CollisionFree(h) && Honest(h, truth, s)
    ensures Honest(h, truth, Happen(h, truth, s, e))
  {
    hide Ask;
    if e.Asked? { AskHonest(h, truth, s, e.k, e.m); }
  }

  lemma {:induction false} HistoryHonest(h: Host, truth: Key -> seq<byte>, es: seq<Event>, n: nat)
    requires CollisionFree(h) && n <= |es|
    ensures Honest(h, truth, History(h, truth, es, n))
  {
    if n > 0 {
      hide Honest, Happen, CollisionFree;
      HistoryHonest(h, truth, es, n - 1);
      HappenHonest(h, truth, History(h, truth, es, n - 1), es[n - 1]);
    }
  }

  /** Whatever happened before, `cached` returns what `compute` would. */
  lemma CachedComputes(h: Host, truth: Key -> seq<byte>, es: seq<Event>, k: Key, m: Mode)
    requires CollisionFree(h)
    ensures Ask(h, History(h, truth, es, |es|), k, truth(k), m).0 == truth(k)
  {
    hide Honest, Ask, CollisionFree, History;
    HistoryHonest(h, truth, es, |es|);
    AskHonest(h, truth, History(h, truth, es, |es|), k, m);
  }
}
