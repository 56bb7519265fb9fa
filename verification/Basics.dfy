/** Bytes, big-endian words and powers of two, shared by the ABI modules. */
module Basics {

  datatype Option<+T> = None | Some(value: T)

  type byte = x: int | 0 <= x < 256

  const TWO32: int := 0x1_0000_0000
  const TWO64: int := 0x1_0000_0000_0000_0000
  const TWO96: int := 0x1_0000_0000_0000_0000_0000_0000
  const TWO160: int := 0x1_0000000000_0000000000_0000000000_0000000000
  const TWO255: int := 0x8000000000000000_0000000000000000_0000000000000000_0000000000000000
  const TWO256: int := 0x1_0000000000000000_0000000000000000_0000000000000000_0000000000000000

  function Pow2(n: nat): (r: nat)
    ensures r >= 1
  {
    if n == 0 then 1 else 2 * Pow2(n - 1)
  }

  lemma {:induction false} Pow2Add(a: nat, b: nat)
    ensures Pow2(a + b) == Pow2(a) * Pow2(b)
  {
    if a > 0 {
      Pow2Add(a - 1, b);
      MulAssoc(2, Pow2(a - 1), Pow2(b));
    }
  }

  lemma MulAssoc(x: nat, y: nat, z: nat)
    ensures (x * y) * z == x * (y * z)
  {
  }

  lemma {:induction false} Pow2Mono(a: nat, b: nat)
    requires a <= b
    ensures Pow2(a) <= Pow2(b)
    decreases b
  {
    if a < b {
      Pow2Mono(a, b - 1);
    }
  }

  lemma Pow2Step8(k: nat)
    ensures Pow2(8 * (k + 1)) == 256 * Pow2(8 * k)
  {
    Pow2Add(8, 8 * k);
    assert Pow2(8) == 256;
  }

  lemma Pow2Doubled(a: nat, p: nat)
    requires Pow2(a) == p
    ensures Pow2(2 * a) == p * p
  {
    Pow2Add(a, a);
  }

  lemma Pow2One(one: nat)
    requires one == 1
    ensures Pow2(one) == 2
  {
  }

  /** The literals above are the powers they name. */
  lemma WordBoundsAt(one: nat)
    requires one == 1
    ensures Pow2(256 * one) == TWO256 && Pow2(255 * one) == TWO255
    ensures Pow2(160 * one) == TWO160 && Pow2(32 * one) == TWO32
  {
    hide Pow2;
    Pow2One(one);
    Pow2Doubled(one, 2);
    Pow2Doubled(2 * one, 4);
    Pow2Doubled(4 * one, 16);
    Pow2Doubled(8 * one, 256);
    Pow2Doubled(16 * one, 0x1_0000);
    Pow2Doubled(32 * one, TWO32);
    Pow2Doubled(64 * one, TWO64);
    Pow2Doubled(128 * one, TWO64 * TWO64);
    Pow2Add(32 * one, 128 * one);
    Pow2Add(one, 255 * one);
  }

  lemma WordBounds()
    ensures Pow2(255) == TWO255 && Pow2(256) == TWO256
    ensures Pow2(160) == TWO160 && Pow2(32) == TWO32
  {
    WordBoundsAt(1);
  }

  /** Python's n.to_bytes(k, "big"), reduced modulo 256^k. */
  function ToBytes(n: nat, k: nat): (bs: seq<byte>)
    ensures |bs| == k
  {
    if k == 0 then [] else ToBytes(n / 256, k - 1) + [n % 256]
  }

  /** Python's int.from_bytes(bs, "big"). */
  function FromBytes(bs: seq<byte>): nat {
    if bs == [] then 0 else FromBytes(bs[..|bs| - 1]) * 256 + bs[|bs| - 1]
  }

  lemma {:induction false} FromToBytes(n: nat, k: nat)
    requires n < Pow2(8 * k)
    ensures FromBytes(ToBytes(n, k)) == n
  {
    if k > 0 {
      Pow2Step8(k - 1);
      FromToBytes(n / 256, k - 1);
      assert ToBytes(n, k)[..k - 1] == ToBytes(n / 256, k - 1);
    }
  }

  lemma {:induction false} FromBytesBound(bs: seq<byte>)
    ensures FromBytes(bs) < Pow2(8 * |bs|)
  {
    if bs != [] {
      FromBytesBound(bs[..|bs| - 1]);
      Pow2Step8(|bs| - 1);
    }
  }

  /** The first bytes are the most significant ones. */
  lemma {:induction false} BigEndian(a: seq<byte>, b: seq<byte>)
    ensures FromBytes(a + b) == FromBytes(a) * Pow2(8 * |b|) + FromBytes(b)
  {
    if b == [] {
      assert a + b == a;
    } else {
      var c := b[..|b| - 1];
      assert (a + b)[..|a + b| - 1] == a + c;
      BigEndian(a, c);
      Pow2Step8(|c|);
      assert FromBytes(a) * (256 * Pow2(8 * |c|)) == FromBytes(a) * Pow2(8 * |c|) * 256;
    }
  }

  /** One 32-byte head word. */
  function Word(n: nat): (bs: seq<byte>)
    ensures |bs| == 32
  {
    ToBytes(n, 32)
  }

  lemma WordRead(n: nat)
    requires n < TWO256
    ensures FromBytes(Word(n)) == n
  {
    WordBounds();
    FromToBytes(n, 32);
  }

  lemma WordReadBound(bs: seq<byte>)
    requires |bs| == 32
    ensures FromBytes(bs) < TWO256
  {
    WordBounds();
    FromBytesBound(bs);
  }

  lemma DivAddCancel(n: nat, p: nat, r: nat)
    requires r < p
    ensures (n * p + r) / p == n && (n * p + r) % p == r
  {
    var x := n * p + r;
    QuotientUnique(x / p, x % p, n, r, p);
  }

  lemma DivNat(w: nat, p: nat)
    requires p > 0
    ensures w / p >= 0
  {
  }

  lemma QuotientUnique(q: int, m: nat, n: int, r: nat, p: nat)
    requires m < p && r < p
    requires q * p + m == n * p + r
    ensures q == n && m == r
  {
    assert (q - n) * p == r - m;
    if q > n {
      MulAtLeast(q - n, p);
    } else if q < n {
      assert (n - q) * p == m - r;
      MulAtLeast(n - q, p);
    }
  }

  lemma MulAtLeast(k: int, p: nat)
    requires k >= 1
    ensures k * p >= p
  {
  }

  /** n is a whole number of 32-byte words (stated without division, which the
      solver handles poorly in the layout proofs). */
  predicate Whole(n: nat) { n == 0 || (n >= 32 && Whole(n - 32)) }

  lemma {:induction false} WholeAdd(a: nat, b: nat)
    requires Whole(a) && Whole(b)
    ensures Whole(a + b)
  {
    if a > 0 {
      WholeAdd(a - 32, b);
    }
  }

  lemma {:induction false} WholeIsMultiple(n: nat)
    ensures Whole(n) <==> n % 32 == 0
  {
    if n >= 32 {
      WholeIsMultiple(n - 32);
    }
  }
}
