// The 64-bit FNV-1a hash (section 2 of draft-eastlake-fnv) as Go's hash/fnv computes it, and the
// deduplication key that backend/internal/mqtt/dedup.go builds from it.

module Fnv {

  newtype byte = x: int | 0 <= x < 256

  type Bytes = seq<byte>

  const MODULUS: int := 0x1_0000_0000_0000_0000

  type uint64 = x: int | 0 <= x < 0x1_0000_0000_0000_0000

  const OFFSET_BASIS: uint64 := 0xcbf29ce484222325

  const PRIME: uint64 := 0x100000001b3

  /** The inverse of PRIME modulo 2^64. It exists because PRIME is odd. */
  const PRIME_INVERSE: uint64 := 0xce965057aff6957b

  /** IsDuplicate hashes at most this many bytes of a payload. */
  const PREFIX_LIMIT: nat := 100

  /** Bitwise exclusive or, from the least significant bit up. */
  function Xor(a: nat, b: nat): nat
    decreases a + b
  {
    if a == 0 && b == 0 then 0
    else 2 * Xor(a / 2, b / 2) + (if a % 2 == b % 2 then 0 else 1)
  }

  function Pow2(n: nat): nat {
    if n == 0 then 1 else 2 * Pow2(n - 1)
  }

  lemma {:induction false} XorCancels(a: nat, b: nat)
    ensures Xor(Xor(a, b), b) == a
    decreases a + b
  {
    if a == 0 && b == 0 {
    } else {
      XorCancels(a / 2, b / 2);
      assert Xor(a, b) / 2 == Xor(a / 2, b / 2);
    }
  }

  lemma {:induction false} XorCommutes(a: nat, b: nat)
    ensures Xor(a, b) == Xor(b, a)
    decreases a + b
  {
    if a == 0 && b == 0 {
    } else {
      XorCommutes(a / 2, b / 2);
    }
  }

  lemma {:induction false} XorBounded(a: nat, b: nat, bits: nat)
    requires a < Pow2(bits) && b < Pow2(bits)
    ensures Xor(a, b) < Pow2(bits)
  {
    if bits == 0 {
    } else if a == 0 && b == 0 {
    } else {
      XorBounded(a / 2, b / 2, bits - 1);
    }
  }

  /** One FNV-1a round: exclusive or with the byte, then multiply modulo 2^64. */
  function Mix(h: uint64, b: byte): uint64 {
    Xor(h, b as int) * PRIME % MODULUS
  }

  /** The state after writing `data` to a hash in state `h`. */
  function Write(h: uint64, data: Bytes): uint64
    decreases |data|
  {
    if data == [] then h else Write(Mix(h, data[0]), data[1..])
  }

  function Sum64(data: Bytes): uint64 {
    Write(OFFSET_BASIS, data)
  }

  function Prefix(payload: Bytes): Bytes {
    if |payload| > PREFIX_LIMIT then payload[..PREFIX_LIMIT] else payload
  }

  /** The key of a message: the device id and the payload prefix written one after the other. */
  function Key(device: Bytes, payload: Bytes): uint64 {
    Write(Write(OFFSET_BASIS, device), Prefix(payload))
  }

  /** Two writes hash like one write of the concatenation. */
  lemma {:induction false} WriteConcat(h: uint64, a: Bytes, b: Bytes)
    ensures Write(Write(h, a), b) == Write(h, a + b)
    decreases |a|
  {
    if a == [] {
      assert a + b == b;
    } else {
      WriteConcat(Mix(h, a[0]), a[1..], b);
      assert (a + b)[1..] == a[1..] + b;
    }
  }

  /** The key is the hash of the device id followed by at most 100 bytes of the payload. */
  lemma KeyIsHashOfConcatenation(device: Bytes, payload: Bytes)
    ensures Key(device, payload) == Sum64(device + if |payload| <= 100 then payload else payload[..100])
  {
    WriteConcat(OFFSET_BASIS, device, Prefix(payload));
  }

  /** Nothing separates the device id from the payload: moving the boundary keeps the key. */
  lemma KeyIgnoresBoundary(d: Bytes, p: Bytes, d': Bytes, p': Bytes)
    requires d + Prefix(p) == d' + Prefix(p')
    ensures Key(d, p) == Key(d', p')
  {
    KeyIsHashOfConcatenation(d, p);
    KeyIsHashOfConcatenation(d', p');
  }

  lemma Width64()
    ensures Pow2(64) == MODULUS
  {
    assert Pow2(8) == 0x100;
    Pow2Sum(8, 8);
    Pow2Sum(16, 16);
    Pow2Sum(32, 32);
  }

  lemma {:induction false} Pow2Sum(a: nat, b: nat)
    ensures Pow2(a + b) == Pow2(a) * Pow2(b)
  {
    if a == 0 {
    } else {
      Pow2Sum(a - 1, b);
    }
  }

  /** Multiplication by the odd prime is injective modulo 2^64. */
  lemma TimesPrimeInjective(x: uint64, y: uint64)
    requires x * PRIME % MODULUS == y * PRIME % MODULUS
    ensures x == y
  {
    var k := PRIME_INVERSE * PRIME / MODULUS;
    assert PRIME_INVERSE * PRIME == 1 + k * MODULUS;
    var t := x * PRIME / MODULUS - y * PRIME / MODULUS;
    assert (x - y) * PRIME == t * MODULUS;
    assert x - y == MODULUS * (t * PRIME_INVERSE - k * (x - y));
  }

  lemma XorFits(h: uint64, b: byte)
    ensures Xor(h, b as int) < MODULUS
  {
    Width64();
    XorBounded(h, b as int, 64);
  }

  lemma MixInjectiveInState(g: uint64, h: uint64, b: byte)
    requires Mix(g, b) == Mix(h, b)
    ensures g == h
  {
    XorFits(g, b);
    XorFits(h, b);
    TimesPrimeInjective(Xor(g, b as int), Xor(h, b as int));
    XorCancels(g, b as int);
    XorCancels(h, b as int);
  }

  lemma MixInjectiveInByte(h: uint64, b: byte, c: byte)
    requires Mix(h, b) == Mix(h, c)
    ensures b == c
  {
    XorFits(h, b);
    XorFits(h, c);
    TimesPrimeInjective(Xor(h, b as int), Xor(h, c as int));
    XorCommutes(h, b as int);
    XorCommutes(h, c as int);
    XorCancels(b as int, h);
    XorCancels(c as int, h);
  }

  /** A common suffix never merges two different hash states. */
  lemma {:induction false} WriteInjectiveInState(g: uint64, h: uint64, data: Bytes)
    requires Write(g, data) == Write(h, data)
    ensures g == h
    decreases |data|
  {
    if data == [] {
    } else {
      WriteInjectiveInState(Mix(g, data[0]), Mix(h, data[0]), data[1..]);
      MixInjectiveInState(g, h, data[0]);
    }
  }

  /** Two payloads that differ, within their first 100 bytes, in exactly one byte get different keys on
      one device. */
  lemma OneByteChangesKey(device: Bytes, p: Bytes, q: Bytes, i: nat)
    requires |p| == |q| && i < |p| && i < 100
    requires forall k :: 0 <= k < |p| && k < 100 ==> (p[k] == q[k] <==> k != i)
    ensures Key(device, p) != Key(device, q)
  {
    assert Prefix(p)[i] == p[i] && Prefix(q)[i] == q[i];
    PrefixByteChangesKey(device, p, q, i);
  }

  lemma PrefixByteChangesKey(device: Bytes, p: Bytes, q: Bytes, i: nat)
    requires |Prefix(p)| == |Prefix(q)| && i < |Prefix(p)|
    requires forall k :: 0 <= k < |Prefix(p)| ==> (Prefix(p)[k] == Prefix(q)[k] <==> k != i)
    ensures Key(device, p) != Key(device, q)
  {
    var h, a, b := Write(OFFSET_BASIS, device), Prefix(p), Prefix(q);
    WriteSplitAt(h, a, i);
    WriteSplitAt(h, b, i);
    assert a[..i] == b[..i] && a[i + 1..] == b[i + 1..];
    var g := Write(h, a[..i]);
    if Key(device, p) == Key(device, q) {
      WriteInjectiveInState(Mix(g, a[i]), Mix(g, b[i]), a[i + 1..]);
      MixInjectiveInByte(g, a[i], b[i]);
    }
  }

  lemma WriteSplitAt(h: uint64, data: Bytes, i: nat)
    requires i < |data|
    ensures Write(h, data) == Write(Mix(Write(h, data[..i]), data[i]), data[i + 1..])
  {
    WriteConcat(h, data[..i], data[i..]);
    assert data[..i] + data[i..] == data;
  }

  /** Payloads that agree on their first 100 bytes share a key, whatever follows. */
  lemma TailIsIgnored(device: Bytes, p: Bytes, q: Bytes)
    requires |p| >= 100 && |q| >= 100 && p[..100] == q[..100]
    ensures Key(device, p) == Key(device, q)
  {
    assert Prefix(p) == p[..100] && Prefix(q) == q[..100];
  }

  // The algorithm of the draft --------------------------------------------------------------------

  /** Exclusive or works on each binary digit. */
  lemma {:induction false} XorBit(a: nat, b: nat, k: nat)
    ensures Pow2(k) > 0
    ensures Xor(a, b) / Pow2(k) % 2 == if a / Pow2(k) % 2 == b / Pow2(k) % 2 then 0 else 1
    decreases k
  {
    if k == 0 {
      assert Xor(a, b) == 2 * Xor(a / 2, b / 2) + if a % 2 == b % 2 then 0 else 1;
    } else {
      XorBit(a / 2, b / 2, k - 1);
      assert Xor(a, b) / 2 == Xor(a / 2, b / 2);
      DivideTwice(Xor(a, b), Pow2(k - 1));
      DivideTwice(a, Pow2(k - 1));
      DivideTwice(b, Pow2(k - 1));
    }
  }

  lemma DivideTwice(x: nat, n: nat)
    requires n > 0
    ensures x / (2 * n) == x / 2 / n
  {
    var q := x / 2 / n;
    var r := x / 2 - q * n;
    assert 0 <= r < n;
    assert x == 2 * (q * n + r) + x % 2;
    assert x == q * (2 * n) + (2 * r + x % 2);
    QuotientIs(x, 2 * n, q, 2 * r + x % 2);
  }

  lemma QuotientIs(x: nat, n: nat, q: nat, r: nat)
    requires n > 0 && x == q * n + r && r < n
    ensures x / n == q
  {
    NoMultipleInside(q - x / n, n);
  }

  lemma NoMultipleInside(d: int, n: nat)
    ensures 0 - n < d * n < n ==> d == 0
  {
  }

  /** The hash of nothing is the offset basis; each further byte is combined by exclusive or, and then
      the hash is multiplied by the FNV prime modulo 2^64. */
  lemma HashIsFnv1a(data: Bytes, b: byte)
    ensures Sum64([]) == 0xcbf29ce484222325
    ensures Sum64(data + [b]) == Xor(Sum64(data), b as int) * 0x100000001b3 % 0x1_0000_0000_0000_0000
  {
    WriteConcat(OFFSET_BASIS, data, [b]);
    var h := Write(OFFSET_BASIS, data);
    assert [b][1..] == [];
    assert Write(h, [b]) == Mix(h, b);
  }
}
