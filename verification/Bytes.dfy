/**
 Bytes, big-endian fields and exclusive or, shared by the packet formats.
 A byte is an integer in 0..255, so that masks are remainders and shifts are quotients.
 */
module Bytes {
  type byte = x: int | 0 <= x < 256

  type Bytes = seq<byte>

  datatype Option<+T> = None | Some(value: T)

  /** The low n bytes of v, most significant first. Higher bytes are cut off, as a cast to a narrower integer does. */
  function BigEndian(v: nat, n: nat): (s: Bytes)
    ensures |s| == n
  {
    if n == 0 then [] else BigEndian(v / 256, n - 1) + [v % 256]
  }

  function FromBigEndian(s: Bytes): nat {
    if s == [] then 0 else FromBigEndian(s[..|s| - 1]) * 256 + s[|s| - 1]
  }

  /** The 16-bit field at i. */
  function Read16(s: Bytes, i: nat): nat
    requires i + 1 < |s|
  {
    var high: nat := s[i];
    high * 256 + s[i + 1]
  }

  function Pow256(n: nat): nat {
    if n == 0 then 1 else Pow256(n - 1) * 256
  }

  lemma {:induction false} BigEndianRoundTrip(v: nat, n: nat)
    requires v < Pow256(n)
    ensures FromBigEndian(BigEndian(v, n)) == v
  {
    if n > 0 {
      BigEndianRoundTrip(v / 256, n - 1);
      var s := BigEndian(v, n);
      assert s[..n - 1] == BigEndian(v / 256, n - 1);
    }
  }

  /** The two bytes of a 16-bit field, and what reading them back gives. */
  lemma BigEndian16(v: nat)
    requires v < 0x1_0000
    ensures BigEndian(v, 2) == [v / 256, v % 256]
  {
    assert BigEndian(v / 256, 1) == BigEndian(v / 256 / 256, 0) + [v / 256 % 256];
  }

  /** n zero bytes. */
  function Zeros(n: nat): (s: Bytes)
    ensures |s| == n
    ensures forall k | 0 <= k < n :: s[k] == 0
  {
    seq(n, _ => 0)
  }

  // ---------- Exclusive or ----------

  /** a ^ b on the low n bits. */
  function XorBits(a: nat, b: nat, n: nat): (r: nat)
  {
    if n == 0 then 0 else (a % 2 + b % 2) % 2 + 2 * XorBits(a / 2, b / 2, n - 1)
  }

  function Pow2(n: nat): nat {
    if n == 0 then 1 else 2 * Pow2(n - 1)
  }

  lemma {:induction false} XorBitsInRange(a: nat, b: nat, n: nat)
    ensures XorBits(a, b, n) < Pow2(n)
  {
    if n > 0 {
      XorBitsInRange(a / 2, b / 2, n - 1);
    }
  }

  /** Masking twice with the same value gives the first value back. */
  lemma {:induction false} XorBitsTwice(a: nat, b: nat, n: nat)
    requires a < Pow2(n)
    ensures XorBits(XorBits(a, b, n), b, n) == a
  {
    if n > 0 {
      XorBitsTwice(a / 2, b / 2, n - 1);
      var bit := (a % 2 + b % 2) % 2;
      var rest := XorBits(a / 2, b / 2, n - 1);
      SplitBit(bit, rest);
      assert (bit + b % 2) % 2 == a % 2;
    }
  }

  lemma SplitBit(bit: nat, rest: nat)
    requires bit < 2
    ensures (bit + 2 * rest) % 2 == bit && (bit + 2 * rest) / 2 == rest
  {
  }

  function Xor(a: byte, b: byte): (r: byte)
  {
    XorBitsInRange(a, b, 8);
    assert Pow2(8) == 256;
    XorBits(a, b, 8)
  }

  lemma XorTwice(a: byte, b: byte)
    ensures Xor(Xor(a, b), b) == a
  {
    assert Pow2(8) == 256;
    XorBitsTwice(a, b, 8);
  }

  /** Byte by byte; the mask is at least as long as the data. */
  function XorAll(s: Bytes, mask: Bytes): (r: Bytes)
    requires |s| <= |mask|
    ensures |r| == |s|
  {
    seq(|s|, i requires 0 <= i < |s| => Xor(s[i], mask[i]))
  }

  lemma XorAllTwice(s: Bytes, mask: Bytes)
    requires |s| <= |mask|
    ensures XorAll(XorAll(s, mask), mask) == s
  {
    forall i | 0 <= i < |s| ensures XorAll(XorAll(s, mask), mask)[i] == s[i] {
      XorTwice(s[i], mask[i]);
    }
  }

  lemma {:induction false} FromBigEndianRoundTrip(s: Bytes)
    ensures BigEndian(FromBigEndian(s), |s|) == s
    ensures FromBigEndian(s) < Pow256(|s|)
  {
    if s != [] {
      FromBigEndianRoundTrip(s[..|s| - 1]);
      assert s == s[..|s| - 1] + [s[|s| - 1]];
    }
  }
}
