/**
  The Internet checksum of RFC 1071 (section 1) as both ICMP backends
  compute it: 16-bit words are read in the host's little-endian order and
  added into a 32-bit accumulator, a trailing odd byte is added on its
  own, the carries above bit 15 are folded back in until none remain, and
  the result is complemented to 16 bits.
*/
module Checksum {
  import opened Wrappers

  const Modulus32: nat := 0x1_0000_0000

  /** The 16-bit word whose low byte is `lo` and high byte is `hi`. */
  function WordLE(lo: byte, hi: byte): (w: u16)
    ensures w % 0x100 == lo && w / 0x100 == hi
  {
    lo as int + 0x100 * hi as int
  }

  /**
    The unbounded sum of the little-endian 16-bit words of `data`, plus the
    value of a trailing odd byte.
  */
  function RawSum(data: seq<byte>): (sum: nat)
    ensures sum <= 0xFFFF * ((|data| + 1) / 2)
    decreases |data|
  {
    if |data| == 0 then 0
    else if |data| == 1 then data[0]
    else
      var rest := RawSum(data[2..]);
      assert (|data| + 1) / 2 == (|data[2..]| + 1) / 2 + 1;
      WordLE(data[0], data[1]) + rest
  }

  /** The end-around-carry fold: add the high half to the low half until the value fits in 16 bits. */
  function Fold(x: nat): (r: nat)
    ensures r < 0x1_0000
    ensures r % 0xFFFF == x % 0xFFFF
    ensures r == 0 <==> x == 0
    decreases x
  {
    if x < 0x1_0000 then x
    else
      FoldStep(x);
      Fold(x % 0x1_0000 + x / 0x1_0000)
  }

  /** One fold step shrinks the value, keeps it non-zero and keeps its residue modulo 0xFFFF. */
  lemma FoldStep(x: nat)
    requires x >= 0x1_0000
    ensures 0 < x % 0x1_0000 + x / 0x1_0000 < x
    ensures (x % 0x1_0000 + x / 0x1_0000) % 0xFFFF == x % 0xFFFF
  {
    var q := x / 0x1_0000;
    var r := x % 0x1_0000;
    assert x == 0xFFFF * q + (q + r);
    ModAddMultiple(q, q + r);
  }

  lemma ModAddMultiple(q: nat, b: nat)
    ensures (0xFFFF * q + b) % 0xFFFF == b % 0xFFFF
  {
    if q > 0 {
      ModAddMultiple(q - 1, b);
      assert 0xFFFF * q + b == 0xFFFF * (q - 1) + b + 0xFFFF;
    }
  }

  /**
    The checksum of `data`: the 32-bit accumulator (the unbounded sum taken
    modulo 2^32), folded, then complemented to 16 bits.
  */
  function Compute(data: seq<byte>): (c: u16)
    ensures c == 0xFFFF <==> RawSum(data) % Modulus32 == 0
    ensures (0xFFFF - c) % 0xFFFF == RawSum(data) % Modulus32 % 0xFFFF
  {
    0xFFFF - Fold(RawSum(data) % Modulus32)
  }

  // ---------------------------------------------------------------------
  // An independent reference: one's-complement addition word by word

  /** 16-bit one's-complement addition of two 16-bit values. */
  function OnesAdd(a: u16, b: u16): u16 {
    if a + b >= 0x1_0000 then a + b - 0xFFFF else a + b
  }

  /** The one's-complement sum of the words of `data`, taken word by word. */
  function OnesSum(data: seq<byte>): u16
    decreases |data|
  {
    if |data| == 0 then 0
    else if |data| == 1 then data[0]
    else OnesAdd(WordLE(data[0], data[1]), OnesSum(data[2..]))
  }

  lemma {:induction false} OnesSumAgrees(data: seq<byte>)
    ensures OnesSum(data) % 0xFFFF == RawSum(data) % 0xFFFF
    ensures OnesSum(data) == 0 <==> RawSum(data) == 0
    decreases |data|
  {
    if |data| >= 2 {
      OnesSumAgrees(data[2..]);
      var w := WordLE(data[0], data[1]);
      var t := OnesSum(data[2..]);
      var u := RawSum(data[2..]);
      assert OnesSum(data) == OnesAdd(w, t);
      assert RawSum(data) == w + u;
      OnesAddResidue(w, t);
      AddResidue(w, t, u);
    }
  }

  lemma OnesAddResidue(a: u16, b: u16)
    ensures OnesAdd(a, b) % 0xFFFF == (a + b) % 0xFFFF
    ensures OnesAdd(a, b) == 0 <==> a + b == 0
  {
    if a + b >= 0x1_0000 {
      ModAddMultiple(1, a + b - 0xFFFF);
    }
  }

  /** Adding the same value to two numbers congruent modulo 0xFFFF keeps them congruent. */
  lemma AddResidue(w: nat, t: nat, u: nat)
    requires t % 0xFFFF == u % 0xFFFF
    ensures (w + t) % 0xFFFF == (w + u) % 0xFFFF
  {
    var r := t % 0xFFFF;
    assert t == 0xFFFF * (t / 0xFFFF) + r;
    assert u == 0xFFFF * (u / 0xFFFF) + r;
    ModAddMultiple(t / 0xFFFF, w + r);
    ModAddMultiple(u / 0xFFFF, w + r);
  }

  /** Two 16-bit values with the same residue modulo 0xFFFF that are zero together are equal. */
  lemma SameResidue(a: nat, b: nat)
    requires a < 0x1_0000 && b < 0x1_0000
    requires a % 0xFFFF == b % 0xFFFF && (a == 0 <==> b == 0)
    ensures a == b
  {
    if a == 0xFFFF { assert b % 0xFFFF == 0; }
    if b == 0xFFFF { assert a % 0xFFFF == 0; }
  }

  /** The sum of the words of `data` stays below 2^32 for any buffer of at most 128 KiB. */
  lemma NoWrap(data: seq<byte>)
    requires |data| <= 0x2_0000
    ensures RawSum(data) < Modulus32
  {
    assert (|data| + 1) / 2 <= 0x1_0000;
  }

  /**
    For any buffer of at most 128 KiB the checksum equals the complement of
    the word-by-word one's-complement sum of RFC 1071: the 32-bit
    accumulator never wraps and folding computes the same value.
  */
  lemma ComputeIsOnesComplement(data: seq<byte>)
    requires |data| <= 0x2_0000
    ensures Compute(data) == 0xFFFF - OnesSum(data)
  {
    ComputeNoWrap(data);
    OnesSumAgrees(data);
    SameResidue(Fold(RawSum(data)), OnesSum(data));
  }

  /** Below 128 KiB the accumulator does not wrap, so the checksum folds the plain sum. */
  lemma ComputeNoWrap(data: seq<byte>)
    requires |data| <= 0x2_0000
    ensures Compute(data) == 0xFFFF - Fold(RawSum(data))
  {
    NoWrap(data);
    assert RawSum(data) % Modulus32 == RawSum(data);
  }

  // ---------------------------------------------------------------------
  // Verification of a filled-in checksum

  /** `data` with the 16-bit value `c` stored little-endian at byte offset `k`. */
  function StoreLE(data: seq<byte>, k: nat, c: u16): (r: seq<byte>)
    requires k + 1 < |data|
    ensures |r| == |data|
  {
    data[k := c % 0x100][k + 1 := c / 0x100]
  }

  /** Filling a zeroed word at an even offset adds exactly its value to the sum. */
  lemma {:induction false} RawSumStore(data: seq<byte>, k: nat, c: u16)
    requires k % 2 == 0 && k + 1 < |data| && data[k] == 0 && data[k + 1] == 0
    ensures RawSum(StoreLE(data, k, c)) == RawSum(data) + c
    decreases |data|
  {
    var r := StoreLE(data, k, c);
    if k == 0 {
      assert r[2..] == data[2..];
    } else {
      assert r[2..] == StoreLE(data[2..], k - 2, c);
      RawSumStore(data[2..], k - 2, c);
    }
  }

  /**
    Section 1 of RFC 1071: once the checksum of a buffer whose checksum
    field is zero is written into that field, the checksum of the whole
    buffer is zero.
  */
  lemma VerifiesToZero(data: seq<byte>, k: nat)
    requires |data| <= 0x2_0000
    requires k % 2 == 0 && k + 1 < |data| && data[k] == 0 && data[k + 1] == 0
    ensures Compute(StoreLE(data, k, Compute(data))) == 0
  {
    var s := RawSum(data);
    var f := Fold(s);
    ComputeNoWrap(data);
    var c := Compute(data);
    var filled := StoreLE(data, k, c);
    ComputeNoWrap(filled);
    RawSumStore(data, k, c);
    var t := RawSum(filled);
    assert t == s + (0xFFFF - f);
    SumResidue(s, f);
    SameResidue(Fold(t), 0xFFFF);
  }

  lemma SumResidue(s: nat, f: nat)
    requires f < 0x1_0000 && f % 0xFFFF == s % 0xFFFF
    ensures (s + (0xFFFF - f)) % 0xFFFF == 0
  {
    var q := s / 0xFFFF;
    assert s == 0xFFFF * q + s % 0xFFFF;
    if f == 0xFFFF {
      assert s % 0xFFFF == 0;
      assert s + (0xFFFF - f) == 0xFFFF * q;
      ModAddMultiple(q, 0);
    } else {
      assert f == s % 0xFFFF;
      assert s + (0xFFFF - f) == 0xFFFF * (q + 1);
      ModAddMultiple(q + 1, 0);
    }
  }
}
