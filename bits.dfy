/**
 * Byte-level GF(2) vocabulary used by the basis engine: fixed-width
 * unsigned integers, the highest-set-bit scan, and what it means for a
 * byte to be an XOR-combination of a sequence of bytes.
 */
module Bits {

  /** A C `uint32_t`. */
  newtype u32 = x: int | 0 <= x < 0x1_0000_0000

  /** A C `uint64_t`. */
  newtype u64 = x: int | 0 <= x < 0x1_0000_0000_0000_0000

  /** A byte of a file, as a number. */
  newtype byte = x: int | 0 <= x < 256

  /** A byte read as a number and converted back is the same byte. */
  lemma ByteIntByte(b: bv8)
    ensures b as int as bv8 == b
  {
  }

  /** 2^32: the modulus of `uint32_t` arithmetic and casts. */
  const U32_MODULUS: nat := 0x1_0000_0000

  /** 2^k for a bit index `k` of a byte. */
  function Pow2(k: nat): nat
    requires k <= 8
  {
    if k == 0 then 1 else 2 * Pow2(k - 1)
  }

  /** Index of the highest set bit of `b`, or -1 when `b` is zero. */
  function HighestBit(b: bv8): int
  {
    if b >= 0x80 then 7
    else if b >= 0x40 then 6
    else if b >= 0x20 then 5
    else if b >= 0x10 then 4
    else if b >= 0x08 then 3
    else if b >= 0x04 then 2
    else if b >= 0x02 then 1
    else if b >= 0x01 then 0
    else -1
  }

  /**
   * `HighestBit` is -1 exactly for zero, and otherwise the unique `k`
   * with 2^k <= b < 2^(k+1).
   */
  lemma HighestBitMeaning(b: bv8)
    ensures -1 <= HighestBit(b) <= 7
    ensures HighestBit(b) == -1 <==> b == 0
    ensures forall k :: 0 <= k <= 7 ==> (HighestBit(b) == k <==> Pow2(k) <= b as int < Pow2(k + 1))
  {
    assert Pow2(8) == 256;
  }

  /**
   * XORing two bytes with the same highest set bit clears that bit and
   * sets none above it, so the highest set bit drops.
   */
  lemma XorLowersHighestBit(a: bv8, b: bv8)
    requires HighestBit(a) == HighestBit(b) >= 0
    ensures HighestBit(a ^ b) < HighestBit(a)
  {
  }

  /** Bit `k` of `b` is clear, as `in_span` tests it: `b & (1 << k) == 0`. */
  predicate BitClear(b: bv8, k: nat)
    requires k <= 7
  {
    b & (1 << k) == 0
  }

  /**
   * One step of the downward scan: if no bit above `k` is set, then either
   * bit `k` is set and it is the highest, or it is clear and no bit at or
   * above `k` is set.
   */
  lemma ScanStep(b: bv8, k: nat)
    requires k <= 7 && HighestBit(b) <= k
    ensures BitClear(b, k) ==> HighestBit(b) <= k - 1
    ensures !BitClear(b, k) ==> HighestBit(b) == k
  {
    if k == 0 {
    } else if k == 1 {
    } else if k == 2 {
    } else if k == 3 {
    } else if k == 4 {
    } else if k == 5 {
    } else if k == 6 {
    } else {
    }
  }

  /**
   * The highest-bit scan of `in_span`: start at bit 7 and walk down
   * while the bit under test is clear.
   */
  method HighestSetBit(b: bv8) returns (k: int)
    ensures k == HighestBit(b)
  {
    k := 7;
    while k >= 0 && BitClear(b, k)
      invariant -1 <= k <= 7
      invariant HighestBit(b) <= k
      decreases k + 1
    {
      ScanStep(b, k);
      k := k - 1;
    }
    if k >= 0 {
      ScanStep(b, k);
    }
  }

  /**
   * XOR of the entries of `s` selected by `pick`, folded from the front
   * (the last entry is XORed in last).
   */
  function Combine(s: seq<bv8>, pick: seq<bool>): bv8
    requires |pick| == |s|
  {
    if |s| == 0 then 0
    else Combine(s[..|s| - 1], pick[..|s| - 1]) ^ (if pick[|s| - 1] then s[|s| - 1] else 0)
  }

  /** `x` is the XOR of some subset of the entries of `s`. */
  ghost predicate Spans(s: seq<bv8>, x: bv8)
  {
    exists pick: seq<bool> :: |pick| == |s| && Combine(s, pick) == x
  }

  /** Appending one entry and one choice extends the fold by one XOR. */
  lemma CombineSnoc(s: seq<bv8>, pick: seq<bool>, b: bv8, chosen: bool)
    requires |pick| == |s|
    ensures Combine(s + [b], pick + [chosen]) == Combine(s, pick) ^ (if chosen then b else 0)
  {
    assert (s + [b])[..|s|] == s;
    assert (pick + [chosen])[..|s|] == pick;
  }
}
