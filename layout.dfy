/**
 * The integer part of the compression statistics, and the byte layout of
 * a saved basis: the five magic bytes "CANON", the rank as a 4-byte
 * unsigned integer, the `rank` basis bytes, then `rank` derivation
 * positions of 4 bytes each. Multi-byte integers are little-endian.
 *
 * File bytes are the integers 0..255 (type `byte`) rather than `bv8`,
 * because splitting a `uint32_t` into bytes and joining them back is
 * division and remainder by 256; basis bytes stay `bv8`, where the engine
 * XORs them, and `ToBytes`/`FromBytes` convert between the two.
 */
module Layout {
  import opened Bits
  import opened BasisSpec

  // ---------------------------------------------------------------------
  // compute_stats
  // ---------------------------------------------------------------------

  /** The integer fields of `CompressionStats`. */
  datatype CompressionStats = CompressionStats(inputSize: u64, basisSize: u64, derivationSize: u64, rank: u32)

  /**
   * `compute_stats`: one byte per basis entry and four per derivation
   * entry. The product `rank * 4` is computed in `uint32_t`, so it wraps
   * for ranks of 2^30 and above; a rank within `MAX_RANK` never gets there.
   */
  function ComputeStats(inputSize: u64, rank: u32): (s: CompressionStats)
    ensures s.inputSize == inputSize && s.rank == rank && s.basisSize as int == rank as int
    ensures rank as int <= MAX_RANK ==> s.derivationSize as int == 4 * rank as int
    ensures s.derivationSize as int == (4 * rank as int) % U32_MODULUS
  {
    CompressionStats(inputSize, rank as u64, ((rank as int * 4) % U32_MODULUS) as u64, rank)
  }

  // ---------------------------------------------------------------------
  // Values as file bytes
  // ---------------------------------------------------------------------

  /** Basis bytes as file bytes. */
  function ToBytes(s: seq<bv8>): (t: seq<byte>)
    ensures |t| == |s|
  {
    seq(|s|, i requires 0 <= i < |s| => s[i] as int as byte)
  }

  /** File bytes as basis bytes. */
  function FromBytes(t: seq<byte>): (s: seq<bv8>)
    ensures |s| == |t|
  {
    seq(|t|, i requires 0 <= i < |t| => t[i] as bv8)
  }

  /** Writing basis bytes to a file and reading them back gives the same bytes. */
  lemma FromToBytes(s: seq<bv8>)
    ensures FromBytes(ToBytes(s)) == s
  {
    forall i | 0 <= i < |s|
      ensures FromBytes(ToBytes(s))[i] == s[i]
    {
      ByteIntByte(s[i]);
    }
  }

  /** A file byte converted to a basis byte and back is the same file byte. */
  lemma ByteBvByte(c: byte)
    ensures c as bv8 as int as byte == c
  {
    // Eight values at a time: the solver handles each small range quickly.
    if c < 8 {
    } else if c < 16 {
    } else if c < 24 {
    } else if c < 32 {
    } else if c < 40 {
    } else if c < 48 {
    } else if c < 56 {
    } else if c < 64 {
    } else if c < 72 {
    } else if c < 80 {
    } else if c < 88 {
    } else if c < 96 {
    } else if c < 104 {
    } else if c < 112 {
    } else if c < 120 {
    } else if c < 128 {
    } else if c < 136 {
    } else if c < 144 {
    } else if c < 152 {
    } else if c < 160 {
    } else if c < 168 {
    } else if c < 176 {
    } else if c < 184 {
    } else if c < 192 {
    } else if c < 200 {
    } else if c < 208 {
    } else if c < 216 {
    } else if c < 224 {
    } else if c < 232 {
    } else if c < 240 {
    } else if c < 248 {
    } else {
    }
  }

  /** Reading file bytes as basis bytes and writing them back gives the same file bytes. */
  lemma ToFromBytes(t: seq<byte>)
    ensures ToBytes(FromBytes(t)) == t
  {
    forall i | 0 <= i < |t|
      ensures ToBytes(FromBytes(t))[i] == t[i]
    {
      ByteBvByte(t[i]);
    }
  }

  /** The four bytes of `v`, least significant first. */
  function EncodeU32(v: u32): (b: seq<byte>)
    ensures |b| == 4
  {
    var n := v as int;
    var q1 := n / 256;
    var q2 := q1 / 256;
    [(n % 256) as byte, (q1 % 256) as byte, (q2 % 256) as byte, (q2 / 256) as byte]
  }

  /** The `uint32_t` whose bytes, least significant first, are `b`. */
  function DecodeU32(b: seq<byte>): u32
    requires |b| == 4
  {
    (b[0] as int + 256 * (b[1] as int + 256 * (b[2] as int + 256 * b[3] as int))) as u32
  }

  /** Splitting off the low byte of `lo + 256 * hi`. */
  lemma SplitLowByte(lo: int, hi: int)
    requires 0 <= lo < 256 && 0 <= hi
    ensures (lo + 256 * hi) % 256 == lo && (lo + 256 * hi) / 256 == hi
  {
  }

  /** Decoding inverts encoding. */
  lemma DecodeEncodeU32(v: u32)
    ensures DecodeU32(EncodeU32(v)) == v
  {
  }

  /** Encoding inverts decoding: every 4-byte string encodes exactly one value. */
  lemma EncodeDecodeU32(b: seq<byte>)
    requires |b| == 4
    ensures EncodeU32(DecodeU32(b)) == b
  {
    var c0, c1, c2, c3 := b[0] as int, b[1] as int, b[2] as int, b[3] as int;
    SplitLowByte(c0, c1 + 256 * (c2 + 256 * c3));
    SplitLowByte(c1, c2 + 256 * c3);
    SplitLowByte(c2, c3);
  }

  /** The derivation table as bytes: each position in four bytes, in order. */
  function EncodeDerivation(ds: seq<u32>): (b: seq<byte>)
    ensures |b| == 4 * |ds|
  {
    if |ds| == 0 then [] else EncodeU32(ds[0]) + EncodeDerivation(ds[1..])
  }

  /** `count` positions read four bytes at a time from the front of `b`. */
  function DecodeDerivation(b: seq<byte>, count: nat): (ds: seq<u32>)
    requires |b| >= 4 * count
    ensures |ds| == count
  {
    seq(count, i requires 0 <= i < count => DecodeU32(b[4 * i..4 * i + 4]))
  }

  /** Decoding `count` positions is decoding the first and then `count - 1` from four bytes on. */
  lemma DecodeDerivationTail(b: seq<byte>, count: nat)
    requires count > 0 && |b| >= 4 * count
    ensures DecodeDerivation(b, count)[0] == DecodeU32(b[..4])
    ensures DecodeDerivation(b, count)[1..] == DecodeDerivation(b[4..], count - 1)
  {
    var ds := DecodeDerivation(b, count);
    forall i | 0 <= i < count - 1
      ensures ds[1..][i] == DecodeDerivation(b[4..], count - 1)[i]
    {
      var k := 4 * i;
      assert 4 * (i + 1) == k + 4;
      assert b[4..][k..k + 4] == b[k + 4..k + 8];
    }
  }

  /** Reading back an encoded table, with anything after it, yields the table. */
  lemma {:induction false} DecodeEncodeDerivation(ds: seq<u32>, rest: seq<byte>)
    ensures DecodeDerivation(EncodeDerivation(ds) + rest, |ds|) == ds
  {
    if |ds| > 0 {
      var b := EncodeDerivation(ds) + rest;
      DecodeDerivationTail(b, |ds|);
      assert b[..4] == EncodeU32(ds[0]);
      DecodeEncodeU32(ds[0]);
      assert b[4..] == EncodeDerivation(ds[1..]) + rest;
      DecodeEncodeDerivation(ds[1..], rest);
      assert ds == [ds[0]] + ds[1..];
    }
  }

  /** Re-encoding a decoded table reproduces the bytes it was read from. */
  lemma {:induction false} EncodeDecodeDerivation(b: seq<byte>, count: nat)
    requires |b| >= 4 * count
    ensures EncodeDerivation(DecodeDerivation(b, count)) == b[..4 * count]
  {
    if count > 0 {
      DecodeDerivationTail(b, count);
      EncodeDecodeDerivation(b[4..], count - 1);
      EncodeDecodeU32(b[..4]);
      assert b[..4 * count] == b[..4] + b[4..][..4 * (count - 1)];
    }
  }

  // ---------------------------------------------------------------------
  // save_compressed / load_compressed
  // ---------------------------------------------------------------------

  /** The header bytes "CANON". */
  const Magic: seq<byte> := [0x43, 0x41, 0x4E, 0x4F, 0x4E]

  /** Length of the magic plus the rank field. */
  const HEADER_SIZE: nat := 9

  /**
   * `save_compressed`: the magic, the rank, the basis bytes and the
   * derivation positions, with nothing in between.
   */
  function Save(st: Basis): (bytes: seq<byte>)
    requires |st.elems| == |st.derivation| <= MAX_RANK
    ensures |bytes| == HEADER_SIZE + 5 * |st.elems|
    ensures bytes[..5] == Magic
  {
    Magic + EncodeU32(|st.elems| as u32) + ToBytes(st.elems) + EncodeDerivation(st.derivation)
  }

  /** Why a file is not loaded. */
  datatype LoadError = NotCanon | Truncated | RankTooLarge

  datatype LoadResult = Loaded(basis: Basis) | Rejected(error: LoadError)

  /**
   * `load_compressed`: reject a file that does not start with "CANON";
   * otherwise read the rank, that many basis bytes and that many
   * positions into a freshly initialised basis, whose signature table
   * stays zero. A rank above capacity and a file that ends early are
   * rejected. Bytes after the derivation table are ignored.
   */
  function Load(bytes: seq<byte>): (r: LoadResult)
    ensures r == Rejected(NotCanon) <==> |bytes| < 5 || bytes[..5] != Magic
    ensures r.Loaded? ==>
      && |r.basis.elems| == |r.basis.derivation| <= MAX_RANK
      && |bytes| >= HEADER_SIZE + 5 * |r.basis.elems|
      && r.basis.signature == ZeroSignature()
  {
    if |bytes| < 5 || bytes[..5] != Magic then Rejected(NotCanon)
    else if |bytes| < HEADER_SIZE then Rejected(Truncated)
    else
      var rank := DecodeU32(bytes[5..HEADER_SIZE]) as nat;
      if rank > MAX_RANK then Rejected(RankTooLarge)
      else if |bytes| < HEADER_SIZE + 5 * rank then Rejected(Truncated)
      else
        var elems := FromBytes(bytes[HEADER_SIZE..HEADER_SIZE + rank]);
        var derivation := DecodeDerivation(bytes[HEADER_SIZE + rank..], rank);
        Loaded(Basis(elems, derivation, ZeroSignature()))
  }
}
