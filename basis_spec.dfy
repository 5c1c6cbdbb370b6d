/**
 * Value-level model of the `GF2_Basis` record and of the operations the
 * engine performs on it: the span test, the append of one byte, a single
 * pass over a whole buffer, and the copy-out done by decompression. The
 * class in module Canon is proved to follow these definitions step by
 * step; module BasisLemmas proves what they guarantee.
 *
 * The engine is NOT exact Gaussian elimination: it stores raw bytes, scans
 * them in insertion order, and its signature table records only single
 * entries and pairwise XORs.
 */
module BasisSpec {
  import opened Bits

  /** Capacity of the `basis` and `derivation` arrays. */
  const MAX_RANK: nat := 65536

  /** Number of entries of the signature table: one per byte value. */
  const SIGNATURE_SIZE: nat := 256

  /**
   * The observable state of a `GF2_Basis`: the first `rank` basis bytes,
   * the first `rank` derivation positions, and the whole signature table.
   * The rank is `|elems|`.
   */
  datatype Basis = Basis(elems: seq<bv8>, derivation: seq<u32>, signature: seq<u64>)

  /** A signature table with every entry zero, as `calloc` leaves it. */
  function ZeroSignature(): (sig: seq<u64>)
    ensures |sig| == SIGNATURE_SIZE
    ensures forall v :: 0 <= v < SIGNATURE_SIZE ==> sig[v] == 0
  {
    seq(SIGNATURE_SIZE, _ => 0)
  }

  /** The state right after `basis_init`: rank 0 and a zeroed signature table. */
  function Empty(): Basis
  {
    Basis([], [], ZeroSignature())
  }

  /** The signature entry for byte `v` is nonzero. */
  predicate Marked(sig: seq<u64>, v: bv8)
    requires |sig| == SIGNATURE_SIZE
  {
    sig[v as int] != 0
  }

  /** The bytes `y ^ z` for the entries `y` of `t`. */
  ghost function XorWith(t: seq<bv8>, z: bv8): set<bv8>
  {
    set y | y in t :: y ^ z
  }

  /**
   * The XORs of two entries of `s` at distinct positions: each entry XORed
   * with every earlier one.
   */
  ghost function PairXors(s: seq<bv8>): set<bv8>
  {
    if |s| == 0 then {} else PairXors(s[..|s| - 1]) + XorWith(s[..|s| - 1], s[|s| - 1])
  }

  /** `v` is an entry of `s`, or the XOR of two entries at distinct positions. */
  ghost predicate EntryOrPair(s: seq<bv8>, v: bv8)
  {
    v in s || v in PairXors(s)
  }

  /**
   * The invariant every state reached from `basis_init` by `add_to_basis`
   * keeps: parallel arrays of equal length within capacity, a signature
   * table of 0/1 entries, and a signature entry set exactly for the
   * entries of the basis and the XORs of two of them.
   */
  ghost predicate WellFormed(st: Basis)
  {
    && |st.elems| == |st.derivation| <= MAX_RANK
    && |st.signature| == SIGNATURE_SIZE
    && (forall v :: 0 <= v < SIGNATURE_SIZE ==> st.signature[v] <= 1)
    && (forall v: bv8 :: Marked(st.signature, v) <==> EntryOrPair(st.elems, v))
  }

  // ---------------------------------------------------------------------
  // in_span
  // ---------------------------------------------------------------------

  /** Whether one iteration of the reduction loop XORs `b` into the residue: equal highest set bits. */
  predicate ReduceStepXors(residue: bv8, b: bv8)
  {
    var bitR := HighestBit(residue);
    bitR == HighestBit(b) && bitR >= 0
  }

  /**
   * One iteration of the reduction loop. When it XORs, the residue's
   * highest set bit drops; otherwise the residue is unchanged.
   */
  function ReduceStep(residue: bv8, b: bv8): (r: bv8)
    ensures ReduceStepXors(residue, b) ==> HighestBit(r) < HighestBit(residue)
    ensures !ReduceStepXors(residue, b) ==> r == residue
  {
    if ReduceStepXors(residue, b) then
      XorLowersHighestBit(residue, b);
      residue ^ b
    else residue
  }

  /**
   * The residue after the reduction loop has visited every entry of `s`
   * in order. Its highest set bit never rises above that of `x`, so a
   * zero byte always reduces to zero.
   */
  function Reduce(s: seq<bv8>, x: bv8): (r: bv8)
    ensures HighestBit(r) <= HighestBit(x)
    ensures x == 0 ==> r == 0
  {
    if |s| == 0 then x else ReduceStep(Reduce(s[..|s| - 1], x), s[|s| - 1])
  }

  /** Which entries of `s` the reduction loop XORs into the residue. */
  ghost function ReducePick(s: seq<bv8>, x: bv8): (pick: seq<bool>)
    ensures |pick| == |s|
  {
    if |s| == 0 then []
    else ReducePick(s[..|s| - 1], x) + [ReduceStepXors(Reduce(s[..|s| - 1], x), s[|s| - 1])]
  }

  /**
   * The answer of `in_span`: no on an empty basis, no when the signature
   * entry is clear, otherwise whether the reduction reaches zero.
   */
  function InSpan(st: Basis, x: bv8): (r: bool)
    requires |st.signature| == SIGNATURE_SIZE
    ensures r ==> |st.elems| != 0 && Marked(st.signature, x)
    ensures x == 0 ==> (r <==> |st.elems| != 0 && Marked(st.signature, 0))
  {
    |st.elems| != 0 && Marked(st.signature, x) && Reduce(st.elems, x) == 0
  }

  // ---------------------------------------------------------------------
  // add_to_basis
  // ---------------------------------------------------------------------

  /**
   * The signature table after the closure loop of `add_to_basis`: the
   * entry for `s[i] ^ x` set to 1 for every `i`, in order.
   */
  function MarkPairs(sig: seq<u64>, s: seq<bv8>, x: bv8): (r: seq<u64>)
    requires |sig| == SIGNATURE_SIZE
    ensures |r| == SIGNATURE_SIZE
    ensures forall v :: 0 <= v < SIGNATURE_SIZE ==> r[v] == sig[v] || r[v] == 1
  {
    if |s| == 0 then sig
    else MarkPairs(sig, s[..|s| - 1], x)[(s[|s| - 1] ^ x) as int := 1]
  }

  /**
   * `add_to_basis` as a value transformer: the new state and the returned
   * flag. Nothing changes when the byte is judged in span or the basis is
   * at capacity; otherwise the byte and its position are appended, and the
   * byte and its XOR with every earlier entry are marked.
   */
  function Add(st: Basis, x: bv8, position: u32): (r: (Basis, bool))
    requires |st.signature| == SIGNATURE_SIZE
    ensures r.1 <==> !InSpan(st, x) && |st.elems| < MAX_RANK
    ensures !r.1 ==> r.0 == st
    ensures r.1 ==> r.0.elems == st.elems + [x] && r.0.derivation == st.derivation + [position]
    ensures |r.0.signature| == SIGNATURE_SIZE
  {
    if InSpan(st, x) then (st, false)
    else if |st.elems| >= MAX_RANK then (st, false)
    else
      var sig := MarkPairs(st.signature[x as int := 1], st.elems, x);
      (Basis(st.elems + [x], st.derivation + [position], sig), true)
  }

  // ---------------------------------------------------------------------
  // canon_compress
  // ---------------------------------------------------------------------

  /** The position a byte at index `i` is recorded under: `i` cast to `uint32_t`. */
  function PositionOf(i: nat): (p: u32)
    ensures (i - p as int) % U32_MODULUS == 0
    ensures i < U32_MODULUS ==> p as int == i
  {
    (i % U32_MODULUS) as u32
  }

  /**
   * The state `canon_compress` reaches after one pass over `data`:
   * `add_to_basis` is called once per byte, in order, with its index.
   */
  function Build(data: seq<bv8>): (st: Basis)
    ensures |st.signature| == SIGNATURE_SIZE
    ensures |st.elems| == |st.derivation| <= |data|
    ensures |st.elems| <= MAX_RANK
  {
    if |data| == 0 then Empty()
    else
      var n := |data| - 1;
      Add(Build(data[..n]), data[n], PositionOf(n)).0
  }

  /** Indices of `data` whose byte entered the basis, in order, before truncation to 32 bits. */
  ghost function Positions(data: seq<bv8>): seq<nat>
  {
    if |data| == 0 then []
    else
      var n := |data| - 1;
      Positions(data[..n]) + (if Add(Build(data[..n]), data[n], PositionOf(n)).1 then [n] else [])
  }

  // ---------------------------------------------------------------------
  // canon_decompress
  // ---------------------------------------------------------------------

  /** `canon_decompress`: the output buffer and its size, a copy of the basis rather than a reconstruction. */
  function Decompress(st: Basis): (seq<bv8>, nat)
  {
    (st.elems, |st.elems|)
  }
}
