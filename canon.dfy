/**
 * The `GF2_Basis` record as the engine mutates it: fixed-capacity arrays
 * for the basis bytes and their derivation positions, a 256-entry
 * signature table, and the rank. Each method is proved to move the
 * abstract state exactly as the value-level definitions of module
 * BasisSpec say, so every lemma of module BasisLemmas applies to it.
 */
module Canon {
  import opened Bits
  import opened BasisSpec
  import opened BasisLemmas

  class Gf2Basis {
    /** Basis bytes; entries `0 .. rank-1` are meaningful. */
    var basis: array<bv8>
    /** Number of bytes appended so far. */
    var rank: u32
    /** For each basis entry, the input position it was read from. */
    var derivation: array<u32>
    /** One entry per byte value: nonzero once the byte is known to be reachable. */
    var spanSignature: array<u64>

    /** The allocation shape `basis_init` sets up: three separate arrays, and the rank within capacity. */
    ghost predicate Valid()
      reads this
    {
      && basis.Length == MAX_RANK
      && derivation.Length == MAX_RANK
      && spanSignature.Length == SIGNATURE_SIZE
      && rank as int <= MAX_RANK
      && basis as object != derivation && basis as object != spanSignature
      && derivation as object != spanSignature
    }

    /** The meaningful part of the record, as a value. */
    ghost function Abstract(): Basis
      reads this, basis, derivation, spanSignature
      requires Valid()
    {
      Basis(basis[..rank], derivation[..rank], spanSignature[..])
    }

    /** `basis_init`: capacity `MAX_RANK`, rank 0, and a zeroed signature table. */
    constructor ()
      ensures Valid() && Abstract() == Empty()
      ensures fresh(basis) && fresh(derivation) && fresh(spanSignature)
    {
      basis := new bv8[MAX_RANK];
      derivation := new u32[MAX_RANK];
      spanSignature := new u64[SIGNATURE_SIZE](_ => 0);
      rank := 0;
    }

    /**
     * `in_span`: no on an empty basis or a clear signature entry;
     * otherwise reduce `x` by each entry in insertion order, XORing when
     * the highest set bits agree, and answer whether the residue is zero.
     * A yes is sound: `x` is then the XOR of a subset of the basis.
     */
    method InSpan(x: bv8) returns (r: bool)
      requires Valid()
      ensures r == BasisSpec.InSpan(Abstract(), x)
      ensures rank == 0 ==> !r
      ensures spanSignature[x as int] == 0 ==> !r
      ensures r ==> Spans(basis[..rank], x)
    {
      if rank == 0 {
        return false;
      }
      var sig := spanSignature[x as int];
      if sig == 0 {
        return false;
      }
      ghost var elems := basis[..rank];
      var residue := x;
      var i: u32 := 0;
      while i < rank
        invariant i <= rank
        invariant residue == Reduce(elems[..i], x)
      {
        var b := basis[i];
        var bitR := HighestSetBit(residue);
        var bitB := HighestSetBit(b);
        ReduceSnoc(elems, x, i as nat);
        if bitR == bitB && bitR >= 0 {
          residue := residue ^ b;
        }
        i := i + 1;
      }
      assert elems[..i] == elems;
      r := residue == 0;
      if r {
        ReduceSound(elems, x);
      }
    }

    /**
     * `add_to_basis`: refuse `x` when it is judged in span or the basis is
     * full; otherwise store it and its position at index `rank`, mark
     * `x` and its XOR with every earlier entry, and increment the rank.
     * The arrays stay the same objects, and the invariant of
     * `WellFormed` is kept.
     */
    method AddToBasis(x: bv8, position: u32) returns (added: bool)
      requires Valid()
      modifies this, basis, derivation, spanSignature
      ensures Valid()
      ensures basis == old(basis) && derivation == old(derivation) && spanSignature == old(spanSignature)
      ensures (Abstract(), added) == Add(old(Abstract()), x, position)
      ensures WellFormed(old(Abstract())) ==> WellFormed(Abstract())
    {
      ghost var before := Abstract();
      if WellFormed(before) {
        AddPreservesWellFormed(before, x, position);
      }
      var inSpan := InSpan(x);
      if inSpan {
        AddRefuses(before, x, position);
        return false;
      }
      if rank as int >= MAX_RANK {
        AddRefuses(before, x, position);
        return false;
      }
      AddAppends(before, x, position);
      Append(x, position);
      added := true;
    }

    /**
     * The accepting branch of `add_to_basis`: store `x` and `position` at
     * index `rank`, mark `x`, run the closure loop, and increment the rank.
     */
    method Append(x: bv8, position: u32)
      requires Valid() && (rank as int) < MAX_RANK
      modifies this, basis, derivation, spanSignature
      ensures Valid()
      ensures basis == old(basis) && derivation == old(derivation) && spanSignature == old(spanSignature)
      ensures Abstract() == Basis(old(Abstract()).elems + [x], old(Abstract()).derivation + [position],
                                  MarkPairs(old(Abstract()).signature[x as int := 1], old(Abstract()).elems, x))
    {
      ghost var before := Abstract();
      basis[rank] := x;
      assert basis[..rank + 1] == before.elems + [x];
      derivation[rank] := position;
      assert derivation[..rank + 1] == before.derivation + [position];
      MarkSignature(x);
      rank := rank + 1;
    }

    /**
     * `canon_decompress`: a fresh buffer holding a copy of the first
     * `rank` basis bytes, and `rank` as the output size.
     */
    method Decompress() returns (output: array<bv8>, outputSize: u64)
      requires Valid()
      ensures fresh(output)
      ensures (output[..], outputSize as nat) == BasisSpec.Decompress(Abstract())
    {
      outputSize := rank as u64;
      output := new bv8[rank];
      forall i | 0 <= i < rank as int {
        output[i] := basis[i];
      }
      assert output[..] == basis[..rank];
    }

    /** The signature update of `add_to_basis`: mark `x`, then run the closure loop. */
    method MarkSignature(x: bv8)
      requires Valid()
      modifies spanSignature
      ensures spanSignature[..] == MarkPairs(old(spanSignature[..])[x as int := 1], basis[..rank], x)
    {
      spanSignature[x as int] := 1;
      MarkClosure(x);
    }

    /**
     * The closure loop of `add_to_basis`: mark `basis[i] ^ x` for every
     * entry below the rank, in order; nothing else changes.
     */
    method MarkClosure(x: bv8)
      requires Valid()
      modifies spanSignature
      ensures spanSignature[..] == MarkPairs(old(spanSignature[..]), basis[..rank], x)
    {
      ghost var start := spanSignature[..];
      ghost var elems := basis[..rank];
      var i: u32 := 0;
      while i < rank
        invariant i <= rank
        invariant spanSignature[..] == MarkPairs(start, elems[..i], x)
      {
        var combined := basis[i] ^ x;
        assert combined == elems[i] ^ x;
        ghost var prev := spanSignature[..];
        spanSignature[combined as int] := 1;
        assert spanSignature[..] == prev[combined as int := 1];
        MarkPairsSnoc(start, elems, x, i as nat);
        i := i + 1;
      }
      assert elems[..i] == elems;
    }
  }

  /** Extending the scanned prefix by one entry is one more reduction step. */
  lemma ReduceSnoc(s: seq<bv8>, x: bv8, i: nat)
    requires i < |s|
    ensures Reduce(s[..i + 1], x) == ReduceStep(Reduce(s[..i], x), s[i])
  {
    assert s[..i + 1][..i] == s[..i];
  }

  /** Extending the scanned prefix by one entry marks one more XOR. */
  lemma MarkPairsSnoc(sig: seq<u64>, s: seq<bv8>, x: bv8, i: nat)
    requires |sig| == SIGNATURE_SIZE && i < |s|
    ensures MarkPairs(sig, s[..i + 1], x) == MarkPairs(sig, s[..i], x)[(s[i] ^ x) as int := 1]
  {
    assert s[..i + 1][..i] == s[..i];
  }

  /** Extending the read prefix by one byte is one more `add_to_basis`. */
  lemma BuildSnoc(data: seq<bv8>, i: nat)
    requires i < |data|
    ensures Build(data[..i + 1]) == Add(Build(data[..i]), data[i], PositionOf(i)).0
  {
    assert data[..i + 1][..i] == data[..i];
  }

  /**
   * `canon_compress`: a fresh basis, then `add_to_basis` once per byte in
   * order, with the byte's index cast to `uint32_t` as its position.
   */
  method CanonCompress(data: array<bv8>) returns (b: Gf2Basis)
    ensures fresh(b) && fresh(b.basis) && fresh(b.derivation) && fresh(b.spanSignature)
    ensures b.Valid() && b.Abstract() == Build(data[..])
    ensures WellFormed(b.Abstract())
  {
    b := new Gf2Basis();
    EmptyWellFormed();
    var i := 0;
    while i < data.Length
      invariant 0 <= i <= data.Length
      invariant fresh(b) && fresh(b.basis) && fresh(b.derivation) && fresh(b.spanSignature)
      invariant b.Valid() && b.Abstract() == Build(data[..i])
      invariant WellFormed(b.Abstract())
    {
      BuildSnoc(data[..], i);
      var _ := b.AddToBasis(data[i], PositionOf(i));
      i := i + 1;
    }
    assert data[..] == data[..i];
  }
}
