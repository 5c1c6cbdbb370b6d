/**
 * What the saved layout guarantees: a saved basis loads back as the same
 * entries and positions with a zeroed signature table, a loaded basis
 * saves back to the bytes it was read from, the statistics count exactly
 * the bytes after the header, and a loaded basis judges no byte in span.
 */
module LayoutLemmas {
  import opened Bits
  import opened BasisSpec
  import opened BasisLemmas
  import opened Layout

  /**
   * Loading a saved basis, whatever follows it in the file, gives back
   * its entries and positions; the signature table is not saved and comes
   * back zeroed.
   */
  lemma LoadSave(st: Basis, rest: seq<byte>)
    requires |st.elems| == |st.derivation| <= MAX_RANK
    ensures Load(Save(st) + rest) == Loaded(Basis(st.elems, st.derivation, ZeroSignature()))
  {
    var n := |st.elems|;
    var bytes := Save(st) + rest;
    assert bytes[..5] == Magic;
    assert bytes[5..HEADER_SIZE] == EncodeU32(n as u32);
    DecodeEncodeU32(n as u32);
    assert bytes[HEADER_SIZE..HEADER_SIZE + n] == ToBytes(st.elems);
    FromToBytes(st.elems);
    assert bytes[HEADER_SIZE + n..] == EncodeDerivation(st.derivation) + rest;
    DecodeEncodeDerivation(st.derivation, rest);
  }

  /**
   * Saving a loaded basis reproduces, byte for byte, the part of the file
   * it was read from: the header, the basis bytes and the derivation table.
   */
  lemma SaveLoad(bytes: seq<byte>)
    requires Load(bytes).Loaded?
    ensures var b := Load(bytes).basis;
      Save(b) == bytes[..HEADER_SIZE + 5 * |b.elems|]
  {
    var b := Load(bytes).basis;
    var n := |b.elems|;
    var m := HEADER_SIZE + n;
    EncodeDecodeU32(bytes[5..HEADER_SIZE]);
    ToFromBytes(bytes[HEADER_SIZE..m]);
    EncodeDecodeDerivation(bytes[m..], n);
    assert bytes[m..][..4 * n] == bytes[m..m + 4 * n];
    assert bytes[..m + 4 * n] == bytes[..5] + bytes[5..HEADER_SIZE] + bytes[HEADER_SIZE..m] + bytes[m..m + 4 * n];
  }

  /**
   * A loaded basis has a zeroed signature table, so `in_span` answers no
   * for every byte and `add_to_basis` appends every byte while capacity
   * remains, including bytes already in the basis.
   */
  lemma LoadedNeverInSpan(bytes: seq<byte>, x: bv8, position: u32)
    requires Load(bytes).Loaded?
    ensures !InSpan(Load(bytes).basis, x)
    ensures |Load(bytes).basis.elems| < MAX_RANK ==> Add(Load(bytes).basis, x, position).1
  {
    var b := Load(bytes).basis;
    assert b.signature[x as int] == 0;
  }

  /**
   * One pass of compression, saved and loaded again, decompresses to the
   * same bytes as before saving, and the statistics' basis and derivation
   * sizes add up to the saved size after the 9-byte header.
   */
  lemma CompressSaveLoad(data: seq<bv8>, rest: seq<byte>)
    requires |data| < 0x1_0000_0000_0000_0000
    ensures var st := Build(data);
      && |st.elems| == |st.derivation| <= MAX_RANK
      && Load(Save(st) + rest).Loaded?
      && Decompress(Load(Save(st) + rest).basis) == Decompress(st)
      && var stats := ComputeStats(|data| as u64, |st.elems| as u32);
         |Save(st)| == HEADER_SIZE + stats.basisSize as int + stats.derivationSize as int
  {
    var st := Build(data);
    BuildWellFormed(data);
    LoadSave(st, rest);
  }
}
