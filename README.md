# CANON optimal: a verified model of the GF(2) byte-basis engine

CANON is a byte compressor. It treats each input byte as a vector over
GF(2) and keeps a "basis" of the bytes it has judged independent. One pass
over the input calls `add_to_basis` once per byte. Each call:

- asks `in_span` whether the byte is already reachable. `in_span` has two
  steps: a 256-entry signature pre-filter, then a reduction that XORs in a
  basis entry whenever that entry's highest set bit equals the residue's;
- if the byte is not reachable and capacity remains, appends it with its
  input position;
- marks the byte, and its XOR with every earlier entry, in the signature
  table.

`canon_decompress` returns a copy of the basis. The saved file is
`"CANON"`, the rank, the basis bytes and the derivation positions.

The model follows the code as written, not textbook Gaussian elimination:

- the raw byte is stored, not its reduced residue;
- entries are scanned in insertion order;
- the signature table records only single entries and XORs of two entries.

So a byte that already lies in the span can still be appended, and the rank
is not bounded by 8. What does hold, and is proved here:

- a yes from `in_span` is sound;
- `add_to_basis` is append-only;
- the derivation table is exact for inputs of at most 2^32 bytes (beyond
  that, positions wrap modulo 2^32);
- the signature table means exactly "an entry or the XOR of two entries";
- the saved layout round-trips.

Layout of the project:

- `bits.dfy` (module `Bits`): the fixed-width integer types, the
  highest-set-bit scan, and subset XOR (`Combine`, `Spans`).
- `basis_spec.dfy` (module `BasisSpec`): the `GF2_Basis` record as a value
  (`Basis`) and the engine's operations as functions: `InSpan`, `Add`,
  `Build` (one pass of `canon_compress`) and `Decompress`.
- `basis_lemmas.dfy` (module `BasisLemmas`): what those functions guarantee.
- `basis_examples.dfy` (module `BasisExamples`): the engine on concrete
  inputs, showing where it departs from exact elimination.
- `canon.dfy` (module `Canon`): class `Gf2Basis`, over arrays, with the
  loops of `in_span`, `add_to_basis` and `canon_compress`. Each method is
  proved to move the abstract state exactly as module `BasisSpec` says.
- `layout.dfy` and `layout_lemmas.dfy` (modules `Layout` and
  `LayoutLemmas`): the integer part of `compute_stats`, and the saved byte
  layout as a pure encoder (`Save`) and parser (`Load`), with their round
  trips.

## Model

| member | source | states |
|---|---|---|
| Bits.HighestSetBit | source_code/canon_optimal.c:97-101 | The bit scan of `in_span` returns the index of the highest set bit of a byte, or -1 for zero (the value `HighestBit` defines). |
| Bits.HighestBitMeaning | source_code/canon_optimal.c:97-101 | The scan result lies in -1..7. It is -1 exactly for the zero byte. It is k exactly when 2^k <= b < 2^(k+1). |
| Canon.Gf2Basis.constructor | source_code/canon_optimal.c:55-62 | `basis_init` yields rank 0, three fresh arrays of capacities MAX_RANK, MAX_RANK and 256, and an all-zero signature table. |
| Canon.Gf2Basis.InSpan | source_code/canon_optimal.c:83-110 | The answer equals the value model's `InSpan`. It is no on an empty basis and no when the signature entry is zero. A yes implies that `x` is the XOR of a subset of `basis[0..rank)`. |
| Bits.XorLowersHighestBit | source_code/canon_optimal.c:104-105 | XORing two bytes with the same highest set bit lowers the highest set bit, so each XOR of the reduction makes progress. |
| BasisSpec.ReduceStep | source_code/canon_optimal.c:94-106 | One iteration of the reduction: when the highest set bits agree (and the residue is nonzero) the entry is XORed in and the residue's highest bit drops; otherwise the residue is unchanged. |
| BasisSpec.Reduce | source_code/canon_optimal.c:91-107 | The residue after the loop has visited every entry in insertion order. Its highest set bit never exceeds that of `x`, so a zero byte always reduces to zero. |
| BasisSpec.InSpan | source_code/canon_optimal.c:83-110 | The answer of `in_span`: a yes needs a nonempty basis and a set signature entry (the two early exits). For the zero byte the answer is exactly "rank > 0 and entry 0 is marked", since zero always reduces to zero. |
| BasisLemmas.InSpanSound | source_code/canon_optimal.c:91-109 | A yes from `in_span` is sound: `x` is the XOR of some subset of the basis entries. |
| BasisLemmas.ReduceIsCombination | source_code/canon_optimal.c:91-107 | The residue after the loop is `x` XORed with exactly the entries the loop chose, so it only ever differs from `x` by basis entries. |
| Canon.Gf2Basis.AddToBasis | source_code/canon_optimal.c:118-143 | The new record and the returned flag are exactly the value model's `Add`. The same arrays are kept, and the invariant `WellFormed` is preserved. |
| Canon.Gf2Basis.Append | source_code/canon_optimal.c:128-142 | On acceptance, `x` and `position` are stored at index `rank`, earlier entries are untouched, the rank grows by one, and the signature is updated by the closure marking. |
| Canon.Gf2Basis.MarkSignature | source_code/canon_optimal.c:133-139 | The signature table becomes the old one with `x` set to 1, then `basis[i]^x` set to 1 for every `i < rank`, in order. Nothing else changes. |
| Canon.Gf2Basis.MarkClosure | source_code/canon_optimal.c:135-139 | The closure loop sets exactly the entries `basis[i]^x` for `i < rank` and leaves every other entry as it was. |
| BasisSpec.MarkPairs | source_code/canon_optimal.c:135-139 | The signature after the closure loop: every entry keeps its value or becomes 1; the loop writes nothing else. |
| BasisSpec.Add | source_code/canon_optimal.c:118-143 | `add_to_basis` on values: it accepts iff the byte is judged out of span and rank < MAX_RANK. A refusal leaves the whole state unchanged. An acceptance appends the byte to the basis and the position to the derivation. |
| BasisLemmas.AddEffect | source_code/canon_optimal.c:119-142 | `add_to_basis` succeeds iff the byte is judged out of span and rank < MAX_RANK. On failure the whole state is unchanged. On success it appends the byte and its position, and marks `x` and every `basis[i]^x`. No mark is ever cleared. |
| BasisLemmas.MarkPairsMarked | source_code/canon_optimal.c:135-139 | After the closure loop, an entry is marked iff it was marked before or it is `basis[i]^x` for some earlier entry. |
| BasisLemmas.AddPreservesWellFormed | source_code/canon_optimal.c:118-143 | `add_to_basis` preserves the invariant: equal-length arrays within capacity, signature entries of 0 or 1, and an entry marked exactly when it is a basis entry or the XOR of two. |
| BasisLemmas.SignatureMeaning | source_code/canon_optimal.c:133-139 | Under the invariant, every basis entry and every XOR of two entries at distinct indices is marked. Every marked byte is an entry, or the XOR of the entries at two distinct indices. |
| BasisSpec.PositionOf | source_code/canon_optimal.c:160 | The `uint64_t` index passed as a `uint32_t` position: congruent to the index modulo 2^32, and equal to it below 2^32. |
| BasisSpec.Build | source_code/canon_optimal.c:153-161 | The state after one pass: `add_to_basis` once per byte, in order. Basis and derivation have equal length, at most the input length and at most MAX_RANK. |
| BasisLemmas.BuildWellFormed | source_code/canon_optimal.c:153-161 | Every state `canon_compress` reaches satisfies the invariant, so rank <= MAX_RANK always holds. |
| Canon.CanonCompress | source_code/canon_optimal.c:153-172 | The returned record is a fresh basis whose abstract state is `Build(data)` (one `add_to_basis` per byte, in order), and it satisfies the invariant. |
| BasisLemmas.BuildProvenance | source_code/canon_optimal.c:157-161 | Each basis entry is the input byte at a recorded index. The indices strictly increase. Each derivation value is that index truncated to 32 bits. |
| BasisLemmas.DerivationExact | source_code/canon_optimal.c:129-130 | For inputs of at most 2^32 bytes, `derivation[0..rank)` is strictly increasing and `basis[j] == data[derivation[j]]` for every `j < rank`. |
| BasisLemmas.BuildAppendOnly | source_code/canon_optimal.c:157-161 | After more bytes, the earlier basis and derivation are prefixes of the later ones, and the rank grows by at most the number of extra bytes (so rank <= k after k bytes). |
| BasisExamples.DependentByteEnters | source_code/canon_optimal.c:93-107 | On input 3,2,1 the byte 1 is in the span of [3,2] and its signature entry is set, yet it is appended: rank 3. |
| BasisExamples.TripleXorEnters | source_code/canon_optimal.c:133-139 | On input 1,2,4,7 the byte 7 is in the span, but its signature entry is never set (only pairs are recorded), so it is appended: rank 4. |
| BasisExamples.ZeroByteEntersEmptyBasis | source_code/canon_optimal.c:84 | A first byte of 0 is reported not in span and becomes entry 0. |
| BasisExamples.RepeatedByteRejected | source_code/canon_optimal.c:84-109 | A byte equal to the only entry is marked and reduces to zero, so it is rejected. |
| BasisExamples.RankNotBoundedByWidth | source_code/canon_optimal.c:93-107 | After a 3, every further 2 is appended, up to MAX_RANK: the rank is not bounded by 8. |
| Canon.Gf2Basis.Decompress | source_code/canon_optimal.c:180-189 | The output buffer is fresh and holds exactly `basis[0..rank)`, and the output size is `rank`. |
| BasisLemmas.DecompressOfCompress | source_code/canon_optimal.c:183-186 | After compression, the output is `rank` bytes, no more than the input length, and is a subsequence of the input in input order. |
| Layout.ComputeStats | source_code/canon_optimal.c:194-200 | `basis_size` is `rank`, and `derivation_size` is `rank*4` in 32-bit arithmetic. That is exactly `4*rank` whenever rank <= MAX_RANK. |
| Layout.DecodeEncodeU32 | source_code/canon_optimal.c:252 | Reading back the four bytes written for a `uint32_t` yields the same value. |
| Layout.EncodeDecodeU32 | source_code/canon_optimal.c:286 | Any four bytes read as a `uint32_t` re-encode to the same four bytes. |
| Layout.DecodeEncodeDerivation | source_code/canon_optimal.c:258 | The written derivation table, with anything after it, reads back as the same positions. |
| Layout.EncodeDecodeDerivation | source_code/canon_optimal.c:292 | A derivation table that was read re-encodes to the bytes it was read from. |
| Layout.Save | source_code/canon_optimal.c:250-258 | The saved image starts with "CANON" and is 9 + 5*rank bytes long: the magic, the rank, the basis bytes and 4 bytes per derivation entry. |
| Layout.Load | source_code/canon_optimal.c:274-292 | Input is rejected as not CANON iff it is shorter than 5 bytes or does not start with "CANON". A load that succeeds yields equal-length tables within capacity, covered by the input, and a zeroed signature table. |
| Layout.ToFromBytes | source_code/canon_optimal.c:289 | Basis bytes read from a file and written back are the same file bytes. |
| LayoutLemmas.LoadSave | source_code/canon_optimal.c:250-292 | Loading a saved image, with any trailing bytes, restores the same rank, basis and derivation, with a zeroed signature. |
| LayoutLemmas.SaveLoad | source_code/canon_optimal.c:250-292 | Saving a loaded basis reproduces, byte for byte, the first 9 + 5*rank bytes of the file it came from: the header, the basis bytes and the derivation table. |
| LayoutLemmas.LoadedNeverInSpan | source_code/canon_optimal.c:283-292 | A loaded basis has a zero signature, so `in_span` says no for every byte and `add_to_basis` appends every byte while capacity remains. |
| LayoutLemmas.CompressSaveLoad | source_code/canon_optimal.c:153-292 | The result of compression is within capacity. It saves and loads back to the same decompressed output. Its saved size is 9 plus the statistics' `basis_size + derivation_size`. |

## Left out

- Console output: the progress `printf`/`fflush` in `canon_compress`, the
  "Maximum rank exceeded" message, and all of `print_stats`.
- Floating point and timing: `compression_ratio`, `time_seconds`, the
  throughput figure and `clock()`.
- File I/O: `fopen`/`fread`/`fwrite`/`fclose`, their failure paths, and
  `read_file`. Only the byte layout of the saved file is modelled, as a
  pure encoder and parser.
- `main` and its command-line dispatch.
- `basis_free` and the release of memory; allocation is the class
  constructor.
- `CHUNK_SIZE`, which nothing uses.
- Reconstruction of the original data: the source has none.
- Byte order: the source writes the rank and derivation in the host's
  native order. The model fixes little-endian.
- Array contents at and beyond `rank`, which `malloc` leaves
  uninitialised, are not part of the abstract state.
- Layout.Load: a file that ends early, or whose rank exceeds `MAX_RANK`, is
  a rejection in the model. The source does not check the `fread` results
  and would overrun its arrays on a large rank.
- BasisLemmas.DerivationExact: stated only for inputs of at most 2^32
  bytes. Beyond that, the source's 64-bit index is truncated to 32 bits;
  `BuildProvenance` states that truncation for any length.
