/**
 * What the basis engine guarantees, proved about the definitions of
 * module BasisSpec: soundness of a positive span answer, the effect of one
 * `add_to_basis`, the invariant it keeps, the provenance of every entry
 * after a pass.
 */
module BasisLemmas {
  import opened Bits
  import opened BasisSpec

  // ---------------------------------------------------------------------
  // in_span
  // ---------------------------------------------------------------------

  /** The last reduction step, written as an XOR with the entry or with zero. */
  lemma ReduceLast(s: seq<bv8>, x: bv8)
    requires |s| > 0
    ensures var n := |s| - 1;
      Reduce(s, x) == Reduce(s[..n], x) ^ (if ReduceStepXors(Reduce(s[..n], x), s[n]) then s[n] else 0)
  {
    var n := |s| - 1;
    var r := Reduce(s[..n], x);
    XorChoice(r, s[n], ReduceStepXors(r, s[n]));
  }

  /** A conditional XOR is an XOR with the entry or with zero. */
  lemma XorChoice(r: bv8, b: bv8, chosen: bool)
    ensures (if chosen then r ^ b else r) == r ^ (if chosen then b else 0)
  {
  }

  /** The picked combination grows by the last entry exactly when the last step XORs it in. */
  lemma CombinePickLast(s: seq<bv8>, x: bv8)
    requires |s| > 0
    ensures var n := |s| - 1;
      Combine(s, ReducePick(s, x)) ==
        Combine(s[..n], ReducePick(s[..n], x)) ^ (if ReduceStepXors(Reduce(s[..n], x), s[n]) then s[n] else 0)
  {
    var n := |s| - 1;
    var pick := ReducePick(s[..n], x);
    var chosen := ReduceStepXors(Reduce(s[..n], x), s[n]);
    assert ReducePick(s, x) == pick + [chosen];
    assert s == s[..n] + [s[n]];
    CombineSnoc(s[..n], pick, s[n], chosen);
  }

  /** The residue is always `x` XORed with the entries the loop picked. */
  lemma {:induction false} ReduceIsCombination(s: seq<bv8>, x: bv8)
    ensures Reduce(s, x) == x ^ Combine(s, ReducePick(s, x))
  {
    if |s| > 0 {
      ReduceIsCombination(s[..|s| - 1], x);
      ReduceLast(s, x);
      CombinePickLast(s, x);
    }
  }

  /** A residue of zero means `x` is the XOR of a subset of the entries. */
  lemma ReduceSound(s: seq<bv8>, x: bv8)
    requires Reduce(s, x) == 0
    ensures Spans(s, x)
  {
    ReduceIsCombination(s, x);
    assert Combine(s, ReducePick(s, x)) == x;
  }

  /** Soundness of `in_span`: a positive answer means `x` is the XOR of a subset of the basis. */
  lemma InSpanSound(st: Basis, x: bv8)
    requires |st.signature| == SIGNATURE_SIZE
    requires InSpan(st, x)
    ensures Spans(st.elems, x)
  {
    ReduceSound(st.elems, x);
  }

  // ---------------------------------------------------------------------
  // add_to_basis
  // ---------------------------------------------------------------------

  /** Membership in `XorWith` without a quantifier: `v` is some `y ^ z` exactly when `v ^ z` is an entry. */
  lemma XorWithMember(t: seq<bv8>, z: bv8, v: bv8)
    ensures v in XorWith(t, z) <==> (v ^ z) in t
  {
    if (v ^ z) in t {
      assert (v ^ z) ^ z == v;
    }
  }

  /** The pair XORs of `s` include `s[i] ^ s[j]` for every two positions `i < j`. */
  lemma {:induction false} PairXorsAt(s: seq<bv8>, i: nat, j: nat)
    requires i < j < |s|
    ensures s[i] ^ s[j] in PairXors(s)
  {
    var n := |s| - 1;
    if j < n {
      PairXorsAt(s[..n], i, j);
    } else {
      assert s[i] in s[..n];
    }
  }

  /** Every pair XOR is the XOR of the entries at two distinct positions. */
  lemma {:induction false} PairXorsFrom(s: seq<bv8>, v: bv8) returns (i: nat, j: nat)
    requires v in PairXors(s)
    ensures i < j < |s| && s[i] ^ s[j] == v
  {
    var inPrefix := PairXorsSplit(s, v);
    if inPrefix {
      var a, b := PairXorsFrom(s[..|s| - 1], v);
      i, j := PairFromPrefix(s, v, a, b);
    } else {
      i, j := PairWithLast(s, v);
    }
  }

  lemma PairFromPrefix(s: seq<bv8>, v: bv8, a: nat, b: nat) returns (i: nat, j: nat)
    requires |s| > 0 && a < b < |s[..|s| - 1]| && s[..|s| - 1][a] ^ s[..|s| - 1][b] == v
    ensures i < j < |s| && s[i] ^ s[j] == v
  {
    i, j := a, b;
    var t := s[..|s| - 1];
    assert t[i] == s[i] && t[j] == s[j];
  }

  lemma PairWithLast(s: seq<bv8>, v: bv8) returns (i: nat, j: nat)
    requires |s| > 0 && (v ^ s[|s| - 1]) in s[..|s| - 1]
    ensures i < j < |s| && s[i] ^ s[j] == v
  {
    j := |s| - 1;
    var t := s[..j];
    i := IndexOf(t, v ^ s[j]);
    assert t[i] == s[i];
    XorCancelAt(s, v, i, j);
  }

  /** If entry `i` is `v ^ s[j]` then the two entries XOR to `v`. */
  lemma XorCancelAt(s: seq<bv8>, v: bv8, i: nat, j: nat)
    requires i < j < |s| && s[i] == v ^ s[j]
    ensures s[i] ^ s[j] == v
  {
    XorCancel(v, s[j]);
  }

  /** One unfolding of `PairXors`, as membership. */
  lemma PairXorsSplit(s: seq<bv8>, v: bv8) returns (inPrefix: bool)
    requires v in PairXors(s)
    ensures |s| > 0
    ensures inPrefix ==> v in PairXors(s[..|s| - 1])
    ensures !inPrefix ==> (v ^ s[|s| - 1]) in s[..|s| - 1]
  {
    inPrefix := v in PairXors(s[..|s| - 1]);
    XorWithMember(s[..|s| - 1], s[|s| - 1], v);
  }

  /** A position at which `y` occurs in `t`. */
  lemma IndexOf(t: seq<bv8>, y: bv8) returns (i: nat)
    requires y in t
    ensures i < |t| && t[i] == y
  {
    i :| 0 <= i < |t| && t[i] == y;
  }

  /** XORing twice with the same byte cancels. */
  lemma XorCancel(v: bv8, z: bv8)
    ensures (v ^ z) ^ z == v
  {
  }

  /**
   * Under the invariant, the signature table marks every entry and the
   * XOR of every two entries, and nothing else.
   */
  lemma SignatureMeaning(st: Basis)
    requires WellFormed(st)
    ensures forall i :: 0 <= i < |st.elems| ==> Marked(st.signature, st.elems[i])
    ensures forall i, j :: 0 <= i < j < |st.elems| ==> Marked(st.signature, st.elems[i] ^ st.elems[j])
    ensures forall v: bv8 :: Marked(st.signature, v) ==>
      v in st.elems || exists i, j :: 0 <= i < j < |st.elems| && st.elems[i] ^ st.elems[j] == v
  {
    forall i, j | 0 <= i < j < |st.elems|
      ensures Marked(st.signature, st.elems[i] ^ st.elems[j])
    {
      PairXorsAt(st.elems, i, j);
    }
    forall v: bv8 | Marked(st.signature, v) && v !in st.elems
      ensures exists i, j :: 0 <= i < j < |st.elems| && st.elems[i] ^ st.elems[j] == v
    {
      var i, j := PairXorsFrom(st.elems, v);
    }
  }

  /** Setting the entry of `w` marks `w` and leaves every other mark as it was. */
  lemma MarkOne(sig: seq<u64>, w: bv8, v: bv8)
    requires |sig| == SIGNATURE_SIZE
    ensures Marked(sig[w as int := 1], v) <==> Marked(sig, v) || v == w
  {
  }

  /** `v ^ x` occurs in a sequence one longer exactly when it occurs in the shorter one or is the last entry. */
  lemma XorInLast(s: seq<bv8>, x: bv8, v: bv8)
    requires |s| > 0
    ensures (v ^ x) in s <==> (v ^ x) in s[..|s| - 1] || v == s[|s| - 1] ^ x
  {
    assert s == s[..|s| - 1] + [s[|s| - 1]];
  }

  /** After the closure loop, `v` is marked exactly when it was before or `v ^ x` is an entry of `s`. */
  lemma {:induction false} MarkPairsMarked(sig: seq<u64>, s: seq<bv8>, x: bv8, v: bv8)
    requires |sig| == SIGNATURE_SIZE
    ensures Marked(MarkPairs(sig, s, x), v) <==> Marked(sig, v) || (v ^ x) in s
  {
    if |s| > 0 {
      MarkPairsMarked(sig, s[..|s| - 1], x, v);
      MarkPairsMarkedStep(sig, s, x, v);
    }
  }

  /** The inductive step of `MarkPairsMarked`: one more iteration of the closure loop. */
  lemma MarkPairsMarkedStep(sig: seq<u64>, s: seq<bv8>, x: bv8, v: bv8)
    requires |sig| == SIGNATURE_SIZE && |s| > 0
    requires Marked(MarkPairs(sig, s[..|s| - 1], x), v) <==> Marked(sig, v) || (v ^ x) in s[..|s| - 1]
    ensures Marked(MarkPairs(sig, s, x), v) <==> Marked(sig, v) || (v ^ x) in s
  {
    var n := |s| - 1;
    MarkOne(MarkPairs(sig, s[..n], x), s[n] ^ x, v);
    XorInLast(s, x, v);
  }

  /** The marks after a successful add: the old marks, `x`, and `x` XORed with each earlier entry. */
  lemma AddMarks(st: Basis, x: bv8, position: u32, v: bv8)
    requires |st.signature| == SIGNATURE_SIZE
    requires Add(st, x, position).1
    ensures Marked(Add(st, x, position).0.signature, v) <==>
            Marked(st.signature, v) || v == x || v in XorWith(st.elems, x)
  {
    MarkPairsMarked(st.signature[x as int := 1], st.elems, x, v);
    MarkOne(st.signature, x, v);
    XorWithMember(st.elems, x, v);
  }

  /**
   * What one call of `add_to_basis` does: it succeeds exactly when the
   * byte is judged out of span and capacity remains; on success the byte
   * and position are appended with earlier entries untouched, the byte
   * and its XOR with each earlier entry are marked, and no signature
   * entry is cleared; on failure the state is unchanged.
   */
  lemma AddEffect(st: Basis, x: bv8, position: u32)
    requires |st.signature| == SIGNATURE_SIZE
    ensures var (st', added) := Add(st, x, position);
      && (added <==> !InSpan(st, x) && |st.elems| < MAX_RANK)
      && (!added ==> st' == st)
      && (added ==> st'.elems == st.elems + [x] && st'.derivation == st.derivation + [position])
      && |st'.signature| == SIGNATURE_SIZE
      && (added ==> Marked(st'.signature, x))
      && (added ==> forall i :: 0 <= i < |st.elems| ==> Marked(st'.signature, st.elems[i] ^ x))
      && (forall v: bv8 :: Marked(st.signature, v) ==> Marked(st'.signature, v))
  {
    var (st', added) := Add(st, x, position);
    if added {
      forall v: bv8
        ensures Marked(st'.signature, v) <==> Marked(st.signature, v) || v == x || v in XorWith(st.elems, x)
      {
        AddMarks(st, x, position, v);
      }
      forall i | 0 <= i < |st.elems|
        ensures st.elems[i] ^ x in XorWith(st.elems, x)
      {
        XorWithMember(st.elems, x, st.elems[i] ^ x);
        assert (st.elems[i] ^ x) ^ x == st.elems[i];
      }
    }
  }

  /** Entry-or-pair membership after appending `x`: the old ones, `x`, and `x` XORed with each old entry. */
  lemma EntryOrPairSnoc(s: seq<bv8>, x: bv8, v: bv8)
    ensures EntryOrPair(s + [x], v) <==> EntryOrPair(s, v) || v == x || v in XorWith(s, x)
  {
    var t := s + [x];
    assert t[..|t| - 1] == s;
    assert v in t <==> v in s || v == x;
  }

  /**
   * `add_to_basis` keeps the invariant whatever it decides: the rank
   * stays within capacity, the signature holds only 0 and 1, and a byte
   * is marked exactly when it is an entry or the XOR of two entries.
   */
  lemma AddPreservesWellFormed(st: Basis, x: bv8, position: u32)
    requires WellFormed(st)
    ensures WellFormed(Add(st, x, position).0)
  {
    var (st', added) := Add(st, x, position);
    if added {
      forall v: bv8
        ensures Marked(st'.signature, v) <==> EntryOrPair(st'.elems, v)
      {
        AddMarks(st, x, position, v);
        EntryOrPairSnoc(st.elems, x, v);
      }
    }
  }

  // ---------------------------------------------------------------------
  // canon_compress
  // ---------------------------------------------------------------------

  /** The state after `basis_init` satisfies the invariant. */
  lemma EmptyWellFormed()
    ensures WellFormed(Empty())
  {
    forall v: bv8
      ensures !Marked(Empty().signature, v)
    {
    }
  }

  /** Every state a pass reaches satisfies the invariant. */
  lemma {:induction false} BuildWellFormed(data: seq<bv8>)
    ensures WellFormed(Build(data))
  {
    if |data| == 0 {
      EmptyWellFormed();
    } else {
      var n := |data| - 1;
      BuildWellFormed(data[..n]);
      AddPreservesWellFormed(Build(data[..n]), data[n], PositionOf(n));
    }
  }

  /**
   * `p` lists, in strictly increasing order, the indices of `data` whose
   * bytes are the entries of `st`, and each derivation value is its index
   * truncated to 32 bits.
   */
  ghost predicate Provenance(data: seq<bv8>, st: Basis, p: seq<nat>)
  {
    && |p| == |st.elems| == |st.derivation| <= |data|
    && (forall j :: 0 <= j < |p| ==> p[j] < |data| && data[p[j]] == st.elems[j])
    && (forall j :: 0 <= j < |p| ==> st.derivation[j] == PositionOf(p[j]))
    && (forall j, k :: 0 <= j < k < |p| ==> p[j] < p[k])
  }

  /** When `add_to_basis` refuses a byte, nothing changes. */
  lemma AddRefuses(st: Basis, x: bv8, position: u32)
    requires |st.signature| == SIGNATURE_SIZE
    requires InSpan(st, x) || |st.elems| >= MAX_RANK
    ensures Add(st, x, position) == (st, false)
  {
  }

  /** When `add_to_basis` accepts a byte: appended entry and position, and the closure marks. */
  lemma AddAppends(st: Basis, x: bv8, position: u32)
    requires |st.signature| == SIGNATURE_SIZE
    requires !InSpan(st, x) && |st.elems| < MAX_RANK
    ensures Add(st, x, position) ==
      (Basis(st.elems + [x], st.derivation + [position], MarkPairs(st.signature[x as int := 1], st.elems, x)), true)
  {
  }

  /** The shape of the state after one `add_to_basis`: unchanged, or entry and position appended. */
  lemma AddShape(st: Basis, x: bv8, position: u32)
    requires |st.signature| == SIGNATURE_SIZE
    ensures var (st', added) := Add(st, x, position);
      && (!added ==> st' == st)
      && (added ==> st'.elems == st.elems + [x] && st'.derivation == st.derivation + [position])
  {
  }

  /** One more byte: the pass state and the list of appended indices after one more `add_to_basis`. */
  lemma BuildStep(data: seq<bv8>)
    requires |data| > 0
    ensures var n := |data| - 1;
      var (st', added) := Add(Build(data[..n]), data[n], PositionOf(n));
      && Build(data) == st'
      && Positions(data) == if added then Positions(data[..n]) + [n] else Positions(data[..n])
  {
  }

  /** Provenance survives reading one more byte, whether or not that byte is appended. */
  lemma ProvenanceSnoc(data: seq<bv8>, data': seq<bv8>, st: Basis, p: seq<nat>, st': Basis, p': seq<nat>, added: bool)
    requires Provenance(data, st, p)
    requires |data'| == |data| + 1 && data'[..|data|] == data
    requires added ==> st'.elems == st.elems + [data'[|data|]] && st'.derivation == st.derivation + [PositionOf(|data|)]
    requires added ==> p' == p + [|data|]
    requires !added ==> st' == st && p' == p
    ensures Provenance(data', st', p')
  {
    forall j | 0 <= j < |p|
      ensures data'[p[j]] == data[p[j]]
    {
    }
  }

  /**
   * Provenance of every entry after a pass: the entries are bytes of
   * `data` taken at strictly increasing indices, and each derivation value
   * is that index truncated to 32 bits. In particular the rank never
   * exceeds `|data|`.
   */
  lemma {:induction false} BuildProvenance(data: seq<bv8>)
    ensures Provenance(data, Build(data), Positions(data))
  {
    if |data| > 0 {
      var n := |data| - 1;
      var prev := data[..n];
      BuildProvenance(prev);
      var added := Add(Build(prev), data[n], PositionOf(n)).1;
      BuildStep(data);
      AddShape(Build(prev), data[n], PositionOf(n));
      ProvenanceSnoc(prev, data, Build(prev), Positions(prev), Build(data), Positions(data), added);
    }
  }

  /**
   * For inputs addressable by a `uint32_t` index the derivation table is
   * exact: strictly increasing, and entry `j` names the byte of `data`
   * that became basis entry `j`.
   */
  lemma DerivationExact(data: seq<bv8>)
    requires |data| <= U32_MODULUS
    ensures var st := Build(data);
      && |st.derivation| == |st.elems|
      && (forall j, k :: 0 <= j < k < |st.derivation| ==> st.derivation[j] < st.derivation[k])
      && (forall j :: 0 <= j < |st.elems| ==> st.derivation[j] as int < |data| && st.elems[j] == data[st.derivation[j]])
  {
    var st := Build(data);
    var p := Positions(data);
    BuildProvenance(data);
    assert forall j :: 0 <= j < |p| ==> st.derivation[j] as int == p[j] by {
      forall j | 0 <= j < |p|
        ensures st.derivation[j] as int == p[j]
      {
        assert st.derivation[j] == PositionOf(p[j]);
      }
    }
  }

  /**
   * Append-only: the state after a shorter prefix is a prefix of the state
   * after a longer one, and each byte raises the rank by at most one.
   */
  lemma {:induction false} BuildAppendOnly(data: seq<bv8>, k: nat)
    requires k <= |data|
    ensures var early := Build(data[..k]); var late := Build(data);
      && early.elems <= late.elems && early.derivation <= late.derivation
      && |late.elems| <= |early.elems| + (|data| - k)
  {
    if k < |data| {
      var n := |data| - 1;
      assert data[..n][..k] == data[..k];
      BuildAppendOnly(data[..n], k);
      BuildGrowsByAtMostOne(data);
      GrowthChain(Build(data[..k]), Build(data[..n]), Build(data), n - k);
    } else {
      assert data[..k] == data;
    }
  }

  /** One more byte keeps the old entries and positions and adds at most one entry. */
  lemma BuildGrowsByAtMostOne(data: seq<bv8>)
    requires |data| > 0
    ensures var prev := Build(data[..|data| - 1]); var cur := Build(data);
      && prev.elems <= cur.elems && prev.derivation <= cur.derivation
      && |cur.elems| <= |prev.elems| + 1
  {
    var n := |data| - 1;
    AddEffect(Build(data[..n]), data[n], PositionOf(n));
  }

  /** Prefix growth composes. */
  lemma GrowthChain(a: Basis, b: Basis, c: Basis, m: nat)
    requires a.elems <= b.elems && a.derivation <= b.derivation && |b.elems| <= |a.elems| + m
    requires b.elems <= c.elems && b.derivation <= c.derivation && |c.elems| <= |b.elems| + 1
    ensures a.elems <= c.elems && a.derivation <= c.derivation && |c.elems| <= |a.elems| + m + 1
  {
  }

  // ---------------------------------------------------------------------
  // canon_decompress
  // ---------------------------------------------------------------------

  /**
   * What decompressing a compressed buffer yields: `rank` bytes, each a
   * byte of the input, taken in input order; so the output is never
   * longer than the input.
   */
  lemma DecompressOfCompress(data: seq<bv8>)
    ensures var (out, size) := Decompress(Build(data));
      && size == |out| == |Build(data).elems| <= |data|
      && exists p: seq<nat> ::
           && |p| == |out|
           && (forall j :: 0 <= j < |p| ==> p[j] < |data| && out[j] == data[p[j]])
           && (forall j, k :: 0 <= j < k < |p| ==> p[j] < p[k])
  {
    BuildProvenance(data);
    var p := Positions(data);
    assert |p| == |Decompress(Build(data)).0|;
  }
}
