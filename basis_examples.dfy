/**
 * The engine on concrete inputs. Because the reduction scans the basis in
 * insertion order and the signature table records only entries and
 * pairwise XORs, a byte that is already a combination of the basis can
 * still be appended; duplicates are caught only sometimes, and the rank
 * is not bounded by the width of a byte.
 */
module BasisExamples {
  import opened Bits
  import opened BasisSpec
  import opened BasisLemmas

  /** Reading one more byte appends it when that byte is judged out of span and capacity remains. */
  lemma AppendedWhenNotInSpan(data: seq<bv8>, x: bv8)
    requires |Build(data).elems| < MAX_RANK
    requires !InSpan(Build(data), x)
    ensures Build(data + [x]).elems == Build(data).elems + [x]
  {
    assert (data + [x])[..|data|] == data;
    AddEffect(Build(data), x, PositionOf(|data|));
  }

  /** Reading one more byte leaves the basis as it was when that byte is judged in span. */
  lemma RejectedWhenInSpan(data: seq<bv8>, x: bv8)
    requires InSpan(Build(data), x)
    ensures Build(data + [x]) == Build(data)
  {
    assert (data + [x])[..|data|] == data;
    AddEffect(Build(data), x, PositionOf(|data|));
  }

  /** A zero byte offered to an empty basis is not in span, so it becomes entry 0. */
  lemma ZeroByteEntersEmptyBasis()
    ensures Build([0]).elems == [0]
  {
    assert [] + [0 as bv8] == [0];
    AppendedWhenNotInSpan([], 0);
  }

  /**
   * `1 == 3 ^ 2` is in the span of `[3, 2]`, and its signature entry is
   * set, yet the reduction visits 3 and 2 before any entry with bit 0 as
   * its highest bit and so leaves residue 1: the byte is appended.
   */
  lemma DependentByteEnters()
    ensures Spans([3, 2], 1)
    ensures Marked(Build([3, 2]).signature, 1)
    ensures Build([3, 2, 1]).elems == [3, 2, 1]
  {
    assert Combine([3, 2], [true, true]) == 1;
    ThreeThenTwo();
    BuildWellFormed([3, 2]);
    PairXorsAt([3, 2], 0, 1);
    assert Marked(Build([3, 2]).signature, 1) <==> EntryOrPair([3, 2], 1);
    ThenAppended([3, 2], 1);
  }

  /** The first two bytes 3 and 2 both enter. */
  lemma ThreeThenTwo()
    ensures Build([3, 2]).elems == [3, 2]
  {
    ThenAppended([], 3);
    ThenAppended([3], 2);
  }

  /**
   * `7 == 1 ^ 2 ^ 4` is in the span of `[1, 2, 4]`, but the signature
   * table records only single entries and pairwise XORs, so its entry is
   * never set. The signature pre-filter therefore answers no before any
   * reduction, and the byte is appended as a fourth entry. (The reduction
   * would not catch it either: it only XORs in 4 and leaves residue 3.)
   */
  lemma TripleXorEnters()
    ensures Spans([1, 2, 4], 7)
    ensures !Marked(Build([1, 2, 4]).signature, 7)
    ensures Build([1, 2, 4, 7]).elems == [1, 2, 4, 7]
  {
    SevenIsOneTwoFour();
    SevenUnmarked();
    SevenEnters();
  }

  /** After 1, 2 and 4 the byte 7 is appended (proved here through its nonzero residue). */
  lemma SevenEnters()
    ensures Build([1, 2, 4, 7]).elems == [1, 2, 4, 7]
  {
    OneTwoFour();
    SevenReducesToThree();
    ThenAppended([1, 2, 4], 7);
    assert [1 as bv8, 2, 4] + [7] == [1, 2, 4, 7];
  }

  /** After 1, 2 and 4 the signature entry of 7 is clear. */
  lemma SevenUnmarked()
    ensures !Marked(Build([1, 2, 4]).signature, 7)
  {
    OneTwoFour();
    SevenNotEntryOrPair();
    BuildWellFormed([1, 2, 4]);
    assert Marked(Build([1, 2, 4]).signature, 7) <==> EntryOrPair([1, 2, 4], 7);
  }

  /** `7` is the XOR of all three of `1`, `2` and `4`. */
  lemma SevenIsOneTwoFour()
    ensures Spans([1, 2, 4], 7)
  {
    CombineSnoc([], [], 1, true);
    CombineSnoc([1], [true], 2, true);
    CombineSnoc([1, 2], [true, true], 4, true);
    assert [1 as bv8] + [2] + [4] == [1, 2, 4];
    assert Combine([1, 2, 4], [true, true, true]) == 7;
  }

  /** Reducing 7 by `[1, 2, 4]` XORs in only the 4 and leaves 3. */
  lemma SevenReducesToThree()
    ensures Reduce([1, 2, 4], 7) == 3
  {
    var s: seq<bv8> := [1, 2, 4];
    assert s[..2] == [1, 2] && s[..2][..1] == [1] && s[..2][..1][..0] == [];
    assert HighestBit(7) == 2 && HighestBit(1) == 0 && HighestBit(2) == 1 && HighestBit(4) == 2;
    assert Reduce([1], 7) == ReduceStep(7, 1) == 7;
    assert Reduce([1, 2], 7) == ReduceStep(7, 2) == 7;
    assert Reduce(s, 7) == ReduceStep(7, 4) == 3;
  }

  /** The bytes 1, 2 and 4 each enter. */
  lemma OneTwoFour()
    ensures Build([1, 2, 4]).elems == [1, 2, 4]
  {
    OneThenTwo();
    ThenAppended([1, 2], 4);
  }

  /** The bytes 1 and 2 both enter. */
  lemma OneThenTwo()
    ensures Build([1, 2]).elems == [1, 2]
  {
    ThenAppended([], 1);
    ThenAppended([1], 2);
  }

  /** 7 is neither one of 1, 2 and 4 nor the XOR of two of them. */
  lemma SevenNotEntryOrPair()
    ensures !EntryOrPair([1, 2, 4], 7)
  {
    var s: seq<bv8> := [1, 2, 4];
    assert s[..2] == [1, 2] && s[..2][..1] == [1] && s[..2][..1][..0] == [];
    XorWithMember([], 1, 7);
    XorWithMember([1], 2, 7);
    XorWithMember([1, 2], 4, 7);
  }

  /** One step of the example: `x` enters after `prefix` when the reduction leaves a nonzero residue. */
  lemma ThenAppended(prefix: seq<bv8>, x: bv8)
    requires Build(prefix).elems == prefix && |prefix| < MAX_RANK
    requires Reduce(prefix, x) != 0
    ensures Build(prefix + [x]).elems == prefix + [x]
  {
    AppendedWhenNotInSpan(prefix, x);
  }

  /** A byte equal to the only entry is marked and reduces to zero, so it is rejected. */
  lemma RepeatedByteRejected(x: bv8)
    ensures Build([x, x]).elems == [x]
  {
    assert [x][..0] == [];
    AddEffect(Empty(), x, PositionOf(0));
    assert Reduce([x], x) == 0;
    assert [x] + [x] == [x, x];
    RejectedWhenInSpan([x], x);
  }

  /** `n` copies of the byte 2. */
  function Twos(n: nat): (s: seq<bv8>)
    ensures |s| == n && forall i :: 0 <= i < n ==> s[i] == 2
  {
    seq(n, _ => 2)
  }

  /** After 3 and any number of 2s, reducing 2 stops at residue 1: it is XORed with 3 and never again. */
  lemma {:induction false} ResidueOfTwoIsOne(n: nat)
    ensures Reduce([3] + Twos(n), 2) == 1
  {
    if n > 0 {
      TwosSnoc(n - 1);
      ResidueOfTwoIsOne(n - 1);
      ReduceLast([3] + Twos(n - 1) + [2], 2);
    }
  }

  /** One more 2 at the end. */
  lemma TwosSnoc(n: nat)
    ensures [3] + Twos(n + 1) == [3] + Twos(n) + [2]
  {
  }

  /**
   * The rank is not bounded by 8: the byte 2 repeated after a 3 is
   * appended every time, up to the capacity of the arrays.
   */
  lemma {:induction false} RankNotBoundedByWidth(n: nat)
    requires n < MAX_RANK
    ensures Build([3] + Twos(n)).elems == [3] + Twos(n)
  {
    if n == 0 {
      assert [3] + Twos(0) == [] + [3];
      ThenAppended([], 3);
    } else {
      RankNotBoundedByWidth(n - 1);
      OneMoreTwo(n - 1);
    }
  }

  /** When 3 and `m` 2s all entered, one more 2 enters too. */
  lemma OneMoreTwo(m: nat)
    requires m + 1 < MAX_RANK
    requires Build([3] + Twos(m)).elems == [3] + Twos(m)
    ensures Build([3] + Twos(m + 1)).elems == [3] + Twos(m + 1)
  {
    ResidueOfTwoIsOne(m);
    TwosSnoc(m);
    ThenAppended([3] + Twos(m), 2);
  }
}
