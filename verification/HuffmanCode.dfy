/** The canonical code of a Huffman table, as section C.2 of ITU-T T.81 generates it, and the
    running code that `set_huffman_tables` (src/jpeg_dec_main.c) keeps instead. */
module HuffmanCode {
  import opened Bits
  import opened CTypes

  /** BITS: entry j is the number of codes of length j + 1. */
  type Counts = c: seq<uint8> | |c| == 16 witness seq(16, _ => 0)

  /** The number of codes shorter than j + 1 bits. */
  function Before(counts: Counts, j: nat): nat
    requires j <= 16
  {
    if j == 0 then 0 else Before(counts, j - 1) + counts[j - 1]
  }

  function CodeCount(counts: Counts): nat {
    Before(counts, 16)
  }

  // ---------- Section C.2 ----------

  /** HUFFSIZE: the length of every code, of the lengths up to j. */
  function Sizes(counts: Counts, j: nat): seq<nat>
    requires j <= 16
  {
    if j == 0 then [] else Sizes(counts, j - 1) + seq(counts[j - 1], _ => j)
  }

  /** HUFFCODE: the code of symbol k, one more than its predecessor, shifted left to its own length. */
  function HuffCode(sizes: seq<nat>, k: nat): nat
    requires k < |sizes|
  {
    if k == 0 then 0
    else Shl(HuffCode(sizes, k - 1) + 1, if sizes[k - 1] <= sizes[k] then sizes[k] - sizes[k - 1] else 0)
  }

  // ---------- The running code of the source ----------

  /** `sum` when `set_huffman_tables` reaches length j + 1 in its second loop. */
  function FirstCode(counts: Counts, j: nat): nat
    requires j <= 16
  {
    if j == 0 then 0 else 2 * (FirstCode(counts, j - 1) + counts[j - 1])
  }

  /** The length, less one, of symbol k's code. */
  function Group(counts: Counts, k: nat): (j: nat)
    requires k < CodeCount(counts)
    ensures j < 16 && Before(counts, j) <= k < Before(counts, j + 1)
  {
    GroupFrom(counts, k, 15)
  }

  function GroupFrom(counts: Counts, k: nat, j: nat): (r: nat)
    requires j < 16 && k < Before(counts, j + 1)
    ensures r <= j && Before(counts, r) <= k < Before(counts, r + 1)
  {
    if Before(counts, j) <= k then j else GroupFrom(counts, k, j - 1)
  }

  /** Symbol k's code by the running code: the first of its length plus its place among them. */
  function CodeOf(counts: Counts, k: nat): nat
    requires k < CodeCount(counts)
  {
    FirstCode(counts, Group(counts, k)) + (k - Before(counts, Group(counts, k)))
  }

  lemma {:induction false} BeforeGrows(counts: Counts, i: nat, j: nat)
    requires i <= j <= 16
    ensures Before(counts, i) <= Before(counts, j)
  {
    if i == j {
    } else {
      BeforeGrows(counts, i, j - 1);
    }
  }

  lemma GroupIs(counts: Counts, k: nat, j: nat)
    requires k < CodeCount(counts) && j < 16 && Before(counts, j) <= k < Before(counts, j + 1)
    ensures Group(counts, k) == j
  {
    var g := Group(counts, k);
    if g < j {
      BeforeGrows(counts, g + 1, j);
    } else if j < g {
      BeforeGrows(counts, j + 1, g);
    }
  }

  lemma {:induction false} SizeAt(counts: Counts, j: nat, k: nat, g: nat)
    requires g < j <= 16 && Before(counts, g) <= k < Before(counts, g + 1)
    ensures |Sizes(counts, j)| == Before(counts, j) > k && Sizes(counts, j)[k] == g + 1
  {
    SizesLength(counts, j);
    SizesLength(counts, j - 1);
    if g == j - 1 {
    } else {
      SizeAt(counts, j - 1, k, g);
    }
  }

  lemma {:induction false} SizesLength(counts: Counts, j: nat)
    requires j <= 16
    ensures |Sizes(counts, j)| == Before(counts, j)
  {
    if j == 0 {
    } else {
      SizesLength(counts, j - 1);
    }
  }

  /** Sizes never decrease, so the shifts of section C.2 are to the left. */
  lemma SizesSorted(counts: Counts)
    ensures |Sizes(counts, 16)| == CodeCount(counts)
    ensures forall k | 0 <= k < CodeCount(counts) :: Sizes(counts, 16)[k] == Group(counts, k) + 1
    ensures forall a | 0 < a < |Sizes(counts, 16)| :: Sizes(counts, 16)[a - 1] <= Sizes(counts, 16)[a]
  {
    SizesLength(counts, 16);
    forall k | 0 <= k < CodeCount(counts) ensures Sizes(counts, 16)[k] == Group(counts, k) + 1 {
      SizeAt(counts, 16, k, Group(counts, k));
    }
    forall a | 0 < a < CodeCount(counts) ensures Group(counts, a - 1) <= Group(counts, a) {
      if Group(counts, a) < Group(counts, a - 1) {
        BeforeGrows(counts, Group(counts, a) + 1, Group(counts, a - 1));
      }
    }
  }

  /** Lengths without codes only double the running code. */
  lemma {:induction false} FirstCodeSkips(counts: Counts, i: nat, j: nat)
    requires i < j <= 16 && Before(counts, i + 1) == Before(counts, j)
    ensures FirstCode(counts, j) == Shl(FirstCode(counts, i) + counts[i], j - i)
  {
    if j == i + 1 {
    } else {
      BeforeGrows(counts, i + 1, j - 1);
      FirstCodeSkips(counts, i, j - 1);
    }
  }

  lemma {:induction false} FirstCodeZero(counts: Counts, j: nat)
    requires j <= 16 && Before(counts, j) == 0
    ensures FirstCode(counts, j) == 0
  {
    if j == 0 {
    } else {
      FirstCodeZero(counts, j - 1);
    }
  }

  lemma NextCode(counts: Counts, k: nat)
    requires 0 < k < CodeCount(counts)
    ensures Group(counts, k - 1) <= Group(counts, k)
    ensures CodeOf(counts, k) == Shl(CodeOf(counts, k - 1) + 1, Group(counts, k) - Group(counts, k - 1))
  {
    var i, j := Group(counts, k - 1), Group(counts, k);
    if j < i {
      BeforeGrows(counts, j + 1, i);
    } else if i < j {
      BeforeGrows(counts, i + 1, j);
      FirstCodeSkips(counts, i, j);
    }
  }

  /** The running code gives exactly the codes of section C.2. */
  lemma {:induction false} RunningCodeIsHuffCode(counts: Counts, k: nat)
    requires k < CodeCount(counts)
    ensures |Sizes(counts, 16)| == CodeCount(counts) && HuffCode(Sizes(counts, 16), k) == CodeOf(counts, k)
  {
    SizesSorted(counts);
    if k == 0 {
      FirstCodeZero(counts, Group(counts, 0));
    } else {
      RunningCodeIsHuffCode(counts, k - 1);
      NextCode(counts, k);
    }
  }

  // ---------- The Kraft bound ----------

  /** The share of the code space taken by lengths up to j, in units of 1/65536. */
  function KraftSum(counts: Counts, j: nat): nat
    requires j <= 16
  {
    if j == 0 then 0 else KraftSum(counts, j - 1) + Shl(counts[j - 1], 16 - j)
  }

  /** The code space is not overrun. Section C.2 asks for a little more: it leaves the code of all
      one bits free, so there the sum is strictly below 65536. */
  predicate Kraft(counts: Counts) {
    KraftSum(counts, 16) <= 0x1_0000
  }

  lemma {:induction false} KraftIsFirstCode(counts: Counts, j: nat)
    requires j <= 16
    ensures 2 * KraftSum(counts, j) == Shl(FirstCode(counts, j), 16 - j)
  {
    if j == 0 {
      ShlAdds(0, 0, 16);
    } else {
      KraftIsFirstCode(counts, j - 1);
      var f, c := FirstCode(counts, j - 1), counts[j - 1];
      ShlAdds(f, c, 16 - j);
      ShlAdds(f + c, f + c, 16 - j);
    }
  }

  lemma {:induction false} FirstCodeBelow(counts: Counts, j: nat)
    requires Kraft(counts) && j <= 16
    ensures FirstCode(counts, j) <= Pow2(j + 1)
    decreases 16 - j
  {
    if j == 16 {
      KraftIsFirstCode(counts, 16);
      Pow2Values();
    } else {
      FirstCodeBelow(counts, j + 1);
      assert Pow2(j + 2) == 2 * Pow2(j + 1);
    }
  }

  /** The codes of a length, and strictly those before a longer one, fit in that length. */
  lemma {:induction false} CodesFit(counts: Counts, j: nat, last: nat)
    requires Kraft(counts) && j <= last < 16 && counts[last] > 0
    ensures FirstCode(counts, j) + counts[j] <= Pow2(j + 1)
    ensures FirstCode(counts, j) < Pow2(j + 1)
    decreases last - j
  {
    FirstCodeBelow(counts, j + 1);
    assert Pow2(j + 2) == 2 * Pow2(j + 1);
    if j == last {
    } else {
      CodesFit(counts, j + 1, last);
    }
  }

  /** The code of every symbol fits in its length exactly when the Kraft bound holds. */
  lemma KraftIff(counts: Counts)
    ensures Kraft(counts) <==> forall k | 0 <= k < CodeCount(counts) :: CodeOf(counts, k) < Pow2(Group(counts, k) + 1)
  {
    if Kraft(counts) {
      forall k | 0 <= k < CodeCount(counts) ensures CodeOf(counts, k) < Pow2(Group(counts, k) + 1) {
        var j := Group(counts, k);
        CodesFit(counts, j, j);
      }
    }
    if forall k | 0 <= k < CodeCount(counts) :: CodeOf(counts, k) < Pow2(Group(counts, k) + 1) {
      KraftIsFirstCode(counts, 16);
      if CodeCount(counts) == 0 {
        FirstCodeZero(counts, 16);
      } else {
        LastCodeBounds(counts);
      }
    }
  }

  /** The last code of all decides how much of the code space is taken. */
  lemma LastCodeBounds(counts: Counts)
    requires CodeCount(counts) > 0
    requires var k := CodeCount(counts) - 1; CodeOf(counts, k) < Pow2(Group(counts, k) + 1)
    ensures FirstCode(counts, 16) <= 0x2_0000
  {
    var k := CodeCount(counts) - 1;
    var j := Group(counts, k);
    BeforeGrows(counts, j + 1, 16);
    FirstCodeSkips(counts, j, 16);
    var codes := FirstCode(counts, j) + counts[j];
    assert codes == CodeOf(counts, k) + 1;
    ShlAdds(codes, Pow2(j + 1) - codes, 16 - j);
    ShlShl(1, j + 1, 16 - j);
    Pow2Values();
  }
}
