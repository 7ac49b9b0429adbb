/** Encoding by section C.2 of ITU-T T.81 and decoding by the DECODE procedure of its section
    F.2.2.3, with every table value taken from the image of `set_huffman_tables`. */
module HuffmanDecode {
  import opened Bits
  import opened CTypes
  import opened HuffmanCode
  import opened HuffmanImage

  type Bit = b: nat | b < 2

  // ---------- Encoding ----------

  /** The low `length` bits of a code, most significant first. */
  function BitsOf(code: nat, length: nat): (bits: seq<Bit>)
    ensures |bits| == length
  {
    if length == 0 then [] else BitsOf(code / 2, length - 1) + [code % 2]
  }

  /** The bits section C.2 assigns to symbol k of a table. */
  function Encode(counts: Counts, k: nat): (bits: seq<Bit>)
    requires k < CodeCount(counts)
  {
    SizesSorted(counts);
    BitsOf(HuffCode(Sizes(counts, 16), k), Sizes(counts, 16)[k])
  }

  predicate AreSymbols(counts: Counts, ks: seq<nat>) {
    forall n | 0 <= n < |ks| :: ks[n] < CodeCount(counts)
  }

  function EncodeAll(counts: Counts, ks: seq<nat>): seq<Bit>
    requires AreSymbols(counts, ks)
  {
    if ks == [] then [] else Encode(counts, ks[0]) + EncodeAll(counts, ks[1..])
  }

  /** The values of a sequence of symbols. */
  function ValuesOf(t: Table, ks: seq<nat>): seq<uint8>
    requires AreSymbols(t.counts, ks) && Sized(t)
  {
    if ks == [] then [] else [t.values[ks[0]]] + ValuesOf(t, ks[1..])
  }

  // ---------- Decoding ----------

  /** CODE > MAXCODE fails for a code of j + 1 bits. MAXCODE is not in the image: it is one less
      than half the next length's MINCODE, and an entry of 0xffff says no longer codes follow. */
  predicate IsCode(b: Image, i: nat, j: nat, code: nat)
    requires i < 4 && j < 16
  {
    j == 15 || MinCode(b, i, j + 1) == 0xffff || code <= MinCode(b, i, j + 1) / 2 - 1
  }

  /** DECODE from `code`, the first j + 1 bits: the value, and the number of bits used. */
  function DecodeFrom(b: Image, i: nat, bits: seq<Bit>, j: nat, code: nat): Option<(uint8, nat)>
    requires i < 4 && j < 16
    decreases 16 - j
  {
    if IsCode(b, i, j, code) then
      var v := ValPtr(b, i, j) + code - MinCode(b, i, j);
      if 0 <= v < 256 then Some((ValueAt(b, i, v), j + 1)) else None
    else if j + 1 < 16 && j + 1 < |bits| then DecodeFrom(b, i, bits, j + 1, 2 * code + bits[j + 1])
    else None
  }

  function Decode(b: Image, i: nat, bits: seq<Bit>): Option<(uint8, nat)>
    requires i < 4
  {
    if bits == [] then None else DecodeFrom(b, i, bits, 0, bits[0])
  }

  /** The first n values of a bit stream, if every one can be decoded. */
  function DecodeAll(b: Image, i: nat, bits: seq<Bit>, n: nat): Option<seq<uint8>>
    requires i < 4
  {
    if n == 0 then Some([])
    else
      match Decode(b, i, bits)
      case None => None
      case Some((v, used)) =>
        if used > |bits| then None
        else
          match DecodeAll(b, i, bits[used..], n - 1)
          case None => None
          case Some(rest) => Some([v] + rest)
  }

  // ---------- Decoding inverts encoding ----------

  /** Bit m of a code word is the last bit of its prefix of m + 1 bits. */
  lemma {:induction false} BitOf(code: nat, length: nat, m: nat)
    requires m < length
    ensures BitsOf(code, length)[m] == Halved(code, length - 1 - m) % 2
  {
    if m == length - 1 {
    } else {
      BitOf(code / 2, length - 1, m);
    }
  }

  lemma {:induction false} HalvedToZero(code: nat, length: nat)
    requires code < Pow2(length)
    ensures Halved(code, length) == 0
  {
    if length == 0 {
    } else {
      HalvedToZero(code / 2, length - 1);
    }
  }

  lemma EntriesOf(b: Image, i: nat, t: Table, m: nat)
    requires i < 4 && m < 16 && Sized(t) && Describes(b, i, t)
    ensures MinCode(b, i, m) == MinCodeEntry(t.counts, m) && ValPtr(b, i, m) == Before(t.counts, m) % 0x100
  {
  }

  lemma UsedIsStored(counts: Counts, j: nat)
    requires j < 16 && counts[j] > 0
    ensures j <= LastUsed(counts, 16)
  {
  }

  /** The entries decoding meets for a symbol of j + 1 bits: the running code itself, up to length
      j + 1, and at j + 1 the exact VALPTR. */
  lemma StoredEntries(b: Image, i: nat, t: Table, j: nat, m: nat)
    requires i < 4 && Sized(t) && Describes(b, i, t) && Kraft(t.counts)
    requires m <= j < 16 && t.counts[j] > 0
    ensures MinCode(b, i, m) == FirstCode(t.counts, m) < 0x1_0000
    ensures m > 0 ==> MinCode(b, i, m) != 0xffff
    ensures ValPtr(b, i, j) == Before(t.counts, j)
  {
    hide Describes, Kraft, LastUsed, MinCodeEntry, CodeCount, FirstCode, Before;
    EntriesOf(b, i, t, m);
    EntriesOf(b, i, t, j);
    UsedIsStored(t.counts, j);
    FirstCodeStored(t.counts, j, m);
    BeforeIsSmall(t.counts, j);
  }

  /** Up to a used length the running code is stored whole. */
  lemma FirstCodeStored(counts: Counts, j: nat, m: nat)
    requires Kraft(counts) && m <= j < 16 && counts[j] > 0 && j <= LastUsed(counts, 16)
    ensures MinCodeEntry(counts, m) == FirstCode(counts, m) < 0x1_0000
    ensures m > 0 ==> FirstCode(counts, m) % 2 == 0
  {
    hide Kraft, LastUsed, Pow2;
    CodesFit(counts, m, j);
    Pow2Grows(m + 1, 16);
    Pow2Values();
  }

  lemma BeforeIsSmall(counts: Counts, j: nat)
    requires j < 16 && counts[j] > 0 && CodeCount(counts) <= 256
    ensures Before(counts, j) < 256
  {
    BeforeGrows(counts, j + 1, 16);
    assert Before(counts, j + 1) == Before(counts, j) + counts[j];
  }

  /** A shorter prefix of a code lies above all the codes of its own length. */
  lemma {:induction false} PrefixAbove(counts: Counts, j: nat, code: nat, m: nat)
    requires m < j < 16 && code >= FirstCode(counts, j)
    ensures Halved(code, j - m) >= FirstCode(counts, m) + counts[m]
    decreases j - m
  {
    HalvedStep(code, j - m - 1);
    if m == j - 1 {
    } else {
      PrefixAbove(counts, j, code, m + 1);
    }
  }

  lemma PrefixRejected(b: Image, i: nat, t: Table, j: nat, code: nat, m: nat)
    requires i < 4 && Sized(t) && Describes(b, i, t) && Kraft(t.counts)
    requires m < j < 16 && t.counts[j] > 0 && code >= FirstCode(t.counts, j)
    ensures !IsCode(b, i, m, Halved(code, j - m))
  {
    hide Describes;
    PrefixAbove(t.counts, j, code, m);
    StoredEntries(b, i, t, j, m + 1);
    assert FirstCode(t.counts, m + 1) == 2 * (FirstCode(t.counts, m) + t.counts[m]);
  }

  lemma DecodeRejects(b: Image, i: nat, bits: seq<Bit>, m: nat, code: nat)
    requires i < 4 && m + 1 < 16 && m + 1 < |bits| && !IsCode(b, i, m, code)
    ensures DecodeFrom(b, i, bits, m, code) == DecodeFrom(b, i, bits, m + 1, 2 * code + bits[m + 1])
  {
    hide IsCode;
  }

  lemma DecodeStep(b: Image, i: nat, bits: seq<Bit>, j: nat, code: nat, m: nat)
    requires i < 4 && m < j < 16 && |bits| > j && bits[..j + 1] == BitsOf(code, j + 1)
    requires !IsCode(b, i, m, Halved(code, j - m))
    ensures DecodeFrom(b, i, bits, m, Halved(code, j - m)) == DecodeFrom(b, i, bits, m + 1, Halved(code, j - m - 1))
  {
    hide IsCode, Halved, DecodeFrom, BitsOf;
    DecodeRejects(b, i, bits, m, Halved(code, j - m));
    assert bits[m + 1] == bits[..j + 1][m + 1];
    BitOf(code, j + 1, m + 1);
    HalvedStep(code, j - m - 1);
  }

  /** DECODE reads past every proper prefix of a code word. */
  lemma {:induction false} ReadsOn(b: Image, i: nat, t: Table, j: nat, code: nat, bits: seq<Bit>, m: nat)
    requires i < 4 && Sized(t) && Describes(b, i, t) && Kraft(t.counts)
    requires m <= j < 16 && t.counts[j] > 0 && FirstCode(t.counts, j) <= code < Pow2(j + 1)
    requires |bits| > j && bits[..j + 1] == BitsOf(code, j + 1)
    ensures DecodeFrom(b, i, bits, 0, bits[0]) == DecodeFrom(b, i, bits, m, Halved(code, j - m))
  {
    hide Describes, DecodeFrom, BitsOf, IsCode, FirstCode, Kraft, Sized;
    if m == 0 {
      assert bits[0] == bits[..j + 1][0];
      BitOf(code, j + 1, 0);
      HalvedToZero(code, j + 1);
      HalvedStep(code, j);
    } else {
      ReadsOn(b, i, t, j, code, bits, m - 1);
      PrefixRejected(b, i, t, j, code, m - 1);
      DecodeStep(b, i, bits, j, code, m - 1);
    }
  }

  /** Decoding the code word of any symbol, whatever bits follow, gives its value and uses exactly
      its bits. */
  lemma DecodeInvertsEncode(b: Image, i: nat, t: Table, k: nat, rest: seq<Bit>)
    requires i < 4 && Sized(t) && Describes(b, i, t) && Kraft(t.counts) && k < CodeCount(t.counts)
    ensures Decode(b, i, Encode(t.counts, k) + rest) == Some((t.values[k], |Encode(t.counts, k)|))
  {
    hide Describes, BitsOf, IsCode, Kraft;
    SizesSorted(t.counts);
    RunningCodeIsHuffCode(t.counts, k);
    KraftIff(t.counts);
    var j, code := Group(t.counts, k), CodeOf(t.counts, k);
    var bits := Encode(t.counts, k) + rest;
    assert bits[..j + 1] == BitsOf(code, j + 1);
    ReadsOn(b, i, t, j, code, bits, j);
    DecodesAtOwnLength(b, i, t, k, bits);
  }

  lemma DecodesAtOwnLength(b: Image, i: nat, t: Table, k: nat, bits: seq<Bit>)
    requires i < 4 && Sized(t) && Describes(b, i, t) && Kraft(t.counts) && k < CodeCount(t.counts)
    ensures var j := Group(t.counts, k);
            DecodeFrom(b, i, bits, j, CodeOf(t.counts, k)) == Some((t.values[k], j + 1))
  {
    hide IsCode, Kraft;
    var j := Group(t.counts, k);
    StoredEntries(b, i, t, j, j);
    AcceptsOwnLength(b, i, t, j, CodeOf(t.counts, k));
    assert ValPtr(b, i, j) + CodeOf(t.counts, k) - MinCode(b, i, j) == k;
  }

  lemma AcceptsOwnLength(b: Image, i: nat, t: Table, j: nat, code: nat)
    requires i < 4 && Sized(t) && Describes(b, i, t) && Kraft(t.counts)
    requires j < 16 && t.counts[j] > 0 && code < FirstCode(t.counts, j) + t.counts[j]
    ensures IsCode(b, i, j, code)
  {
    var last := LastUsed(t.counts, 16);
    if j + 1 < 16 && j < last {
      StoredEntries(b, i, t, last, j + 1);
    }
  }

  /** Whole streams: encoding any sequence of symbols and decoding as many values gives theirs. */
  lemma {:induction false} StreamRoundTrip(b: Image, i: nat, t: Table, ks: seq<nat>, rest: seq<Bit>)
    requires i < 4 && Sized(t) && Describes(b, i, t) && Kraft(t.counts)
    requires AreSymbols(t.counts, ks)
    ensures DecodeAll(b, i, EncodeAll(t.counts, ks) + rest, |ks|) == Some(ValuesOf(t, ks))
  {
    if ks == [] {
    } else {
      var word, tail := Encode(t.counts, ks[0]), EncodeAll(t.counts, ks[1..]) + rest;
      assert EncodeAll(t.counts, ks) + rest == word + tail;
      DecodeInvertsEncode(b, i, t, ks[0], tail);
      assert (word + tail)[|word|..] == tail;
      StreamRoundTrip(b, i, t, ks[1..], rest);
    }
  }

  // ---------- Prefixes ----------

  /** The first m bits of a code word are those of the code shifted right. */
  lemma {:induction false} PrefixBits(code: nat, length: nat, m: nat)
    requires m <= length
    ensures BitsOf(code, length)[..m] == BitsOf(Halved(code, length - m), m)
  {
    if m == length {
    } else {
      PrefixBits(code / 2, length - 1, m);
    }
  }

  lemma {:induction false} BitsDiffer(a: nat, b: nat, length: nat)
    requires a < Pow2(length) && b < Pow2(length) && BitsOf(a, length) == BitsOf(b, length)
    ensures a == b
  {
    if length == 0 {
    } else {
      var x, y := BitsOf(a, length), BitsOf(b, length);
      assert x[..length - 1] == BitsOf(a / 2, length - 1) && x[length - 1] == a % 2;
      assert y[..length - 1] == BitsOf(b / 2, length - 1) && y[length - 1] == b % 2;
      BitsDiffer(a / 2, b / 2, length - 1);
    }
  }

  /** A code word and the running code. */
  lemma EncodeIs(counts: Counts, k: nat)
    requires Kraft(counts) && k < CodeCount(counts)
    ensures Encode(counts, k) == BitsOf(CodeOf(counts, k), Group(counts, k) + 1)
    ensures CodeOf(counts, k) < Pow2(Group(counts, k) + 1)
  {
    SizesSorted(counts);
    RunningCodeIsHuffCode(counts, k);
    KraftIff(counts);
  }

  /** No code word is a prefix of another, or the same as another. */
  lemma PrefixFree(counts: Counts, k: nat, l: nat, rest: seq<Bit>)
    requires Kraft(counts) && k < CodeCount(counts) && l < CodeCount(counts)
    requires Encode(counts, l) == Encode(counts, k) + rest
    ensures rest == [] && k == l
  {
    hide Kraft, Encode, BitsOf;
    EncodeIs(counts, k);
    EncodeIs(counts, l);
    var i, j := Group(counts, k), Group(counts, l);
    var a, b := CodeOf(counts, k), CodeOf(counts, l);
    assert BitsOf(b, j + 1)[..i + 1] == BitsOf(a, i + 1);
    PrefixBits(b, j + 1, i + 1);
    HalvedBelow(b, i + 1, j - i);
    BitsDiffer(a, Halved(b, j - i), i + 1);
    if i < j {
      PrefixAbove(counts, j, b, i);
    }
  }

  // ---------- An example ----------

  lemma WordOf(counts: Counts, k: nat, j: nat)
    requires Kraft(counts) && j < 16 && Before(counts, j) <= k < Before(counts, j + 1) && k < CodeCount(counts)
    ensures Encode(counts, k) == BitsOf(FirstCode(counts, j) + (k - Before(counts, j)), j + 1)
  {
    hide Encode, Kraft;
    EncodeIs(counts, k);
    GroupIs(counts, k, j);
  }

  /** BITS of table K.3 of ITU-T T.81, the usual one of luminance DC differences. */
  function LuminanceDc(): Counts {
    [0, 1, 5, 1, 1, 1, 1, 1, 1, 0, 0, 0, 0, 0, 0, 0]
  }

  lemma LuminanceDcCounts()
    ensures var counts := LuminanceDc();
            && Before(counts, 1) == 0 && Before(counts, 2) == 1 && Before(counts, 3) == 6
            && Before(counts, 4) == 7 && Before(counts, 8) == 11 && Before(counts, 9) == 12
            && CodeCount(counts) == 12
  {
    var counts := LuminanceDc();
    assert Before(counts, 3) == 6;
    assert Before(counts, 6) == 9;
    assert Before(counts, 9) == 12;
    assert Before(counts, 12) == 12;
    assert Before(counts, 15) == 12;
  }

  /** MINCODE as `set_huffman_tables` comes to it. */
  lemma LuminanceDcCodes()
    ensures var counts := LuminanceDc();
            && FirstCode(counts, 1) == 0 && FirstCode(counts, 2) == 2 && FirstCode(counts, 3) == 14
            && FirstCode(counts, 4) == 30 && FirstCode(counts, 8) == 510 && FirstCode(counts, 16) == 130816
  {
    var counts := LuminanceDc();
    assert FirstCode(counts, 3) == 14;
    assert FirstCode(counts, 6) == 126;
    assert FirstCode(counts, 9) == 1022;
    assert FirstCode(counts, 12) == 8176;
    assert FirstCode(counts, 15) == 65408;
  }

  lemma LuminanceDcFits()
    ensures Kraft(LuminanceDc())
  {
    hide LuminanceDc, FirstCode, KraftSum;
    LuminanceDcCodes();
    KraftIsFirstCode(LuminanceDc(), 16);
  }

  /** Code words of table K.3, as it prints them. */
  lemma LuminanceDcWords()
    ensures var counts := LuminanceDc();
            && CodeCount(counts) == 12
            && Encode(counts, 0) == [0, 0]
            && Encode(counts, 1) == [0, 1, 0]
            && Encode(counts, 5) == [1, 1, 0]
            && Encode(counts, 6) == [1, 1, 1, 0]
            && Encode(counts, 11) == [1, 1, 1, 1, 1, 1, 1, 1, 0]
  {
    hide Kraft, Encode, FirstCode, Before, LuminanceDc, CodeCount;
    LuminanceDcCounts();
    LuminanceDcCodes();
    LuminanceDcFits();
    var counts := LuminanceDc();
    WordOf(counts, 0, 1);
    WordOf(counts, 1, 2);
    WordOf(counts, 5, 2);
    WordOf(counts, 6, 3);
    WordOf(counts, 11, 8);
    assert BitsOf(14, 4) == [1, 1, 1, 0];
    assert BitsOf(31, 5) == [1, 1, 1, 1, 1];
    assert BitsOf(510, 9) == BitsOf(31, 5) + [1, 1, 1, 0];
  }
}
