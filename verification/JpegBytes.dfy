/** What the parser of src/jpeg.c takes from which byte, for every input. The markers and offsets are
    those of figures B.3 to B.9 and table B.1 of ITU-T T.81, written out. */
module JpegBytes {
  import opened CTypes
  import opened JpegParser
  import HuffmanCode
  import JpegFormat

  // ---------- The file ----------

  /** The cleared structure that the parser is given is all zeros. */
  lemma BlankIsZero(k: nat)
    ensures var j := Blank();
            && j.bits == 0 && j.width == 0 && j.height == 0 && j.restartInterval == 0 && j.data == 0 && j.dataLen == 0
            && (k < 3 ==> j.comp[k] == Comp(0, 0, 0, 0, 0))
            && (k < 4 ==> j.quant[k] == None) && (k < 8 ==> j.huffman[k] == None)
  {
  }

  /** A file starts with ff d8. */
  lemma StartInBytes(input: Input, j: Jpeg)
    ensures var s := input.bytes;
            Parse(input, j) == if |s| >= 2 && s[0] == 0xff && s[1] == 0xd8 then ParseFrom(input, 2, j)
                               else Outcome(false, j)
  {
  }

  lemma {:induction false} SkipsTo(bytes: seq<uint8>, pos: nat, start: nat)
    requires pos <= start <= |bytes| && (forall k | pos <= k < start :: bytes[k] == 0xff)
    requires start < |bytes| ==> bytes[start] != 0xff
    ensures SkipFill(bytes, pos) == start
    decreases start - pos
  {
    if pos == start {
    } else {
      SkipsTo(bytes, pos + 1, start);
    }
  }

  /** One turn of the loop over the segments. `start` is the first byte that is not ff: the marker. A
      length that does not end before the input does is refused; marker da ends the header. */
  lemma TurnInBytes(input: Input, pos: nat, start: nat, j: Jpeg)
    requires pos <= start <= |input.bytes| && (forall k | pos <= k < start :: input.bytes[k] == 0xff)
    requires start < |input.bytes| ==> input.bytes[start] != 0xff
    ensures start + 2 >= |input.bytes| ==> ParseFrom(input, pos, j) == Outcome(false, j)
    ensures start + 2 < |input.bytes| ==>
              var s, o := input.bytes, ParseFrom(input, pos, j);
              var high: int, low: int := s[start + 1], s[start + 2];
              var next := start + 1 + 256 * high + low;
              if next >= |s| then o == Outcome(false, j)
              else
                var r := ParseSegment(input, s[start], start + 1, j);
                o == if !r.ok then r
                     else if s[start] == 0xda then Outcome(true, r.jpeg.(data := next, dataLen := |s| - next))
                     else ParseFrom(input, next, r.jpeg)
  {
    SkipsTo(input.bytes, pos, start);
  }

  // ---------- DQT ----------

  /** The precision and slot byte of table k of the DQT segment whose length is at `pos`. */
  function QuantByte(input: Input, pos: nat, k: nat): uint8 {
    input.At(pos + 2 + 65 * k)
  }

  /** Two bytes, the first the high one. */
  function Word(input: Input, at: nat): uint16 {
    var high: int, low: int := input.At(at), input.At(at + 1);
    256 * high + low
  }

  /** The length of a segment, less the two bytes it takes itself. */
  function BodyLength(input: Input, pos: nat): int {
    Word(input, pos) - 2
  }

  predicate IsQuant(input: Input, pos: nat, k: nat) {
    65 * k < BodyLength(input, pos)
  }

  /** Table k is the last of the segment in its slot. */
  ghost predicate LastQuant(input: Input, pos: nat, k: nat) {
    IsQuant(input, pos, k)
    && forall m: nat | k < m && IsQuant(input, pos, m) :: QuantByte(input, pos, m) % 4 != QuantByte(input, pos, k) % 4
  }

  /** No table of the segment from number i on is for slot q. */
  ghost predicate NoQuant(input: Input, pos: nat, i: nat, q: nat) {
    forall k: nat | i <= k && IsQuant(input, pos, k) :: QuantByte(input, pos, k) % 4 != q
  }

  lemma {:induction false} QuantsFrom(input: Input, pos: nat, i: nat, j: Jpeg)
    ensures var o := ParseDqt(input, pos + 2, 65 * i, BodyLength(input, pos), j);
            && o.jpeg == j.(quant := o.jpeg.quant)
            && (o.ok <==> forall k: nat | i <= k && IsQuant(input, pos, k) :: QuantByte(input, pos, k) < 16)
            && (o.ok ==> forall k: nat | i <= k && LastQuant(input, pos, k) ::
                           o.jpeg.quant[QuantByte(input, pos, k) % 4] == Some(pos + 3 + 65 * k))
            && (o.ok ==> forall q: nat | q < 4 && NoQuant(input, pos, i, q) :: o.jpeg.quant[q] == j.quant[q])
    decreases BodyLength(input, pos) - 65 * i
  {
    if !IsQuant(input, pos, i) {
      assert forall k: nat | i <= k :: !IsQuant(input, pos, k);
    } else if QuantByte(input, pos, i) >= 16 {
    } else {
      var j' := j.(quant := j.quant[QuantByte(input, pos, i) % 4 := Some(pos + 3 + 65 * i)]);
      QuantsFrom(input, pos, i + 1, j');
    }
  }

  /** Marker db: tables of 65 bytes, of which byte 0 has the precision in its high four bits, which
      must be 0, and the slot in its low two; the 64 others are left where they stand. The last table
      of a slot counts, and a slot without one keeps what it had. */
  lemma DqtInBytes(input: Input, pos: nat, j: Jpeg)
    ensures var o := ParseSegment(input, 0xdb, pos, j);
            && o.jpeg == j.(quant := o.jpeg.quant)
            && (o.ok <==> forall k: nat | IsQuant(input, pos, k) :: QuantByte(input, pos, k) < 16)
            && (o.ok ==> forall k: nat | LastQuant(input, pos, k) ::
                           o.jpeg.quant[QuantByte(input, pos, k) % 4] == Some(pos + 3 + 65 * k))
            && (o.ok ==> forall q: nat | q < 4 && NoQuant(input, pos, 0, q) :: o.jpeg.quant[q] == j.quant[q])
  {
    QuantsFrom(input, pos, 0, j);
  }

  // ---------- DHT ----------

  /** The sum of the n bytes from `at` on. */
  function Sum(input: Input, at: nat, n: nat): nat
    decreases n
  {
    if n == 0 then 0 else input.At(at) + Sum(input, at + 1, n - 1)
  }

  lemma {:induction false} SumSnoc(input: Input, at: nat, n: nat)
    ensures Sum(input, at, n + 1) == Sum(input, at, n) + input.At(at + n)
    decreases n
  {
    if n == 0 {
    } else {
      SumSnoc(input, at + 1, n - 1);
    }
  }

  lemma {:induction false} CountSumIsSum(input: Input, at: nat, n: nat)
    ensures CountSum(input, at, n) == Sum(input, at, n)
    decreases n
  {
    if n == 0 {
    } else {
      CountSumIsSum(input, at, n - 1);
      SumSnoc(input, at, n - 1);
    }
  }

  /** Where table k of the DHT segment whose length is at `pos` starts: behind a class and slot byte,
      sixteen counts, and as many values as they sum to, for each table before it. */
  function HuffStart(input: Input, pos: nat, k: nat): nat {
    if k == 0 then pos + 2
    else
      var p := HuffStart(input, pos, k - 1);
      p + 17 + Sum(input, p + 1, 16)
  }

  predicate IsHuff(input: Input, pos: nat, k: nat) {
    HuffStart(input, pos, k) < pos + 2 + BodyLength(input, pos)
  }

  /** Bits 1 and 0 of the byte are the table's number, and bit 4 its class, 1 for AC. */
  function HuffSlot(input: Input, pos: nat, k: nat): nat {
    var b := input.At(HuffStart(input, pos, k));
    2 * (b % 4) + if b / 16 % 2 == 1 then 1 else 0
  }

  ghost predicate LastHuff(input: Input, pos: nat, k: nat) {
    IsHuff(input, pos, k)
    && forall m: nat | k < m && IsHuff(input, pos, m) :: HuffSlot(input, pos, m) != HuffSlot(input, pos, k)
  }

  lemma {:induction false} HuffStartsGrow(input: Input, pos: nat, i: nat, k: nat)
    requires i <= k
    ensures pos + 2 <= HuffStart(input, pos, i) <= HuffStart(input, pos, k)
    decreases k
  {
    hide Sum, Input.At;
    if k == 0 {
    } else if i < k {
      HuffStartsGrow(input, pos, i, k - 1);
    } else {
      HuffStartsGrow(input, pos, i - 1, k - 1);
    }
  }

  /** What the parser does with the tables from number i on. */
  ghost function HuffsFrom(input: Input, pos: nat, i: nat, j: Jpeg): Jpeg {
    HuffStartsGrow(input, pos, 0, i);
    ParseDht(input, pos + 2, HuffStart(input, pos, i) - pos - 2, BodyLength(input, pos), j)
  }

  function WithHuff(input: Input, pos: nat, k: nat, j: Jpeg): Jpeg {
    j.(huffman := j.huffman[HuffSlot(input, pos, k) := Some(HuffStart(input, pos, k) + 1)])
  }

  lemma HuffStep(input: Input, pos: nat, i: nat, j: Jpeg)
    ensures !IsHuff(input, pos, i) ==> HuffsFrom(input, pos, i, j) == j
    ensures IsHuff(input, pos, i) ==>
              HuffsFrom(input, pos, i, j) == HuffsFrom(input, pos, i + 1, WithHuff(input, pos, i, j))
    ensures HuffStart(input, pos, i) < HuffStart(input, pos, i + 1)
  {
    hide Sum, CountSum, Input.At;
    HuffStartsGrow(input, pos, 0, i);
    CountSumIsSum(input, HuffStart(input, pos, i) + 1, 16);
  }

  lemma {:induction false} HuffsOnly(input: Input, pos: nat, i: nat, j: Jpeg)
    ensures HuffsFrom(input, pos, i, j) == j.(huffman := HuffsFrom(input, pos, i, j).huffman)
    decreases pos + 2 + BodyLength(input, pos) - HuffStart(input, pos, i)
  {
    hide HuffsFrom, HuffStart;
    HuffStep(input, pos, i, j);
    if !IsHuff(input, pos, i) {
    } else {
      HuffsOnly(input, pos, i + 1, WithHuff(input, pos, i, j));
    }
  }

  lemma {:induction false} HuffUnset(input: Input, pos: nat, i: nat, j: Jpeg, s: nat)
    requires s < 8 && forall k: nat | i <= k && IsHuff(input, pos, k) :: HuffSlot(input, pos, k) != s
    ensures HuffsFrom(input, pos, i, j).huffman[s] == j.huffman[s]
    decreases pos + 2 + BodyLength(input, pos) - HuffStart(input, pos, i)
  {
    HuffStep(input, pos, i, j);
    hide HuffsFrom, HuffStart, HuffSlot;
    if !IsHuff(input, pos, i) {
    } else {
      HuffUnset(input, pos, i + 1, WithHuff(input, pos, i, j), s);
    }
  }

  lemma {:induction false} HuffSet(input: Input, pos: nat, i: nat, j: Jpeg, k: nat)
    requires i <= k && LastHuff(input, pos, k)
    ensures HuffsFrom(input, pos, i, j).huffman[HuffSlot(input, pos, k)] == Some(HuffStart(input, pos, k) + 1)
    decreases k - i
  {
    hide Sum, Input.At, BodyLength;
    HuffStartsGrow(input, pos, i, k);
    HuffStep(input, pos, i, j);
    hide HuffsFrom, HuffStart;
    if i == k {
      HuffUnset(input, pos, k + 1, WithHuff(input, pos, k, j), HuffSlot(input, pos, k));
    } else {
      HuffSet(input, pos, i + 1, WithHuff(input, pos, i, j), k);
    }
  }

  /** Marker c4: the last table of a slot is left where it stands, behind its first byte, and a slot
      without one keeps what it had. */
  lemma DhtInBytes(input: Input, pos: nat, j: Jpeg, k: nat, s: nat)
    ensures var o := ParseSegment(input, 0xc4, pos, j);
            && o.ok && o.jpeg == j.(huffman := o.jpeg.huffman)
            && (LastHuff(input, pos, k) ==>
                  o.jpeg.huffman[HuffSlot(input, pos, k)] == Some(HuffStart(input, pos, k) + 1))
            && (s < 8 && (forall m: nat | IsHuff(input, pos, m) :: HuffSlot(input, pos, m) != s) ==>
                  o.jpeg.huffman[s] == j.huffman[s])
  {
    assert ParseSegment(input, 0xc4, pos, j) == Outcome(true, HuffsFrom(input, pos, 0, j));
    hide ParseSegment, HuffsFrom, HuffStart, HuffSlot;
    HuffsOnly(input, pos, 0, j);
    if LastHuff(input, pos, k) {
      HuffSet(input, pos, 0, j, k);
    }
    if s < 8 && forall m: nat | IsHuff(input, pos, m) :: HuffSlot(input, pos, m) != s {
      HuffUnset(input, pos, 0, j, s);
    }
  }

  // ---------- Frame and scan headers ----------

  /** The three bytes of component k of the SOF0 segment whose length is at `pos`. */
  function FrameByte(input: Input, pos: nat, k: nat, b: nat): uint8 {
    input.At(pos + 8 + 3 * k + b)
  }

  function WithFrame(input: Input, pos: nat, k: nat, j: Jpeg): Jpeg
    requires 1 <= FrameByte(input, pos, k, 0) <= 3
  {
    var c, b := FrameByte(input, pos, k, 0) - 1, FrameByte(input, pos, k, 1);
    j.(comp := j.comp[c := j.comp[c].(sampH := b / 16, sampV := b % 16, qt := FrameByte(input, pos, k, 2))])
  }

  lemma FrameStep(input: Input, pos: nat, n: nat, i: nat, j: Jpeg)
    requires i < n
    ensures !(1 <= FrameByte(input, pos, i, 0) <= 3) ==> ParseFrameComps(input, pos, n, i, j) == Outcome(false, j)
    ensures 1 <= FrameByte(input, pos, i, 0) <= 3 ==>
              ParseFrameComps(input, pos, n, i, j) == ParseFrameComps(input, pos, n, i + 1, WithFrame(input, pos, i, j))
  {
    assert FrameByte(input, pos, i, 0) == input.At(pos + 8 + 3 * i);
    assert FrameByte(input, pos, i, 1) == input.At(pos + 9 + 3 * i);
    assert FrameByte(input, pos, i, 2) == input.At(pos + 10 + 3 * i);
  }

  lemma {:induction false} FrameOk(input: Input, pos: nat, n: nat, i: nat, j: Jpeg)
    ensures var o := ParseFrameComps(input, pos, n, i, j);
            && o.jpeg == j.(comp := o.jpeg.comp)
            && (o.ok <==> forall k | i <= k < n :: 1 <= FrameByte(input, pos, k, 0) <= 3)
    decreases n - i
  {
    if i >= n {
    } else {
      FrameStep(input, pos, n, i, j);
      hide ParseFrameComps, FrameByte;
      if 1 <= FrameByte(input, pos, i, 0) <= 3 {
        FrameOk(input, pos, n, i + 1, WithFrame(input, pos, i, j));
      }
    }
  }

  lemma {:induction false} FrameUnset(input: Input, pos: nat, n: nat, i: nat, j: Jpeg, c: nat)
    requires c < 3 && ParseFrameComps(input, pos, n, i, j).ok
    requires forall k | i <= k < n :: FrameByte(input, pos, k, 0) != c + 1
    ensures ParseFrameComps(input, pos, n, i, j).jpeg.comp[c] == j.comp[c]
    decreases n - i
  {
    if i >= n {
    } else {
      FrameStep(input, pos, n, i, j);
      hide ParseFrameComps, FrameByte;
      FrameUnset(input, pos, n, i + 1, WithFrame(input, pos, i, j), c);
    }
  }

  lemma {:induction false} FrameSet(input: Input, pos: nat, n: nat, i: nat, j: Jpeg, k: nat)
    requires i <= k < n && ParseFrameComps(input, pos, n, i, j).ok
    requires forall m | k < m < n :: FrameByte(input, pos, m, 0) != FrameByte(input, pos, k, 0)
    ensures var c := FrameByte(input, pos, k, 0) - 1;
            && 0 <= c < 3
            && ParseFrameComps(input, pos, n, i, j).jpeg.comp[c]
               == j.comp[c].(sampH := FrameByte(input, pos, k, 1) / 16, sampV := FrameByte(input, pos, k, 1) % 16,
                             qt := FrameByte(input, pos, k, 2))
    decreases k - i
  {
    FrameStep(input, pos, n, i, j);
    hide ParseFrameComps, FrameByte;
    if i == k {
      FrameUnset(input, pos, n, k + 1, WithFrame(input, pos, k, j), FrameByte(input, pos, k, 0) - 1);
    } else {
      FrameSet(input, pos, n, i + 1, WithFrame(input, pos, i, j), k);
    }
  }

  /** Marker c0: precision in byte 2, lines in 3 and 4, samples a line in 5 and 6, and for each of
      the components counted in byte 7 its identifier, its sampling factors and its table, the last
      one of each identifier counting. */
  lemma FrameInBytes(input: Input, pos: nat, j: Jpeg, k: nat, c: nat)
    ensures var o, n := ParseSegment(input, 0xc0, pos, j), input.At(pos + 7);
            && o.jpeg == j.(bits := input.At(pos + 2),
                            height := Word(input, pos + 3), width := Word(input, pos + 5),
                            comp := o.jpeg.comp)
            && (o.ok <==> forall m | 0 <= m < n :: 1 <= FrameByte(input, pos, m, 0) <= 3)
            && (o.ok && c < 3 && (forall m | 0 <= m < n :: FrameByte(input, pos, m, 0) != c + 1) ==>
                  o.jpeg.comp[c] == j.comp[c])
            && (o.ok && k < n
                && (forall m | k < m < n :: FrameByte(input, pos, m, 0) != FrameByte(input, pos, k, 0)) ==>
                  var d := FrameByte(input, pos, k, 0) - 1;
                  o.jpeg.comp[d] == j.comp[d].(sampH := FrameByte(input, pos, k, 1) / 16,
                                               sampV := FrameByte(input, pos, k, 1) % 16,
                                               qt := FrameByte(input, pos, k, 2)))
  {
    var j' := j.(bits := input.At(pos + 2), width := input.At16(pos + 5), height := input.At16(pos + 3));
    var n := input.At(pos + 7);
    hide ParseFrameComps, FrameByte;
    FrameOk(input, pos, n, 0, j');
    if ParseFrameComps(input, pos, n, 0, j').ok {
      if k < n && forall m | k < m < n :: FrameByte(input, pos, m, 0) != FrameByte(input, pos, k, 0) {
        FrameSet(input, pos, n, 0, j', k);
      }
      if c < 3 && forall m | 0 <= m < n :: FrameByte(input, pos, m, 0) != c + 1 {
        FrameUnset(input, pos, n, 0, j', c);
      }
    }
  }

  /** The two bytes of component k of the SOS segment whose length is at `pos`. */
  function ScanByte(input: Input, pos: nat, k: nat, b: nat): uint8 {
    input.At(pos + 3 + 2 * k + b)
  }

  function WithScan(input: Input, pos: nat, k: nat, j: Jpeg): Jpeg
    requires 1 <= ScanByte(input, pos, k, 0) <= 3
  {
    var c, b := ScanByte(input, pos, k, 0) - 1, ScanByte(input, pos, k, 1);
    j.(comp := j.comp[c := j.comp[c].(htDc := b / 16, htAc := b % 16)])
  }

  lemma ScanStep(input: Input, pos: nat, n: nat, i: nat, j: Jpeg)
    requires i < n
    ensures !(1 <= ScanByte(input, pos, i, 0) <= 3) ==> ParseScanComps(input, pos, n, i, j) == Outcome(false, j)
    ensures 1 <= ScanByte(input, pos, i, 0) <= 3 ==>
              ParseScanComps(input, pos, n, i, j) == ParseScanComps(input, pos, n, i + 1, WithScan(input, pos, i, j))
  {
    assert ScanByte(input, pos, i, 0) == input.At(pos + 3 + 2 * i);
    assert ScanByte(input, pos, i, 1) == input.At(pos + 4 + 2 * i);
  }

  lemma {:induction false} ScanOk(input: Input, pos: nat, n: nat, i: nat, j: Jpeg)
    ensures var o := ParseScanComps(input, pos, n, i, j);
            && o.jpeg == j.(comp := o.jpeg.comp)
            && (o.ok <==> forall k | i <= k < n :: 1 <= ScanByte(input, pos, k, 0) <= 3)
    decreases n - i
  {
    if i >= n {
    } else {
      ScanStep(input, pos, n, i, j);
      hide ParseScanComps, ScanByte;
      if 1 <= ScanByte(input, pos, i, 0) <= 3 {
        ScanOk(input, pos, n, i + 1, WithScan(input, pos, i, j));
      }
    }
  }

  lemma {:induction false} ScanUnset(input: Input, pos: nat, n: nat, i: nat, j: Jpeg, c: nat)
    requires c < 3 && ParseScanComps(input, pos, n, i, j).ok
    requires forall k | i <= k < n :: ScanByte(input, pos, k, 0) != c + 1
    ensures ParseScanComps(input, pos, n, i, j).jpeg.comp[c] == j.comp[c]
    decreases n - i
  {
    if i >= n {
    } else {
      ScanStep(input, pos, n, i, j);
      hide ParseScanComps, ScanByte;
      ScanUnset(input, pos, n, i + 1, WithScan(input, pos, i, j), c);
    }
  }

  lemma {:induction false} ScanSet(input: Input, pos: nat, n: nat, i: nat, j: Jpeg, k: nat)
    requires i <= k < n && ParseScanComps(input, pos, n, i, j).ok
    requires forall m | k < m < n :: ScanByte(input, pos, m, 0) != ScanByte(input, pos, k, 0)
    ensures var c := ScanByte(input, pos, k, 0) - 1;
            && 0 <= c < 3
            && ParseScanComps(input, pos, n, i, j).jpeg.comp[c]
               == j.comp[c].(htDc := ScanByte(input, pos, k, 1) / 16, htAc := ScanByte(input, pos, k, 1) % 16)
    decreases k - i
  {
    ScanStep(input, pos, n, i, j);
    hide ParseScanComps, ScanByte;
    if i == k {
      ScanUnset(input, pos, n, k + 1, WithScan(input, pos, k, j), ScanByte(input, pos, k, 0) - 1);
    } else {
      ScanSet(input, pos, n, i + 1, WithScan(input, pos, i, j), k);
    }
  }

  /** Marker da: for each of the components counted in byte 2 its identifier, and its DC and AC
      tables in the high and low four bits. */
  lemma ScanInBytes(input: Input, pos: nat, j: Jpeg, k: nat, c: nat)
    ensures var o, n := ParseSegment(input, 0xda, pos, j), input.At(pos + 2);
            && o.jpeg == j.(comp := o.jpeg.comp)
            && (o.ok <==> forall m | 0 <= m < n :: 1 <= ScanByte(input, pos, m, 0) <= 3)
            && (o.ok && c < 3 && (forall m | 0 <= m < n :: ScanByte(input, pos, m, 0) != c + 1) ==>
                  o.jpeg.comp[c] == j.comp[c])
            && (o.ok && k < n
                && (forall m | k < m < n :: ScanByte(input, pos, m, 0) != ScanByte(input, pos, k, 0)) ==>
                  var d := ScanByte(input, pos, k, 0) - 1;
                  o.jpeg.comp[d] == j.comp[d].(htDc := ScanByte(input, pos, k, 1) / 16,
                                               htAc := ScanByte(input, pos, k, 1) % 16))
  {
    var n := input.At(pos + 2);
    hide ParseScanComps, ScanByte;
    ScanOk(input, pos, n, 0, j);
    if ParseScanComps(input, pos, n, 0, j).ok {
      if k < n && forall m | k < m < n :: ScanByte(input, pos, m, 0) != ScanByte(input, pos, k, 0) {
        ScanSet(input, pos, n, 0, j, k);
      }
      if c < 3 && forall m | 0 <= m < n :: ScanByte(input, pos, m, 0) != c + 1 {
        ScanUnset(input, pos, n, 0, j, c);
      }
    }
  }

  // ---------- The other segments ----------

  /** Marker dd sets the restart interval; of the rest, SOI, EOI, the frames that are not baseline
      and arithmetic conditioning are refused, and all others change nothing. */
  lemma OtherInBytes(input: Input, marker: uint8, pos: nat, j: Jpeg)
    requires marker !in {0xdb, 0xc4, 0xc0, 0xda}
    ensures ParseSegment(input, marker, pos, j) ==
            if marker == 0xdd then Outcome(true, j.(restartInterval := Word(input, pos + 2)))
            else Outcome(marker != 0xd8 && marker != 0xd9 && (marker < 0xc1 || marker > 0xcf || marker == 0xc8), j)
  {
  }

  // ---------- Tables by value ----------

  /** A Huffman table is sixteen counts and the values they sum to. */
  lemma TableInBytes(input: Input, at: nat)
    ensures var t := JpegFormat.TableAt(input, at);
            && |t.values| == Sum(input, at, 16)
            && (forall k | 0 <= k < 16 :: t.counts[k] == input.At(at + k))
            && (forall v | 0 <= v < |t.values| :: t.values[v] == input.At(at + 16 + v))
  {
    CountsSum(input, at, JpegFormat.TableAt(input, at).counts, 16);
  }

  lemma {:induction false} CountsSum(input: Input, at: nat, counts: HuffmanCode.Counts, n: nat)
    requires n <= 16 && forall k | 0 <= k < 16 :: counts[k] == input.At(at + k)
    ensures HuffmanCode.Before(counts, n) == Sum(input, at, n)
    decreases n
  {
    if n == 0 {
    } else {
      CountsSum(input, at, counts, n - 1);
      SumSnoc(input, at, n - 1);
    }
  }

  /** The header a structure stands for has in each slot the bytes at its position. */
  lemma HeaderInBytes(input: Input, j: Jpeg, q: nat, h: nat)
    requires q < 4 && h < 8
    ensures var header := JpegFormat.HeaderOf(input, j);
            && header.bits == j.bits && header.width == j.width && header.height == j.height
            && header.comp == j.comp && header.restartInterval == j.restartInterval
            && (j.quant[q].None? <==> header.quant[q].None?)
            && (j.quant[q].Some? ==>
                  && |header.quant[q].value| == 64
                  && forall k | 0 <= k < 64 :: header.quant[q].value[k] == input.At(j.quant[q].value + k))
            && (j.huffman[h].None? ==> header.huffman[h].None?)
            && (j.huffman[h].Some? ==> header.huffman[h] == Some(JpegFormat.TableAt(input, j.huffman[h].value)))
  {
  }

  /** A byte of the input is itself. */
  lemma AtIsByte(input: Input, i: nat)
    requires i < |input.bytes|
    ensures input.At(i) == input.bytes[i]
  {
  }
}
