/** Parsing what section B.2 of ITU-T T.81 prints gives back what was printed. */
module JpegRoundTrip {
  import opened CTypes
  import HuffmanCode
  import HuffmanImage
  import opened JpegParser
  import opened JpegFormat

  /** `part` stands in the input at position `at`. */
  predicate Holds(input: Input, at: nat, part: seq<uint8>) {
    at + |part| <= |input.bytes| && input.bytes[at..at + |part|] == part
  }

  lemma HoldsSplit(input: Input, at: nat, a: seq<uint8>, b: seq<uint8>)
    requires Holds(input, at, a + b)
    ensures Holds(input, at, a) && Holds(input, at + |a|, b)
  {
    assert input.bytes[at..at + |a|] == (a + b)[..|a|] == a;
    assert input.bytes[at + |a|..at + |a| + |b|] == (a + b)[|a|..] == b;
  }

  lemma HoldsAt(input: Input, at: nat, part: seq<uint8>)
    requires Holds(input, at, part)
    ensures forall k | 0 <= k < |part| :: input.At(at + k) == part[k]
  {
    forall k | 0 <= k < |part| ensures input.At(at + k) == part[k] {
      assert input.bytes[at..at + |part|][k] == part[k];
    }
  }

  lemma HoldsFits(input: Input, at: nat, part: seq<uint8>)
    requires Holds(input, at, part)
    ensures at + |part| <= |input.bytes|
  {
  }

  lemma HoldsBytes(input: Input, at: nat, part: seq<uint8>)
    requires Holds(input, at, part)
    ensures BytesAt(input, at, |part|) == part
  {
    HoldsAt(input, at, part);
  }

  /** What an outcome of the parser says, by value. */
  predicate Reads(input: Input, o: Outcome, r: Reading) {
    o.ok == r.ok && HeaderOf(input, o.jpeg) == r.header
  }

  // ---------- Single assignments, by value ----------

  lemma QuantSet(input: Input, j: Jpeg, slot: nat, at: nat)
    requires slot < 4
    ensures HeaderOf(input, j.(quant := j.quant[slot := Some(at)]))
            == HeaderOf(input, j).(quant := HeaderOf(input, j).quant[slot := Some(BytesAt(input, at, 64))])
  {
    hide BytesAt;
  }

  lemma HuffmanSet(input: Input, j: Jpeg, slot: nat, at: nat)
    requires slot < 8
    ensures HeaderOf(input, j.(huffman := j.huffman[slot := Some(at)]))
            == HeaderOf(input, j).(huffman := HeaderOf(input, j).huffman[slot := Some(TableAt(input, at))])
  {
    hide TableAt;
  }

  lemma CompSet(input: Input, j: Jpeg, comp: Comps)
    ensures HeaderOf(input, j).comp == j.comp
    ensures HeaderOf(input, j.(comp := comp)) == HeaderOf(input, j).(comp := comp)
  {
    hide BytesAt, TableAt;
  }

  lemma DataSet(input: Input, j: Jpeg, data: nat, dataLen: nat)
    ensures HeaderOf(input, j.(data := data, dataLen := dataLen)) == HeaderOf(input, j)
  {
    hide BytesAt, TableAt;
  }

  // ---------- Table segments ----------

  lemma QuantRead(input: Input, at: nat, q: QuantDef, rest: seq<uint8>)
    requires GoodQuant(q)
    requires Holds(input, at, [q.precision % 16 * 16 + q.slot % 16] + q.coeffs + rest)
    ensures input.At(at) / 16 == q.precision && input.At(at) % 4 == q.slot
    ensures BytesAt(input, at + 1, |q.coeffs|) == q.coeffs && Holds(input, at + 1 + |q.coeffs|, rest)
  {
    hide Holds, BytesAt;
    var head := [q.precision % 16 * 16 + q.slot % 16];
    assert head + q.coeffs + rest == head + (q.coeffs + rest);
    HoldsSplit(input, at, head, q.coeffs + rest);
    HoldsAt(input, at, head);
    assert input.At(at + 0) == head[0];
    HoldsSplit(input, at + 1, q.coeffs, rest);
    HoldsBytes(input, at + 1, q.coeffs);
  }

  lemma {:induction false} QuantsRead(input: Input, base: nat, pos: nat, quants: seq<QuantDef>, j: Jpeg)
    requires GoodQuants(quants) && Holds(input, base + pos, PrintQuants(quants))
    ensures Reads(input, ParseDqt(input, base, pos, pos + |PrintQuants(quants)|, j),
                  TakeQuants(quants, HeaderOf(input, j)))
    decreases |quants|
  {
    hide HeaderOf, Holds, BytesAt, Input.At;
    if quants == [] {
    } else {
      var q, rest, at := quants[0], PrintQuants(quants[1..]), base + pos;
      QuantRead(input, at, q, rest);
      if q.precision == 0 {
        var j' := j.(quant := j.quant[q.slot := Some(at + 1)]);
        QuantSet(input, j, q.slot, at + 1);
        QuantsRead(input, base, pos + 65, quants[1..], j');
      }
    }
  }

  lemma {:induction false} CountSumIs(input: Input, at: nat, counts: HuffmanCode.Counts, n: nat)
    requires n <= 16 && Holds(input, at, counts)
    ensures CountSum(input, at, n) == HuffmanCode.Before(counts, n)
  {
    if n == 0 {
    } else {
      CountSumIs(input, at, counts, n - 1);
      HoldsAt(input, at, counts);
      assert input.At(at + (n - 1)) == counts[n - 1];
    }
  }

  lemma TableRead(input: Input, at: nat, t: HuffmanImage.Table)
    requires |t.values| == HuffmanCode.CodeCount(t.counts)
    requires Holds(input, at, t.counts) && Holds(input, at + 16, t.values)
    ensures TableAt(input, at) == t && CountSum(input, at, 16) == HuffmanCode.CodeCount(t.counts)
  {
    CountSumIs(input, at, t.counts, 16);
    HoldsBytes(input, at, t.counts);
    HoldsBytes(input, at + 16, t.values);
  }

  lemma HuffRead(input: Input, at: nat, d: HuffDef, rest: seq<uint8>)
    requires GoodHuff(d)
    requires Holds(input, at, [d.cls % 16 * 16 + d.slot % 16] + d.table.counts + d.table.values + rest)
    ensures HuffmanSlot(input.At(at)) == 2 * d.slot + d.cls
    ensures TableAt(input, at + 1) == d.table && CountSum(input, at + 1, 16) == HuffmanCode.CodeCount(d.table.counts)
    ensures Holds(input, at + 17 + HuffmanCode.CodeCount(d.table.counts), rest)
  {
    hide Holds, TableAt, CountSum, HuffmanCode.CodeCount;
    var head, part := [d.cls % 16 * 16 + d.slot % 16], d.table.counts + (d.table.values + rest);
    assert head + d.table.counts + d.table.values + rest == head + part;
    HoldsSplit(input, at, head, part);
    HoldsAt(input, at, head);
    assert input.At(at + 0) == head[0];
    HoldsSplit(input, at + 1, d.table.counts, d.table.values + rest);
    HoldsSplit(input, at + 17, d.table.values, rest);
    TableRead(input, at + 1, d.table);
  }

  lemma {:induction false} HuffsRead(input: Input, base: nat, pos: nat, huffs: seq<HuffDef>, j: Jpeg)
    requires GoodHuffs(huffs) && Holds(input, base + pos, PrintHuffs(huffs))
    ensures HeaderOf(input, ParseDht(input, base, pos, pos + |PrintHuffs(huffs)|, j))
            == TakeHuffs(huffs, HeaderOf(input, j))
    decreases |huffs|
  {
    hide HeaderOf, Holds, HuffmanCode.CodeCount, CountSum, TableAt, HuffmanSlot;
    if huffs == [] {
    } else {
      var d, rest, at := huffs[0], PrintHuffs(huffs[1..]), base + pos;
      HuffRead(input, at, d, rest);
      var j' := j.(huffman := j.huffman[2 * d.slot + d.cls := Some(at + 1)]);
      HuffmanSet(input, j, 2 * d.slot + d.cls, at + 1);
      HuffsRead(input, base, pos + 17 + HuffmanCode.CodeCount(d.table.counts), huffs[1..], j');
    }
  }

  // ---------- Component lists ----------

  lemma FrameCompRead(input: Input, at: nat, c: FrameComp, rest: seq<uint8>)
    requires GoodFrameComp(c)
    requires Holds(input, at, [c.id, c.sampH % 16 * 16 + c.sampV % 16, c.qt] + rest)
    ensures input.At(at) == c.id && input.At(at + 2) == c.qt
    ensures input.At(at + 1) / 16 == c.sampH && input.At(at + 1) % 16 == c.sampV
    ensures Holds(input, at + 3, rest)
  {
    hide Holds;
    var head := [c.id, c.sampH % 16 * 16 + c.sampV % 16, c.qt];
    HoldsSplit(input, at, head, rest);
    HoldsAt(input, at, head);
    assert input.At(at + 0) == head[0] && input.At(at + 1) == head[1] && input.At(at + 2) == head[2];
  }

  lemma {:induction false} FrameCompsRead(input: Input, pos: nat, n: nat, i: nat, comps: seq<FrameComp>, j: Jpeg)
    requires GoodFrameComps(comps) && n == i + |comps| && Holds(input, pos + 8 + 3 * i, PrintFrameComps(comps))
    ensures Reads(input, ParseFrameComps(input, pos, n, i, j), TakeFrameComps(comps, HeaderOf(input, j)))
    decreases |comps|
  {
    hide HeaderOf, Holds, BytesAt, Input.At;
    if comps == [] {
    } else {
      var c, rest, at := comps[0], PrintFrameComps(comps[1..]), pos + 8 + 3 * i;
      FrameCompRead(input, at, c, rest);
      if 1 <= c.id <= 3 {
        var k := c.id - 1;
        var j' := j.(comp := j.comp[k := j.comp[k].(sampH := c.sampH, sampV := c.sampV, qt := c.qt)]);
        CompSet(input, j, j'.comp);
        FrameCompsRead(input, pos, n, i + 1, comps[1..], j');
      }
    }
  }

  lemma ScanCompRead(input: Input, at: nat, c: ScanComp, rest: seq<uint8>)
    requires GoodScanComp(c)
    requires Holds(input, at, [c.id, c.dc % 16 * 16 + c.ac % 16] + rest)
    ensures input.At(at) == c.id
    ensures input.At(at + 1) / 16 == c.dc && input.At(at + 1) % 16 == c.ac
    ensures Holds(input, at + 2, rest)
  {
    hide Holds;
    var head := [c.id, c.dc % 16 * 16 + c.ac % 16];
    HoldsSplit(input, at, head, rest);
    HoldsAt(input, at, head);
    assert input.At(at + 0) == head[0] && input.At(at + 1) == head[1];
  }

  lemma {:induction false} ScanCompsRead(input: Input, pos: nat, n: nat, i: nat, comps: seq<ScanComp>, j: Jpeg)
    requires GoodScanComps(comps) && n == i + |comps| && Holds(input, pos + 3 + 2 * i, PrintScanComps(comps))
    ensures Reads(input, ParseScanComps(input, pos, n, i, j), TakeScanComps(comps, HeaderOf(input, j)))
    decreases |comps|
  {
    hide HeaderOf, Holds, BytesAt, Input.At;
    if comps == [] {
    } else {
      var c, rest, at := comps[0], PrintScanComps(comps[1..]), pos + 3 + 2 * i;
      ScanCompRead(input, at, c, rest);
      if 1 <= c.id <= 3 {
        var k := c.id - 1;
        var j' := j.(comp := j.comp[k := j.comp[k].(htDc := c.dc, htAc := c.ac)]);
        CompSet(input, j, j'.comp);
        ScanCompsRead(input, pos, n, i + 1, comps[1..], j');
      }
    }
  }

  // ---------- Segments ----------

  lemma Read16(input: Input, at: nat, x: uint16)
    requires Holds(input, at, Bytes16(x))
    ensures input.At16(at) == x
  {
    HoldsAt(input, at, Bytes16(x));
    assert input.At(at + 0) == x / 0x100 && input.At(at + 1) == x % 0x100;
  }

  lemma FrameParts(input: Input, at: nat, bits: uint8, height: uint16, width: uint16, n: uint8, rest: seq<uint8>)
    requires Holds(input, at, [bits] + Bytes16(height) + Bytes16(width) + [n] + rest)
    ensures input.At(at) == bits && input.At16(at + 1) == height && input.At16(at + 3) == width && input.At(at + 5) == n
    ensures Holds(input, at + 6, rest)
  {
    var head := [bits] + Bytes16(height) + Bytes16(width) + [n];
    HoldsSplit(input, at, head, rest);
    HoldsAt(input, at, head);
    assert input.At(at + 0) == head[0];
    assert input.At(at + 1) == head[1] && input.At(at + 2) == head[2];
    assert input.At(at + 3) == head[3] && input.At(at + 4) == head[4];
    assert input.At(at + 5) == head[5];
  }

  lemma FrameSet(input: Input, j: Jpeg, bits: uint8, width: uint16, height: uint16)
    ensures HeaderOf(input, j.(bits := bits, width := width, height := height))
            == HeaderOf(input, j).(bits := bits, width := width, height := height)
  {
    hide BytesAt, TableAt;
  }

  lemma FrameRead(input: Input, pos: nat, s: Segment, j: Jpeg)
    requires s.Sof0? && GoodSegment(s) && Holds(input, pos + 2, Payload(s))
    ensures Reads(input, ParseSegment(input, 0xc0, pos, j), TakeSegment(s, HeaderOf(input, j)))
  {
    hide Holds, HeaderOf, PrintFrameComps, TakeFrameComps, ParseFrameComps, Input.At16;
    var j' := j.(bits := s.bits, width := s.width, height := s.height);
    FrameParts(input, pos + 2, s.bits, s.height, s.width, |s.comps|, PrintFrameComps(s.comps));
    FrameSet(input, j, s.bits, s.width, s.height);
    FrameCompsRead(input, pos, |s.comps|, 0, s.comps, j');
  }

  /** A segment's body, as the parser reads it behind its marker. */
  lemma SegmentRead(input: Input, pos: nat, s: Segment, j: Jpeg)
    requires GoodSegment(s) && Holds(input, pos + 2, Payload(s)) && input.At16(pos) == |Payload(s)| + 2
    ensures Reads(input, ParseSegment(input, MarkerOf(s), pos, j), TakeSegment(s, HeaderOf(input, j)))
  {
    match s
    case Dqt(quants) => QuantsRead(input, pos + 2, 0, quants, j);
    case Dht(huffs) => HuffsRead(input, pos + 2, 0, huffs, j);
    case Sof0(_, _, _, _) => FrameRead(input, pos, s, j);
    case Dri(interval) => Read16(input, pos + 2, interval);
    case Other(_, _) =>
  }

  lemma ScanRead(input: Input, pos: nat, f: File, j: Jpeg)
    requires GoodFile(f) && Holds(input, pos + 2, ScanHeader(f))
    ensures Reads(input, ParseSegment(input, 0xda, pos, j), TakeScanComps(f.comps, HeaderOf(input, j)))
  {
    var n := [|f.comps| % 0x100];
    assert ScanHeader(f) == n + (PrintScanComps(f.comps) + f.spectral);
    HoldsSplit(input, pos + 2, n, PrintScanComps(f.comps) + f.spectral);
    HoldsSplit(input, pos + 3, PrintScanComps(f.comps), f.spectral);
    HoldsAt(input, pos + 2, n);
    assert input.At(pos + 2 + 0) == |f.comps|;
    ScanCompsRead(input, pos, |f.comps|, 0, f.comps, j);
  }

  /** Fill bytes are skipped up to the marker. */
  lemma {:induction false} FillSkipped(input: Input, pos: nat, n: nat)
    requires Holds(input, pos, Fill(n)) && pos + n < |input.bytes| && input.bytes[pos + n] != 0xff
    ensures SkipFill(input.bytes, pos) == pos + n
    decreases n
  {
    if n == 0 {
    } else {
      assert Fill(n) == [0xff] + Fill(n - 1);
      HoldsSplit(input, pos, [0xff], Fill(n - 1));
      HoldsAt(input, pos, [0xff]);
      assert input.At(pos + 0) == 0xff;
      FillSkipped(input, pos + 1, n - 1);
    }
  }

  lemma FillLength(n: nat)
    ensures |Fill(n)| == n
  {
  }

  /** Fill, marker and length are read as printed. */
  lemma BodyRead(input: Input, pos: nat, fill: nat, marker: uint8, payload: seq<uint8>, rest: seq<uint8>)
    requires |payload| + 2 < 0x1_0000 && marker != 0xff
    requires Holds(input, pos, Fill(fill + 1) + PrintBody(marker, payload) + rest)
    ensures var at := pos + fill + 1;
            && SkipFill(input.bytes, pos) == at && at + 3 + |payload| + |rest| <= |input.bytes|
            && input.bytes[at] == marker && input.At16(at + 1) == |payload| + 2
            && Holds(input, at + 3, payload) && Holds(input, at + 3 + |payload|, rest)
  {
    hide Holds, Fill, SkipFill;
    FillLength(fill + 1);
    var at, size := pos + fill + 1, Bytes16(|payload| + 2);
    assert Fill(fill + 1) + PrintBody(marker, payload) + rest
           == Fill(fill + 1) + ([marker] + (size + (payload + rest)));
    HoldsSplit(input, pos, Fill(fill + 1), [marker] + (size + (payload + rest)));
    HoldsSplit(input, at, [marker], size + (payload + rest));
    HoldsSplit(input, at + 1, size, payload + rest);
    HoldsSplit(input, at + 3, payload, rest);
    HoldsAt(input, at, [marker]);
    assert input.At(at + 0) == marker;
    Read16(input, at + 1, |payload| + 2);
    HoldsFits(input, at, [marker]);
    HoldsFits(input, at + 3 + |payload|, rest);
    FillSkipped(input, pos, fill + 1);
  }

  // ---------- Files ----------

  /** What a file's reading must give: the header, and the scan where it stands. */
  predicate ReadsFile(input: Input, o: Outcome, r: Reading, scan: seq<uint8>) {
    && Reads(input, o, r)
    && (o.ok ==> o.jpeg.data <= |input.bytes| && input.bytes[o.jpeg.data..] == scan && o.jpeg.dataLen == |scan|)
  }

  lemma HoldsToEnd(input: Input, at: nat, part: seq<uint8>)
    requires Holds(input, at, part) && at + |part| == |input.bytes|
    ensures input.bytes[at..] == part
  {
  }

  lemma PrintedLength(fill: nat, marker: uint8, payload: seq<uint8>, rest: seq<uint8>)
    requires |payload| + 2 < 0x1_0000
    ensures |Fill(fill + 1) + PrintBody(marker, payload) + rest| == fill + 4 + |payload| + |rest|
  {
  }

  lemma FinalScanRead(input: Input, pos: nat, f: File, j: Jpeg)
    requires GoodFile(f) && Holds(input, pos, PrintScan(f)) && pos + |PrintScan(f)| == |input.bytes|
    ensures ReadsFile(input, ParseFrom(input, pos, j), TakeScanComps(f.comps, HeaderOf(input, j)), f.scan)
  {
    hide ParseSegment, PrintBody, Fill, TakeScanComps, HeaderOf, Holds, ScanHeader, GoodScanComps, GoodSegment;
    BodyRead(input, pos, f.fill, 0xda, ScanHeader(f), f.scan);
    PrintedLength(f.fill, 0xda, ScanHeader(f), f.scan);
    ScanRead(input, pos + f.fill + 2, f, j);
    var o, next := ParseSegment(input, 0xda, pos + f.fill + 2, j), pos + f.fill + 4 + |ScanHeader(f)|;
    DataSet(input, o.jpeg, next, |f.scan|);
    HoldsToEnd(input, next, f.scan);
  }

  /** One turn of the loop over the segments. */
  lemma StepRead(input: Input, pos: nat, fill: nat, s: Segment, rest: seq<uint8>, j: Jpeg)
    requires GoodSegment(s) && rest != []
    requires Holds(input, pos, Fill(fill + 1) + PrintBody(MarkerOf(s), Payload(s)) + rest)
    ensures var o, next := ParseSegment(input, MarkerOf(s), pos + fill + 2, j), pos + fill + 4 + |Payload(s)|;
            && next <= |input.bytes| && Holds(input, next, rest)
            && Reads(input, o, TakeSegment(s, HeaderOf(input, j)))
            && ParseFrom(input, pos, j) == if !o.ok then o else ParseFrom(input, next, o.jpeg)
  {
    hide Holds, Reads, Payload, PrintBody, HeaderOf, ParseSegment, TakeSegment;
    BodyRead(input, pos, fill, MarkerOf(s), Payload(s), rest);
    SegmentRead(input, pos + fill + 2, s, j);
  }

  lemma {:induction false} SegmentsRead(input: Input, pos: nat, segments: seq<Filled>, f: File, j: Jpeg)
    requires GoodFile(f) && GoodSegments(segments)
    requires Holds(input, pos, PrintSegments(segments) + PrintScan(f))
    requires pos + |PrintSegments(segments) + PrintScan(f)| == |input.bytes|
    ensures ReadsFile(input, ParseFrom(input, pos, j), MeaningFrom(segments, f, HeaderOf(input, j)), f.scan)
    decreases |segments|
  {
    hide ParseFrom, ParseSegment, Payload, PrintBody, Fill, TakeSegment, TakeScanComps, HeaderOf, Holds, ScanHeader;
    hide GoodQuants, GoodHuffs, GoodFrameComps, GoodScanComps;
    if segments == [] {
      assert PrintSegments(segments) + PrintScan(f) == PrintScan(f);
      FinalScanRead(input, pos, f, j);
    } else {
      var s, fill := segments[0].segment, segments[0].fill;
      assert GoodSegment(s);
      var rest := PrintSegments(segments[1..]) + PrintScan(f);
      assert PrintSegments(segments) + PrintScan(f) == Fill(fill + 1) + PrintBody(MarkerOf(s), Payload(s)) + rest;
      StepRead(input, pos, fill, s, rest, j);
      PrintedLength(fill, MarkerOf(s), Payload(s), rest);
      var o := ParseSegment(input, MarkerOf(s), pos + fill + 2, j);
      if o.ok {
        SegmentsRead(input, pos + fill + 4 + |Payload(s)|, segments[1..], f, o.jpeg);
      }
    }
  }

  /** For every file that can be printed, whatever stands in memory behind it: the parser accepts
      it exactly when its reading does, what it then holds is that reading (the last definition of
      every table slot winning), and `data` and `dataLen` are the scan. */
  lemma PrintedFileIsRead(f: File, beyond: nat -> uint8)
    requires GoodFile(f)
    ensures var input := Input(Print(f), beyond);
            ReadsFile(input, Parse(input, Blank()), Meaning(f), f.scan)
  {
    hide ParseFrom, PrintBody, Fill, PrintSegments, PrintScan, MeaningFrom, BytesAt, TableAt;
    var input := Input(Print(f), beyond);
    var start: seq<uint8> := [0xff, 0xd8];
    assert Print(f) == start + (PrintSegments(f.segments) + PrintScan(f));
    assert Holds(input, 0, start + (PrintSegments(f.segments) + PrintScan(f)));
    HoldsSplit(input, 0, start, PrintSegments(f.segments) + PrintScan(f));
    assert HeaderOf(input, Blank()) == NoHeader();
    SegmentsRead(input, 2, f.segments, f, Blank());
  }
}
