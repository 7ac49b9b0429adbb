/** JPEG headers as ITU-T T.81 writes them: DQT (section B.2.4.1), DHT (B.2.4.2), DRI (B.2.4.4),
    frame header (B.2.2), scan header (B.2.3) and other segments that carry a length, each after
    its marker and any number of fill bytes (B.1.1.2); and what a reader should take from them. */
module JpegFormat {
  import opened CTypes
  import HuffmanCode
  import opened HuffmanImage
  import opened JpegParser

  // ---------- Headers ----------

  datatype QuantDef = QuantDef(precision: nat, slot: nat, coeffs: seq<uint8>)
  datatype HuffDef = HuffDef(cls: nat, slot: nat, table: Table)
  datatype FrameComp = FrameComp(id: uint8, sampH: nat, sampV: nat, qt: uint8)
  datatype ScanComp = ScanComp(id: uint8, dc: nat, ac: nat)

  datatype Segment =
    | Dqt(quants: seq<QuantDef>)
    | Dht(huffs: seq<HuffDef>)
    | Sof0(bits: uint8, height: uint16, width: uint16, comps: seq<FrameComp>)
    | Dri(interval: uint16)
    | Other(marker: uint8, payload: seq<uint8>)

  /** A segment and the fill bytes before its marker, beyond the one that is part of it. */
  datatype Filled = Filled(fill: nat, segment: Segment)

  /** A file up to its first scan: `spectral` is the end of the scan header, `scan` what follows it. */
  datatype File = File(segments: seq<Filled>, fill: nat, comps: seq<ScanComp>, spectral: seq<uint8>, scan: seq<uint8>)

  predicate GoodQuant(q: QuantDef) {
    q.precision < 16 && q.slot < 4 && |q.coeffs| == if q.precision == 0 then 64 else 128
  }

  predicate GoodQuants(quants: seq<QuantDef>) {
    forall i | 0 <= i < |quants| :: GoodQuant(quants[i])
  }

  predicate GoodHuff(h: HuffDef) {
    h.cls < 2 && h.slot < 4 && |h.table.values| == HuffmanCode.CodeCount(h.table.counts)
  }

  predicate GoodHuffs(huffs: seq<HuffDef>) {
    forall i | 0 <= i < |huffs| :: GoodHuff(huffs[i])
  }

  predicate GoodFrameComp(c: FrameComp) {
    c.sampH < 16 && c.sampV < 16
  }

  predicate GoodFrameComps(comps: seq<FrameComp>) {
    forall i | 0 <= i < |comps| :: GoodFrameComp(comps[i])
  }

  predicate GoodScanComp(c: ScanComp) {
    c.dc < 16 && c.ac < 16
  }

  predicate GoodScanComps(comps: seq<ScanComp>) {
    forall i | 0 <= i < |comps| :: GoodScanComp(comps[i])
  }

  predicate GoodSegment(s: Segment) {
    && |Payload(s)| + 2 < 0x1_0000
    && match s {
         case Dqt(quants) => GoodQuants(quants)
         case Dht(huffs) => GoodHuffs(huffs)
         case Sof0(_, _, _, comps) => |comps| < 256 && GoodFrameComps(comps)
         case Dri(_) => true
         case Other(marker, _) => marker !in {0xff, 0xdb, 0xc4, 0xc0, 0xdd, 0xda}
       }
  }

  predicate GoodSegments(segments: seq<Filled>) {
    forall i | 0 <= i < |segments| :: GoodSegment(segments[i].segment)
  }

  predicate GoodFile(f: File) {
    && GoodSegments(f.segments)
    && |f.comps| < 256 && GoodScanComps(f.comps)
    && |ScanHeader(f)| + 2 < 0x1_0000
    && f.scan != []
  }

  // ---------- Printing ----------

  function Bytes16(x: uint16): seq<uint8> {
    [x / 0x100, x % 0x100]
  }

  function PrintQuants(quants: seq<QuantDef>): seq<uint8> {
    if quants == [] then []
    else [(quants[0].precision % 16) * 16 + quants[0].slot % 16] + quants[0].coeffs + PrintQuants(quants[1..])
  }

  function PrintHuffs(huffs: seq<HuffDef>): seq<uint8> {
    if huffs == [] then []
    else
      [(huffs[0].cls % 16) * 16 + huffs[0].slot % 16] + huffs[0].table.counts + huffs[0].table.values
      + PrintHuffs(huffs[1..])
  }

  function PrintFrameComps(comps: seq<FrameComp>): seq<uint8> {
    if comps == [] then []
    else [comps[0].id, (comps[0].sampH % 16) * 16 + comps[0].sampV % 16, comps[0].qt] + PrintFrameComps(comps[1..])
  }

  function PrintScanComps(comps: seq<ScanComp>): seq<uint8> {
    if comps == [] then []
    else [comps[0].id, (comps[0].dc % 16) * 16 + comps[0].ac % 16] + PrintScanComps(comps[1..])
  }

  function Payload(s: Segment): seq<uint8> {
    match s
    case Dqt(quants) => PrintQuants(quants)
    case Dht(huffs) => PrintHuffs(huffs)
    case Sof0(bits, height, width, comps) =>
      [bits] + Bytes16(height) + Bytes16(width) + [|comps| % 0x100] + PrintFrameComps(comps)
    case Dri(interval) => Bytes16(interval)
    case Other(_, payload) => payload
  }

  function ScanHeader(f: File): seq<uint8> {
    [|f.comps| % 0x100] + PrintScanComps(f.comps) + f.spectral
  }

  /** Marker codes, by table B.1 of ITU-T T.81. */
  function MarkerOf(s: Segment): uint8 {
    match s
    case Dqt(_) => 0xdb
    case Dht(_) => 0xc4
    case Sof0(_, _, _, _) => 0xc0
    case Dri(_) => 0xdd
    case Other(marker, _) => marker
  }

  function Fill(n: nat): seq<uint8> {
    seq(n, _ => 0xff)
  }

  function PrintBody(marker: uint8, payload: seq<uint8>): seq<uint8>
    requires |payload| + 2 < 0x1_0000
  {
    [marker] + Bytes16(|payload| + 2) + payload
  }

  function PrintSegments(segments: seq<Filled>): seq<uint8>
    requires GoodSegments(segments)
  {
    if segments == [] then []
    else
      assert GoodSegment(segments[0].segment);
      Fill(segments[0].fill + 1) + PrintBody(MarkerOf(segments[0].segment), Payload(segments[0].segment))
      + PrintSegments(segments[1..])
  }

  /** The last part of a file: its scan header and scan. */
  function PrintScan(f: File): seq<uint8>
    requires GoodFile(f)
  {
    Fill(f.fill + 1) + PrintBody(0xda, ScanHeader(f)) + f.scan
  }

  function Print(f: File): seq<uint8>
    requires GoodFile(f)
  {
    [0xff, 0xd8] + PrintSegments(f.segments) + PrintScan(f)
  }

  // ---------- Meaning ----------

  /** What a header says: tables by value instead of by position. */
  datatype Header = Header(
    bits: uint8, width: uint16, height: uint16,
    comp: Comps, quant: QuantTables, huffman: HuffmanTables, restartInterval: uint16)

  type QuantTables = s: seq<Option<seq<uint8>>> | |s| == 4 witness seq(4, _ => None)
  type HuffmanTables = s: seq<Option<Table>> | |s| == 8 witness seq(8, _ => None)

  function NoHeader(): Header {
    Header(0, 0, 0, seq(3, _ => Comp(0, 0, 0, 0, 0)), seq(4, _ => None), seq(8, _ => None), 0)
  }

  /** A header read so far, and whether it can be accepted. */
  datatype Reading = Reading(ok: bool, header: Header)

  /** Tables of more than 8 bits precision are not accepted; a later table replaces an earlier one. */
  function TakeQuants(quants: seq<QuantDef>, h: Header): Reading
    requires GoodQuants(quants)
  {
    if quants == [] then Reading(true, h)
    else if quants[0].precision != 0 then Reading(false, h)
    else TakeQuants(quants[1..], h.(quant := h.quant[quants[0].slot := Some(quants[0].coeffs)]))
  }

  function TakeHuffs(huffs: seq<HuffDef>, h: Header): Header
    requires GoodHuffs(huffs)
  {
    if huffs == [] then h
    else TakeHuffs(huffs[1..], h.(huffman := h.huffman[2 * huffs[0].slot + huffs[0].cls := Some(huffs[0].table)]))
  }

  function WithFrameComp(h: Header, c: FrameComp): Header
    requires 1 <= c.id <= 3 && GoodFrameComp(c)
  {
    h.(comp := h.comp[c.id - 1 := h.comp[c.id - 1].(sampH := c.sampH, sampV := c.sampV, qt := c.qt)])
  }

  function WithScanComp(h: Header, c: ScanComp): Header
    requires 1 <= c.id <= 3 && GoodScanComp(c)
  {
    h.(comp := h.comp[c.id - 1 := h.comp[c.id - 1].(htDc := c.dc, htAc := c.ac)])
  }

  /** Components 1, 2 and 3 are Y, Cb and Cr; no other is accepted. */
  function TakeFrameComps(comps: seq<FrameComp>, h: Header): Reading
    requires GoodFrameComps(comps)
  {
    if comps == [] then Reading(true, h)
    else if !(1 <= comps[0].id <= 3) then Reading(false, h)
    else TakeFrameComps(comps[1..], WithFrameComp(h, comps[0]))
  }

  function TakeScanComps(comps: seq<ScanComp>, h: Header): Reading
    requires GoodScanComps(comps)
  {
    if comps == [] then Reading(true, h)
    else if !(1 <= comps[0].id <= 3) then Reading(false, h)
    else TakeScanComps(comps[1..], WithScanComp(h, comps[0]))
  }

  /** A second SOI, an EOI, and what else table B.1 puts between 0xc0 and 0xd0: frames that are not
      baseline, and arithmetic conditioning, but not DHT and the reserved 0xc8. */
  predicate Unsupported(marker: uint8) {
    marker == 0xd8 || marker == 0xd9 || (0xc0 < marker < 0xd0 && marker != 0xc4 && marker != 0xc8)
  }

  function TakeSegment(s: Segment, h: Header): Reading
    requires GoodSegment(s)
  {
    match s
    case Dqt(quants) => TakeQuants(quants, h)
    case Dht(huffs) => Reading(true, TakeHuffs(huffs, h))
    case Sof0(bits, height, width, comps) => TakeFrameComps(comps, h.(bits := bits, width := width, height := height))
    case Dri(interval) => Reading(true, h.(restartInterval := interval))
    case Other(marker, _) => Reading(!Unsupported(marker), h)
  }

  function TakeSegments(segments: seq<Filled>, h: Header): Reading
    requires GoodSegments(segments)
  {
    if segments == [] then Reading(true, h)
    else
      var r := TakeSegment(segments[0].segment, h);
      if !r.ok then r else TakeSegments(segments[1..], r.header)
  }

  /** The reading of the remaining segments and the scan header. */
  function MeaningFrom(segments: seq<Filled>, f: File, h: Header): Reading
    requires GoodFile(f) && GoodSegments(segments)
  {
    var r := TakeSegments(segments, h);
    if !r.ok then r else TakeScanComps(f.comps, r.header)
  }

  /** The reading of a whole file: its segments in order, then its scan header. */
  function Meaning(f: File): Reading
    requires GoodFile(f)
  {
    MeaningFrom(f.segments, f, NoHeader())
  }

  // ---------- The parser's result, by value ----------

  function BytesAt(input: Input, at: nat, n: nat): seq<uint8> {
    seq<uint8>(n, k requires 0 <= k => input.At(at + k))
  }

  function TableAt(input: Input, at: nat): Table {
    var counts: HuffmanCode.Counts := BytesAt(input, at, 16);
    Table(counts, BytesAt(input, at + 16, HuffmanCode.CodeCount(counts)))
  }

  function QuantAt(input: Input, slot: Option<nat>): Option<seq<uint8>> {
    match slot case None => None case Some(at) => Some(BytesAt(input, at, 64))
  }

  function HuffmanAt(input: Input, slot: Option<nat>): Option<Table> {
    match slot case None => None case Some(at) => Some(TableAt(input, at))
  }

  function HeaderOf(input: Input, j: Jpeg): Header {
    Header(j.bits, j.width, j.height, j.comp,
           seq(4, i requires 0 <= i < 4 => QuantAt(input, j.quant[i])),
           seq(8, i requires 0 <= i < 8 => HuffmanAt(input, j.huffman[i])),
           j.restartInterval)
  }
}
