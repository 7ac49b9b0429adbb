/** The JPEG header parser of src/jpeg.c. Tables are kept, as in the source, as positions in the
    input; a read past the input's end, which malformed tables can cause, finds arbitrary bytes. */
module JpegParser {
  import opened CTypes

  datatype Comp = Comp(sampH: uint8, sampV: uint8, qt: uint8, htAc: uint8, htDc: uint8)

  type Comps = s: seq<Comp> | |s| == 3 witness seq(3, _ => Comp(0, 0, 0, 0, 0))
  type QuantSlots = s: seq<Option<nat>> | |s| == 4 witness seq(4, _ => None)
  type HuffmanSlots = s: seq<Option<nat>> | |s| == 8 witness seq(8, _ => None)

  /** A `jpeg_t`; the table slots and `data` are positions in the input. */
  datatype Jpeg = Jpeg(
    bits: uint8, width: uint16, height: uint16,
    comp: Comps, quant: QuantSlots, huffman: HuffmanSlots,
    restartInterval: uint16, data: nat, dataLen: nat)

  /** The structure as its caller clears it. */
  function Blank(): Jpeg {
    Jpeg(0, 0, 0, seq(3, _ => Comp(0, 0, 0, 0, 0)), seq(4, _ => None), seq(8, _ => None), 0, 0, 0)
  }

  /** The bytes given to the parser, and what stands in memory behind them. */
  datatype Input = Input(bytes: seq<uint8>, beyond: nat -> uint8) {
    function At(i: nat): uint8 {
      if i < |bytes| then bytes[i] else beyond(i)
    }

    function At16(i: nat): uint16 {
      var high: int, low: int := At(i), At(i + 1);
      0x100 * high + low
    }
  }

  const M_SOF0: uint8 := 0xc0
  const M_DHT: uint8 := 0xc4
  const M_SOI: uint8 := 0xd8
  const M_EOI: uint8 := 0xd9
  const M_SOS: uint8 := 0xda
  const M_DQT: uint8 := 0xdb
  const M_DRI: uint8 := 0xdd
  const M_DAC: uint8 := 0xcc

  /** The markers the parser rejects: other frame types, arithmetic coding, and a second SOI or an EOI. */
  predicate Refused(marker: uint8) {
    || marker == M_DAC || marker == M_SOI || marker == M_EOI
    || marker in {0xc1, 0xc2, 0xc3, 0xc5, 0xc6, 0xc7, 0xc9, 0xca, 0xcb, 0xcd, 0xce, 0xcf}
  }

  // ---------- What the parser computes ----------

  datatype Outcome = Outcome(ok: bool, jpeg: Jpeg)

  function ParseDqt(input: Input, base: nat, pos: nat, len: int, j: Jpeg): Outcome
    decreases len - pos
  {
    if pos >= len then Outcome(true, j)
    else if input.At(base + pos) / 16 != 0 then Outcome(false, j)
    else ParseDqt(input, base, pos + 65, len, j.(quant := j.quant[input.At(base + pos) % 4 := Some(base + pos + 1)]))
  }

  /** The sum of the first n of the counts at position `at`. */
  function CountSum(input: Input, at: nat, n: nat): nat {
    if n == 0 then 0 else CountSum(input, at, n - 1) + input.At(at + n - 1)
  }

  function HuffmanSlot(b: uint8): nat {
    b % 4 * 2 + b / 16 % 2
  }

  function ParseDht(input: Input, base: nat, pos: nat, len: int, j: Jpeg): Jpeg
    decreases len - pos
  {
    if pos >= len then j
    else
      ParseDht(input, base, pos + 17 + CountSum(input, base + pos + 1, 16), len,
               j.(huffman := j.huffman[HuffmanSlot(input.At(base + pos)) := Some(base + pos + 1)]))
  }

  /** `data[…] - 1` as an unsigned byte. */
  function Less1(x: uint8): uint8 {
    if x == 0 then 255 else x - 1
  }

  function ParseFrameComps(input: Input, pos: nat, n: nat, i: nat, j: Jpeg): Outcome
    decreases n - i
  {
    if i >= n then Outcome(true, j)
    else
      var id := Less1(input.At(pos + 8 + 3 * i));
      if id > 2 then Outcome(false, j)
      else
        var b := input.At(pos + 9 + 3 * i);
        ParseFrameComps(input, pos, n, i + 1,
          j.(comp := j.comp[id := j.comp[id].(sampH := b / 16, sampV := b % 16, qt := input.At(pos + 10 + 3 * i))]))
  }

  function ParseScanComps(input: Input, pos: nat, n: nat, i: nat, j: Jpeg): Outcome
    decreases n - i
  {
    if i >= n then Outcome(true, j)
    else
      var id := Less1(input.At(pos + 3 + 2 * i));
      if id > 2 then Outcome(false, j)
      else
        var b := input.At(pos + 4 + 2 * i);
        ParseScanComps(input, pos, n, i + 1, j.(comp := j.comp[id := j.comp[id].(htDc := b / 16, htAc := b % 16)]))
  }

  /** The body of the `switch`: `pos` is that of the segment's length field. */
  function ParseSegment(input: Input, marker: uint8, pos: nat, j: Jpeg): Outcome {
    if marker == M_DQT then ParseDqt(input, pos + 2, 0, input.At16(pos) - 2, j)
    else if marker == M_DHT then Outcome(true, ParseDht(input, pos + 2, 0, input.At16(pos) - 2, j))
    else if marker == M_SOF0 then
      ParseFrameComps(input, pos, input.At(pos + 7), 0,
        j.(bits := input.At(pos + 2), width := input.At16(pos + 5), height := input.At16(pos + 3)))
    else if marker == M_DRI then Outcome(true, j.(restartInterval := input.At16(pos + 2)))
    else if marker == M_SOS then ParseScanComps(input, pos, input.At(pos + 2), 0, j)
    else Outcome(!Refused(marker), j)
  }

  /** The position of the first byte at or after `pos` that is not a fill byte. */
  function SkipFill(bytes: seq<uint8>, pos: nat): (r: nat)
    requires pos <= |bytes|
    ensures pos <= r <= |bytes| && (r < |bytes| ==> bytes[r] != 0xff)
    decreases |bytes| - pos
  {
    if pos < |bytes| && bytes[pos] == 0xff then SkipFill(bytes, pos + 1) else pos
  }

  /** The loop over the segments. Its position strictly advances, even past segments of length 0. */
  function ParseFrom(input: Input, pos: nat, j: Jpeg): Outcome
    requires pos <= |input.bytes|
    decreases |input.bytes| - pos
  {
    var start := SkipFill(input.bytes, pos);
    if !(start + 2 < |input.bytes|) then Outcome(false, j)
    else
      var next := start + 1 + input.At16(start + 1);
      if !(next < |input.bytes|) then Outcome(false, j)
      else
        var o := ParseSegment(input, input.bytes[start], start + 1, j);
        if !o.ok then o
        else if input.bytes[start] == M_SOS then
          Outcome(true, o.jpeg.(data := next, dataLen := |input.bytes| - next))
        else ParseFrom(input, next, o.jpeg)
  }

  function Parse(input: Input, j: Jpeg): Outcome {
    if |input.bytes| < 2 || input.bytes[0] != 0xff || input.bytes[1] != M_SOI then Outcome(false, j)
    else ParseFrom(input, 2, j)
  }

  /** On every input: success leaves a non-empty scan that is exactly what was not consumed. */
  lemma {:induction false} SuccessLeavesScan(input: Input, pos: nat, j: Jpeg)
    requires pos <= |input.bytes| && ParseFrom(input, pos, j).ok
    ensures var r := ParseFrom(input, pos, j).jpeg;
            pos < r.data && 0 < r.dataLen && r.data + r.dataLen == |input.bytes|
    decreases |input.bytes| - pos
  {
    var start := SkipFill(input.bytes, pos);
    if input.bytes[start] == M_SOS {
    } else {
      var o := ParseSegment(input, input.bytes[start], start + 1, j);
      SuccessLeavesScan(input, start + 1 + input.At16(start + 1), o.jpeg);
    }
  }

  lemma ParseConsumes(input: Input, j: Jpeg)
    requires Parse(input, j).ok
    ensures var r := Parse(input, j).jpeg;
            2 < r.data && 0 < r.dataLen && r.data + r.dataLen == |input.bytes|
  {
    SuccessLeavesScan(input, 2, j);
  }
}
