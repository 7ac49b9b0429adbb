/** The parser of src/jpeg.c as it is written: a cursor moved over the input, the fields and table
    slots of a `jpeg_t` assigned on the way. JpegParser says what it computes. */
module JpegReader {
  import opened CTypes
  import opened JpegParser

  class JpegT {
    var bits: uint8
    var width: uint16
    var height: uint16
    const comp: array<Comp>
    const quant: array<Option<nat>>
    const huffman: array<Option<nat>>
    var restartInterval: uint16
    var data: nat
    var dataLen: nat

    ghost predicate Valid()
      reads this
    {
      comp.Length == 3 && quant.Length == 4 && huffman.Length == 8 && quant != huffman
    }

    ghost function View(): Jpeg
      requires Valid()
      reads this, comp, quant, huffman
    {
      Jpeg(bits, width, height, comp[..], quant[..], huffman[..], restartInterval, data, dataLen)
    }

    /** A cleared structure. */
    constructor ()
      ensures Valid() && fresh(comp) && fresh(quant) && fresh(huffman)
      ensures View() == Blank()
      ensures bits == 0 && width == 0 && height == 0 && restartInterval == 0 && data == 0 && dataLen == 0
      ensures comp[..] == [Comp(0, 0, 0, 0, 0), Comp(0, 0, 0, 0, 0), Comp(0, 0, 0, 0, 0)]
      ensures quant[..] == [None, None, None, None]
      ensures huffman[..] == [None, None, None, None, None, None, None, None]
    {
      bits, width, height, restartInterval, data, dataLen := 0, 0, 0, 0, 0, 0;
      comp := new Comp[3](_ => Comp(0, 0, 0, 0, 0));
      quant := new Option<nat>[4](_ => None);
      huffman := new Option<nat>[8](_ => None);
      new;
      assert comp[..] == Blank().comp && quant[..] == Blank().quant && huffman[..] == Blank().huffman;
    }

    method ProcessDqt(input: Input, base: nat, len: int) returns (ok: bool)
      requires Valid()
      modifies this, comp, quant, huffman
      ensures Valid() && Outcome(ok, View()) == ParseDqt(input, base, 0, len, old(View()))
    {
      var pos := 0;
      while pos < len
        invariant ParseDqt(input, base, pos, len, View()) == ParseDqt(input, base, 0, len, old(View()))
      {
        if input.At(base + pos) / 16 != 0 {
          return false;
        }
        quant[input.At(base + pos) % 4] := Some(base + pos + 1);
        pos := pos + 65;
      }
      return true;
    }

    method ProcessDht(input: Input, base: nat, len: int)
      requires Valid()
      modifies this, comp, quant, huffman
      ensures Valid() && View() == ParseDht(input, base, 0, len, old(View()))
    {
      var pos := 0;
      while pos < len
        invariant ParseDht(input, base, pos, len, View()) == ParseDht(input, base, 0, len, old(View()))
        decreases len - pos
      {
        ghost var start, view := pos, View();
        var id := HuffmanSlot(input.At(base + pos));
        huffman[id] := Some(base + pos + 1);
        pos := pos + 17;
        var i := 0;
        while i < 16
          invariant i <= 16 && huffman[id] == Some(base + start + 1)
          invariant pos == start + 17 + CountSum(input, base + start + 1, i)
        {
          pos := pos + input.At(huffman[id].value + i);
          i := i + 1;
        }
        assert View() == view.(huffman := view.huffman[id := Some(base + start + 1)]);
      }
    }

    method ProcessFrame(input: Input, pos: nat) returns (ok: bool)
      requires Valid()
      modifies this, comp, quant, huffman
      ensures Valid() && Outcome(ok, View()) == ParseSegment(input, M_SOF0, pos, old(View()))
    {
      bits := input.At(pos + 2);
      width := input.At16(pos + 5);
      height := input.At16(pos + 3);
      var i := 0;
      while i < input.At(pos + 7)
        invariant ParseFrameComps(input, pos, input.At(pos + 7), i, View())
                  == ParseSegment(input, M_SOF0, pos, old(View()))
      {
        var id := Less1(input.At(pos + 8 + 3 * i));
        if id > 2 {
          return false;
        }
        var b := input.At(pos + 9 + 3 * i);
        comp[id] := comp[id].(sampH := b / 16, sampV := b % 16, qt := input.At(pos + 10 + 3 * i));
        i := i + 1;
      }
      return true;
    }

    method ProcessScan(input: Input, pos: nat) returns (ok: bool)
      requires Valid()
      modifies this, comp, quant, huffman
      ensures Valid() && Outcome(ok, View()) == ParseSegment(input, M_SOS, pos, old(View()))
    {
      var i := 0;
      while i < input.At(pos + 2)
        invariant ParseScanComps(input, pos, input.At(pos + 2), i, View())
                  == ParseSegment(input, M_SOS, pos, old(View()))
      {
        var id := Less1(input.At(pos + 3 + 2 * i));
        if id > 2 {
          return false;
        }
        var b := input.At(pos + 4 + 2 * i);
        comp[id] := comp[id].(htDc := b / 16, htAc := b % 16);
        i := i + 1;
      }
      return true;
    }

    /** The `switch` on the marker. */
    method ProcessSegment(input: Input, marker: uint8, pos: nat) returns (ok: bool)
      requires Valid()
      modifies this, comp, quant, huffman
      ensures Valid() && Outcome(ok, View()) == ParseSegment(input, marker, pos, old(View()))
    {
      ok := true;
      if marker == M_DQT {
        ok := ProcessDqt(input, pos + 2, input.At16(pos) - 2);
      } else if marker == M_DHT {
        ProcessDht(input, pos + 2, input.At16(pos) - 2);
      } else if marker == M_SOF0 {
        ok := ProcessFrame(input, pos);
      } else if marker == M_DRI {
        restartInterval := input.At16(pos + 2);
      } else if marker == M_SOS {
        ok := ProcessScan(input, pos);
      } else if Refused(marker) {
        ok := false;
      }
    }

    method ParseJpeg(input: Input) returns (ok: bool)
      requires Valid()
      modifies this, comp, quant, huffman
      ensures Valid() && Outcome(ok, View()) == Parse(input, old(View()))
    {
      hide ParseSegment;
      var len := |input.bytes|;
      if len < 2 || input.bytes[0] != 0xff || input.bytes[1] != M_SOI {
        return false;
      }
      var pos, sos := 2, false;
      while !sos
        invariant Valid() && 2 <= pos <= len
        invariant !sos ==> ParseFrom(input, pos, View()) == Parse(input, old(View()))
        invariant sos ==> Outcome(true, View().(data := pos, dataLen := len - pos)) == Parse(input, old(View()))
        decreases !sos, len - pos
      {
        ghost var from := pos;
        while pos < len && input.bytes[pos] == 0xff
          invariant from <= pos <= len && SkipFill(input.bytes, pos) == SkipFill(input.bytes, from)
        {
          pos := pos + 1;
        }
        if !(pos + 2 < len) {
          return false;
        }
        var marker := input.bytes[pos];
        pos := pos + 1;
        var segLen := input.At16(pos);
        if !(pos + segLen < len) {
          return false;
        }
        var good := ProcessSegment(input, marker, pos);
        if !good {
          return false;
        }
        sos := marker == M_SOS;
        pos := pos + segLen;
      }
      data := pos;
      dataLen := len - pos;
      return true;
    }
  }
}
