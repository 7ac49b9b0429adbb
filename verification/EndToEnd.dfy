/** From the bytes of a file to the decoder's table image: the part of `hw_decode_jpeg_main`
    (src/jpeg_dec_main.c) between `parse_jpeg` and the writing of the image. */
module EndToEnd {
  import opened CTypes
  import opened HuffmanImage
  import opened JpegFormat
  import opened JpegParser
  import HuffmanCode
  import HuffmanDecode
  import JpegMeaning
  import JpegReader
  import JpegRoundTrip

  /** The tables that a parsed input leaves in its slots. */
  ghost function TablesOf(input: Input): HuffmanTables {
    HeaderOf(input, Parse(input, Blank()).jpeg).huffman
  }

  /** The tables found stay in the image. */
  ghost predicate Loadable(input: Input) {
    forall i | 0 <= i < 4 && TablesOf(input)[i].Some? :: InBuffer(i, TablesOf(input)[i].value)
  }

  method LoadTables(input: Input) returns (ok: bool, image: array<uint8>)
    requires Parse(input, Blank()).ok ==> Loadable(input)
    ensures ok == Parse(input, Blank()).ok
    ensures ok ==> image.Length == 2048 && DescribesUpTo(image[..], 4, TablesOf(input))
    ensures ok ==> forall i | 0 <= i < 4 && TablesOf(input)[i].Some? ::
                     InBuffer(i, TablesOf(input)[i].value) && StoredInBytes(image[..], i, TablesOf(input)[i].value)
    ensures ok ==> forall k | 0 <= k < 2048 && Untouched(TablesOf(input), 4, k) :: image[k] == 0
  {
    hide Parse, Describes, InBuffer, HeaderOf, Untouched;
    var jpeg := new JpegReader.JpegT();
    image := new uint8[0];
    ok := jpeg.ParseJpeg(input);
    if ok {
      var slots := jpeg.huffman[..];
      var tables: HuffmanTables := seq(8, i requires 0 <= i < 8 => HuffmanAt(input, slots[i]));
      assert tables == TablesOf(input) by {
        TablesAre(input, Parse(input, Blank()).jpeg);
      }
      image := SetHuffmanTables(tables);
    }
  }

  lemma TablesAre(input: Input, j: Jpeg)
    ensures forall k | 0 <= k < 8 :: HeaderOf(input, j).huffman[k] == HuffmanAt(input, j.huffman[k])
  {
  }

  // ---------- Printed files ----------

  /** The parser accepts a printed file exactly when its quantization tables have 8 bits, its
      components are 1 to 3, and no other segment is an SOI, an EOI, a frame header but SOF0, or
      arithmetic conditioning. */
  lemma ParserAcceptsIff(f: File, beyond: nat -> uint8)
    requires GoodFile(f)
    ensures Parse(Input(Print(f), beyond), Blank()).ok <==>
              && (forall i | 0 <= i < |f.segments| ::
                    match f.segments[i].segment
                    case Dqt(quants) => forall k | 0 <= k < |quants| :: quants[k].precision == 0
                    case Sof0(_, _, _, comps) => forall k | 0 <= k < |comps| :: 1 <= comps[k].id <= 3
                    case Other(m, _) => m != 0xd8 && m != 0xd9 && (m <= 0xc0 || 0xd0 <= m || m == 0xc4 || m == 0xc8)
                    case _ => true)
              && forall k | 0 <= k < |f.comps| :: 1 <= f.comps[k].id <= 3
  {
    hide GoodFile, Parse, Meaning, HeaderOf;
    JpegRoundTrip.PrintedFileIsRead(f, beyond);
    JpegMeaning.AcceptedIff(f);
  }

  /** The last definition of each slot the decoder is given has at most 256 codes. */
  ghost predicate LastTablesSized(f: File) {
    var defs := JpegMeaning.HuffDefs(f.segments);
    forall n: nat | JpegMeaning.IsLast(defs, n) && defs[n].0 < 4 :: Sized(defs[n].1)
  }

  /** The parser leaves in a slot the last table the file defines for it. */
  lemma ParsedTable(f: File, beyond: nat -> uint8, n: nat)
    requires GoodFile(f) && Meaning(f).ok
    requires var defs := JpegMeaning.HuffDefs(f.segments); JpegMeaning.IsLast(defs, n) && defs[n].0 < 4
    ensures var (i, t) := JpegMeaning.HuffDefs(f.segments)[n]; TablesOf(Input(Print(f), beyond))[i] == Some(t)
  {
    hide GoodFile, JpegMeaning.HuffDefs, Parse, HeaderOf;
    JpegRoundTrip.PrintedFileIsRead(f, beyond);
    JpegMeaning.LastDefinitionWins(f, n, 0);
  }

  /** A file whose last tables have at most 256 codes is parsed, and its tables stay in the image. */
  lemma PrintedFileLoads(f: File, beyond: nat -> uint8)
    requires GoodFile(f) && Meaning(f).ok && LastTablesSized(f)
    ensures Parse(Input(Print(f), beyond), Blank()).ok && Loadable(Input(Print(f), beyond))
  {
    hide GoodFile, JpegMeaning.HuffDefs, JpegMeaning.IsLast, JpegMeaning.Undefined, Parse, HeaderOf;
    JpegRoundTrip.PrintedFileIsRead(f, beyond);
    var input, defs := Input(Print(f), beyond), JpegMeaning.HuffDefs(f.segments);
    forall i | 0 <= i < 4 && TablesOf(input)[i].Some? ensures InBuffer(i, TablesOf(input)[i].value) {
      JpegMeaning.LastDefinitionWins(f, 0, i);
      var n := JpegMeaning.LastExists(defs, i);
      ParsedTable(f, beyond, n);
    }
  }

  /** Decoding from region i inverts encoding with table t, for every sequence of symbols and
      whatever bits follow. */
  ghost predicate DecodesTable(b: Image, i: nat, t: Table)
    requires i < 4 && Sized(t)
  {
    forall ks, rest | HuffmanDecode.AreSymbols(t.counts, ks) ::
      HuffmanDecode.DecodeAll(b, i, HuffmanDecode.EncodeAll(t.counts, ks) + rest, |ks|)
      == Some(HuffmanDecode.ValuesOf(t, ks))
  }

  /** An image of the parsed tables decodes with the table that a file defines last for a slot,
      unless its code is over-full. */
  lemma PrintedFileDecodes(f: File, beyond: nat -> uint8, n: nat, b: Image)
    requires GoodFile(f) && Meaning(f).ok && DescribesUpTo(b, 4, TablesOf(Input(Print(f), beyond)))
    requires var defs := JpegMeaning.HuffDefs(f.segments);
             JpegMeaning.IsLast(defs, n) && defs[n].0 < 4 && Sized(defs[n].1) && HuffmanCode.Kraft(defs[n].1.counts)
    ensures var (i, t) := JpegMeaning.HuffDefs(f.segments)[n]; DecodesTable(b, i, t)
  {
    hide GoodFile, JpegMeaning.HuffDefs, Parse, HeaderOf, Describes, Sized, HuffmanCode.Kraft;
    var (i, t) := JpegMeaning.HuffDefs(f.segments)[n];
    ParsedTable(f, beyond, n);
    forall ks, rest | HuffmanDecode.AreSymbols(t.counts, ks)
      ensures HuffmanDecode.DecodeAll(b, i, HuffmanDecode.EncodeAll(t.counts, ks) + rest, |ks|)
              == Some(HuffmanDecode.ValuesOf(t, ks))
    {
      HuffmanDecode.StreamRoundTrip(b, i, t, ks, rest);
    }
  }

  /** For every file that can be printed, whatever stands in memory behind it: parsing it and
      building the image gives an image from which every table the file defines last for its slot
      decodes, unless its code is over-full. */
  method LoadPrintedTables(ghost f: File, input: Input) returns (image: array<uint8>)
    requires GoodFile(f) && Meaning(f).ok && LastTablesSized(f) && input.bytes == Print(f)
    ensures image.Length == 2048
    ensures var defs := JpegMeaning.HuffDefs(f.segments);
            forall n: nat | JpegMeaning.IsLast(defs, n) && defs[n].0 < 4 && HuffmanCode.Kraft(defs[n].1.counts) ::
              Sized(defs[n].1) && DecodesTable(image[..], defs[n].0, defs[n].1)
  {
    hide GoodFile, JpegMeaning.HuffDefs, Parse, HeaderOf, Describes, DecodesTable, DescribesUpTo;
    ghost var defs := JpegMeaning.HuffDefs(f.segments);
    PrintedFileLoads(f, input.beyond);
    var ok;
    ok, image := LoadTables(input);
    forall n: nat | JpegMeaning.IsLast(defs, n) && defs[n].0 < 4 && HuffmanCode.Kraft(defs[n].1.counts)
      ensures Sized(defs[n].1) && DecodesTable(image[..], defs[n].0, defs[n].1)
    {
      PrintedFileDecodes(f, input.beyond, n, image[..]);
    }
  }
}
