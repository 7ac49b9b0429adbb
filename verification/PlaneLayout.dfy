/** Frame sizes: where `init_display` (src/display.c) puts the three planes of a buffer, and what
    `set_size` and `hw_decode_jpeg` (src/jpeg_dec_main.c) tell the decoder to write there.
    Dimensions are the 16-bit ones of a `jpeg_t`; the layout is computed in 32 bits, unsigned. */
module PlaneLayout {
  import opened CTypes
  import Bits

  function Wrapped(x: nat): uint32 {
    x % WRAP
  }

  /** `x & 32`. */
  predicate HasBit5(x: nat) {
    x / 32 % 2 == 1
  }

  /** `x & PAGE_SIZE`. */
  predicate HasPageBit(x: nat) {
    x / PAGE_SIZE % 2 == 1
  }

  /** `(x + 32) & ~32`, which the display code uses as if it rounded up to a multiple of 32. */
  function Bump32(x: uint32): nat {
    Bits.AndNot(Wrapped(x + 32), 32)
  }

  /** `(x + PAGE_SIZE) & ~PAGE_SIZE`. */
  function BumpPage(x: uint32): nat {
    Bits.AndNot(Wrapped(x + PAGE_SIZE), PAGE_SIZE)
  }

  /** `(x + 31) & ~31`. */
  function RoundUp32(x: nat): nat {
    Bits.AndNot(x + 31, 31)
  }

  /** What the two maskings give where nothing wraps. */
  function Raised(x: nat): nat {
    if HasBit5(x) then x + 32 else x
  }

  function PageRaised(x: nat): nat {
    if HasPageBit(x) then x + PAGE_SIZE else x
  }

  /** Neither masking rounds up: the sum stands where the bit was set, and x where it was not. */
  lemma BumpValues(x: uint32)
    ensures x + 32 < WRAP ==> Bump32(x) == Raised(x)
    ensures x + PAGE_SIZE < WRAP ==> BumpPage(x) == PageRaised(x)
  {
    hide Bits.AndNot, Bits.HasBit, Bits.Pow2, HasBit5, HasPageBit, Wrapped;
    Bits.Pow2Values();
    Bits.AddThenClear(x, 5);
    Bits.AddThenClear(x, 12);
    BitsAre(x);
    WrappedIs(x + 32);
    WrappedIs(x + PAGE_SIZE);
  }

  lemma BitsAre(x: nat)
    ensures HasBit5(x) <==> Bits.HasBit(x, 5)
    ensures HasPageBit(x) <==> Bits.HasBit(x, 12)
  {
    hide Bits.HasBit;
    Bits.Bit5And12(x);
  }

  lemma WrappedIs(x: nat)
    ensures x < WRAP ==> Wrapped(x) == x
  {
  }

  /** Past that, the page masking wraps to less than a page. */
  lemma BumpPageWraps(x: uint32)
    requires x + PAGE_SIZE >= WRAP
    ensures BumpPage(x) < PAGE_SIZE
  {
    hide Bits.AndNot, Bits.HasBit, Bits.Pow2;
    Bits.Pow2Values();
    Bits.ClearsBit(Wrapped(x + PAGE_SIZE), 12);
  }

  /** This one does: it is the least multiple of 32 that is at least x. */
  lemma RoundUp32Is(x: nat)
    ensures RoundUp32(x) == (x + 31) / 32 * 32
  {
    Bits.ClearsLow5And12(x + 31);
  }

  lemma ProductBound(a: nat, b: nat, c: nat, d: nat)
    requires a <= c && b <= d
    ensures a * b <= c * d
  {
    assert a * b <= c * b <= c * d;
  }

  // ---------- The three planes of a display buffer ----------

  datatype Format = Yuv420 | Yuv422 | Yuv444

  function PitchDivisor(f: Format): nat {
    match f case Yuv420 => 2 case Yuv422 => 2 case Yuv444 => 1
  }

  /** How many luma rows share one chroma row in the DRM format of that name. */
  function RowDivisor(f: Format): nat {
    match f case Yuv420 => 2 case Yuv422 => 1 case Yuv444 => 1
  }

  /** A luma size divided by `subsampling_divisor`. */
  function Share(size: nat, f: Format): nat {
    match f case Yuv420 => size / 4 case Yuv422 => size / 2 case Yuv444 => size
  }

  datatype Layout = Layout(uOffset: nat, vOffset: nat, uSize: nat, bufferSize: nat)

  /** The layout as computed, every sum in 32 bits. */
  function LayoutOfArea(area: uint32, f: Format): Layout {
    var luma := BumpPage(area);
    var u := BumpPage(Wrapped(Share(luma, f)));
    var v := Wrapped(luma + u);
    Layout(luma, v, u, BumpPage(Wrapped(v + u)))
  }

  function LayoutOf(width: uint16, height: uint16, f: Format): Layout {
    LayoutOfArea(Wrapped(Bump32(width) * Bump32(height)), f)
  }

  /** The layout as meant, on unbounded numbers. */
  function MeantOfArea(area: nat, f: Format): Layout {
    var luma := PageRaised(area);
    var u := PageRaised(Share(luma, f));
    Layout(luma, luma + u, u, PageRaised(luma + u + u))
  }

  function RaisedArea(width: nat, height: nat): nat {
    Raised(width) * Raised(height)
  }

  function MeantLayout(width: nat, height: nat, f: Format): Layout {
    MeantOfArea(RaisedArea(width, height), f)
  }

  /** No sum the layout of an area is computed with leaves 32 bits. */
  predicate NoOverflowOfArea(area: nat, f: Format) {
    var luma := PageRaised(area);
    var u := PageRaised(Share(luma, f));
    && area + PAGE_SIZE < WRAP
    && Share(luma, f) + PAGE_SIZE < WRAP
    && luma + u < WRAP
    && luma + u + u + PAGE_SIZE < WRAP
  }

  predicate NoOverflow(width: uint16, height: uint16, f: Format) {
    NoOverflowOfArea(RaisedArea(width, height), f)
  }

  lemma PageRaisedBounds(x: nat)
    ensures x <= PageRaised(x) <= x + PAGE_SIZE
  {
  }

  lemma BumpPageExactIff(x: nat)
    ensures x + PAGE_SIZE < WRAP <==> BumpPage(Wrapped(x)) == PageRaised(x)
  {
    hide BumpPage, PageRaised, Wrapped;
    PageRaisedBounds(x);
    WrappedIs(x);
    if x + PAGE_SIZE < WRAP {
      BumpValues(x);
    } else if x < WRAP {
      BumpPageWraps(x);
    } else {
      BumpPageBelow(Wrapped(x));
    }
  }

  lemma BumpPageBelow(x: uint32)
    ensures BumpPage(x) < WRAP
  {
    hide Bits.AndNot, Bits.HasBit, Bits.Pow2;
    Bits.Pow2Values();
    Bits.ClearsBit(Wrapped(x + PAGE_SIZE), 12);
  }

  /** The computed layout of an area is the one meant exactly when no sum leaves 32 bits. */
  lemma AreaExactIff(area: nat, f: Format)
    ensures LayoutOfArea(Wrapped(area), f) == MeantOfArea(area, f) <==> NoOverflowOfArea(area, f)
  {
    hide BumpPage, PageRaised, Share, Wrapped;
    BumpPageExactIff(area);
    var luma := PageRaised(area);
    var u := PageRaised(Share(luma, f));
    BumpPageExactIff(Share(luma, f));
    BumpPageExactIff(luma + u + u);
    WrappedSums(luma, u);
  }

  lemma WrappedSums(luma: nat, u: nat)
    ensures Wrapped(luma + u) == luma + u <==> luma + u < WRAP
    ensures Wrapped(Wrapped(luma + u) + u) == Wrapped(luma + u + u)
  {
  }

  /** Without a wrap, and only then, the planes lie where they are meant to. */
  lemma LayoutExactIff(width: uint16, height: uint16, f: Format)
    ensures LayoutOf(width, height, f) == MeantLayout(width, height, f) <==> NoOverflow(width, height, f)
  {
    hide Bump32, LayoutOfArea, MeantOfArea, NoOverflowOfArea, Raised;
    BumpValues(width);
    BumpValues(height);
    AreaExactIff(RaisedArea(width, height), f);
  }

  /** The usual limits of each format keep within 32 bits. */
  lemma UsualSizesFit(width: uint16, height: uint16, f: Format)
    requires var limit := match f case Yuv420 => 53000 case Yuv422 => 46000 case Yuv444 => 37000;
             width <= limit && height <= limit
    ensures NoOverflow(width, height, f)
  {
    match f
    case Yuv420 => ProductBound(Raised(width), Raised(height), 53032, 53032);
    case Yuv422 => ProductBound(Raised(width), Raised(height), 46032, 46032);
    case Yuv444 => ProductBound(Raised(width), Raised(height), 37032, 37032);
  }

  lemma Quarter(a: nat, b: nat, c: nat, d: nat)
    requires 2 * a <= c && 2 * b <= d
    ensures 4 * (a * b) <= c * d
  {
    ProductBound(2 * a, 2 * b, c, d);
    assert (2 * a) * (2 * b) == 4 * (a * b);
  }

  lemma Half(a: nat, c: nat, d: nat)
    requires 2 * a <= c
    ensures 2 * (a * d) <= c * d
  {
    ProductBound(2 * a, d, c, d);
    assert (2 * a) * d == 2 * (a * d);
  }

  /** The samples of a chroma plane: its pitch times its rows. */
  function ChromaPlane(width: nat, height: nat, f: Format): nat {
    (width / PitchDivisor(f)) * (height / RowDivisor(f))
  }

  lemma ChromaShare(width: nat, height: nat, area: nat, f: Format)
    requires width * height <= area
    ensures ChromaPlane(width, height, f) <= Share(area, f)
  {
    match f {
      case Yuv420 => Quarter(width / 2, height / 2, width, height);
      case Yuv422 =>
        Half(width / 2, width, height);
        assert height / 1 == height;
      case Yuv444 => assert width / 1 == width && height / 1 == height;
    }
  }

  /** The Y, U and V planes, each its pitch times its rows, lie one after the other without
      overlap and inside the buffer, for any dimensions whose layout does not overflow. */
  lemma PlanesFit(width: uint16, height: uint16, f: Format)
    requires NoOverflow(width, height, f)
    ensures var l := LayoutOf(width, height, f);
            && width * height <= l.uOffset
            && l.uOffset + ChromaPlane(width, height, f) <= l.vOffset
            && l.vOffset + ChromaPlane(width, height, f) <= l.bufferSize
  {
    hide NoOverflowOfArea, LayoutOf, ChromaPlane, Share, HasPageBit, HasBit5;
    LayoutExactIff(width, height, f);
    ProductBound(width, height, Raised(width), Raised(height));
    var luma := PageRaised(RaisedArea(width, height));
    ChromaShare(width, height, luma, f);
  }

  // ---------- What the decoder writes ----------

  /** `get_format`, of sampling factors below 16: the two factors in one byte, 0 if unsupported. */
  function GetFormat(sampH: uint8, sampV: uint8): uint8
    requires sampH < 16 && sampV < 16
  {
    var fmt := 16 * sampH + sampV;
    if fmt == 0x11 || fmt == 0x21 || fmt == 0x12 || fmt == 0x22 then fmt else 0
  }

  /** The formats `init_display` has divisors for. */
  function FormatOf(fmt: uint8): Option<Format> {
    if fmt == 0x22 then Some(Yuv420)
    else if fmt == 0x21 then Some(Yuv422)
    else if fmt == 0x11 then Some(Yuv444)
    else None
  }

  /** A frame that sets up the display has sampling factors 1 or 2; of these the display lays out
      planes for all but vertical subsampling alone, which gets past `get_format` all the same. */
  lemma FormatAcceptedIff(sampH: uint8, sampV: uint8)
    requires sampH < 16 && sampV < 16
    ensures GetFormat(sampH, sampV) != 0 <==> 1 <= sampH <= 2 && 1 <= sampV <= 2
    ensures GetFormat(sampH, sampV) != 0 && FormatOf(GetFormat(sampH, sampV)) == None <==> sampH == 1 && sampV == 2
  {
  }

  /** The format a frame is shown in has its sampling factors: the chroma planes are narrower and
      lower by them, and so many times smaller than the luma plane. */
  lemma FormatFollowsSampling(sampH: uint8, sampV: uint8, size: nat, width: nat, height: nat)
    requires sampH < 16 && sampV < 16 && FormatOf(GetFormat(sampH, sampV)).Some?
    ensures var f := FormatOf(GetFormat(sampH, sampV)).value;
            && sampH > 0 && sampV > 0 && PitchDivisor(f) == sampH && RowDivisor(f) == sampV
            && Share(size, f) == size / (sampH * sampV)
            && ChromaPlane(width, height, f) == (width / sampH) * (height / sampV)
  {
    FormatAcceptedIff(sampH, sampV);
    assert size / 1 == size;
  }

  /** The layout of a frame in figures: where nothing overflows, each dimension and each size is
      itself where its bit is clear, and 32 or a page more where it is set. */
  lemma LayoutInFigures(width: uint16, height: uint16, sampH: uint8, sampV: uint8)
    requires sampH < 16 && sampV < 16 && FormatOf(GetFormat(sampH, sampV)).Some?
    requires NoOverflow(width, height, FormatOf(GetFormat(sampH, sampV)).value)
    ensures var l := LayoutOf(width, height, FormatOf(GetFormat(sampH, sampV)).value);
            var w := if width / 32 % 2 == 1 then width + 32 else width;
            var h := if height / 32 % 2 == 1 then height + 32 else height;
            && sampH > 0 && sampV > 0
            && l.uOffset == w * h + (if w * h / 4096 % 2 == 1 then 4096 else 0)
            && l.uSize == (var share := l.uOffset / (sampH * sampV);
                           share + if share / 4096 % 2 == 1 then 4096 else 0)
            && l.vOffset == l.uOffset + l.uSize
            && l.bufferSize == (var total := l.vOffset + l.uSize;
                                total + if total / 4096 % 2 == 1 then 4096 else 0)
  {
    var f := FormatOf(GetFormat(sampH, sampV)).value;
    FormatFollowsSampling(sampH, sampV, PageRaised(RaisedArea(width, height)), width, height);
    LayoutExactIff(width, height, f);
    hide LayoutOf, NoOverflow, Share, GetFormat, FormatOf;
  }

  lemma HdArea()
    ensures RaisedArea(1280, 720) == 921600 && PageRaised(921600) == 925696
  {
    assert Raised(1280) == 1280 && Raised(720) == 720;
    assert HasPageBit(921600);
  }

  lemma HdShares()
    ensures PageRaised(231424) == 231424 && PageRaised(925696 / 2) == 466944
    ensures PageRaised(1388544) == 1392640 && PageRaised(1859584) == 1859584
  {
  }

  /** At 1280 by 720 in 4:2:0 and in 4:2:2. */
  lemma HdLayouts()
    ensures LayoutOf(1280, 720, Yuv420) == Layout(925696, 1157120, 231424, 1392640)
    ensures LayoutOf(1280, 720, Yuv422) == Layout(925696, 1392640, 466944, 1859584)
  {
    hide LayoutOf, NoOverflow, RaisedArea, PageRaised;
    UsualSizesFit(1280, 720, Yuv420);
    UsualSizesFit(1280, 720, Yuv422);
    LayoutExactIff(1280, 720, Yuv420);
    LayoutExactIff(1280, 720, Yuv422);
    HdArea();
    HdShares();
  }

  /** The grid `set_size` writes to the decoder, as the number of its last row or column, for the
      sampling factors that `get_format` accepts. */
  function LastMcu(size: nat, sampling: nat): nat
    requires size > 0 && 1 <= sampling <= 2
  {
    if sampling == 1 then (size - 1) / 8 else (size - 1) / 16
  }

  /** Section A.2.4 of ITU-T T.81: n rows or columns of MCUs complete the image exactly when
      there are at least as many as `set_size` asks for. */
  lemma McuGridIsLeast(size: nat, sampling: nat, n: nat)
    requires size > 0 && 1 <= sampling <= 2
    ensures n * (8 * sampling) >= size <==> n >= LastMcu(size, sampling) + 1
  {
    if sampling == 1 {
      assert n * (8 * sampling) == n * 8;
    } else {
      assert n * (8 * sampling) == n * 16;
    }
  }

  /** The area `line_stride` by rows that `hw_decode_jpeg` computes `output_size` as. */
  function OutputArea(width: nat, height: nat): nat {
    RoundUp32(width) * RoundUp32(height)
  }

  /** The value of `output_size`, an `int`. */
  function OutputSize(width: nat, height: nat): int {
    AsInt32(OutputArea(width, height))
  }

  /** One side of the luma samples the decoder writes: whole MCUs. */
  function PaddedSide(size: nat, sampling: nat): nat
    requires size > 0 && 1 <= sampling <= 2
  {
    (LastMcu(size, sampling) + 1) * if sampling == 1 then 8 else 16
  }

  lemma PaddedSideFits(size: nat, sampling: nat)
    requires size > 0 && 1 <= sampling <= 2
    ensures size <= PaddedSide(size, sampling) <= RoundUp32(size)
  {
    RoundUp32Is(size);
    if sampling == 1 {
      assert (size - 1) / 8 <= (size + 31) / 32 * 4 - 1;
    } else {
      assert (size - 1) / 16 <= (size + 31) / 32 * 2 - 1;
    }
  }

  lemma OutputAreaBound(width: uint16, height: uint16)
    ensures OutputArea(width, height) <= WRAP
  {
    RoundUp32Is(width);
    RoundUp32Is(height);
    ProductBound(RoundUp32(width), RoundUp32(height), 65536, 65536);
  }

  /** The MCUs the decoder is told to write cover the image, and `output_size` has room for them,
      exactly when it has not overflowed. */
  lemma DecoderOutputFitsIff(width: uint16, height: uint16, sampH: nat, sampV: nat)
    requires width > 0 && height > 0
    requires 1 <= sampH <= 2 && 1 <= sampV <= 2
    ensures width * height <= PaddedSide(width, sampH) * PaddedSide(height, sampV)
    ensures PaddedSide(width, sampH) * PaddedSide(height, sampV) <= OutputSize(width, height)
            <==> OutputArea(width, height) <= INT_MAX
  {
    hide PaddedSide, RoundUp32;
    PaddedSideFits(width, sampH);
    PaddedSideFits(height, sampV);
    ProductBound(1, 1, PaddedSide(width, sampH), PaddedSide(height, sampV));
    ProductBound(width, height, PaddedSide(width, sampH), PaddedSide(height, sampV));
    ProductBound(PaddedSide(width, sampH), PaddedSide(height, sampV), RoundUp32(width), RoundUp32(height));
    OutputAreaBound(width, height);
    OverflowIsNotPositive(OutputArea(width, height));
  }

  lemma OverflowIsNotPositive(area: nat)
    requires area <= WRAP
    ensures area <= INT_MAX ==> AsInt32(area) == area
    ensures area > INT_MAX ==> AsInt32(area) <= 0
  {
  }

  // ---------- The decoder's output against the display's luma plane ----------

  /** The dimensions for which the display's rounding is at least the decoder's. */
  predicate DimensionFits(size: nat) {
    size % 32 == 0 || HasBit5(size)
  }

  /** By how much the display's rounding of a dimension exceeds the decoder's. */
  function Margin(size: nat): int {
    if HasBit5(size) then (if size % 32 == 0 then 32 else size % 32)
    else if size % 32 == 0 then 0
    else size % 32 - 32
  }

  lemma MarginIs(size: nat)
    ensures Raised(size) == RoundUp32(size) + Margin(size)
  {
    RoundUp32Is(size);
    assert size == size / 32 * 32 + size % 32;
    assert (size + 31) / 32 == if size % 32 == 0 then size / 32 else size / 32 + 1;
  }

  lemma DimensionFitsIff(size: uint16)
    ensures DimensionFits(size) <==> RoundUp32(size) <= Bump32(size)
  {
    hide RoundUp32, Bump32;
    BumpValues(size);
    MarginIs(size);
  }

  /** The page the display adds to an area, if it does. */
  function PageSlack(area: nat): nat {
    if HasPageBit(area) then PAGE_SIZE else 0
  }

  lemma LumaPlane(width: uint16, height: uint16, f: Format)
    requires NoOverflow(width, height, f)
    ensures LayoutOf(width, height, f).uOffset == RaisedArea(width, height) + PageSlack(RaisedArea(width, height))
  {
    hide LayoutOf, NoOverflowOfArea, RaisedArea, HasPageBit;
    LayoutExactIff(width, height, f);
  }

  lemma Expand(a: int, b: int, c: int, d: int)
    ensures (a + b) * (c + d) == a * c + (a * d + c * b + b * d)
  {
  }

  /** The decoder's area fits before the U plane exactly when what the two dimensions lack, each
      along the other, is made up by what they have to spare and the page added to the area. */
  lemma OutputFitsIff(width: uint16, height: uint16, f: Format)
    requires NoOverflow(width, height, f)
    ensures OutputArea(width, height) <= LayoutOf(width, height, f).uOffset
            <==> 0 <= RoundUp32(width) * Margin(height) + RoundUp32(height) * Margin(width)
                      + Margin(width) * Margin(height) + PageSlack(RaisedArea(width, height))
  {
    hide RoundUp32, Margin, Raised, PageSlack, NoOverflow, LayoutOf;
    LumaPlane(width, height, f);
    MarginIs(width);
    MarginIs(height);
    Expand(RoundUp32(width), Margin(width), RoundUp32(height), Margin(height));
  }

  /** When both dimensions fit, the decoder's area ends before the U plane. */
  lemma OutputFitsLumaPlane(width: uint16, height: uint16, f: Format)
    requires NoOverflow(width, height, f)
    requires DimensionFits(width) && DimensionFits(height)
    ensures OutputArea(width, height) <= LayoutOf(width, height, f).uOffset
  {
    hide RoundUp32, NoOverflow, LayoutOf, PageSlack;
    LumaPlane(width, height, f);
    MarginIs(width);
    MarginIs(height);
    ProductBound(RoundUp32(width), RoundUp32(height), Raised(width), Raised(height));
  }

  /** Whether `pad` rows more than the image has, at a stride that is its width, fit in the image's
      rows at the width the display raises it to. */
  lemma ExtraRows(width: nat, raised: nat, height: nat, pad: nat, slack: nat)
    requires raised == width || raised == width + 32
    ensures width * (height + pad) <= raised * height + slack
            <==> width * pad <= (if raised == width then 0 else 32 * height) + slack
  {
    assert width * (height + pad) == width * height + width * pad;
    assert (width + 32) * height == width * height + 32 * height;
  }

  /** For widths that are a multiple of 32, as video widths are: the decoder's area fits exactly
      when the height does, or the rows that are missing are made up by the 32 columns the
      display adds to a width with bit 5, and by a page where the area has its page bit. */
  lemma WholeWidthFitsIff(width: uint16, height: uint16, f: Format)
    requires NoOverflow(width, height, f) && width % 32 == 0
    ensures OutputArea(width, height) <= LayoutOf(width, height, f).uOffset
            <==> DimensionFits(height)
                 || width * (32 - height % 32)
                    <= (if HasBit5(width) then 32 * height else 0) + PageSlack(Raised(width) * height)
  {
    hide RoundUp32, NoOverflow, LayoutOf, PageSlack, HasBit5;
    MarginIs(width);
    MarginIs(height);
    if DimensionFits(height) {
      OutputFitsLumaPlane(width, height, f);
    } else {
      LumaPlane(width, height, f);
      ExtraRows(width, Raised(width), height, 32 - height % 32, PageSlack(Raised(width) * height));
    }
  }

  /** The heights whose MCU rows the display has room for. */
  predicate RowsFit(height: nat, sampling: nat)
    requires 1 <= sampling <= 2
  {
    height % (8 * sampling) == 0 || HasBit5(height)
  }

  lemma PaddedSideIs(size: nat, sampling: nat)
    requires size > 0 && 1 <= sampling <= 2
    ensures PaddedSide(size, sampling)
            == if size % (8 * sampling) == 0 then size else size + (8 * sampling - size % (8 * sampling))
  {
    if sampling == 1 {
      assert size == size / 8 * 8 + size % 8;
      assert (size - 1) / 8 == if size % 8 == 0 then size / 8 - 1 else size / 8;
    } else {
      assert size == size / 16 * 16 + size % 16;
      assert (size - 1) / 16 == if size % 16 == 0 then size / 16 - 1 else size / 16;
    }
  }

  /** The MCU rows the decoder writes, at its stride, end before the U plane under a weaker
      condition than the whole of its area. */
  lemma WrittenRowsFitIff(width: uint16, height: uint16, sampling: nat, f: Format)
    requires NoOverflow(width, height, f) && width % 32 == 0 && height > 0 && 1 <= sampling <= 2
    ensures RoundUp32(width) * PaddedSide(height, sampling) <= LayoutOf(width, height, f).uOffset
            <==> RowsFit(height, sampling)
                 || width * (8 * sampling - height % (8 * sampling))
                    <= (if HasBit5(width) then 32 * height else 0) + PageSlack(Raised(width) * height)
  {
    hide RoundUp32, NoOverflow, LayoutOf, PageSlack, HasBit5, PaddedSide;
    MarginIs(width);
    PaddedSideIs(height, sampling);
    LumaPlane(width, height, f);
    if RowsFit(height, sampling) {
      ProductBound(RoundUp32(width), PaddedSide(height, sampling), Raised(width), Raised(height));
    } else {
      var pad := 8 * sampling - height % (8 * sampling);
      ExtraRows(width, Raised(width), height, pad, PageSlack(Raised(width) * height));
    }
  }

  /** Full HD fits. At 1280 by 720 the decoder's area exceeds the luma plane, though the rows it
      writes do not. */
  lemma HdSizes(sampling: nat, f: Format)
    requires 1 <= sampling <= 2
    ensures OutputArea(1920, 1080) <= LayoutOf(1920, 1080, f).uOffset
    ensures OutputArea(1280, 720) > LayoutOf(1280, 720, f).uOffset
    ensures RoundUp32(1280) * PaddedSide(720, sampling) <= LayoutOf(1280, 720, f).uOffset
  {
    hide OutputArea, LayoutOf, RoundUp32, PaddedSide, NoOverflow;
    UsualSizesFit(1920, 1080, f);
    UsualSizesFit(1280, 720, f);
    WholeWidthFitsIff(1920, 1080, f);
    WholeWidthFitsIff(1280, 720, f);
    WrittenRowsFitIff(1280, 720, sampling, f);
  }
}
