/** The 2048-byte table image of `set_huffman_tables` (src/jpeg_dec_main.c), and decoding from it
    by the DECODE procedure of section F.2.2.3 of ITU-T T.81.

    The image holds four tables. Of table i, bytes 64 i on are sixteen little-endian MINCODE
    entries, bytes 64 i + 32 on sixteen VALPTR entries, and bytes 1024 + 256 i on its values. */
module HuffmanImage {
  import opened CTypes
  import opened HuffmanCode

  /** A Huffman table of a JPEG file: how many codes of each length, and the values in code order. */
  datatype Table = Table(counts: Counts, values: seq<uint8>)

  /** The tables a decoder may be given: section B.2.4.2 of ITU-T T.81 allows at most 256 codes. */
  predicate Sized(t: Table) {
    CodeCount(t.counts) <= 256 && CodeCount(t.counts) <= |t.values|
  }

  /** The tables whose values `set_huffman_tables` copies without leaving the image, which is the
      more the lower the slot: 1024, 768, 512 and 256 codes. */
  predicate InBuffer(i: nat, t: Table) {
    i < 4 && CodeCount(t.counts) <= 256 * (4 - i) && CodeCount(t.counts) <= |t.values|
  }

  type Image = b: seq<uint8> | |b| == 2048 witness seq(2048, _ => 0)

  function MinCode(b: Image, i: nat, j: nat): uint16
    requires i < 4 && j < 16
  {
    var low: int, high: int := b[64 * i + 2 * j], b[64 * i + 2 * j + 1];
    low + 0x100 * high
  }

  function ValPtr(b: Image, i: nat, j: nat): uint8
    requires i < 4 && j < 16
  {
    b[64 * i + 32 + j]
  }

  function ValueAt(b: Image, i: nat, v: nat): uint8
    requires i < 4 && v < 256
  {
    b[1024 + 256 * i + v]
  }

  /** The greatest index of a length that has codes, 0 if none has. */
  function LastUsed(counts: Counts, j: nat): (r: nat)
    requires j <= 16
    ensures r < 16 && (r > 0 ==> counts[r] > 0)
    ensures forall m | r < m < j :: counts[m] == 0
  {
    if j == 0 then 0 else if counts[j - 1] != 0 then j - 1 else LastUsed(counts, j - 1)
  }

  /** The MINCODE entry of length j + 1: its first code, or 0xffff past the last length in use. */
  function MinCodeEntry(counts: Counts, j: nat): uint16
    requires j < 16
  {
    if j <= LastUsed(counts, 16) then FirstCode(counts, j) % 0x1_0000 else 0xffff
  }

  /** Region i of the image describes table t, as far as it has room for values. */
  predicate Describes(b: Image, i: nat, t: Table)
    requires i < 4 && CodeCount(t.counts) <= |t.values|
  {
    && (forall j | 0 <= j < 16 :: MinCode(b, i, j) == MinCodeEntry(t.counts, j))
    && (forall j | 0 <= j < 16 :: ValPtr(b, i, j) == Before(t.counts, j) % 0x100)
    && (forall v | 0 <= v < CodeCount(t.counts) && v < 256 :: ValueAt(b, i, v) == t.values[v])
  }

  lemma MinCodeInBytes(b: Image, i: nat, counts: Counts, j: nat)
    requires i < 4 && j < 16
    ensures MinCode(b, i, j) == MinCodeEntry(counts, j) <==>
              if j <= LastUsed(counts, 16) then
                && b[64 * i + 2 * j] == FirstCode(counts, j) % 0x100
                && b[64 * i + 2 * j + 1] == FirstCode(counts, j) / 0x100 % 0x100
              else b[64 * i + 2 * j] == 0xff && b[64 * i + 2 * j + 1] == 0xff
  {
    hide FirstCode, LastUsed;
    LowHigh(FirstCode(counts, j));
  }

  /** Byte by byte, as the decoder is given the image: VALPTR from 64 i + 32 on, MINCODE from 64 i
      on with the low byte first, the values from 1024 + 256 i on. */
  predicate StoredInBytes(b: seq<uint8>, i: nat, t: Table)
    requires |b| == 2048 && i < 4 && CodeCount(t.counts) <= |t.values|
  {
    && (forall j | 0 <= j < 16 :: b[64 * i + 32 + j] == Before(t.counts, j) % 0x100)
    && (forall j | 0 <= j <= LastUsed(t.counts, 16) ::
          && b[64 * i + 2 * j] == FirstCode(t.counts, j) % 0x100
          && b[64 * i + 2 * j + 1] == FirstCode(t.counts, j) / 0x100 % 0x100)
    && (forall j | LastUsed(t.counts, 16) < j < 16 :: b[64 * i + 2 * j] == 0xff && b[64 * i + 2 * j + 1] == 0xff)
    && (forall v | 0 <= v < CodeCount(t.counts) && v < 256 :: b[1024 + 256 * i + v] == t.values[v])
  }

  lemma DescribesInBytes(b: Image, i: nat, t: Table)
    requires i < 4 && CodeCount(t.counts) <= |t.values| && Describes(b, i, t)
    ensures StoredInBytes(b, i, t)
  {
    hide FirstCode, LastUsed, MinCodeEntry, MinCode;
    forall j | 0 <= j <= LastUsed(t.counts, 16)
      ensures b[64 * i + 2 * j] == FirstCode(t.counts, j) % 0x100
      ensures b[64 * i + 2 * j + 1] == FirstCode(t.counts, j) / 0x100 % 0x100
    {
      MinCodeInBytes(b, i, t.counts, j);
    }
    forall j | LastUsed(t.counts, 16) < j < 16 ensures b[64 * i + 2 * j] == 0xff && b[64 * i + 2 * j + 1] == 0xff {
      MinCodeInBytes(b, i, t.counts, j);
    }
    forall j | 0 <= j < 16 ensures b[64 * i + 32 + j] == Before(t.counts, j) % 0x100 {
      assert ValPtr(b, i, j) == Before(t.counts, j) % 0x100;
    }
    forall v | 0 <= v < CodeCount(t.counts) && v < 256 ensures b[1024 + 256 * i + v] == t.values[v] {
      assert ValueAt(b, i, v) == t.values[v];
    }
  }

  // ---------- Building the image ----------

  /** Stores the low 16 bits of a value the way the little-endian processor does. */
  method Store16(buffer: array<uint8>, at: nat, x: nat)
    requires at + 1 < buffer.Length
    modifies buffer
    ensures Loads16(buffer[..], at, x % 0x1_0000)
    ensures forall k | 0 <= k < buffer.Length && k != at && k != at + 1 :: buffer[k] == old(buffer[k])
  {
    var low, high := x % 0x100, x / 0x100 % 0x100;
    LowHigh(x);
    buffer[at], buffer[at + 1] := low, high;
  }

  lemma LowHigh(x: nat)
    ensures x % 0x1_0000 % 0x100 == x % 0x100
    ensures x % 0x1_0000 / 0x100 == x / 0x100 % 0x100
  {
    var high, low := x / 0x100 % 0x100, x % 0x100;
    Word(x / 0x100 / 0x100, high, low);
    assert x == 0x100 * (0x100 * (x / 0x100 / 0x100) + high) + low;
  }

  lemma Word(rest: nat, high: uint8, low: uint8)
    ensures var x: nat := 0x100 * (0x100 * rest + high) + low;
            x % 0x1_0000 % 0x100 == low && x % 0x1_0000 / 0x100 == high
  {
    assert (0x100 * (0x100 * rest + high) + low) % 0x1_0000 == 0x100 * high + low;
  }

  predicate Loads16(b: seq<uint8>, at: nat, x: uint16)
    requires at + 1 < |b|
  {
    b[at] == x % 0x100 && b[at + 1] == x / 0x100
  }

  /** The first inner loop of `set_huffman_tables` and its `memcpy`. */
  method FillValues(buffer: array<uint8>, i: nat, t: Table) returns (last: nat)
    requires buffer.Length == 2048 && InBuffer(i, t)
    modifies buffer
    ensures last == LastUsed(t.counts, 16)
    ensures forall m | 0 <= m < 16 :: buffer[64 * i + 32 + m] == Before(t.counts, m) % 0x100
    ensures forall m | 0 <= m < CodeCount(t.counts) :: buffer[1024 + 256 * i + m] == t.values[m]
    ensures forall k | 0 <= k < 2048 && !Touches(i, CodeCount(t.counts), k) :: buffer[k] == old(buffer[k])
  {
    last := 0;
    var sum: nat := 0;
    for j := 0 to 16
      invariant sum == Before(t.counts, j) && last == LastUsed(t.counts, j)
      invariant forall m | 0 <= m < j :: buffer[64 * i + 32 + m] == Before(t.counts, m) % 0x100
      invariant forall k | 0 <= k < 2048 && !Touches(i, CodeCount(t.counts), k) :: buffer[k] == old(buffer[k])
    {
      buffer[64 * i + 32 + j] := sum % 0x100;
      sum := sum + t.counts[j];
      if t.counts[j] != 0 {
        last := j;
      }
    }
    for v := 0 to sum
      invariant forall m | 0 <= m < 16 :: buffer[64 * i + 32 + m] == Before(t.counts, m) % 0x100
      invariant forall m | 0 <= m < v :: buffer[1024 + 256 * i + m] == t.values[m]
      invariant forall k | 0 <= k < 2048 && !Touches(i, CodeCount(t.counts), k) :: buffer[k] == old(buffer[k])
    {
      buffer[1024 + 256 * i + v] := t.values[v];
    }
  }

  /** One turn of the outer loop of `set_huffman_tables`: table i's entries and values are
      stored, and nothing else is touched. */
  method FillTable(buffer: array<uint8>, i: nat, t: Table)
    requires buffer.Length == 2048 && InBuffer(i, t)
    modifies buffer
    ensures Describes(buffer[..], i, t)
    ensures forall j | 0 <= j < 16 :: buffer[64 * i + 32 + j] == Before(t.counts, j) % 0x100
    ensures forall j | 0 <= j <= LastUsed(t.counts, 16) ::
              && buffer[64 * i + 2 * j] == FirstCode(t.counts, j) % 0x100
              && buffer[64 * i + 2 * j + 1] == FirstCode(t.counts, j) / 0x100 % 0x100
    ensures forall j | LastUsed(t.counts, 16) < j < 16 ::
              buffer[64 * i + 2 * j] == 0xff && buffer[64 * i + 2 * j + 1] == 0xff
    ensures forall v | 0 <= v < CodeCount(t.counts) && v < 256 :: buffer[1024 + 256 * i + v] == t.values[v]
    ensures forall k | 0 <= k < 2048 && !Touches(i, CodeCount(t.counts), k) :: buffer[k] == old(buffer[k])
  {
    var last := FillValues(buffer, i, t);
    FillMinCodes(buffer, i, t, last);
    DescribesInBytes(buffer[..], i, t);
  }

  /** The two last inner loops of `set_huffman_tables`. */
  method FillMinCodes(buffer: array<uint8>, i: nat, t: Table, last: nat)
    requires buffer.Length == 2048 && i < 4 && last == LastUsed(t.counts, 16)
    modifies buffer
    ensures forall j | 0 <= j < 16 :: MinCode(buffer[..], i, j) == MinCodeEntry(t.counts, j)
    ensures forall k | 0 <= k < 2048 && !(64 * i <= k < 64 * i + 32) :: buffer[k] == old(buffer[k])
  {
    hide LastUsed;
    var sum: nat := 0;
    for j := 0 to last + 1
      invariant sum == FirstCode(t.counts, j)
      invariant forall m | 0 <= m < j :: Loads16(buffer[..], 64 * i + 2 * m, MinCodeEntry(t.counts, m))
      invariant forall k | 0 <= k < 2048 && !(64 * i <= k < 64 * i + 32) :: buffer[k] == old(buffer[k])
    {
      Store16(buffer, 64 * i + 2 * j, sum);
      sum := sum + t.counts[j];
      sum := 2 * sum;
    }
    for j := last + 1 to 16
      invariant forall m | 0 <= m < j :: Loads16(buffer[..], 64 * i + 2 * m, MinCodeEntry(t.counts, m))
      invariant forall k | 0 <= k < 2048 && !(64 * i <= k < 64 * i + 32) :: buffer[k] == old(buffer[k])
    {
      Store16(buffer, 64 * i + 2 * j, 0xffff);
    }
    forall j | 0 <= j < 16 ensures MinCode(buffer[..], i, j) == MinCodeEntry(t.counts, j) {
      assert Loads16(buffer[..], 64 * i + 2 * j, MinCodeEntry(t.counts, j));
    }
  }

  /** The bytes of the image that belong to table i. */
  predicate InRegion(i: nat, k: nat) {
    64 * i <= k < 64 * i + 48 || 1024 + 256 * i <= k < 1024 + 256 * i + 256
  }

  /** The bytes that storing n values and the entries of table i writes. */
  predicate Touches(i: nat, n: nat, k: nat) {
    64 * i <= k < 64 * i + 48 || 1024 + 256 * i <= k < 1024 + 256 * i + n
  }

  /** The regions of the four tables do not overlap, and lie inside the image. */
  lemma RegionsDisjoint(i: nat, j: nat, k: nat)
    requires i < 4 && j < 4 && InRegion(i, k)
    ensures k < 2048 && (InRegion(j, k) ==> i == j)
  {
  }

  /** A table stays in the image exactly up to the bound of its slot, and in its own region exactly
      up to 256 codes. */
  lemma TouchesIff(i: nat, n: nat)
    requires i < 4
    ensures n <= 256 * (4 - i) <==> forall k: nat | Touches(i, n, k) :: k < 2048
    ensures n <= 256 <==> forall k: nat | Touches(i, n, k) :: InRegion(i, k)
  {
    if n > 256 * (4 - i) {
      assert Touches(i, n, 2048);
    }
    if n > 256 {
      assert Touches(i, n, 1024 + 256 * i + 256);
    }
  }

  /** Storing a table leaves those of the lower slots described, however many codes it has. */
  lemma DescribesFramed(a: Image, b: Image, i: nat, n: nat, j: nat, t: Table)
    requires j < i < 4 && CodeCount(t.counts) <= |t.values| && Describes(a, j, t)
    requires forall k | 0 <= k < 2048 && !Touches(i, n, k) :: b[k] == a[k]
    ensures Describes(b, j, t)
  {
    forall m | 0 <= m < 16 ensures MinCode(b, j, m) == MinCode(a, j, m) && ValPtr(b, j, m) == ValPtr(a, j, m) {
      assert !Touches(i, n, 64 * j + 2 * m) && !Touches(i, n, 64 * j + 2 * m + 1) && !Touches(i, n, 64 * j + 32 + m);
    }
    forall v | 0 <= v < 256 ensures ValueAt(b, j, v) == ValueAt(a, j, v) {
      assert !Touches(i, n, 1024 + 256 * j + v);
    }
  }

  /** Byte k is written for none of the tables before slot i. */
  predicate Untouched(huffman: seq<Option<Table>>, i: nat, k: nat)
    requires i <= |huffman|
  {
    forall j | 0 <= j < i && huffman[j].Some? :: !Touches(j, CodeCount(huffman[j].value.counts), k)
  }

  /** The image describes every table present in the slots below n. */
  predicate DescribesUpTo(b: Image, n: nat, huffman: seq<Option<Table>>)
    requires n <= 4 <= |huffman|
  {
    forall i | 0 <= i < n && huffman[i].Some? ::
      InBuffer(i, huffman[i].value) && Describes(b, i, huffman[i].value)
  }

  /** `set_huffman_tables` up to its register writes: every table present is described, whatever
      the others are, and what is written for none of them stays zero. */
  method SetHuffmanTables(huffman: seq<Option<Table>>) returns (buffer: array<uint8>)
    requires |huffman| >= 4
    requires forall i | 0 <= i < 4 && huffman[i].Some? :: InBuffer(i, huffman[i].value)
    ensures buffer.Length == 2048
    ensures DescribesUpTo(buffer[..], 4, huffman)
    ensures forall i | 0 <= i < 4 && huffman[i].Some? ::
              InBuffer(i, huffman[i].value) && StoredInBytes(buffer[..], i, huffman[i].value)
    ensures forall k | 0 <= k < 2048 && Untouched(huffman, 4, k) :: buffer[k] == 0
  {
    buffer := new uint8[2048](_ => 0);
    for i := 0 to 4
      invariant DescribesUpTo(buffer[..], i, huffman)
      invariant forall k | 0 <= k < 2048 && Untouched(huffman, i, k) :: buffer[k] == 0
    {
      if huffman[i].Some? {
        ghost var before := buffer[..];
        FillTable(buffer, i, huffman[i].value);
        forall j | 0 <= j < i && huffman[j].Some?
          ensures InBuffer(j, huffman[j].value) && Describes(buffer[..], j, huffman[j].value)
        {
          DescribesFramed(before, buffer[..], i, CodeCount(huffman[i].value.counts), j, huffman[j].value);
        }
      }
      assert forall k | 0 <= k < 2048 && Untouched(huffman, i + 1, k) :: Untouched(huffman, i, k);
    }
    forall i | 0 <= i < 4 && huffman[i].Some?
      ensures InBuffer(i, huffman[i].value) && StoredInBytes(buffer[..], i, huffman[i].value)
    {
      DescribesInBytes(buffer[..], i, huffman[i].value);
    }
  }
}
