/** What the reading of a file comes to: when it is accepted, and which tables it ends with. */
module JpegMeaning {
  import opened CTypes
  import HuffmanImage
  import opened JpegFormat

  // ---------- When a file is accepted ----------

  predicate Precise(quants: seq<QuantDef>) {
    forall i | 0 <= i < |quants| :: quants[i].precision == 0
  }

  predicate FrameIsYCbCr(comps: seq<FrameComp>) {
    forall i | 0 <= i < |comps| :: 1 <= comps[i].id <= 3
  }

  predicate ScanIsYCbCr(comps: seq<ScanComp>) {
    forall i | 0 <= i < |comps| :: 1 <= comps[i].id <= 3
  }

  /** A segment of an 8-bit, YCbCr, Huffman-coded baseline file. */
  predicate Supported(s: Segment) {
    match s
    case Dqt(quants) => Precise(quants)
    case Sof0(_, _, _, comps) => FrameIsYCbCr(comps)
    case Other(marker, _) => !Unsupported(marker)
    case _ => true
  }

  lemma {:induction false} QuantsAccepted(quants: seq<QuantDef>, h: Header)
    requires GoodQuants(quants)
    ensures TakeQuants(quants, h).ok <==> Precise(quants)
  {
    if quants == [] || quants[0].precision != 0 {
    } else {
      QuantsAccepted(quants[1..], h.(quant := h.quant[quants[0].slot := Some(quants[0].coeffs)]));
      assert forall i | 1 <= i < |quants| :: quants[i] == quants[1..][i - 1];
    }
  }

  lemma {:induction false} FrameAccepted(comps: seq<FrameComp>, h: Header)
    requires GoodFrameComps(comps)
    ensures TakeFrameComps(comps, h).ok <==> FrameIsYCbCr(comps)
    ensures TakeFrameComps(comps, h).header.quant == h.quant && TakeFrameComps(comps, h).header.huffman == h.huffman
    decreases |comps|
  {
    if comps == [] || !(1 <= comps[0].id <= 3) {
    } else {
      FrameAccepted(comps[1..], WithFrameComp(h, comps[0]));
      assert forall i | 1 <= i < |comps| :: comps[i] == comps[1..][i - 1];
    }
  }

  lemma {:induction false} ScanAccepted(comps: seq<ScanComp>, h: Header)
    requires GoodScanComps(comps)
    ensures TakeScanComps(comps, h).ok <==> ScanIsYCbCr(comps)
    ensures TakeScanComps(comps, h).header.quant == h.quant && TakeScanComps(comps, h).header.huffman == h.huffman
    decreases |comps|
  {
    if comps == [] || !(1 <= comps[0].id <= 3) {
    } else {
      ScanAccepted(comps[1..], WithScanComp(h, comps[0]));
      assert forall i | 1 <= i < |comps| :: comps[i] == comps[1..][i - 1];
    }
  }

  lemma {:induction false} SegmentsAccepted(segments: seq<Filled>, h: Header)
    requires GoodSegments(segments)
    ensures TakeSegments(segments, h).ok <==> forall i | 0 <= i < |segments| :: Supported(segments[i].segment)
    decreases |segments|
  {
    hide GoodQuants, GoodHuffs, GoodFrameComps, Precise, FrameIsYCbCr, TakeQuants, TakeHuffs, TakeFrameComps;
    if segments == [] {
    } else {
      var s := segments[0].segment;
      assert GoodSegment(s);
      match s {
        case Dqt(quants) => QuantsAccepted(quants, h);
        case Sof0(bits, height, width, comps) =>
          FrameAccepted(comps, h.(bits := bits, width := width, height := height));
        case _ =>
      }
      assert TakeSegment(s, h).ok <==> Supported(s);
      SegmentsAccepted(segments[1..], TakeSegment(s, h).header);
      assert forall i | 1 <= i < |segments| :: segments[i] == segments[1..][i - 1];
    }
  }

  /** A file is accepted exactly when its quantization tables have 8 bits, its components are 1 to
      3, and it has no SOI, EOI, frame header but SOF0, or arithmetic conditioning among its other
      segments. */
  lemma AcceptedIff(f: File)
    requires GoodFile(f)
    ensures Meaning(f).ok <==>
              && (forall i | 0 <= i < |f.segments| ::
                    match f.segments[i].segment
                    case Dqt(quants) => forall k | 0 <= k < |quants| :: quants[k].precision == 0
                    case Sof0(_, _, _, comps) => forall k | 0 <= k < |comps| :: 1 <= comps[k].id <= 3
                    case Other(m, _) => m != 0xd8 && m != 0xd9 && (m <= 0xc0 || 0xd0 <= m || m == 0xc4 || m == 0xc8)
                    case _ => true)
              && forall k | 0 <= k < |f.comps| :: 1 <= f.comps[k].id <= 3
  {
    Accepted(f);
  }

  lemma Accepted(f: File)
    requires GoodFile(f)
    ensures Meaning(f).ok <==>
            (forall i | 0 <= i < |f.segments| :: Supported(f.segments[i].segment)) && ScanIsYCbCr(f.comps)
  {
    hide Supported, GoodSegment;
    SegmentsAccepted(f.segments, NoHeader());
    ScanAccepted(f.comps, TakeSegments(f.segments, NoHeader()).header);
  }

  // ---------- Which definition of a table counts ----------

  /** Definitions of numbered slots, taken in order. */
  function Puts<T>(defs: seq<(nat, T)>, slots: seq<Option<T>>): (r: seq<Option<T>>)
    ensures |r| == |slots|
    decreases |defs|
  {
    if defs == [] then slots
    else Puts(defs[1..], if defs[0].0 < |slots| then slots[defs[0].0 := Some(defs[0].1)] else slots)
  }

  lemma {:induction false} PutsAppend<T>(a: seq<(nat, T)>, b: seq<(nat, T)>, slots: seq<Option<T>>)
    ensures Puts(a + b, slots) == Puts(b, Puts(a, slots))
    decreases |a|
  {
    if a == [] {
      assert a + b == b;
    } else {
      assert (a + b)[1..] == a[1..] + b;
      PutsAppend(a[1..], b, if a[0].0 < |slots| then slots[a[0].0 := Some(a[0].1)] else slots);
    }
  }

  /** Definition k is the last one of its slot. */
  predicate IsLast<T>(defs: seq<(nat, T)>, k: nat) {
    k < |defs| && forall m | k < m < |defs| :: defs[m].0 != defs[k].0
  }

  predicate Undefined<T>(defs: seq<(nat, T)>, slot: nat) {
    forall m | 0 <= m < |defs| :: defs[m].0 != slot
  }

  lemma {:induction false} PutsNone<T>(defs: seq<(nat, T)>, slots: seq<Option<T>>, slot: nat)
    requires slot < |slots| && Undefined(defs, slot)
    ensures Puts(defs, slots)[slot] == slots[slot]
    decreases |defs|
  {
    if defs == [] {
    } else {
      PutsNone(defs[1..], if defs[0].0 < |slots| then slots[defs[0].0 := Some(defs[0].1)] else slots, slot);
    }
  }

  lemma {:induction false} PutsLast<T>(defs: seq<(nat, T)>, slots: seq<Option<T>>, k: nat)
    requires IsLast(defs, k) && defs[k].0 < |slots|
    ensures Puts(defs, slots)[defs[k].0] == Some(defs[k].1)
    decreases |defs|
  {
    var slots' := if defs[0].0 < |slots| then slots[defs[0].0 := Some(defs[0].1)] else slots;
    if k == 0 {
      assert forall m | 0 <= m < |defs| - 1 :: defs[1..][m] == defs[m + 1];
      PutsNone(defs[1..], slots', defs[0].0);
    } else {
      PutsLast(defs[1..], slots', k - 1);
    }
  }

  lemma {:induction false} LastExists<T>(defs: seq<(nat, T)>, slot: nat) returns (k: nat)
    requires !Undefined(defs, slot)
    ensures IsLast(defs, k) && defs[k].0 == slot
    decreases |defs|
  {
    k := |defs| - 1;
    if defs[k].0 == slot {
    } else {
      var l := LastExists(defs[..k], slot);
      assert forall m | 0 <= m < k :: defs[..k][m] == defs[m];
      k := l;
    }
  }

  /** The quantization tables of a file, in order, with the slots they are for. */
  function QuantDefs(segments: seq<Filled>): seq<(nat, seq<uint8>)> {
    if segments == [] then []
    else (match segments[0].segment case Dqt(quants) => QuantPairs(quants) case _ => []) + QuantDefs(segments[1..])
  }

  function QuantPairs(quants: seq<QuantDef>): seq<(nat, seq<uint8>)> {
    seq(|quants|, i requires 0 <= i < |quants| => (quants[i].slot, quants[i].coeffs))
  }

  /** The Huffman tables of a file: even slots for DC, odd ones for AC. */
  function HuffDefs(segments: seq<Filled>): seq<(nat, HuffmanImage.Table)> {
    if segments == [] then []
    else (match segments[0].segment case Dht(huffs) => HuffPairs(huffs) case _ => []) + HuffDefs(segments[1..])
  }

  function HuffPairs(huffs: seq<HuffDef>): seq<(nat, HuffmanImage.Table)> {
    seq(|huffs|, i requires 0 <= i < |huffs| => (2 * huffs[i].slot + huffs[i].cls, huffs[i].table))
  }

  lemma {:induction false} QuantsPut(quants: seq<QuantDef>, h: Header)
    requires GoodQuants(quants) && TakeQuants(quants, h).ok
    ensures TakeQuants(quants, h).header == h.(quant := Puts(QuantPairs(quants), h.quant))
    decreases |quants|
  {
    if quants == [] {
    } else {
      assert QuantPairs(quants)[1..] == QuantPairs(quants[1..]);
      QuantsPut(quants[1..], h.(quant := h.quant[quants[0].slot := Some(quants[0].coeffs)]));
    }
  }

  lemma {:induction false} HuffsPut(huffs: seq<HuffDef>, h: Header)
    requires GoodHuffs(huffs)
    ensures TakeHuffs(huffs, h) == h.(huffman := Puts(HuffPairs(huffs), h.huffman))
    decreases |huffs|
  {
    if huffs == [] {
    } else {
      assert HuffPairs(huffs)[1..] == HuffPairs(huffs[1..]);
      HuffsPut(huffs[1..], h.(huffman := h.huffman[2 * huffs[0].slot + huffs[0].cls := Some(huffs[0].table)]));
    }
  }

  lemma SegmentPuts(s: Segment, h: Header)
    requires GoodSegment(s) && TakeSegment(s, h).ok
    ensures var r := TakeSegment(s, h).header;
            && r.quant == Puts((match s case Dqt(quants) => QuantPairs(quants) case _ => []), h.quant)
            && r.huffman == Puts((match s case Dht(huffs) => HuffPairs(huffs) case _ => []), h.huffman)
  {
    hide TakeQuants, TakeHuffs, TakeFrameComps, GoodQuants, GoodHuffs, GoodFrameComps, QuantPairs, HuffPairs;
    match s
    case Dqt(quants) => QuantsPut(quants, h);
    case Dht(huffs) => HuffsPut(huffs, h);
    case Sof0(bits, height, width, comps) =>
      FrameAccepted(comps, h.(bits := bits, width := width, height := height));
    case _ =>
  }

  lemma {:induction false} SegmentsPut(segments: seq<Filled>, h: Header)
    requires GoodSegments(segments) && TakeSegments(segments, h).ok
    ensures var r := TakeSegments(segments, h).header;
            r.quant == Puts(QuantDefs(segments), h.quant) && r.huffman == Puts(HuffDefs(segments), h.huffman)
    decreases |segments|
  {
    hide GoodSegment, TakeSegment, Puts, QuantPairs, HuffPairs;
    if segments == [] {
      PutsNothing(h.quant);
      PutsNothing(h.huffman);
    } else {
      var s := segments[0].segment;
      assert GoodSegment(s);
      SegmentPuts(s, h);
      SegmentsPut(segments[1..], TakeSegment(s, h).header);
      PutsAppend(match s case Dqt(quants) => QuantPairs(quants) case _ => [], QuantDefs(segments[1..]), h.quant);
      PutsAppend(match s case Dht(huffs) => HuffPairs(huffs) case _ => [], HuffDefs(segments[1..]), h.huffman);
    }
  }

  lemma PutsNothing<T>(slots: seq<Option<T>>)
    ensures Puts([], slots) == slots
  {
  }

  /** The last definition of a table slot is the one an accepted file ends with; a slot without
      one stays empty. */
  lemma LastDefinitionWins(f: File, k: nat, slot: nat)
    requires GoodFile(f) && Meaning(f).ok
    ensures var q, t := Meaning(f).header.quant, QuantDefs(f.segments);
            && (IsLast(t, k) && t[k].0 < 4 ==> q[t[k].0] == Some(t[k].1))
            && (slot < 4 && Undefined(t, slot) ==> q[slot] == None)
    ensures var h, t := Meaning(f).header.huffman, HuffDefs(f.segments);
            && (IsLast(t, k) && t[k].0 < 8 ==> h[t[k].0] == Some(t[k].1))
            && (slot < 8 && Undefined(t, slot) ==> h[slot] == None)
  {
    hide GoodSegment, Puts, QuantDefs, HuffDefs, IsLast, Undefined;
    SegmentsPut(f.segments, NoHeader());
    ScanAccepted(f.comps, TakeSegments(f.segments, NoHeader()).header);
    LastOf(QuantDefs(f.segments), NoHeader().quant, k, slot);
    LastOf(HuffDefs(f.segments), NoHeader().huffman, k, slot);
  }

  lemma LastOf<T>(defs: seq<(nat, T)>, slots: seq<Option<T>>, k: nat, slot: nat)
    ensures IsLast(defs, k) && defs[k].0 < |slots| ==> Puts(defs, slots)[defs[k].0] == Some(defs[k].1)
    ensures slot < |slots| && Undefined(defs, slot) ==> Puts(defs, slots)[slot] == slots[slot]
  {
    if IsLast(defs, k) && defs[k].0 < |slots| {
      PutsLast(defs, slots, k);
    }
    if slot < |slots| && Undefined(defs, slot) {
      PutsNone(defs, slots, slot);
    }
  }
}
