/** From the bytes of a progressive scan of any kind back to what it conveys of the coefficients. */
module ProgressiveRoundTrip {
  import opened Bytes
  import opened BitStrings
  import opened Coefficients
  import opened ZigZag
  import opened BitLogs
  import opened BitWriters
  import opened HuffmanItems
  import opened SeqHuffman
  import opened HuffmanScan
  import opened ProgressiveBands
  import opened ProgressiveDecoding
  import opened ProgressiveScan
  import opened Progression
  import opened HuffmanEncoder
  import opened RestartIntervals

  /** The blocks of an AC scan, whose MCUs have one each. */
  function Alone(mcus: seq<Mcu>): (cs: seq<Block>)
    requires forall i :: 0 <= i < |mcus| ==> |mcus[i]| == 1
    ensures |cs| == |mcus| && forall i :: 0 <= i < |mcus| ==> cs[i] == mcus[i][0]
  {
    seq(|mcus|, i requires 0 <= i < |mcus| => mcus[i][0])
  }

  /** The bits bring the band to bit al in any blocks that hold it as the scan before left it, and change nothing else. */
  ghost predicate AcDecodes(read: Reader, b: Band, cs: seq<Block>, al: nat, bits: seq<bit>)
    requires GoodBand(b)
  {
    forall ys :: Holding(b, cs, al, ys) ==>
      var p := ParseBands(read, b, ys, 0, bits);
      p.Got? && p.value == Overlays(b, AtPrecision(cs, al), ys)
  }

  /** The bits of a segment decode to what its MCUs convey. */
  ghost predicate SegmentDecodes(read: seq<Reader>, s: ProgScan, mcus: seq<Mcu>, bits: seq<bit>)
    requires |read| == NUM_TABLES && GoodProgScan(s) && GoodProgMcus(s, mcus)
  {
    match s.kind
    case DcFirst(al) =>
      var p := ParseDcFirsts(read, s, Initial(s).last, |mcus|, bits);
      p.Got? && p.value == AllDcValues(mcus, al)
    case DcRefine(al) =>
      var p := ParseDcRefines(|s.membership|, |mcus|, bits);
      p.Got? && p.value == AllDcBits(mcus, al)
    case AcBand(b, al) =>
      AcDecodes(read[AcTableOf(s)], b, Alone(mcus), al, bits)
  }

  /** The encoder accepts the MCUs of a segment. */
  predicate SegmentFits(s: ProgScan, st: State, mcus: seq<Mcu>, m: nat)
    requires GoodProgScan(s) && GoodState(s, st) && GoodProgMcus(s, mcus)
    decreases |mcus|
  {
    mcus != [] ==> ProgMcuFits(s, st, mcus[0], m) && SegmentFits(s, ProgAfterMcu(s, st, mcus[0]), mcus[1..], m)
  }

  lemma {:induction false} DcFitsWeaken(s: ProgScan, last: seq<int>, xs: Mcu, b: nat, m: nat, n: nat)
    requires GoodProgScan(s) && s.kind.DcFirst? && |last| == |s.comps| && |xs| == |s.membership| && b <= |xs| && m <= n
    requires DcFirstFits(s, last, xs, b, m)
    ensures DcFirstFits(s, last, xs, b, n)
    decreases |xs| - b
  {
    if b < |xs| {
      DcFitsWeaken(s, last[s.membership[b] := ShiftRight(xs[b][0], s.kind.al)], xs, b + 1, m, n);
    }
  }

  lemma {:induction false} FitsDc(s: ProgScan, st: State, mcus: seq<Mcu>, m: nat)
    requires GoodProgScan(s) && s.kind.DcFirst? && GoodState(s, st) && GoodProgMcus(s, mcus) && m <= 14
    requires SegmentFits(s, st, mcus, m)
    ensures DcSegmentFits(s, st, mcus)
    decreases |mcus|
  {
    if mcus != [] {
      DcFitsWeaken(s, st.last, mcus[0], 0, m + 1, 255);
      FitsDc(s, ProgAfterMcu(s, st, mcus[0]), mcus[1..], m);
    }
  }

  lemma {:induction false} FitsAc(s: ProgScan, st: State, mcus: seq<Mcu>, m: nat)
    requires GoodProgScan(s) && s.kind.AcBand? && GoodState(s, st) && GoodProgMcus(s, mcus) && m <= 14
    requires SegmentFits(s, st, mcus, m)
    ensures AllFit(s.kind.band, BandBlocks(mcus, s.kind.al))
    decreases |mcus|
  {
    var b, xs := s.kind.band, BandBlocks(mcus, s.kind.al);
    if mcus != [] {
      FitsAc(s, ProgAfterMcu(s, st, mcus[0]), mcus[1..], m);
      if !b.refine {
        FitsWeaken(xs[0], m, 15, b.ss, b.se + 1);
      }
      forall i | 0 <= i < |xs|
        ensures Sized(b, xs[i])
      {
        if i > 0 {
          assert xs[i] == BandBlocks(mcus[1..], s.kind.al)[i - 1];
        }
      }
    }
  }

  /** A segment that starts anew decodes. */
  lemma OneSegmentDecodes(read: seq<Reader>, book: CodeBook, s: ProgScan, mcus: seq<Mcu>, tail: seq<bit>, m: nat)
    requires ReadsBook(read, book) && GoodProgScan(s) && GoodProgMcus(s, mcus) && SegmentFits(s, Initial(s), mcus, m) && m <= 14
    requires Covered(book, SegmentItems(s, Initial(s), mcus))
    ensures SegmentDecodes(read, s, mcus, ItemBits(book, SegmentItems(s, Initial(s), mcus), tail))
  {
    match s.kind
    case DcFirst(_) =>
      FitsDc(s, Initial(s), mcus, m);
      DcFirstSegment(read, book, s, Initial(s), mcus, tail);
    case DcRefine(_) =>
      DcRefineSegment(book, s, Initial(s), mcus, tail);
    case AcBand(_, _) =>
      FitsAc(s, Initial(s), mcus, m);
      AcSegmentDecodes(read, book, s, mcus, tail);
  }

  /** A segment of an AC scan, first or refinement, gives every coefficient of the band to bit al, with its sign. */
  lemma AcSegmentDecodes(read: seq<Reader>, book: CodeBook, s: ProgScan, mcus: seq<Mcu>, tail: seq<bit>)
    requires ReadsBook(read, book) && GoodProgScan(s) && s.kind.AcBand? && GoodProgMcus(s, mcus)
    requires AllFit(s.kind.band, BandBlocks(mcus, s.kind.al)) && Covered(book, SegmentItems(s, Initial(s), mcus))
    ensures AcDecodes(read[AcTableOf(s)], s.kind.band, Alone(mcus), s.kind.al,
                      ItemBits(book, SegmentItems(s, Initial(s), mcus), tail))
  {
    hide HoldingBlock, Delayed, SegmentItems, AllFit, Covered, ItemBits, Reads, ParseBands;
    var t, b, al, cs := AcTableOf(s), s.kind.band, s.kind.al, Alone(mcus);
    SegmentIsDelayed(s, Initial(s), mcus);
    assert BandBlocks(mcus, al) == AtPrecision(cs, al);
    forall ys | Holding(b, cs, al, ys)
      ensures ParseBands(read[t], b, ys, 0, ItemBits(book, SegmentItems(s, Initial(s), mcus), tail))
           == Got(Overlays(b, AtPrecision(cs, al), ys), tail)
    {
      ScanDelivers(read[t], book, t, b, cs, al, ys, tail);
    }
  }

  /** The encoder accepts every restart interval; all but the first start anew. */
  ghost predicate IntervalsFit(s: ProgScan, st: State, ints: seq<seq<Mcu>>, m: nat)
    requires GoodProgScan(s) && GoodState(s, st)
    decreases |ints|
  {
    ints != [] ==>
      GoodProgMcus(s, ints[0]) && SegmentFits(s, st, ints[0], m) && IntervalsFit(s, Initial(s), ints[1..], m)
  }

  lemma {:induction false} ScanIntervalsFit(s: ProgScan, st: State, togo: nat, mcus: seq<Mcu>, m: nat)
    requires GoodProgScan(s) && GoodState(s, st) && GoodProgMcus(s, mcus) && ProgScanFits(s, st, togo, mcus, m)
    ensures IntervalsFit(s, st, Intervals(s.interval, togo, mcus), m)
    decreases |mcus|, if togo == 0 then 1 else 0
  {
    if mcus == [] {
      var none: seq<seq<Mcu>> := [[]];
      assert none[1..] == [];
    } else if s.interval > 0 && togo == 0 {
      ScanIntervalsFit(s, Initial(s), s.interval, mcus, m);
      var more := Intervals(s.interval, s.interval, mcus);
      assert ([[]] + more)[1..] == more;
    } else {
      var togo' := if s.interval > 0 then togo - 1 else togo;
      var st' := ProgAfterMcu(s, st, mcus[0]);
      ScanIntervalsFit(s, st', togo', mcus[1..], m);
      FitsFirst(s, st, mcus[0], Intervals(s.interval, togo', mcus[1..]), m);
    }
  }

  lemma FitsFirst(s: ProgScan, st: State, xs: Mcu, ints: seq<seq<Mcu>>, m: nat)
    requires GoodProgScan(s) && GoodState(s, st) && |xs| == |s.membership| && ints != []
    requires ProgMcuFits(s, st, xs, m) && IntervalsFit(s, ProgAfterMcu(s, st, xs), ints, m)
    ensures IntervalsFit(s, st, [[xs] + ints[0]] + ints[1..], m)
  {
    var all := [[xs] + ints[0]] + ints[1..];
    assert ([xs] + ints[0])[1..] == ints[0];
    assert all[1..] == ints[1..];
  }

  /** Every segment decodes to its restart interval. */
  ghost predicate AllDecode(read: seq<Reader>, s: ProgScan, ints: seq<seq<Mcu>>, bits: seq<seq<bit>>, i: nat)
    requires |read| == NUM_TABLES && GoodProgScan(s)
    decreases |ints|
  {
    ints != [] ==>
      && i < |bits| && GoodProgMcus(s, ints[0]) && SegmentDecodes(read, s, ints[0], bits[i])
      && AllDecode(read, s, ints[1..], bits, i + 1)
  }

  lemma {:induction false} SegmentsDecode(read: seq<Reader>, book: CodeBook, s: ProgScan, segs: Segs, ints: seq<seq<Mcu>>,
                                          bits: seq<seq<bit>>, tails: seq<seq<bit>>, i: nat, m: nat)
    requires ReadsBook(read, book) && GoodProgScan(s) && CoveredSegs(book, segs)
    requires Holds(s, Initial(s), segs, ints) && IntervalsFit(s, Initial(s), ints, m) && m <= 14
    requires i < |bits| && Match(book, segs, bits, tails, i, bits[i])
    ensures AllDecode(read, s, ints, bits, i)
    decreases segs
  {
    OneSegmentDecodes(read, book, s, ints[0], tails[i], m);
    if segs.More? {
      SegmentsDecode(read, book, s, segs.others, ints[1..], bits, tails, i + 1, m);
    } else {
      assert ints[1..] == [];
    }
  }

  lemma {:induction false} AllDecodeAt(read: seq<Reader>, s: ProgScan, ints: seq<seq<Mcu>>, bits: seq<seq<bit>>, i: nat, k: nat)
    requires |read| == NUM_TABLES && GoodProgScan(s) && AllDecode(read, s, ints, bits, i) && k < |ints|
    ensures i + k < |bits| && GoodProgMcus(s, ints[k]) && SegmentDecodes(read, s, ints[k], bits[i + k])
    decreases k
  {
    if k > 0 {
      AllDecodeAt(read, s, ints[1..], bits, i + 1, k - 1);
    }
  }

  lemma AllDecodeEach(read: seq<Reader>, s: ProgScan, ints: seq<seq<Mcu>>, bits: seq<seq<bit>>)
    requires |read| == NUM_TABLES && GoodProgScan(s) && AllDecode(read, s, ints, bits, 0) && |bits| == |ints|
    ensures forall k :: 0 <= k < |ints| ==> GoodProgMcus(s, ints[k]) && SegmentDecodes(read, s, ints[k], bits[k])
  {
    hide SegmentDecodes;
    forall k | 0 <= k < |ints|
      ensures GoodProgMcus(s, ints[k]) && SegmentDecodes(read, s, ints[k], bits[k])
    {
      AllDecodeAt(read, s, ints, bits, 0, k);
    }
  }

  lemma {:induction false} HoldsSize(s: ProgScan, st: State, book: CodeBook, segs: Segs, ints: seq<seq<Mcu>>, b: Bits)
    requires GoodProgScan(s) && GoodState(s, st) && Holds(s, st, segs, ints)
    ensures |EmitSegs(book, segs, b)| == |ints|
    decreases segs
  {
    if segs.More? {
      HoldsSize(s, Initial(s), book, segs.others, ints[1..], Empty);
    }
  }

  /**
   * The bytes of a progressive scan of any kind, up to the next marker that is no restart marker, hold one
   * segment for each restart interval, and each decodes to what its MCUs convey.
   */
  lemma EncodedProgressiveScanDecodes(read: seq<Reader>, book: CodeBook, s: ProgScan, mcus: seq<Mcu>,
                                      out: seq<byte>, done: seq<seq<byte>>, raw: seq<byte>, rest: seq<byte>, m: nat)
    requires ReadsBook(read, book) && GoodProgScan(s) && GoodProgMcus(s, mcus) && m <= 14
    requires ProgScanFits(s, Initial(s), s.interval, mcus, m)
    requires CoveredSegs(book, ProgScanItems(s, Initial(s), s.interval, mcus))
    requires out == StuffOnto(Framed(done), raw)
    requires DataBits(done + [raw]) == EmitSegs(book, ProgScanItems(s, Initial(s), s.interval, mcus), Empty)
    requires rest == [] || (|rest| >= 2 && rest[0] == 0xFF && (0 < rest[1] < 0xD0 || rest[1] > 0xD7))
    ensures var bits, ints := Strings(DataBits(Segments(out + rest, 0))), Intervals(s.interval, s.interval, mcus);
            |bits| == |ints|
            && forall k :: 0 <= k < |ints| ==> GoodProgMcus(s, ints[k]) && SegmentDecodes(read, s, ints[k], bits[k])
  {
    assert |read| == NUM_TABLES;
    hide Segments, SegmentDecodes, ProgScanItems, ProgScanFits, Intervals, ReadsBook, EmitSegs, Strings, CoveredSegs, Match;
    ScanSegments(done, raw, rest);
    var segs, ints := ProgScanItems(s, Initial(s), s.interval, mcus), Intervals(s.interval, s.interval, mcus);
    var bits, tails := Strings(EmitSegs(book, segs, Empty)), Tails(book, segs);
    SameNumber(book, segs, Empty);
    assert bits[0..] == bits && tails[0..] == tails;
    EmittedMatch(book, segs, bits, tails, 0);
    ScanHolds(s, Initial(s), s.interval, mcus);
    HoldsSize(s, Initial(s), book, segs, ints, Empty);
    ScanIntervalsFit(s, Initial(s), s.interval, mcus, m);
    SegmentsDecode(read, book, s, segs, ints, bits, tails, 0, m);
    AllDecodeEach(read, s, ints, bits);
  }
}
