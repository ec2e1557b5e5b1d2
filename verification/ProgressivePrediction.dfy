/** The DC differences of the first scans of progressive Huffman coding, without any state. */
module ProgressivePrediction {
  import opened Bytes
  import opened Coefficients
  import opened HuffmanItems
  import opened HuffmanScan
  import opened ProgressiveScan
  import opened RestartIntervals
  import opened DcPrediction

  /** What is sent after the MCU's blocks from number b on: DC values without their al lowest bits. */
  function SentBy(s: ProgScan, sent: seq<(nat, int)>, xs: Mcu, b: nat): seq<(nat, int)>
    requires GoodProgScan(s) && s.kind.DcFirst? && b <= |xs| == |s.membership|
    decreases |xs| - b
  {
    if b == |xs| then sent else SentBy(s, sent + [(s.membership[b], ShiftRight(xs[b][0], s.kind.al))], xs, b + 1)
  }

  function McuSent(s: ProgScan, sent: seq<(nat, int)>, xs: Mcu, b: nat, rest: Items): Items
    requires GoodProgScan(s) && s.kind.DcFirst? && b <= |xs| == |s.membership|
    decreases |xs| - b
  {
    if b == |xs| then rest
    else
      var ci, v := s.membership[b], ShiftRight(xs[b][0], s.kind.al);
      DiffItems(DcTable(s.comps[ci].dcTbl), v - LastSent(sent, ci), McuSent(s, sent + [(ci, v)], xs, b + 1, rest))
  }

  function IntervalSent(s: ProgScan, sent: seq<(nat, int)>, mcus: seq<Mcu>): Items
    requires GoodProgScan(s) && s.kind.DcFirst? && GoodProgMcus(s, mcus)
    decreases |mcus|
  {
    if mcus == [] then Nil else McuSent(s, sent, mcus[0], 0, IntervalSent(s, SentBy(s, sent, mcus[0], 0), mcus[1..]))
  }

  /** The segments hold the given restart intervals; before each but the first nothing is sent. */
  ghost predicate Sends(s: ProgScan, sent: seq<(nat, int)>, segs: Segs, ints: seq<seq<Mcu>>)
    requires GoodProgScan(s) && s.kind.DcFirst?
    decreases segs
  {
    && ints != [] && GoodProgMcus(s, ints[0]) && segs.items == IntervalSent(s, sent, ints[0])
    && (segs.More? <==> |ints| > 1)
    && (segs.More? ==> Sends(s, [], segs.others, ints[1..]))
  }

  lemma {:induction false} McuLooksBack(s: ProgScan, last: seq<int>, sent: seq<(nat, int)>, xs: Mcu, b: nat, rest: Items)
    requires GoodProgScan(s) && s.kind.DcFirst? && |last| == |s.comps| && b <= |xs| == |s.membership|
    requires Remembers(last, sent)
    ensures DcFirstItems(s, last, xs, b, rest) == McuSent(s, sent, xs, b, rest)
    ensures Remembers(DcFirstLast(s, last, xs, b), SentBy(s, sent, xs, b))
    decreases |xs| - b
  {
    hide DiffItems, ShiftRight;
    if b < |xs| {
      var ci, v := s.membership[b], ShiftRight(xs[b][0], s.kind.al);
      RemembersNext(last, sent, ci, v);
      McuLooksBack(s, last[ci := v], sent + [(ci, v)], xs, b + 1, rest);
    }
  }

  lemma {:induction false} IntervalLooksBack(s: ProgScan, st: State, sent: seq<(nat, int)>, mcus: seq<Mcu>)
    requires GoodProgScan(s) && s.kind.DcFirst? && GoodState(s, st) && GoodProgMcus(s, mcus) && Remembers(st.last, sent)
    ensures SegmentItems(s, st, mcus) == IntervalSent(s, sent, mcus)
    decreases |mcus|
  {
    hide Remembers, DcFirstItems, McuSent, DcFirstLast, SentBy;
    if mcus != [] {
      var st', sent' := ProgAfterMcu(s, st, mcus[0]), SentBy(s, sent, mcus[0], 0);
      McuLooksBack(s, st.last, sent, mcus[0], 0, SegmentItems(s, st', mcus[1..]));
      IntervalLooksBack(s, st', sent', mcus[1..]);
    }
  }

  lemma {:induction false} HoldsSends(s: ProgScan, st: State, sent: seq<(nat, int)>, segs: Segs, ints: seq<seq<Mcu>>)
    requires GoodProgScan(s) && s.kind.DcFirst? && GoodState(s, st) && Holds(s, st, segs, ints) && Remembers(st.last, sent)
    ensures Sends(s, sent, segs, ints)
    decreases segs
  {
    hide SegmentItems, IntervalSent;
    IntervalLooksBack(s, st, sent, ints[0]);
    if segs.More? {
      HoldsSends(s, Initial(s), [], segs.others, ints[1..]);
    }
  }

  /**
   * What the first DC scan of a progression writes, over its blocks alone: in every restart interval the first block
   * of a component has its own value as the difference, and every other one its own less that of its component's
   * block before.
   */
  lemma DifferencesLookBack(s: ProgScan, mcus: seq<Mcu>)
    requires GoodProgScan(s) && s.kind.DcFirst? && GoodProgMcus(s, mcus)
    ensures Sends(s, [], ProgScanItems(s, Initial(s), s.interval, mcus), Intervals(s.interval, s.interval, mcus))
  {
    hide ProgScanItems, Holds;
    ScanHolds(s, Initial(s), s.interval, mcus);
    HoldsSends(s, Initial(s), [], ProgScanItems(s, Initial(s), s.interval, mcus), Intervals(s.interval, s.interval, mcus));
  }
}
