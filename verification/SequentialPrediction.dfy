/** The DC differences of sequential Huffman scans, without any state. */
module SequentialPrediction {
  import opened Bytes
  import opened ZigZag
  import opened HuffmanItems
  import opened SeqHuffman
  import opened HuffmanScan
  import opened RestartIntervals
  import opened DcPrediction

  /** What is sent after the MCU's blocks from number b on. */
  function SentBy(s: Scan, sent: seq<(nat, int)>, xs: Mcu, b: nat): seq<(nat, int)>
    requires GoodMcu(s, xs) && b <= |xs|
    decreases |xs| - b
  {
    if b == |xs| then sent else SentBy(s, sent + [(s.membership[b], xs[b][0])], xs, b + 1)
  }

  predicate McuSendable(s: Scan, sent: seq<(nat, int)>, xs: Mcu, b: nat)
    requires GoodScan(s) && GoodMcu(s, xs) && b <= |xs|
    decreases |xs| - b
  {
    b < |xs| ==>
      && Size(xs[b][0] - LastSent(sent, s.membership[b])) <= 15 && AcInRange(xs[b], 14)
      && McuSendable(s, sent + [(s.membership[b], xs[b][0])], xs, b + 1)
  }

  /** An MCU's items: each block has its DC value, less the one its component sent before, and its AC coefficients. */
  function McuSent(s: Scan, sent: seq<(nat, int)>, xs: Mcu, b: nat, rest: Items): Items
    requires GoodScan(s) && GoodMcu(s, xs) && b <= |xs| && McuSendable(s, sent, xs, b)
    decreases |xs| - b
  {
    if b == |xs| then rest
    else
      var ci := s.membership[b];
      DcItems(DcTable(s.comps[ci].dcTbl), xs[b][0] - LastSent(sent, ci),
              AcItems(AcTable(s.comps[ci].acTbl), xs[b], 1, 0, McuSent(s, sent + [(ci, xs[b][0])], xs, b + 1, rest)))
  }

  predicate Sendable(s: Scan, sent: seq<(nat, int)>, mcus: seq<Mcu>)
    requires GoodScan(s) && GoodMcus(s, mcus)
    decreases |mcus|
  {
    mcus != [] ==> McuSendable(s, sent, mcus[0], 0) && Sendable(s, SentBy(s, sent, mcus[0], 0), mcus[1..])
  }

  function IntervalSent(s: Scan, sent: seq<(nat, int)>, mcus: seq<Mcu>): Items
    requires GoodScan(s) && GoodMcus(s, mcus) && Sendable(s, sent, mcus)
    decreases |mcus|
  {
    if mcus == [] then Nil
    else McuSent(s, sent, mcus[0], 0, IntervalSent(s, SentBy(s, sent, mcus[0], 0), mcus[1..]))
  }

  /** The segments hold the given restart intervals; before each but the first nothing is sent. */
  ghost predicate Sends(s: Scan, sent: seq<(nat, int)>, segs: Segs, ints: seq<seq<Mcu>>)
    requires GoodScan(s)
    decreases segs
  {
    && ints != [] && GoodMcus(s, ints[0]) && Sendable(s, sent, ints[0]) && segs.items == IntervalSent(s, sent, ints[0])
    && (segs.More? <==> |ints| > 1)
    && (segs.More? ==> Sends(s, [], segs.others, ints[1..]))
  }

  lemma {:induction false} McuLooksBack(s: Scan, last: seq<int>, sent: seq<(nat, int)>, xs: Mcu, b: nat, rest: Items)
    requires GoodScan(s) && |last| == |s.comps| && GoodMcu(s, xs) && b <= |xs| && McuInRange(s, last, xs, b, 14)
    requires Remembers(last, sent)
    ensures McuSendable(s, sent, xs, b) && McuItems(s, last, xs, b, rest) == McuSent(s, sent, xs, b, rest)
    ensures Remembers(AfterMcu(s, last, xs, b), SentBy(s, sent, xs, b))
    decreases |xs| - b
  {
    hide AcInRange, AcItems, DcItems, Size;
    if b < |xs| {
      RemembersNext(last, sent, s.membership[b], xs[b][0]);
      McuLooksBack(s, NextDc(s, last, b, xs[b]), sent + [(s.membership[b], xs[b][0])], xs, b + 1, rest);
    }
  }

  lemma {:induction false} ScanLooksBack(s: Scan, last: seq<int>, sent: seq<(nat, int)>, togo: nat, mcus: seq<Mcu>)
    requires GoodScan(s) && |last| == |s.comps| && GoodMcus(s, mcus) && ScanInRange(s, last, togo, mcus, 14)
    requires Remembers(last, sent)
    ensures Sends(s, sent, ScanItems(s, last, togo, mcus), Intervals(s.interval, togo, mcus))
    decreases |mcus|, if togo == 0 then 1 else 0
  {
    hide Remembers, McuItems, McuSent, McuSendable, SentBy, AfterMcu, McuInRange;
    if mcus == [] {
    } else if s.interval > 0 && togo == 0 {
      NothingYet(s);
      ScanLooksBack(s, ResetDc(s), [], s.interval, mcus);
      var more := Intervals(s.interval, s.interval, mcus);
      assert ([[]] + more)[1..] == more;
    } else {
      var last', sent' := AfterMcu(s, last, mcus[0], 0), SentBy(s, sent, mcus[0], 0);
      var segs := ScanItems(s, last', ToGo(s, togo), mcus[1..]);
      McuLooksBack(s, last, sent, mcus[0], 0, segs.items);
      ScanLooksBack(s, last', sent', ToGo(s, togo), mcus[1..]);
      SendsFirst(s, sent, mcus[0], segs, Intervals(s.interval, ToGo(s, togo), mcus[1..]));
    }
  }

  lemma NothingYet(s: Scan)
    ensures Remembers(ResetDc(s), [])
  {
  }

  lemma SendsFirst(s: Scan, sent: seq<(nat, int)>, xs: Mcu, segs: Segs, ints: seq<seq<Mcu>>)
    requires GoodScan(s) && GoodMcu(s, xs) && McuSendable(s, sent, xs, 0) && Sends(s, SentBy(s, sent, xs, 0), segs, ints)
    ensures Sends(s, sent, First(segs, McuSent(s, sent, xs, 0, segs.items)), [[xs] + ints[0]] + ints[1..])
  {
    hide McuSent, McuSendable, SentBy;
    var all := [[xs] + ints[0]] + ints[1..];
    assert ([xs] + ints[0])[1..] == ints[0];
    assert all[1..] == ints[1..];
  }

  /**
   * What a scan writes, over its blocks alone: in every restart interval the first block of a component has its own
   * DC value as the difference, and every other one its own less that of its component's block before.
   */
  lemma DifferencesLookBack(s: Scan, mcus: seq<Mcu>)
    requires GoodScan(s) && GoodMcus(s, mcus) && ScanInRange(s, ResetDc(s), s.interval, mcus, 14)
    ensures Sends(s, [], ScanItems(s, ResetDc(s), s.interval, mcus), Intervals(s.interval, s.interval, mcus))
  {
    NothingYet(s);
    ScanLooksBack(s, ResetDc(s), [], s.interval, mcus);
  }
}
