/** The DC differences of arithmetic-coded scans and the contexts they are coded in, without any state. */
module ArithPrediction {
  import opened Bytes
  import opened IntervalCoder
  import opened ZigZag
  import opened Coefficients
  import opened ArithModel
  import opened ArithMcu
  import opened RestartIntervals
  import opened DcPrediction

  /** What a restart interval has sent so far: DC values, and differences, with their components. */
  datatype Past = Past(values: seq<(nat, int)>, diffs: seq<(nat, int)>)

  const NOTHING := Past([], [])

  function Extended(p: Past, c: nat, v: int): Past {
    Past(p.values + [(c, v)], p.diffs + [(c, v - LastSent(p.values, c))])
  }

  /** The past after the MCU's blocks from number b on. */
  function PastMcu(s: Scan, p: Past, xs: seq<Block>, b: nat): Past
    requires GoodScan(s) && b <= |xs| == |s.membership|
    decreases |xs| - b
  {
    if b == |xs| then p else PastMcu(s, Extended(p, s.membership[b], DcValue(s.kind, xs[b])), xs, b + 1)
  }

  /** The DC value v of component ci: its difference from the last one, in the context of the difference before. */
  function DcSent(s: Scan, p: Past, ci: nat, v: int, rest: Trace): Trace
    requires GoodScan(s) && ci < |s.comps|
  {
    var tbl := s.comps[ci].dcTbl;
    DcTrace(DcArea(tbl), DcContext(LastSent(p.diffs, ci), s.lower[tbl], s.upper[tbl]), v - LastSent(p.values, ci), rest)
  }

  ghost function BlockSent(s: Scan, p: Past, b: nat, x: Block, rest: Trace): Trace
    requires GoodScan(s) && b < |s.membership|
  {
    var ci := s.membership[b];
    var ac := s.comps[ci].acTbl;
    match s.kind
    case Sequential => DcSent(s, p, ci, x[0], AcTrace(Transformed(x, 0), 1, 63, AcArea(ac), s.kx[ac], rest))
    case DcFirst(al) => DcSent(s, p, ci, ShiftRight(x[0], al), rest)
    case DcRefine(al) => Put(FIXED_BIN, ShiftRight(x[0], al) % 2, rest)
    case AcFirst(ss, se, al) => AcTrace(Transformed(x, al), ss, se, AcArea(ac), s.kx[ac], rest)
    case AcRefine(ss, se, al) => RefineTrace(Transformed(x, al), ss, se, AcArea(ac), rest)
  }

  ghost function McuSent(s: Scan, p: Past, xs: seq<Block>, b: nat, rest: Trace): Trace
    requires GoodScan(s) && b <= |xs| == |s.membership|
    decreases |xs| - b
  {
    if b == |xs| then rest
    else BlockSent(s, p, b, xs[b], McuSent(s, Extended(p, s.membership[b], DcValue(s.kind, xs[b])), xs, b + 1, rest))
  }

  ghost function IntervalSent(s: Scan, p: Past, mcus: seq<seq<Block>>): Trace
    requires GoodScan(s) && GoodMcus(s, mcus)
    decreases |mcus|
  {
    if mcus == [] then Done else McuSent(s, p, mcus[0], 0, IntervalSent(s, PastMcu(s, p, mcus[0], 0), mcus[1..]))
  }

  /** The segments hold the given restart intervals; before each but the first nothing is sent. */
  ghost predicate Sends(s: Scan, p: Past, segs: Segments, ints: seq<seq<seq<Block>>>)
    requires GoodScan(s)
    decreases segs
  {
    && ints != [] && GoodMcus(s, ints[0]) && segs.t == IntervalSent(s, p, ints[0])
    && (segs.More? <==> |ints| > 1)
    && (segs.More? ==> Sends(s, NOTHING, segs.others, ints[1..]))
  }

  /** The encoder's state is what looking back gives, if the scan codes DC values at all. */
  ghost predicate Recalls(s: Scan, dc: DcState, p: Past)
    requires GoodScan(s) && GoodDc(s, dc)
  {
    CodesDc(s.kind) ==>
      && Remembers(dc.last, p.values)
      && forall c :: 0 <= c < |dc.ctx| ==>
           dc.ctx[c] == DcContext(LastSent(p.diffs, c), s.lower[s.comps[c].dcTbl], s.upper[s.comps[c].dcTbl])
  }

  lemma BlockLooksBack(s: Scan, dc: DcState, p: Past, b: nat, x: Block, rest: Trace)
    requires GoodScan(s) && GoodDc(s, dc) && b < |s.membership| && Recalls(s, dc, p)
    ensures BlockTrace(s, dc, b, x, rest) == BlockSent(s, p, b, x, rest)
    ensures Recalls(s, AfterBlock(s, dc, b, x), Extended(p, s.membership[b], DcValue(s.kind, x)))
  {
    hide DcTrace, AcTrace, RefineTrace, DcContext, Transformed, ShiftRight;
    if CodesDc(s.kind) {
      var ci := s.membership[b];
      RemembersNext(dc.last, p.values, ci, DcValue(s.kind, x));
      var d := DcDiff(s, dc, b, x);
      var more := p.diffs + [(ci, d)];
      assert more[..|p.diffs|] == p.diffs;
    }
  }

  lemma {:induction false} McuLooksBack(s: Scan, dc: DcState, p: Past, xs: seq<Block>, b: nat, rest: Trace)
    requires GoodScan(s) && GoodDc(s, dc) && b <= |xs| == |s.membership| && Recalls(s, dc, p)
    ensures McuTrace(s, dc, xs, b, rest) == McuSent(s, p, xs, b, rest)
    ensures Recalls(s, AfterMcu(s, dc, xs, b), PastMcu(s, p, xs, b))
    decreases |xs| - b
  {
    hide BlockTrace, BlockSent, Recalls, AfterBlock, Extended;
    if b < |xs| {
      var dc', p' := AfterBlock(s, dc, b, xs[b]), Extended(p, s.membership[b], DcValue(s.kind, xs[b]));
      BlockLooksBack(s, dc, p, b, xs[b], McuTrace(s, dc', xs, b + 1, rest));
      McuLooksBack(s, dc', p', xs, b + 1, rest);
    }
  }

  lemma {:induction false} ScanLooksBack(s: Scan, dc: DcState, p: Past, togo: nat, mcus: seq<seq<Block>>)
    requires GoodScan(s) && GoodDc(s, dc) && GoodMcus(s, mcus) && Recalls(s, dc, p)
    ensures Sends(s, p, ScanSegments(s, dc, togo, mcus), Intervals(s.interval, togo, mcus))
    decreases |mcus|, if togo == 0 then 1 else 0
  {
    hide Recalls, McuTrace, McuSent, PastMcu, AfterMcu, AfterRestart;
    if mcus == [] {
    } else if s.interval > 0 && togo == 0 {
      RestartForgets(s, dc, p);
      ScanLooksBack(s, AfterRestart(s, dc), NOTHING, s.interval, mcus);
      var more := Intervals(s.interval, s.interval, mcus);
      assert ([[]] + more)[1..] == more;
    } else {
      var dc', p', togo' := AfterMcu(s, dc, mcus[0], 0), PastMcu(s, p, mcus[0], 0), if s.interval > 0 then togo - 1 else togo;
      var segs, ints := ScanSegments(s, dc', togo', mcus[1..]), Intervals(s.interval, togo', mcus[1..]);
      McuLooksBack(s, dc, p, mcus[0], 0, segs.t);
      ScanLooksBack(s, dc', p', togo', mcus[1..]);
      SendsFirst(s, p, mcus[0], segs, ints);
    }
  }

  lemma RestartForgets(s: Scan, dc: DcState, p: Past)
    requires GoodScan(s) && GoodDc(s, dc) && Recalls(s, dc, p)
    ensures Recalls(s, AfterRestart(s, dc), NOTHING)
  {
  }

  lemma SendsFirst(s: Scan, p: Past, xs: seq<Block>, segs: Segments, ints: seq<seq<seq<Block>>>)
    requires GoodScan(s) && |xs| == |s.membership| && Sends(s, PastMcu(s, p, xs, 0), segs, ints)
    ensures Sends(s, p, match segs case Last(t) => Last(McuSent(s, p, xs, 0, t)) case More(t, others) => More(McuSent(s, p, xs, 0, t), others),
                  [[xs] + ints[0]] + ints[1..])
  {
    hide McuSent, PastMcu;
    var all := [[xs] + ints[0]] + ints[1..];
    assert ([xs] + ints[0])[1..] == ints[0];
    assert all[1..] == ints[1..];
  }

  /**
   * What a scan sends, over its blocks alone: in every restart interval the first block of a component has its own
   * DC value as the difference, in the context of no difference, and every other one is predicted from its
   * component's block before, in the context of that block's difference.
   */
  lemma DifferencesLookBack(s: Scan, mcus: seq<seq<Block>>)
    requires GoodScan(s) && GoodMcus(s, mcus)
    ensures Sends(s, NOTHING, ScanSegments(s, DcReset(s), s.interval, mcus), Intervals(s.interval, s.interval, mcus))
  {
    ScanLooksBack(s, DcReset(s), NOTHING, s.interval, mcus);
  }
}
