/** From MCUs to decisions and back, for every kind of scan, with DC prediction and restarts. */
module ArithMcu {
  import opened Bytes
  import opened BitStrings
  import opened Coefficients
  import opened IntervalCoder
  import opened ZigZag
  import opened ArithModel

  /** The tables of a scan component. */
  datatype Component = Component(dcTbl: nat, acTbl: nat)

  datatype Kind =
    | Sequential
    | DcFirst(al: nat)
    | DcRefine(al: nat)
    | AcFirst(ss: nat, se: nat, al: nat)
    | AcRefine(ss: nat, se: nat, al: nat)

  /** The parameters of a scan: which component each block of an MCU belongs to, the conditioning
      bounds L and U and the threshold K of each table, and the restart interval, 0 for none. */
  datatype Scan = Scan(kind: Kind, comps: seq<Component>, membership: seq<nat>,
                       lower: seq<nat>, upper: seq<nat>, kx: seq<nat>, interval: nat)

  predicate GoodScan(s: Scan) {
    && (forall i :: 0 <= i < |s.comps| ==> s.comps[i].dcTbl < NUM_ARITH_TBLS && s.comps[i].acTbl < NUM_ARITH_TBLS)
    && (forall i :: 0 <= i < |s.membership| ==> s.membership[i] < |s.comps|)
    && |s.lower| == |s.upper| == |s.kx| == NUM_ARITH_TBLS
    && match s.kind {
         case AcFirst(ss, se, _) => 1 <= ss <= se <= 63
         case AcRefine(ss, se, _) => 1 <= ss <= se <= 63
         case _ => true
       }
  }

  /** DC prediction and conditioning category of each component. */
  datatype DcState = DcState(last: seq<int>, ctx: seq<nat>)

  predicate GoodDc(s: Scan, dc: DcState) {
    |dc.last| == |dc.ctx| == |s.comps| && forall i :: 0 <= i < |dc.ctx| ==> dc.ctx[i] <= 16
  }

  function DcReset(s: Scan): (dc: DcState)
    ensures GoodDc(s, dc)
  {
    DcState(seq(|s.comps|, _ => 0), seq(|s.comps|, _ => 0))
  }

  /** The DC value a scan codes by differences. */
  function DcValue(kind: Kind, x: Block): int {
    match kind
    case DcFirst(al) => ShiftRight(x[0], al)
    case _ => x[0]
  }

  predicate CodesDc(kind: Kind) { kind.Sequential? || kind.DcFirst? }

  function DcDiff(s: Scan, dc: DcState, b: nat, x: Block): int
    requires GoodScan(s) && GoodDc(s, dc) && b < |s.membership|
  {
    DcValue(s.kind, x) - dc.last[s.membership[b]]
  }

  function AfterBlock(s: Scan, dc: DcState, b: nat, x: Block): (r: DcState)
    requires GoodScan(s) && GoodDc(s, dc) && b < |s.membership|
    ensures GoodDc(s, r)
  {
    var ci := s.membership[b];
    if CodesDc(s.kind) then
      var tbl := s.comps[ci].dcTbl;
      DcState(dc.last[ci := DcValue(s.kind, x)],
              dc.ctx[ci := DcContext(DcDiff(s, dc, b, x), s.lower[tbl], s.upper[tbl])])
    else dc
  }

  /** The decisions of block b of an MCU, x being its coefficients in zigzag order. */
  ghost function BlockTrace(s: Scan, dc: DcState, b: nat, x: Block, rest: Trace): Trace
    requires GoodScan(s) && GoodDc(s, dc) && b < |s.membership|
  {
    var ci := s.membership[b];
    var dcArea, acArea := DcArea(s.comps[ci].dcTbl), AcArea(s.comps[ci].acTbl);
    var kx := s.kx[s.comps[ci].acTbl];
    match s.kind
    case Sequential =>
      DcTrace(dcArea, dc.ctx[ci], DcDiff(s, dc, b, x), AcTrace(Transformed(x, 0), 1, 63, acArea, kx, rest))
    case DcFirst(_) => DcTrace(dcArea, dc.ctx[ci], DcDiff(s, dc, b, x), rest)
    case DcRefine(al) => Put(FIXED_BIN, ShiftRight(x[0], al) % 2, rest)
    case AcFirst(ss, se, al) => AcTrace(Transformed(x, al), ss, se, acArea, kx, rest)
    case AcRefine(ss, se, al) => RefineTrace(Transformed(x, al), ss, se, acArea, rest)
  }

  /** What a scan of this kind conveys of a block. */
  function Conveyed(kind: Kind, x: Block): seq<int> {
    match kind
    case Sequential => x
    case DcFirst(al) => [ShiftRight(x[0], al)]
    case DcRefine(al) => [ShiftRight(x[0], al) % 2]
    case AcFirst(ss, se, al) => if 1 <= ss <= se <= 63 then Transformed(x, al)[ss..se + 1] else []
    case AcRefine(ss, se, al) => if 1 <= ss <= se <= 63 then Transformed(x, al)[ss..se + 1] else []
  }

  /** What the decoder knows of a block before a refinement scan. */
  function Known(kind: Kind, x: Block): Block {
    match kind
    case AcRefine(_, _, al) => Transformed(x, al + 1)
    case _ => x
  }

  ghost function McuTrace(s: Scan, dc: DcState, xs: seq<Block>, b: nat, rest: Trace): Trace
    requires GoodScan(s) && GoodDc(s, dc) && b <= |xs| == |s.membership|
    decreases |xs| - b
  {
    if b == |xs| then rest
    else BlockTrace(s, dc, b, xs[b], McuTrace(s, AfterBlock(s, dc, b, xs[b]), xs, b + 1, rest))
  }

  function AfterMcu(s: Scan, dc: DcState, xs: seq<Block>, b: nat): (r: DcState)
    requires GoodScan(s) && GoodDc(s, dc) && b <= |xs| == |s.membership|
    ensures GoodDc(s, r)
    decreases |xs| - b
  {
    if b == |xs| then dc else AfterMcu(s, AfterBlock(s, dc, b, xs[b]), xs, b + 1)
  }

  function ConveyedMcu(kind: Kind, xs: seq<Block>): seq<seq<int>> {
    if xs == [] then [] else [Conveyed(kind, xs[0])] + ConveyedMcu(kind, xs[1..])
  }

  // ----- the decoder -----

  /** The decoder keeps the prediction modulo 2^16 and stores coefficients as 16-bit integers. */
  function ToCoef(u: int): int { if u >= 0x8000 then u - 0x10000 else u }

  function Wrapped(dc: DcState): DcState {
    DcState(seq(|dc.last|, i requires 0 <= i < |dc.last| => dc.last[i] % 0x10000), dc.ctx)
  }

  /** The DC value of a block: the prediction plus the decoded difference. */
  function ParseDcValue(t: Trace, s: Scan, dc: DcState, ci: nat): Parsed<(int, DcState)>
    requires GoodScan(s) && GoodDc(s, dc) && ci < |s.comps|
  {
    var tbl := s.comps[ci].dcTbl;
    match ParseDc(t, DcArea(tbl), dc.ctx[ci])
    case Stuck => Stuck
    case Got(v, rest) =>
      var u := (dc.last[ci] + v) % 0x10000;
      Got((ToCoef(u), DcState(dc.last[ci := u], dc.ctx[ci := DcContext(v, s.lower[tbl], s.upper[tbl])])), rest)
  }

  function With<A, B>(p: Parsed<A>, v: B): Parsed<(A, B)> {
    match p
    case Stuck => Stuck
    case Got(a, rest) => Got((a, v), rest)
  }

  function ParseBlock(t: Trace, s: Scan, dc: DcState, b: nat, known: Block): (r: Parsed<(seq<int>, DcState)>)
    requires GoodScan(s) && GoodDc(s, dc) && b < |s.membership|
    ensures r.Got? ==> GoodDc(s, r.value.1)
  {
    var ci := s.membership[b];
    var acArea, kx := AcArea(s.comps[ci].acTbl), s.kx[s.comps[ci].acTbl];
    match s.kind
    case Sequential =>
      (match ParseDcValue(t, s, dc, ci)
       case Stuck => Stuck
       case Got(p, rest) => With(Prepend(p.0, ParseAc(rest, 1, 63, acArea, kx)), p.1))
    case DcFirst(_) =>
      (match ParseDcValue(t, s, dc, ci)
       case Stuck => Stuck
       case Got(p, rest) => Got(([p.0], p.1), rest))
    case DcRefine(_) =>
      (match Read(t, FIXED_BIN)
       case Stuck => Stuck
       case Got(v, rest) => Got(([v], dc), rest))
    case AcFirst(ss, se, _) => With(ParseAc(t, ss, se, acArea, kx), dc)
    case AcRefine(ss, se, _) => With(ParseRefine(t, known, ss, se, acArea), dc)
  }

  function ParseMcu(t: Trace, s: Scan, dc: DcState, known: seq<Block>, b: nat): (r: Parsed<(seq<seq<int>>, DcState)>)
    requires GoodScan(s) && GoodDc(s, dc) && b <= |known| == |s.membership|
    ensures r.Got? ==> GoodDc(s, r.value.1)
    decreases |known| - b
  {
    if b == |known| then Got(([], dc), t)
    else
      match ParseBlock(t, s, dc, b, known[b])
      case Stuck => Stuck
      case Got(p, rest) =>
        match ParseMcu(rest, s, p.1, known, b + 1)
        case Stuck => Stuck
        case Got(q, rest) => Got(([p.0] + q.0, q.1), rest)
  }

  predicate Is16(x: Block) { forall k :: 0 <= k < 64 ==> -0x8000 <= x[k] <= 0x7FFF }

  /** The one condition on the data: no DC difference of the MCU exceeds 32768. */
  predicate DiffsFit(s: Scan, dc: DcState, xs: seq<Block>, b: nat)
    requires GoodScan(s) && GoodDc(s, dc) && b <= |xs| == |s.membership|
    decreases |xs| - b
  {
    b == |xs| || ((CodesDc(s.kind) ==> Abs(DcDiff(s, dc, b, xs[b])) <= 0x8000) &&
                  DiffsFit(s, AfterBlock(s, dc, b, xs[b]), xs, b + 1))
  }

  lemma {:induction false} ShiftRight16(c: int, al: nat)
    requires -0x8000 <= c <= 0x7FFF
    ensures -0x8000 <= ShiftRight(c, al) <= 0x7FFF
  {
    if al > 0 {
      ShiftRight16(c, al - 1);
    }
  }

  lemma WrappedDc(last: int, v: int)
    requires -0x8000 <= last + v <= 0x7FFF
    ensures ToCoef((last % 0x10000 + v) % 0x10000) == last + v && (last % 0x10000 + v) % 0x10000 == (last + v) % 0x10000
  {
  }

  lemma DcValueRoundTrip(s: Scan, dc: DcState, b: nat, x: Block, rest: Trace)
    requires GoodScan(s) && GoodDc(s, dc) && b < |s.membership| && CodesDc(s.kind) && Is16(x)
    ensures var ci := s.membership[b];
      ParseDcValue(DcTrace(DcArea(s.comps[ci].dcTbl), dc.ctx[ci], DcDiff(s, dc, b, x), rest), s, Wrapped(dc), ci) ==
      if Abs(DcDiff(s, dc, b, x)) <= 0x8000
      then Got((DcValue(s.kind, x), Wrapped(AfterBlock(s, dc, b, x))), rest)
      else Stuck
  {
    hide DcTrace, ParseDc, DcContext;
    var ci, v := s.membership[b], DcDiff(s, dc, b, x);
    DcRoundTrip(DcArea(s.comps[ci].dcTbl), dc.ctx[ci], v, rest);
    if s.kind.DcFirst? {
      ShiftRight16(x[0], s.kind.al);
    }
    WrappedDc(dc.last[ci], v);
    if Abs(v) <= 0x8000 {
      var u := (dc.last[ci] % 0x10000 + v) % 0x10000;
      assert Wrapped(AfterBlock(s, dc, b, x)).last == Wrapped(dc).last[ci := u];
    }
  }

  lemma Transformed16(x: Block, al: nat)
    requires Is16(x)
    ensures InRange16(Transformed(x, al)) && Coarser(Transformed(x, al + 1), Transformed(x, al))
  {
    forall k | 0 <= k < 64 ensures Transformed(x, al + 1)[k] == Halve(Transformed(x, al)[k]) {
      PointTransformHalve(x[k], al);
    }
  }

  lemma SequentialRoundTrip(s: Scan, dc: DcState, b: nat, x: Block, rest: Trace)
    requires GoodScan(s) && GoodDc(s, dc) && b < |s.membership| && Is16(x) && s.kind.Sequential?
    ensures ParseBlock(BlockTrace(s, dc, b, x, rest), s, Wrapped(dc), b, x) ==
      if Abs(DcDiff(s, dc, b, x)) > 0x8000 then Stuck else Got((x, Wrapped(AfterBlock(s, dc, b, x))), rest)
  {
    hide DcTrace, AcTrace, ParseAc, ParseDcValue, InRange16, Coarser, Is16, Wrapped;
    var ci, y := s.membership[b], Transformed(x, 0);
    var acArea, kx := AcArea(s.comps[ci].acTbl), s.kx[s.comps[ci].acTbl];
    Transformed16(x, 0);
    assert y == x;
    DcValueRoundTrip(s, dc, b, x, AcTrace(y, 1, 63, acArea, kx, rest));
    AcRoundTrip(y, 1, 63, acArea, kx, rest);
    assert x == [x[0]] + x[1..64];
  }

  /** A block comes back, and the predictions and contexts stay in step, if and only if its DC
      difference fits. */
  lemma BlockRoundTrip(s: Scan, dc: DcState, b: nat, x: Block, rest: Trace)
    requires GoodScan(s) && GoodDc(s, dc) && b < |s.membership| && Is16(x)
    ensures ParseBlock(BlockTrace(s, dc, b, x, rest), s, Wrapped(dc), b, Known(s.kind, x)) ==
      if CodesDc(s.kind) && Abs(DcDiff(s, dc, b, x)) > 0x8000 then Stuck
      else Got((Conveyed(s.kind, x), Wrapped(AfterBlock(s, dc, b, x))), rest)
  {
    hide DcTrace, AcTrace, RefineTrace, ParseAc, ParseRefine, ParseDcValue, InRange16, Coarser, Is16, Wrapped;
    var ci := s.membership[b];
    var acArea, kx := AcArea(s.comps[ci].acTbl), s.kx[s.comps[ci].acTbl];
    match s.kind
    case Sequential => SequentialRoundTrip(s, dc, b, x, rest);
    case DcFirst(_) => DcValueRoundTrip(s, dc, b, x, rest);
    case DcRefine(_) =>
    case AcFirst(ss, se, al) =>
      Transformed16(x, al);
      AcRoundTrip(Transformed(x, al), ss, se, acArea, kx, rest);
    case AcRefine(ss, se, al) =>
      Transformed16(x, al);
      RefineRoundTrip(Transformed(x, al + 1), Transformed(x, al), ss, se, acArea, rest);
  }

  /** The same for whole MCUs. */
  lemma {:induction false} McuRoundTrip(s: Scan, dc: DcState, xs: seq<Block>, known: seq<Block>, b: nat, rest: Trace)
    requires GoodScan(s) && GoodDc(s, dc) && b <= |xs| == |known| == |s.membership|
    requires forall i :: 0 <= i < |xs| ==> Is16(xs[i]) && known[i] == Known(s.kind, xs[i])
    ensures ParseMcu(McuTrace(s, dc, xs, b, rest), s, Wrapped(dc), known, b) ==
      if DiffsFit(s, dc, xs, b)
      then Got((ConveyedMcu(s.kind, xs[b..]), Wrapped(AfterMcu(s, dc, xs, b))), rest)
      else Stuck
    decreases |xs| - b
  {
    if b < |xs| {
      var dc' := AfterBlock(s, dc, b, xs[b]);
      BlockRoundTrip(s, dc, b, xs[b], McuTrace(s, dc', xs, b + 1, rest));
      McuRoundTrip(s, dc', xs, known, b + 1, rest);
      assert xs[b..][1..] == xs[b + 1..];
    }
  }

  // ----- whole scans -----

  /** The code segments of a scan, one for each restart interval. */
  datatype Segments = Last(t: Trace) | More(t: Trace, others: Segments)

  function AfterRestart(s: Scan, dc: DcState): (r: DcState)
    requires GoodDc(s, dc)
    ensures GoodDc(s, r)
  {
    if CodesDc(s.kind) then DcReset(s) else dc
  }

  predicate GoodMcus(s: Scan, mcus: seq<seq<Block>>) { forall i :: 0 <= i < |mcus| ==> |mcus[i]| == |s.membership| }

  /** togo MCUs are left in the current restart interval. */
  ghost function ScanSegments(s: Scan, dc: DcState, togo: nat, mcus: seq<seq<Block>>): Segments
    requires GoodScan(s) && GoodDc(s, dc) && GoodMcus(s, mcus)
    decreases |mcus|, if togo == 0 then 1 else 0
  {
    if mcus == [] then Last(Done)
    else if s.interval > 0 && togo == 0 then More(Done, ScanSegments(s, AfterRestart(s, dc), s.interval, mcus))
    else
      var togo' := if s.interval > 0 then togo - 1 else togo;
      match ScanSegments(s, AfterMcu(s, dc, mcus[0], 0), togo', mcus[1..])
      case Last(t) => Last(McuTrace(s, dc, mcus[0], 0, t))
      case More(t, others) => More(McuTrace(s, dc, mcus[0], 0, t), others)
  }

  /** Decodes one MCU after the other, moving to the next segment when an interval is used up. */
  function ParseScan(segs: Segments, s: Scan, dc: DcState, togo: nat, known: seq<seq<Block>>): Parsed<seq<seq<seq<int>>>>
    requires GoodScan(s) && GoodDc(s, dc) && GoodMcus(s, known)
    decreases |known|, if togo == 0 then 1 else 0
  {
    if known == [] then Got([], segs.t)
    else if s.interval > 0 && togo == 0 then
      match segs
      case Last(_) => Stuck
      case More(_, others) => ParseScan(others, s, AfterRestart(s, dc), s.interval, known)
    else
      match ParseMcu(segs.t, s, dc, known[0], 0)
      case Stuck => Stuck
      case Got(p, rest) =>
        var togo' := if s.interval > 0 then togo - 1 else togo;
        var segs' := match segs case Last(_) => Last(rest) case More(_, others) => More(rest, others);
        match ParseScan(segs', s, p.1, togo', known[1..])
        case Stuck => Stuck
        case Got(q, rest) => Got([p.0] + q, rest)
  }

  /** Every DC difference of the scan fits. */
  predicate ScanFits(s: Scan, dc: DcState, togo: nat, mcus: seq<seq<Block>>)
    requires GoodScan(s) && GoodDc(s, dc) && GoodMcus(s, mcus)
    decreases |mcus|, if togo == 0 then 1 else 0
  {
    if mcus == [] then true
    else if s.interval > 0 && togo == 0 then ScanFits(s, AfterRestart(s, dc), s.interval, mcus)
    else DiffsFit(s, dc, mcus[0], 0) &&
         ScanFits(s, AfterMcu(s, dc, mcus[0], 0), if s.interval > 0 then togo - 1 else togo, mcus[1..])
  }

  function ConveyedScan(kind: Kind, mcus: seq<seq<Block>>): seq<seq<seq<int>>> {
    if mcus == [] then [] else [ConveyedMcu(kind, mcus[0])] + ConveyedScan(kind, mcus[1..])
  }

  ghost predicate KnownMcus(kind: Kind, mcus: seq<seq<Block>>, known: seq<seq<Block>>) {
    |known| == |mcus| && forall i :: 0 <= i < |mcus| ==> KnownMcu(kind, mcus[i], known[i])
  }

  ghost predicate KnownMcu(kind: Kind, xs: seq<Block>, known: seq<Block>) {
    |known| == |xs| && forall i :: 0 <= i < |xs| ==> Is16(xs[i]) && known[i] == Known(kind, xs[i])
  }

  lemma AllKnown16(kind: Kind, ordered: seq<seq<Block>>, known: seq<seq<Block>>)
    requires KnownMcus(kind, ordered, known)
    ensures forall i, j :: 0 <= i < |ordered| && 0 <= j < |ordered[i]| ==> Is16(ordered[i][j])
  {
    forall i, j | 0 <= i < |ordered| && 0 <= j < |ordered[i]|
      ensures Is16(ordered[i][j])
    {
      assert KnownMcu(kind, ordered[i], known[i]);
    }
  }

  lemma WrappedReset(s: Scan, dc: DcState)
    requires GoodDc(s, dc)
    ensures AfterRestart(s, Wrapped(dc)) == Wrapped(AfterRestart(s, dc))
  {
    assert Wrapped(DcReset(s)).last == DcReset(s).last;
  }

  lemma McuConveyed(s: Scan, dc: DcState, xs: seq<Block>, known: seq<Block>, rest: Trace)
    requires GoodScan(s) && GoodDc(s, dc) && |xs| == |s.membership| && KnownMcu(s.kind, xs, known)
    ensures ParseMcu(McuTrace(s, dc, xs, 0, rest), s, Wrapped(dc), known, 0) ==
      if DiffsFit(s, dc, xs, 0) then Got((ConveyedMcu(s.kind, xs), Wrapped(AfterMcu(s, dc, xs, 0))), rest) else Stuck
  {
    hide McuTrace, ParseMcu, DiffsFit, AfterMcu, Wrapped;
    McuRoundTrip(s, dc, xs, known, 0, rest);
    assert xs[0..] == xs;
  }

  lemma KnownAll(s: Scan, mcus: seq<seq<Block>>, known: seq<seq<Block>>)
    requires GoodMcus(s, mcus) && KnownMcus(s.kind, mcus, known)
    ensures GoodMcus(s, known) && |known| == |mcus|
    ensures mcus != [] ==> KnownMcu(s.kind, mcus[0], known[0]) && KnownMcus(s.kind, mcus[1..], known[1..])
  {
    assert forall i :: 0 <= i < |mcus| ==> KnownMcu(s.kind, mcus[i], known[i]);
  }

  /** A scan comes back MCU by MCU, across any number of restarts, if and only if its DC differences fit. */
  lemma {:induction false} ScanRoundTrip(s: Scan, dc: DcState, togo: nat, mcus: seq<seq<Block>>, known: seq<seq<Block>>)
    requires GoodScan(s) && GoodDc(s, dc) && GoodMcus(s, mcus) && KnownMcus(s.kind, mcus, known)
    ensures GoodMcus(s, known)
    ensures ParseScan(ScanSegments(s, dc, togo, mcus), s, Wrapped(dc), togo, known) ==
      if ScanFits(s, dc, togo, mcus) then Got(ConveyedScan(s.kind, mcus), Done) else Stuck
    decreases |mcus|, if togo == 0 then 1 else 0
  {
    hide McuTrace, ParseMcu, DiffsFit, AfterMcu, Wrapped, KnownMcus, KnownMcu, ConveyedMcu;
    KnownAll(s, mcus, known);
    if mcus != [] {
      if s.interval > 0 && togo == 0 {
        WrappedReset(s, dc);
        ScanRoundTrip(s, AfterRestart(s, dc), s.interval, mcus, known);
      } else {
        var dc', togo' := AfterMcu(s, dc, mcus[0], 0), if s.interval > 0 then togo - 1 else togo;
        McuConveyed(s, dc, mcus[0], known[0], ScanSegments(s, dc', togo', mcus[1..]).t);
        ScanRoundTrip(s, dc', togo', mcus[1..], known[1..]);
      }
    }
  }

  // ----- the data that does not come back -----

  /** A block with only a DC value. */
  function DcBlock(v: int): Block { seq(64, k => if k == 0 then v else 0) }

  /** A sequential scan of one component without restarts. */
  function OneComponent(): (s: Scan)
    ensures GoodScan(s)
  {
    Scan(Sequential, [Component(0, 0)], [0], seq(NUM_ARITH_TBLS, _ => 0), seq(NUM_ARITH_TBLS, _ => 1), seq(NUM_ARITH_TBLS, _ => 5), 0)
  }

  /** Two blocks of 16-bit coefficients whose DC values differ by 32769: the scan is coded, but not decoded. */
  lemma LargeDifferenceIsLost()
    ensures var s, mcus := OneComponent(), [[DcBlock(-0x8000)], [DcBlock(1)]];
      GoodMcus(s, mcus) && KnownMcus(s.kind, mcus, mcus)
      && ParseScan(ScanSegments(s, DcReset(s), 0, mcus), s, Wrapped(DcReset(s)), 0, mcus) == Stuck
  {
    var s, x, y := OneComponent(), DcBlock(-0x8000), DcBlock(1);
    var mcus, dc := [[x], [y]], DcReset(s);
    assert forall i :: 0 <= i < |mcus| ==> KnownMcu(s.kind, mcus[i], mcus[i]);
    ScanRoundTrip(s, dc, 0, mcus, mcus);
    var dc' := AfterMcu(s, dc, [x], 0);
    assert dc' == AfterBlock(s, dc, 0, x) && dc'.last[0] == -0x8000;
    assert !DiffsFit(s, dc', [y], 0);
    assert mcus[1..] == [[y]];
  }

  // ----- bins -----

  lemma BlockBins(s: Scan, dc: DcState, b: nat, x: Block, rest: Trace)
    requires GoodScan(s) && GoodDc(s, dc) && b < |s.membership| && Is16(x) && InBins(rest, NUM_BINS)
    requires CodesDc(s.kind) ==> Abs(DcDiff(s, dc, b, x)) <= 0xFFFF
    ensures InBins(BlockTrace(s, dc, b, x, rest), NUM_BINS)
  {
    var ci := s.membership[b];
    var dcArea, acArea := DcArea(s.comps[ci].dcTbl), AcArea(s.comps[ci].acTbl);
    var kx := s.kx[s.comps[ci].acTbl];
    match s.kind
    case Sequential =>
      Transformed16(x, 0);
      var ac := AcTrace(Transformed(x, 0), 1, 63, acArea, kx, rest);
      AcWithin(Transformed(x, 0), 1, 63, acArea, kx, rest, rest);
      WithinBins(ac, acArea, AC_STAT_BINS, rest);
      DcWithin(dcArea, dc.ctx[ci], DcDiff(s, dc, b, x), ac, ac);
      WithinBins(BlockTrace(s, dc, b, x, rest), dcArea, DC_STAT_BINS, ac);
    case DcFirst(_) =>
      DcWithin(dcArea, dc.ctx[ci], DcDiff(s, dc, b, x), rest, rest);
      WithinBins(BlockTrace(s, dc, b, x, rest), dcArea, DC_STAT_BINS, rest);
    case DcRefine(_) =>
    case AcFirst(ss, se, al) =>
      Transformed16(x, al);
      AcWithin(Transformed(x, al), ss, se, acArea, kx, rest, rest);
      WithinBins(BlockTrace(s, dc, b, x, rest), acArea, AC_STAT_BINS, rest);
    case AcRefine(ss, se, al) =>
      RefineWithin(Transformed(x, al), ss, se, acArea, rest, rest);
      WithinBins(BlockTrace(s, dc, b, x, rest), acArea, AC_STAT_BINS, rest);
  }

  /** The predictions are 16-bit values. */
  predicate Dc16(dc: DcState) { forall i :: 0 <= i < |dc.last| ==> -0x8000 <= dc.last[i] <= 0x7FFF }

  lemma Dc16Next(s: Scan, dc: DcState, b: nat, x: Block)
    requires GoodScan(s) && GoodDc(s, dc) && b < |s.membership| && Is16(x) && Dc16(dc)
    ensures Dc16(AfterBlock(s, dc, b, x)) && (CodesDc(s.kind) ==> Abs(DcDiff(s, dc, b, x)) <= 0xFFFF)
  {
    if s.kind.DcFirst? {
      ShiftRight16(x[0], s.kind.al);
    }
  }

  lemma {:induction false} McuBins(s: Scan, dc: DcState, xs: seq<Block>, b: nat, rest: Trace)
    requires GoodScan(s) && GoodDc(s, dc) && b <= |xs| == |s.membership| && InBins(rest, NUM_BINS)
    requires (forall i :: 0 <= i < |xs| ==> Is16(xs[i])) && Dc16(dc)
    ensures InBins(McuTrace(s, dc, xs, b, rest), NUM_BINS)
    ensures Dc16(AfterMcu(s, dc, xs, b))
    decreases |xs| - b
  {
    if b < |xs| {
      var dc' := AfterBlock(s, dc, b, xs[b]);
      Dc16Next(s, dc, b, xs[b]);
      McuBins(s, dc', xs, b + 1, rest);
      BlockBins(s, dc, b, xs[b], McuTrace(s, dc', xs, b + 1, rest));
    }
  }

  predicate SegmentBins(segs: Segments) {
    InBins(segs.t, NUM_BINS) && (segs.More? ==> SegmentBins(segs.others))
  }

  lemma {:induction false} ScanBins(s: Scan, dc: DcState, togo: nat, mcus: seq<seq<Block>>)
    requires GoodScan(s) && GoodDc(s, dc) && GoodMcus(s, mcus) && Dc16(dc)
    requires forall i, j :: 0 <= i < |mcus| && 0 <= j < |mcus[i]| ==> Is16(mcus[i][j])
    ensures SegmentBins(ScanSegments(s, dc, togo, mcus))
    decreases |mcus|, if togo == 0 then 1 else 0
  {
    if mcus != [] {
      if s.interval > 0 && togo == 0 {
        ScanBins(s, AfterRestart(s, dc), s.interval, mcus);
      } else {
        var dc', togo' := AfterMcu(s, dc, mcus[0], 0), if s.interval > 0 then togo - 1 else togo;
        McuBins(s, dc, mcus[0], 0, Done);
        ScanBins(s, dc', togo', mcus[1..]);
        McuBins(s, dc, mcus[0], 0, ScanSegments(s, dc', togo', mcus[1..]).t);
      }
    }
  }
}
