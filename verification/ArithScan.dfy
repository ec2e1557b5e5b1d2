/** The arithmetic entropy encoder's MCU routines: they hand decisions to the coder, keep the DC
    predictions and contexts, and restart.  Each is proved against the traces of ArithModel. */
module ArithScan {
  import opened Bytes
  import opened BitStrings
  import opened Coefficients
  import opened IntervalCoder
  import opened ZigZag
  import opened ArithModel
  import opened ArithMcu
  import Prediction = ArithPrediction
  import RestartIntervals

  /** The band of a scan in zigzag order, after the point transform. */
  function Band(order: Order, block: Block, al: nat): Block { seq(64, k requires 0 <= k < 64 => PointTransform(block[order[k]], al)) }

  /** Coefficients beyond the previous stage's last one are exactly the new ones. */
  lemma NewFrom(x: seq<int>, k: nat, ke: nat, kex: nat, se: nat)
    requires 1 <= k <= ke <= se < |x| && kex <= ke && AllZero(x, ke + 1, se)
    requires AllNew(x, kex + 1, ke) && (kex > 0 ==> Abs(x[kex]) >= 2)
    ensures k > kex <==> AllNew(x, k, se)
  {
  }

  lemma BandAt(order: Order, block: Block, al: nat, k: nat)
    requires k <= 63
    ensures var c, v := block[order[k]], Band(order, block, al)[k];
      v == PointTransform(c, al) && Abs(v) == Shr(Abs(c), al) && (v != 0 ==> SignBit(v) == SignBit(c))
  {
  }

  class EntropyModel {
    var log: Log                 // what arith_encode has been asked to code in this segment
    var segments: seq<Trace>     // the segments closed by restarts
    var markers: seq<int>        // the markers written after them
    var lastDc: seq<int>         // last_dc_val
    var dcContext: seq<nat>      // dc_context
    var restartsToGo: nat
    var nextRestart: nat
    const scan: Scan

    const order: Order  // jpeg_natural_order

    ghost predicate Valid()
      reads this
    {
      && GoodScan(scan) && GoodDc(scan, Dc()) && order[0] == 0
      && |markers| == |segments| && nextRestart == |segments| % 8
      && forall i :: 0 <= i < |markers| ==> markers[i] == JPEG_RST0 + i % 8
    }

    function Dc(): DcState
      reads this
    {
      DcState(lastDc, dcContext)
    }

    /** start_pass. */
    constructor (order: Order, scan: Scan)
      requires GoodScan(scan) && order[0] == 0
      ensures Valid() && this.order == order && this.scan == scan
      ensures log == Nothing && segments == [] && Dc() == DcReset(scan) && restartsToGo == scan.interval
    {
      this.order, this.scan := order, scan;
      log, segments, markers := Nothing, [], [];
      lastDc, dcContext := seq(|scan.comps|, _ => 0), seq(|scan.comps|, _ => 0);
      restartsToGo, nextRestart := scan.interval, 0;
    }

    /** A call of the coder. */
    method Emit(bin: nat, val: bit)
      modifies `log
      ensures log == Add(old(log), Decision(bin, val))
    {
      log := Add(log, Decision(bin, val));
    }

    /** Codes the length of v2 in unary, doubling m for each bit beyond the first; the final zero
        is left to the caller. */
    method EmitLength(v2: nat, st: nat, m: nat, ghost rest: Trace) returns (m': nat, st': nat)
      requires v2 > 0
      modifies `log
      ensures Append(log, Put(st', 0, rest)) == Append(old(log), UnaryTrace(BitLength(v2) - 1, st, rest))
      ensures st' == st + BitLength(v2) - 1 && m' == Shl(m, BitLength(v2) - 1)
    {
      m', st' := m, st;
      var v: nat := v2 / 2;
      ghost var goal := Append(log, UnaryTrace(BitLength(v), st, rest));
      while v != 0
        invariant Append(log, UnaryTrace(BitLength(v), st', rest)) == goal
        invariant st' + BitLength(v) == st + BitLength(v2) - 1
        invariant Shl(m', BitLength(v)) == Shl(m, BitLength(v2) - 1)
        decreases v
      {
        ShlEven(m', BitLength(v / 2));
        Emit(st', 1);
        m' := 2 * m';
        st' := st' + 1;
        v := v / 2;
      }
    }

    /** Codes the bits of v below m, which is its highest one bit. */
    method EmitPattern(v: nat, m: nat, st: nat, ghost rest: Trace)
      requires v > 0 && m == Pow2(BitLength(v) - 1)
      modifies `log
      ensures Append(log, rest) == Append(old(log), PatternTrace(v, BitLength(v) - 1, st, rest))
    {
      ghost var j: nat := BitLength(v) - 1;
      ghost var goal := Append(log, PatternTrace(v, j, st, rest));
      var m := m / 2;
      while m != 0
        invariant m == if j == 0 then 0 else Pow2(j - 1)
        invariant Append(log, PatternTrace(v, j, st, rest)) == goal
        decreases m
      {
        BitAtDiv(v, j - 1);
        Emit(st, v / m % 2);
        m := m / 2;
        j := j - 1;
      }
    }

    /** Figures F.4 to F.9 for a DC difference; the result is the next conditioning category. */
    method EncodeDcDiff(area: nat, ctx: nat, diff: int, lower: nat, upper: nat, ghost rest: Trace) returns (next: nat)
      modifies `log
      ensures Append(log, rest) == Append(old(log), DcTrace(area, ctx, diff, rest))
      ensures next == DcContext(diff, lower, upper)
    {
      hide Pow2, BitLength;
      var st, v := area + ctx, diff;
      if v == 0 {
        Emit(st, 0);
        next := 0;
      } else {
        Emit(st, 1);
        if v > 0 {
          Emit(st + 1, 0);
          st := st + 2;
          next := 4;
        } else {
          v := -v;
          Emit(st + 1, 1);
          st := st + 3;
          next := 8;
        }
        var m := EncodeDcMagnitude(area, st, v - 1, rest);
        if m < Pow2(lower) / 2 {
          next := 0;
        } else if m > Pow2(upper) / 2 {
          next := next + 8;
        }
      }
    }

    /** The magnitude v + 1 of a DC difference; m is the highest one bit of v. */
    method EncodeDcMagnitude(area: nat, st: nat, v: nat, ghost rest: Trace) returns (m: nat)
      modifies `log
      ensures Append(log, rest) == Append(old(log), DcMagnitude(area, st, v, rest))
      ensures m == if v == 0 then 0 else Pow2(BitLength(v) - 1)
    {
      var bin := st;
      m := 0;
      if v != 0 {
        Emit(bin, 1);
        ghost var n := BitLength(v) - 1;
        m, bin := EmitLength(v, area + 20, 1, PatternTrace(v, n, area + 34 + n, rest));
      }
      Emit(bin, 0);
      if v != 0 {
        EmitPattern(v, m, bin + 14, rest);
      }
    }

    /** The sign and the magnitude of a nonzero AC coefficient. */
    method EncodeCoefficient(st: nat, x1: nat, v: int, ghost rest: Trace)
      requires v != 0
      modifies `log
      ensures Append(log, rest) == Append(old(log), Coefficient(st, x1, v, rest))
    {
      Emit(FIXED_BIN, if v < 0 then 1 else 0);
      EncodeAcMagnitude(st, x1, Abs(v) - 1, rest);
    }

    /** The magnitude v + 1 of an AC coefficient. */
    method EncodeAcMagnitude(st: nat, x1: nat, v: nat, ghost rest: Trace)
      modifies `log
      ensures Append(log, rest) == Append(old(log), AcMagnitude(st, x1, v, rest))
    {
      var bin, m := st, 0;
      if v != 0 {
        Emit(st, 1);
        m := 1;
        var v2 := v / 2;
        if v2 != 0 {
          Emit(st, 1);
          ghost var n := BitLength(v) - 1;
          m, bin := EmitLength(v2, x1, 2, PatternTrace(v, n, x1 + 13 + n, rest));
          ShlEven(1, BitLength(v2) - 1);
        }
      }
      Emit(bin, 0);
      if v != 0 {
        EmitPattern(v, m, bin + 14, rest);
      }
    }

    /** The last coefficient of the band that is still nonzero after the point transform. */
    method EndOfBlock(block: Block, se: nat, al: nat) returns (ke: nat)
      requires se <= 63
      ensures ke <= se && AllZero(Band(order, block, al), ke + 1, se)
      ensures ke > 0 ==> Band(order, block, al)[ke] != 0
    {
      ke := se;
      while ke > 0 && Shr(Abs(block[order[ke]]), al) == 0
        invariant ke <= se && AllZero(Band(order, block, al), ke + 1, se)
      {
        ke := ke - 1;
      }
    }

    /** encode_mcu_AC_first, and with ss = 1, se = 63, al = 0 the AC part of encode_mcu. */
    method EncodeAcFirst(block: Block, ss: nat, se: nat, al: nat, area: nat, kx: nat, ghost rest: Trace)
      requires 1 <= ss <= se <= 63
      modifies `log
      ensures Append(log, rest) == Append(old(log), AcTrace(Band(order, block, al), ss, se, area, kx, rest))
    {
      hide Band, AcRun, PointTransform;
      ghost var x := Band(order, block, al);
      ghost var goal := Append(log, AcTrace(x, ss, se, area, kx, rest));
      var ke := EndOfBlock(block, se, al);
      var k := ss;
      while k <= ke
        invariant ss <= k <= se + 1
        invariant Append(log, AcTrace(x, k, se, area, kx, rest)) == goal
      {
        assert x[ke] != 0;
        Emit(area + 3 * (k - 1), 0);
        k := EncodeAcRun(block, k, ke, se, al, area, kx, rest);
      }
      if k <= se {
        assert AllZero(x, k, se);
        Emit(area + 3 * (k - 1), 1);
      }
    }

    /** The zeros before the next nonzero coefficient. */
    method SkipZeros(block: Block, k0: nat, ke: nat, se: nat, al: nat, area: nat, kx: nat, ghost rest: Trace)
      returns (k: nat)
      requires 1 <= k0 <= ke <= se <= 63 && Band(order, block, al)[ke] != 0
      modifies `log
      ensures k0 <= k <= ke && Band(order, block, al)[k] != 0
      ensures Append(log, AcRun(Band(order, block, al), k, se, area, kx, rest)) ==
              Append(old(log), AcRun(Band(order, block, al), k0, se, area, kx, rest))
    {
      hide Band, Shr, AcTrace;
      ghost var x := Band(order, block, al);
      ghost var goal := Append(log, AcRun(x, k0, se, area, kx, rest));
      k := k0;
      BandAt(order, block, al, k);
      while Shr(Abs(block[order[k]]), al) == 0
        invariant k0 <= k <= ke && (x[k] == 0 <==> Shr(Abs(block[order[k]]), al) == 0)
        invariant Append(log, AcRun(x, k, se, area, kx, rest)) == goal
        decreases ke - k
      {
        assert k != ke;
        BandAt(order, block, al, k + 1);
        Emit(area + 3 * (k - 1) + 1, 0);
        k := k + 1;
      }
    }

    /** A run of zeros and the coefficient that ends it. */
    method EncodeAcRun(block: Block, k0: nat, ke: nat, se: nat, al: nat, area: nat, kx: nat, ghost rest: Trace)
      returns (k: nat)
      requires 1 <= k0 <= ke <= se <= 63 && Band(order, block, al)[ke] != 0
      modifies `log
      ensures k0 < k <= ke + 1
      ensures Append(log, AcTrace(Band(order, block, al), k, se, area, kx, rest)) ==
              Append(old(log), AcRun(Band(order, block, al), k0, se, area, kx, rest))
    {
      hide Band, Shr, AcMagnitude, DcMagnitude;
      k := SkipZeros(block, k0, ke, se, al, area, kx, rest);
      BandAt(order, block, al, k);
      var st, v := area + 3 * (k - 1), PointTransform(block[order[k]], al);
      Emit(st + 1, 1);
      EncodeCoefficient(st + 2, if k <= kx then area + 189 else area + 217, v,
                        AcTrace(Band(order, block, al), k + 1, se, area, kx, rest));
      k := k + 1;
    }

    /** The last coefficient up to ke that was already nonzero at the previous stage. */
    method PreviousEnd(block: Block, ke: nat, ah: nat) returns (kex: nat)
      requires ke <= 63 && ah > 0
      ensures kex <= ke && AllNew(Band(order, block, ah - 1), kex + 1, ke)
      ensures kex > 0 ==> Abs(Band(order, block, ah - 1)[kex]) >= 2
    {
      kex := ke;
      while kex > 0 && Shr(Abs(block[order[kex]]), ah) == 0
        invariant kex <= ke && AllNew(Band(order, block, ah - 1), kex + 1, ke)
      {
        kex := kex - 1;
      }
    }

    /** encode_mcu_AC_refine. */
    method EncodeAcRefine(block: Block, ss: nat, se: nat, al: nat, area: nat, ghost rest: Trace)
      requires 1 <= ss <= se <= 63
      modifies `log
      ensures Append(log, rest) == Append(old(log), RefineTrace(Band(order, block, al), ss, se, area, rest))
    {
      ghost var x := Band(order, block, al);
      ghost var goal := Append(log, RefineTrace(x, ss, se, area, rest));
      var ke := EndOfBlock(block, se, al);
      var kex := PreviousEnd(block, ke, al + 1);
      var k := ss;
      while k <= ke
        invariant ss <= k <= se + 1
        invariant Append(log, RefineTrace(x, k, se, area, rest)) == goal
      {
        NewFrom(x, k, ke, kex, se);
        assert x[ke] != 0;
        if k > kex {
          Emit(area + 3 * (k - 1), 0);
        }
        k := EncodeRefineRun(block, k, ke, se, al, area, rest);
      }
      if k <= se {
        assert AllZero(x, k, se);
        Emit(area + 3 * (k - 1), 1);
      }
    }

    /** The zeros before the next nonzero coefficient. */
    method SkipRefineZeros(block: Block, k0: nat, ke: nat, se: nat, al: nat, area: nat, ghost rest: Trace)
      returns (k: nat)
      requires 1 <= k0 <= ke <= se <= 63 && Band(order, block, al)[ke] != 0
      modifies `log
      ensures k0 <= k <= ke && Band(order, block, al)[k] != 0
      ensures Append(log, RefineRun(Band(order, block, al), k, se, area, rest)) ==
              Append(old(log), RefineRun(Band(order, block, al), k0, se, area, rest))
    {
      hide Band, Shr, AllNew, RefineTrace;
      ghost var x := Band(order, block, al);
      ghost var goal := Append(log, RefineRun(x, k0, se, area, rest));
      k := k0;
      BandAt(order, block, al, k);
      while Shr(Abs(block[order[k]]), al) == 0
        invariant k0 <= k <= ke && (x[k] == 0 <==> Shr(Abs(block[order[k]]), al) == 0)
        invariant Append(log, RefineRun(x, k, se, area, rest)) == goal
        decreases ke - k
      {
        assert k != ke;
        BandAt(order, block, al, k + 1);
        Emit(area + 3 * (k - 1) + 1, 0);
        k := k + 1;
      }
    }

    /** A run of zeros and the coefficient that ends it: a correction bit if it was already nonzero
        at the previous stage, otherwise its sign. */
    method EncodeRefineRun(block: Block, k0: nat, ke: nat, se: nat, al: nat, area: nat, ghost rest: Trace)
      returns (k: nat)
      requires 1 <= k0 <= ke <= se <= 63 && Band(order, block, al)[ke] != 0
      modifies `log
      ensures k0 < k <= ke + 1
      ensures Append(log, RefineTrace(Band(order, block, al), k, se, area, rest)) ==
              Append(old(log), RefineRun(Band(order, block, al), k0, se, area, rest))
    {
      hide Band, Shr, AllZero, AllNew;
      k := SkipRefineZeros(block, k0, ke, se, al, area, rest);
      BandAt(order, block, al, k);
      var st, v := area + 3 * (k - 1), Shr(Abs(block[order[k]]), al);
      if v / 2 != 0 {
        Emit(st + 2, v % 2);
      } else {
        Emit(st + 1, 1);
        Emit(FIXED_BIN, if block[order[k]] < 0 then 1 else 0);
      }
      k := k + 1;
    }

    /** Closes the segment, writes the marker and resets the predictions. */
    method EmitRestart()
      requires Valid()
      modifies this
      ensures Valid() && restartsToGo == scan.interval
      ensures log == Nothing && segments == old(segments) + [Append(old(log), Done)]
      ensures Dc() == AfterRestart(scan, old(Dc()))
    {
      hide ScanSegments, AcTrace, Append, GoodScan;
      segments := segments + [Append(log, Done)];
      markers := markers + [JPEG_RST0 + nextRestart];
      log := Nothing;
      if scan.kind.Sequential? || scan.kind.DcFirst? {
        lastDc := seq(|scan.comps|, _ => 0);
        dcContext := seq(|scan.comps|, _ => 0);
      }
      restartsToGo := scan.interval;
      nextRestart := (nextRestart + 1) % 8;
    }

    /** The blocks of an MCU in zigzag order. */
    ghost function Ordered(blocks: seq<Block>): (r: seq<Block>)
      ensures r == ReorderedMcu(blocks, order)
    {
      ReorderedMcu(blocks, order)
    }

    /** One block, as encode_mcu and its progressive variants code it. */
    method EncodeBlock(b: nat, block: Block, ghost rest: Trace)
      requires Valid() && b < |scan.membership|
      modifies `log, `lastDc, `dcContext
      ensures Valid() && Dc() == AfterBlock(scan, old(Dc()), b, Reordered(block, order))
      ensures Append(log, rest) == Append(old(log), BlockTrace(scan, old(Dc()), b, Reordered(block, order), rest))
    {
      hide Band, Transformed, Reordered, DcTrace, AcTrace, RefineTrace, ShiftRight, DcContext;
      var ci := scan.membership[b];
      var dcTbl, acTbl := scan.comps[ci].dcTbl, scan.comps[ci].acTbl;
      ghost var x := Reordered(block, order);
      match scan.kind {
        case Sequential =>
          BandTransformed(order, block, 0);
          EncodeDc(ci, block[0], AcTrace(Transformed(x, 0), 1, 63, AcArea(acTbl), scan.kx[acTbl], rest));
          EncodeAcFirst(block, 1, 63, 0, AcArea(acTbl), scan.kx[acTbl], rest);
        case DcFirst(al) =>
          EncodeDc(ci, ShiftRight(block[0], al), rest);
        case DcRefine(al) =>
          Emit(FIXED_BIN, ShiftRight(block[0], al) % 2);
        case AcFirst(ss, se, al) =>
          BandTransformed(order, block, al);
          EncodeAcFirst(block, ss, se, al, AcArea(acTbl), scan.kx[acTbl], rest);
        case AcRefine(ss, se, al) =>
          BandTransformed(order, block, al);
          EncodeAcRefine(block, ss, se, al, AcArea(acTbl), rest);
      }
    }

    /** The DC part of a block: the difference from the prediction, which is then updated. */
    method EncodeDc(ci: nat, m: int, ghost rest: Trace)
      requires Valid() && ci < |scan.comps|
      modifies `log, `lastDc, `dcContext
      ensures Valid() && lastDc == old(lastDc)[ci := m]
      ensures var tbl, v := scan.comps[ci].dcTbl, m - old(lastDc)[ci];
        dcContext == old(dcContext)[ci := DcContext(v, scan.lower[tbl], scan.upper[tbl])] &&
        Append(log, rest) == Append(old(log), DcTrace(DcArea(tbl), old(dcContext)[ci], v, rest))
    {
      var tbl := scan.comps[ci].dcTbl;
      var next := EncodeDcDiff(DcArea(tbl), dcContext[ci], m - lastDc[ci], scan.lower[tbl], scan.upper[tbl], rest);
      lastDc := lastDc[ci := m];
      dcContext := dcContext[ci := next];
    }

    /** The blocks of one MCU. */
    method EncodeBlocks(blocks: seq<Block>, ghost rest: Trace)
      requires Valid() && |blocks| == |scan.membership|
      modifies `log, `lastDc, `dcContext
      ensures Valid() && Dc() == AfterMcu(scan, old(Dc()), Ordered(blocks), 0)
      ensures Append(log, rest) == Append(old(log), McuTrace(scan, old(Dc()), Ordered(blocks), 0, rest))
    {
      hide BlockTrace, AfterBlock, Reordered;
      ghost var xs := Ordered(blocks);
      ghost var goal := Append(log, McuTrace(scan, Dc(), xs, 0, rest));
      ghost var end := AfterMcu(scan, Dc(), xs, 0);
      for b := 0 to |blocks|
        invariant Valid()
        invariant Append(log, McuTrace(scan, Dc(), xs, b, rest)) == goal && AfterMcu(scan, Dc(), xs, b) == end
      {
        ghost var dc := Dc();
        EncodeBlock(b, blocks[b], McuTrace(scan, AfterBlock(scan, dc, b, xs[b]), xs, b + 1, rest));
      }
    }

    /** The segments of the scan so far, if `segs` is what the MCUs still to come contribute. */
    ghost function Whole(segs: Segments): Segments
      reads this
    {
      Joined(segments, log, segs)
    }

    /** encode_mcu and its progressive variants, restart included. */
    method EncodeMcu(blocks: seq<Block>, ghost others: seq<seq<Block>>)
      requires Valid() && |blocks| == |scan.membership| && GoodMcus(scan, others)
      modifies this
      ensures Valid()
      ensures Whole(ScanSegments(scan, Dc(), restartsToGo, others)) ==
              old(Whole(ScanSegments(scan, Dc(), restartsToGo, [Ordered(blocks)] + others)))
    {
      hide McuTrace, AfterMcu;
      ghost var mcus := [Ordered(blocks)] + others;
      assert mcus[1..] == others && mcus[0] == Ordered(blocks);
      ghost var goal := Whole(ScanSegments(scan, Dc(), restartsToGo, mcus));
      if scan.interval != 0 {
        if restartsToGo == 0 {
          EmitRestart();
          JoinedRestart(old(segments), old(log), ScanSegments(scan, Dc(), restartsToGo, mcus));
        }
        assert Whole(ScanSegments(scan, Dc(), restartsToGo, mcus)) == goal;
        restartsToGo := restartsToGo - 1;
      }
      ghost var dc, before := Dc(), log;
      ghost var tail := ScanSegments(scan, AfterMcu(scan, dc, mcus[0], 0), restartsToGo, others);
      EncodeBlocks(blocks, tail.t);
      ghost var first := McuTrace(scan, dc, mcus[0], 0, tail.t);
      JoinedAdvance(segments, before, if tail.Last? then Last(first) else More(first, tail.others), log, tail);
    }

    /** A whole scan. */
    method EncodeScan(mcus: seq<seq<Block>>) returns (traces: seq<Trace>)
      requires Valid() && GoodMcus(scan, mcus)
      requires log == Nothing && segments == [] && Dc() == DcReset(scan) && restartsToGo == scan.interval
      modifies this
      ensures Listed(traces) == ScanSegments(scan, DcReset(scan), scan.interval, OrderedMcus(mcus)) && traces != []
      ensures Prediction.Sends(scan, Prediction.NOTHING, Listed(traces),
                               RestartIntervals.Intervals(scan.interval, scan.interval, OrderedMcus(mcus)))
    {
      hide Prediction.Sends, RestartIntervals.Intervals;
      ghost var xs := OrderedMcus(mcus);
      ghost var goal := ScanSegments(scan, DcReset(scan), scan.interval, xs);
      for i := 0 to |mcus|
        invariant Valid() && GoodMcus(scan, xs[i..])
        invariant Whole(ScanSegments(scan, Dc(), restartsToGo, xs[i..])) == goal
      {
        assert xs[i..] == [Ordered(mcus[i])] + xs[i + 1..];
        EncodeMcu(mcus[i], xs[i + 1..]);
      }
      traces := segments + [Append(log, Done)];
      assert xs[|mcus|..] == [];
      JoinedEnd(segments, log);
      Prediction.DifferencesLookBack(scan, xs);
    }

    ghost function OrderedMcus(mcus: seq<seq<Block>>): (r: seq<seq<Block>>)
      ensures |r| == |mcus| && forall i :: 0 <= i < |mcus| ==> r[i] == Ordered(mcus[i])
    {
      seq(|mcus|, i requires 0 <= i < |mcus| => Ordered(mcus[i]))
    }
  }

  const JPEG_RST0 := 0xD0

  lemma BandTransformed(order: Order, block: Block, al: nat)
    ensures Band(order, block, al) == Transformed(Reordered(block, order), al)
    ensures Reordered(block, order)[0] == block[order[0]]
  {
  }

  /** A nonempty list of traces as segments. */
  function Listed(ts: seq<Trace>): Segments {
    if |ts| <= 1 then Last(if ts == [] then Done else ts[0]) else More(ts[0], Listed(ts[1..]))
  }

  /** Closed segments, then the open one continued by the first of `segs`, then the others. */
  ghost function Joined(closed: seq<Trace>, log: Log, segs: Segments): Segments
    decreases |closed|
  {
    if closed != [] then More(closed[0], Joined(closed[1..], log, segs))
    else
      match segs
      case Last(t) => Last(Append(log, t))
      case More(t, others) => More(Append(log, t), others)
  }

  lemma {:induction false} JoinedRestart(closed: seq<Trace>, log: Log, segs: Segments)
    ensures Joined(closed + [Append(log, Done)], Nothing, segs) == Joined(closed, log, More(Done, segs))
    decreases |closed|
  {
    if closed == [] {
      assert (closed + [Append(log, Done)])[1..] == [];
    } else {
      assert (closed + [Append(log, Done)])[1..] == closed[1..] + [Append(log, Done)];
      JoinedRestart(closed[1..], log, segs);
    }
  }

  lemma {:induction false} JoinedAdvance(closed: seq<Trace>, log: Log, segs: Segments, log': Log, segs': Segments)
    requires Append(log, segs.t) == Append(log', segs'.t)
    requires segs.Last? == segs'.Last? && (segs.More? ==> segs.others == segs'.others)
    ensures Joined(closed, log, segs) == Joined(closed, log', segs')
    decreases |closed|
  {
    if closed != [] {
      JoinedAdvance(closed[1..], log, segs, log', segs');
    }
  }

  lemma {:induction false} JoinedEnd(closed: seq<Trace>, log: Log)
    ensures Joined(closed, log, Last(Done)) == Listed(closed + [Append(log, Done)])
    decreases |closed|
  {
    if closed != [] {
      assert (closed + [Append(log, Done)])[1..] == closed[1..] + [Append(log, Done)];
      JoinedEnd(closed[1..], log);
    }
  }
}
