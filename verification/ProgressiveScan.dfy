/** Progressive Huffman scans of every kind: what each MCU adds, restart intervals, and what a decoder gets. */
module ProgressiveScan {
  import opened Bytes
  import opened BitStrings
  import opened Coefficients
  import opened ZigZag
  import opened HuffmanCodes
  import opened HuffmanItems
  import opened SeqHuffman
  import opened HuffmanScan
  import opened ProgressiveBands
  import opened ProgressiveDecoding
  import opened RestartIntervals

  datatype Kind = DcFirst(al: nat) | DcRefine(al: nat) | AcBand(band: Band, al: nat)

  datatype ProgScan = ProgScan(kind: Kind, comps: seq<Component>, membership: seq<nat>, interval: nat)

  predicate GoodProgScan(s: ProgScan) {
    && (forall i :: 0 <= i < |s.comps| ==> s.comps[i].dcTbl < 4 && s.comps[i].acTbl < 4)
    && (forall i :: 0 <= i < |s.membership| ==> s.membership[i] < |s.comps|)
    && (s.kind.AcBand? ==> GoodBand(s.kind.band) && |s.membership| == 1 == |s.comps|)
  }

  /** DC predictions, and the end-of-block run that waits. */
  datatype State = State(last: seq<int>, pending: Pending)

  predicate GoodState(s: ProgScan, st: State) {
    |st.last| == |s.comps| && Waiting(st.pending)
  }

  function Initial(s: ProgScan): (st: State)
    ensures GoodState(s, st)
  {
    State(seq(|s.comps|, _ => 0), Pending(0, []))
  }

  function DiffItems(t: TableId, diff: int, rest: Items): Items {
    Sym(t, Size(diff) % 256, Raw(ExtraBits(diff), Size(diff), rest))
  }

  /** DC differences of the blocks from b on. */
  function DcFirstItems(s: ProgScan, last: seq<int>, xs: Mcu, b: nat, rest: Items): Items
    requires GoodProgScan(s) && s.kind.DcFirst? && |last| == |s.comps| && |xs| == |s.membership| && b <= |xs|
    decreases |xs| - b
  {
    if b == |xs| then rest
    else
      var ci, v := s.membership[b], ShiftRight(xs[b][0], s.kind.al);
      DiffItems(DcTable(s.comps[ci].dcTbl), v - last[ci], DcFirstItems(s, last[ci := v], xs, b + 1, rest))
  }

  function DcFirstLast(s: ProgScan, last: seq<int>, xs: Mcu, b: nat): (r: seq<int>)
    requires GoodProgScan(s) && s.kind.DcFirst? && |last| == |s.comps| && |xs| == |s.membership| && b <= |xs|
    ensures |r| == |last|
    decreases |xs| - b
  {
    if b == |xs| then last
    else DcFirstLast(s, last[s.membership[b] := ShiftRight(xs[b][0], s.kind.al)], xs, b + 1)
  }

  /** The bit of weight 2^al of a DC value. */
  function DcBit(v: int, al: nat): bit { ShiftRight(v, al) % 2 }

  function DcRefineItems(xs: Mcu, al: nat, b: nat, rest: Items): Items
    requires b <= |xs|
    decreases |xs| - b
  {
    if b == |xs| then rest else Raw(DcBit(xs[b][0], al), 1, DcRefineItems(xs, al, b + 1, rest))
  }

  function AcTableOf(s: ProgScan): TableId
    requires GoodProgScan(s) && s.kind.AcBand?
  {
    AcTable(s.comps[0].acTbl)
  }

  /** What an MCU adds to the items of its segment. */
  function ProgMcuItems(s: ProgScan, st: State, xs: Mcu, rest: Items): Items
    requires GoodProgScan(s) && GoodState(s, st) && |xs| == |s.membership|
  {
    match s.kind
    case DcFirst(_) => DcFirstItems(s, st.last, xs, 0, rest)
    case DcRefine(al) => DcRefineItems(xs, al, 0, rest)
    case AcBand(b, al) => BlockStep(AcTableOf(s), b, st.pending, Transformed(xs[0], al), rest)
  }

  function ProgAfterMcu(s: ProgScan, st: State, xs: Mcu): (r: State)
    requires GoodProgScan(s) && GoodState(s, st) && |xs| == |s.membership|
    ensures GoodState(s, r)
  {
    match s.kind
    case DcFirst(_) => st.(last := DcFirstLast(s, st.last, xs, 0))
    case DcRefine(_) => st
    case AcBand(b, al) =>
      NextWaits(b, st.pending, Transformed(xs[0], al));
      st.(pending := NextPending(b, st.pending, Transformed(xs[0], al)))
  }

  /** What is left to write at the end of a segment. */
  function EndItems(s: ProgScan, st: State, rest: Items): Items
    requires GoodProgScan(s)
  {
    if s.kind.AcBand? then EobRun(AcTableOf(s), st.pending.run, st.pending.be, rest) else rest
  }

  predicate GoodProgMcus(s: ProgScan, mcus: seq<Mcu>) { forall i :: 0 <= i < |mcus| ==> |mcus[i]| == |s.membership| }

  /** A scan, segment by segment; togo MCUs are left in the restart interval. */
  function ProgScanItems(s: ProgScan, st: State, togo: nat, mcus: seq<Mcu>): Segs
    requires GoodProgScan(s) && GoodState(s, st) && GoodProgMcus(s, mcus)
    decreases |mcus|, if togo == 0 then 1 else 0
  {
    if mcus == [] then Last(EndItems(s, st, Nil))
    else if s.interval > 0 && togo == 0 then
      More(EndItems(s, st, Nil), ProgScanItems(s, Initial(s), s.interval, mcus))
    else
      var segs := ProgScanItems(s, ProgAfterMcu(s, st, mcus[0]), if s.interval > 0 then togo - 1 else togo, mcus[1..]);
      First(segs, ProgMcuItems(s, st, mcus[0], segs.items))
  }

  // What the encoder accepts.

  predicate DcFirstFits(s: ProgScan, last: seq<int>, xs: Mcu, b: nat, m: nat)
    requires GoodProgScan(s) && s.kind.DcFirst? && |last| == |s.comps| && |xs| == |s.membership| && b <= |xs|
    decreases |xs| - b
  {
    b < |xs| ==>
      var ci, v := s.membership[b], ShiftRight(xs[b][0], s.kind.al);
      Size(v - last[ci]) <= m && DcFirstFits(s, last[ci := v], xs, b + 1, m)
  }

  /** Values of at most maxBits bits, and DC differences of at most one more; refinement scans take any block. */
  predicate ProgMcuFits(s: ProgScan, st: State, xs: Mcu, maxBits: nat)
    requires GoodProgScan(s) && GoodState(s, st) && |xs| == |s.membership|
  {
    match s.kind
    case DcFirst(_) => DcFirstFits(s, st.last, xs, 0, maxBits + 1)
    case DcRefine(_) => true
    case AcBand(b, al) => b.refine || FitsBand(b, Transformed(xs[0], al), maxBits)
  }

  predicate ProgScanFits(s: ProgScan, st: State, togo: nat, mcus: seq<Mcu>, maxBits: nat)
    requires GoodProgScan(s) && GoodState(s, st) && GoodProgMcus(s, mcus)
    decreases |mcus|, if togo == 0 then 1 else 0
  {
    if mcus == [] then true
    else if s.interval > 0 && togo == 0 then ProgScanFits(s, Initial(s), s.interval, mcus, maxBits)
    else (
      && ProgMcuFits(s, st, mcus[0], maxBits)
      && ProgScanFits(s, ProgAfterMcu(s, st, mcus[0]), if s.interval > 0 then togo - 1 else togo, mcus[1..], maxBits)
    )
  }

  // One MCU of a scan, as the encoder sees it.

  /** The state an MCU starts with: anew if the restart interval is used up. */
  function StartState(s: ProgScan, st: State, togo: nat): (r: State)
    requires GoodState(s, st)
    ensures GoodState(s, r)
  {
    if s.interval > 0 && togo == 0 then Initial(s) else st
  }

  /** The MCUs left in the restart interval after one more. */
  function ToGoNext(s: ProgScan, togo: nat): nat {
    if s.interval == 0 then togo else if togo == 0 then s.interval - 1 else togo - 1
  }

  /** The items of an MCU and of what follows, in a new segment if the interval is used up. */
  function ProgMcuSegs(s: ProgScan, st: State, togo: nat, xs: Mcu, rest: Segs): Segs
    requires GoodProgScan(s) && GoodState(s, st) && |xs| == |s.membership|
  {
    var segs := First(rest, ProgMcuItems(s, StartState(s, st, togo), xs, rest.items));
    if s.interval > 0 && togo == 0 then More(EndItems(s, st, Nil), segs) else segs
  }

  /** A scan is its first MCU and the scan of the others. */
  lemma ProgScanIsMcu(s: ProgScan, st: State, togo: nat, mcus: seq<Mcu>, m: nat)
    requires GoodProgScan(s) && GoodState(s, st) && GoodProgMcus(s, mcus) && mcus != []
    ensures var st' := ProgAfterMcu(s, StartState(s, st, togo), mcus[0]);
            && ProgScanItems(s, st, togo, mcus)
               == ProgMcuSegs(s, st, togo, mcus[0], ProgScanItems(s, st', ToGoNext(s, togo), mcus[1..]))
            && (ProgScanFits(s, st, togo, mcus, m)
                <==> (ProgMcuFits(s, StartState(s, st, togo), mcus[0], m)
                      && ProgScanFits(s, st', ToGoNext(s, togo), mcus[1..], m)))
  {
  }

  // Segments are restart intervals.

  /** The items of one segment. */
  function SegmentItems(s: ProgScan, st: State, mcus: seq<Mcu>): Items
    requires GoodProgScan(s) && GoodState(s, st) && GoodProgMcus(s, mcus)
    decreases |mcus|
  {
    if mcus == [] then EndItems(s, st, Nil)
    else ProgMcuItems(s, st, mcus[0], SegmentItems(s, ProgAfterMcu(s, st, mcus[0]), mcus[1..]))
  }

  /** The segments hold the given restart intervals; all but the first start anew. */
  ghost predicate Holds(s: ProgScan, st: State, segs: Segs, ints: seq<seq<Mcu>>)
    requires GoodProgScan(s) && GoodState(s, st)
    decreases segs
  {
    && ints != [] && GoodProgMcus(s, ints[0]) && segs.items == SegmentItems(s, st, ints[0])
    && (segs.More? <==> |ints| > 1)
    && (segs.More? ==> Holds(s, Initial(s), segs.others, ints[1..]))
  }

  lemma {:induction false} ScanHolds(s: ProgScan, st: State, togo: nat, mcus: seq<Mcu>)
    requires GoodProgScan(s) && GoodState(s, st) && GoodProgMcus(s, mcus)
    ensures Holds(s, st, ProgScanItems(s, st, togo, mcus), Intervals(s.interval, togo, mcus))
    decreases |mcus|, if togo == 0 then 1 else 0
  {
    if mcus == [] {
    } else if s.interval > 0 && togo == 0 {
      ScanHolds(s, Initial(s), s.interval, mcus);
      var more := Intervals(s.interval, s.interval, mcus);
      assert ([[]] + more)[1..] == more;
    } else {
      var togo' := if s.interval > 0 then togo - 1 else togo;
      var st' := ProgAfterMcu(s, st, mcus[0]);
      ScanHolds(s, st', togo', mcus[1..]);
      HoldsFirst(s, st, mcus[0], ProgScanItems(s, st', togo', mcus[1..]), Intervals(s.interval, togo', mcus[1..]));
    }
  }

  lemma HoldsFirst(s: ProgScan, st: State, xs: Mcu, segs: Segs, ints: seq<seq<Mcu>>)
    requires GoodProgScan(s) && GoodState(s, st) && |xs| == |s.membership|
    requires Holds(s, ProgAfterMcu(s, st, xs), segs, ints)
    ensures Holds(s, st, First(segs, ProgMcuItems(s, st, xs, segs.items)), [[xs] + ints[0]] + ints[1..])
  {
    var all := [[xs] + ints[0]] + ints[1..];
    assert ([xs] + ints[0])[1..] == ints[0];
    assert all[1..] == ints[1..];
  }

  // What the decoder gets from a segment.

  /** DC values at the precision of the scan, of the blocks from b on. */
  function ParseDcFirst(read: seq<Reader>, s: ProgScan, last: seq<int>, b: nat, bits: seq<bit>): Parsed<seq<int>>
    requires GoodProgScan(s) && s.kind.DcFirst? && |last| == |s.comps| && |read| == NUM_TABLES && b <= |s.membership|
    decreases |s.membership| - b
  {
    if b == |s.membership| then Got([], bits)
    else
      var ci := s.membership[b];
      match ParseDiff(read[DcTable(s.comps[ci].dcTbl)], bits)
      case Stuck => Stuck
      case Got(diff, bits') =>
        var v := last[ci] + diff;
        match ParseDcFirst(read, s, last[ci := v], b + 1, bits')
        case Stuck => Stuck
        case Got(vs, bits'') => Got([v] + vs, bits'')
  }

  /** The DC values of an MCU at the precision of the scan. */
  function DcValues(xs: Mcu, al: nat): (vs: seq<int>)
    ensures |vs| == |xs| && forall i :: 0 <= i < |xs| ==> vs[i] == ShiftRight(xs[i][0], al)
  {
    seq(|xs|, i requires 0 <= i < |xs| => ShiftRight(xs[i][0], al))
  }

  function UpdateLast(s: ProgScan, last: seq<int>, vs: seq<int>, b: nat): (r: seq<int>)
    requires GoodProgScan(s) && |last| == |s.comps| && |vs| == |s.membership| && b <= |vs|
    ensures |r| == |last|
    decreases |vs| - b
  {
    if b == |vs| then last else UpdateLast(s, last[s.membership[b] := vs[b]], vs, b + 1)
  }

  /** The DC values of n MCUs. */
  function ParseDcFirsts(read: seq<Reader>, s: ProgScan, last: seq<int>, n: nat, bits: seq<bit>): Parsed<seq<seq<int>>>
    requires GoodProgScan(s) && s.kind.DcFirst? && |last| == |s.comps| && |read| == NUM_TABLES
    decreases n
  {
    if n == 0 then Got([], bits)
    else
      match ParseDcFirst(read, s, last, 0, bits)
      case Stuck => Stuck
      case Got(vs, bits') =>
        if |vs| != |s.membership| then Stuck
        else
          match ParseDcFirsts(read, s, UpdateLast(s, last, vs, 0), n - 1, bits')
          case Stuck => Stuck
          case Got(more, bits'') => Got([vs] + more, bits'')
  }

  lemma DiffItemRoundTrip(read: Reader, book: CodeBook, t: TableId, diff: int, rest: Items, tail: seq<bit>)
    requires Reads(read, book[t]) && Size(diff) < 256 && Covered(book, DiffItems(t, diff, rest))
    ensures ParseDiff(read, ItemBits(book, DiffItems(t, diff, rest), tail)) == Got(diff, ItemBits(book, rest, tail))
    ensures Covered(book, rest)
  {
    assert DiffItems(t, diff, rest) == DcItems(t, diff, rest);
    DiffRoundTrip(read, book, t, diff, rest, tail);
    CoveredDc(book, t, diff, rest);
  }

  lemma ParseDcStep(read: seq<Reader>, s: ProgScan, last: seq<int>, b: nat, bits: seq<bit>, v: int, bits': seq<bit>,
                    vs: seq<int>, bits'': seq<bit>)
    requires GoodProgScan(s) && s.kind.DcFirst? && |last| == |s.comps| && |read| == NUM_TABLES && b < |s.membership|
    requires var ci := s.membership[b];
             ParseDiff(read[DcTable(s.comps[ci].dcTbl)], bits) == Got(v - last[ci], bits')
             && ParseDcFirst(read, s, last[ci := v], b + 1, bits') == Got(vs, bits'')
    ensures ParseDcFirst(read, s, last, b, bits) == Got([v] + vs, bits'')
  {
  }

  /** The DC values of the blocks from b on are decoded. */
  ghost predicate DcDecodes(read: seq<Reader>, book: CodeBook, s: ProgScan, last: seq<int>, xs: Mcu, b: nat, rest: Items, tail: seq<bit>)
    requires GoodProgScan(s) && s.kind.DcFirst? && |last| == |s.comps| && |xs| == |s.membership| && |read| == NUM_TABLES && b <= |xs|
  {
    ParseDcFirst(read, s, last, b, ItemBits(book, DcFirstItems(s, last, xs, b, rest), tail))
    == Got(DcValues(xs, s.kind.al)[b..], ItemBits(book, rest, tail))
  }

  lemma DcDecodesOne(read: seq<Reader>, book: CodeBook, s: ProgScan, last: seq<int>, xs: Mcu, b: nat, rest: Items, tail: seq<bit>,
                     t: TableId, v: int, last': seq<int>)
    requires ReadsBook(read, book) && GoodProgScan(s) && s.kind.DcFirst? && |last| == |s.comps| && |xs| == |s.membership|
    requires b < |xs| && v == ShiftRight(xs[b][0], s.kind.al) && t == DcTable(s.comps[s.membership[b]].dcTbl)
    requires last' == last[s.membership[b] := v] && DcDecodes(read, book, s, last', xs, b + 1, rest, tail)
    requires ParseDiff(read[t], ItemBits(book, DiffItems(t, v - last[s.membership[b]], DcFirstItems(s, last', xs, b + 1, rest)), tail))
          == Got(v - last[s.membership[b]], ItemBits(book, DcFirstItems(s, last', xs, b + 1, rest), tail))
    ensures DcDecodes(read, book, s, last, xs, b, rest, tail)
  {
    hide DiffItems, ParseDiff;
    var vs, more := DcValues(xs, s.kind.al), DcFirstItems(s, last', xs, b + 1, rest);
    assert vs[b..] == [v] + vs[b + 1..];
    ParseDcStep(read, s, last, b, ItemBits(book, DiffItems(t, v - last[s.membership[b]], more), tail), v,
                ItemBits(book, more, tail), vs[b + 1..], ItemBits(book, rest, tail));
  }

  lemma {:induction false} DcFirstRoundTrip(read: seq<Reader>, book: CodeBook, s: ProgScan, last: seq<int>, xs: Mcu, b: nat,
                                            rest: Items, tail: seq<bit>)
    requires ReadsBook(read, book) && GoodProgScan(s) && s.kind.DcFirst? && |last| == |s.comps| && |xs| == |s.membership|
    requires b <= |xs| && DcFirstFits(s, last, xs, b, 255) && Covered(book, DcFirstItems(s, last, xs, b, rest))
    ensures DcDecodes(read, book, s, last, xs, b, rest, tail)
    ensures Covered(book, rest)
    decreases |xs| - b
  {
    hide Extend, ExtraBits, ItemBits, BitLength, ParseDiff;
    if b < |xs| {
      var ci, v := s.membership[b], ShiftRight(xs[b][0], s.kind.al);
      var t, last' := DcTable(s.comps[ci].dcTbl), last[ci := v];
      DiffItemRoundTrip(read[t], book, t, v - last[ci], DcFirstItems(s, last', xs, b + 1, rest), tail);
      DcFirstRoundTrip(read, book, s, last', xs, b + 1, rest, tail);
      DcDecodesOne(read, book, s, last, xs, b, rest, tail, t, v, last');
    } else {
      assert DcValues(xs, s.kind.al)[b..] == [];
    }
  }

  lemma {:induction false} LastUpdated(s: ProgScan, last: seq<int>, xs: Mcu, b: nat)
    requires GoodProgScan(s) && s.kind.DcFirst? && |last| == |s.comps| && |xs| == |s.membership| && b <= |xs|
    ensures UpdateLast(s, last, DcValues(xs, s.kind.al), b) == DcFirstLast(s, last, xs, b)
    decreases |xs| - b
  {
    if b < |xs| {
      LastUpdated(s, last[s.membership[b] := ShiftRight(xs[b][0], s.kind.al)], xs, b + 1);
    }
  }

  predicate DcSegmentFits(s: ProgScan, st: State, mcus: seq<Mcu>)
    requires GoodProgScan(s) && GoodState(s, st) && GoodProgMcus(s, mcus) && s.kind.DcFirst?
    decreases |mcus|
  {
    mcus != [] ==> DcFirstFits(s, st.last, mcus[0], 0, 255) && DcSegmentFits(s, ProgAfterMcu(s, st, mcus[0]), mcus[1..])
  }

  function AllDcValues(mcus: seq<Mcu>, al: nat): (vs: seq<seq<int>>)
    ensures |vs| == |mcus| && forall i :: 0 <= i < |mcus| ==> vs[i] == DcValues(mcus[i], al)
  {
    seq(|mcus|, i requires 0 <= i < |mcus| => DcValues(mcus[i], al))
  }

  /** A segment of a first DC scan gives every DC value back, shifted right by al. */
  lemma {:induction false} DcFirstSegment(read: seq<Reader>, book: CodeBook, s: ProgScan, st: State, mcus: seq<Mcu>, tail: seq<bit>)
    requires ReadsBook(read, book) && GoodProgScan(s) && s.kind.DcFirst? && GoodState(s, st) && GoodProgMcus(s, mcus)
    requires DcSegmentFits(s, st, mcus) && Covered(book, SegmentItems(s, st, mcus))
    ensures ParseDcFirsts(read, s, st.last, |mcus|, ItemBits(book, SegmentItems(s, st, mcus), tail))
         == Got(AllDcValues(mcus, s.kind.al), tail)
    decreases |mcus|
  {
    var all := AllDcValues(mcus, s.kind.al);
    if mcus != [] {
      var st' := ProgAfterMcu(s, st, mcus[0]);
      var vs := DcValues(mcus[0], s.kind.al);
      DcFirstRoundTrip(read, book, s, st.last, mcus[0], 0, SegmentItems(s, st', mcus[1..]), tail);
      LastUpdated(s, st.last, mcus[0], 0);
      assert vs[0..] == vs;
      DcFirstSegment(read, book, s, st', mcus[1..], tail);
      assert all == [vs] + AllDcValues(mcus[1..], s.kind.al);
    } else {
      assert all == [];
    }
  }

  /** One bit of the DC value of each of n blocks. */
  function ParseDcBits(n: nat, bits: seq<bit>): Parsed<seq<bit>> {
    if n == 0 then Got([], bits)
    else if bits == [] then Stuck
    else
      match ParseDcBits(n - 1, bits[1..])
      case Stuck => Stuck
      case Got(vs, rest) => Got([bits[0]] + vs, rest)
  }

  function ParseDcRefines(m: nat, n: nat, bits: seq<bit>): Parsed<seq<seq<bit>>> {
    if n == 0 then Got([], bits)
    else
      match ParseDcBits(m, bits)
      case Stuck => Stuck
      case Got(vs, bits') =>
        match ParseDcRefines(m, n - 1, bits')
        case Stuck => Stuck
        case Got(more, rest) => Got([vs] + more, rest)
  }

  function DcBits(xs: Mcu, al: nat): (vs: seq<bit>)
    ensures |vs| == |xs| && forall i :: 0 <= i < |xs| ==> vs[i] == DcBit(xs[i][0], al)
  {
    seq(|xs|, i requires 0 <= i < |xs| => DcBit(xs[i][0], al))
  }

  function AllDcBits(mcus: seq<Mcu>, al: nat): (vs: seq<seq<bit>>)
    ensures |vs| == |mcus| && forall i :: 0 <= i < |mcus| ==> vs[i] == DcBits(mcus[i], al)
  {
    seq(|mcus|, i requires 0 <= i < |mcus| => DcBits(mcus[i], al))
  }

  lemma {:induction false} DcBitsRoundTrip(book: CodeBook, xs: Mcu, al: nat, b: nat, rest: Items, tail: seq<bit>)
    requires b <= |xs|
    ensures ParseDcBits(|xs| - b, ItemBits(book, DcRefineItems(xs, al, b, rest), tail))
         == Got(DcBits(xs, al)[b..], ItemBits(book, rest, tail))
    decreases |xs| - b
  {
    if b < |xs| {
      var v := DcBit(xs[b][0], al);
      RawOne(book, v, DcRefineItems(xs, al, b + 1, rest), tail);
      DcBitsRoundTrip(book, xs, al, b + 1, rest, tail);
      assert DcBits(xs, al)[b..] == [v] + DcBits(xs, al)[b + 1..];
    } else {
      assert DcBits(xs, al)[b..] == [];
    }
  }

  /** A segment of a DC refinement scan gives the bit of weight 2^al of every DC value. */
  lemma {:induction false} DcRefineSegment(book: CodeBook, s: ProgScan, st: State, mcus: seq<Mcu>, tail: seq<bit>)
    requires GoodProgScan(s) && s.kind.DcRefine? && GoodState(s, st) && GoodProgMcus(s, mcus)
    ensures ParseDcRefines(|s.membership|, |mcus|, ItemBits(book, SegmentItems(s, st, mcus), tail))
         == Got(AllDcBits(mcus, s.kind.al), tail)
    decreases |mcus|
  {
    var all := AllDcBits(mcus, s.kind.al);
    if mcus != [] {
      var vs := DcBits(mcus[0], s.kind.al);
      DcBitsRoundTrip(book, mcus[0], s.kind.al, 0, SegmentItems(s, ProgAfterMcu(s, st, mcus[0]), mcus[1..]), tail);
      assert vs[0..] == vs;
      DcRefineSegment(book, s, ProgAfterMcu(s, st, mcus[0]), mcus[1..], tail);
      assert all == [vs] + AllDcBits(mcus[1..], s.kind.al);
    } else {
      assert all == [];
    }
  }

  /** The bit of a refinement scan and the value of the scan before it make the value at the new precision. */
  lemma DcRefines(v: int, al: nat)
    ensures ShiftRight(v, al) == 2 * ShiftRight(v, al + 1) + DcBit(v, al)
  {
  }

  /** The single blocks of a segment of an AC scan, at its precision. */
  function BandBlocks(mcus: seq<Mcu>, al: nat): (xs: seq<Block>)
    requires forall i :: 0 <= i < |mcus| ==> |mcus[i]| == 1
    ensures |xs| == |mcus| && forall i :: 0 <= i < |mcus| ==> xs[i] == Transformed(mcus[i][0], al)
  {
    seq(|mcus|, i requires 0 <= i < |mcus| => Transformed(mcus[i][0], al))
  }

  lemma {:induction false} SegmentIsDelayed(s: ProgScan, st: State, mcus: seq<Mcu>)
    requires GoodProgScan(s) && s.kind.AcBand? && GoodState(s, st) && GoodProgMcus(s, mcus)
    ensures SegmentItems(s, st, mcus) == Delayed(AcTableOf(s), s.kind.band, st.pending, BandBlocks(mcus, s.kind.al), Nil)
    decreases |mcus|
  {
    if mcus != [] {
      SegmentIsDelayed(s, ProgAfterMcu(s, st, mcus[0]), mcus[1..]);
      assert BandBlocks(mcus, s.kind.al)[1..] == BandBlocks(mcus[1..], s.kind.al);
    }
  }
}
