/**
 * Whole scan scripts: decoding the scans of an accepted progressive script in order brings every
 * coefficient of every component to the precision of the last scan that sends it.
 */
module ScriptDecoding {
  import opened Bytes
  import opened BitStrings
  import opened Coefficients
  import opened ZigZag
  import opened HuffmanItems
  import opened SeqHuffman
  import opened HuffmanScan
  import opened ProgressiveBands
  import opened ProgressiveDecoding
  import opened ProgressiveScan
  import opened Progression
  import opened ProgressiveRoundTrip
  import opened RestartIntervals
  import Script = ScanScript
  import SimpleProgression

  /** The blocks of every component, in zigzag order. */
  type Image = seq<seq<Block>>

  predicate SameShape(a: Image, b: Image) { |a| == |b| && forall c :: 0 <= c < |a| ==> |a[c]| == |b[c]| }

  /**
   * What a decoder knows of a scan: its kind and tables, how many MCUs it has, and in which block of which
   * MCU the scan sends block i of component c.
   */
  datatype Plan = Plan(scan: ProgScan, mcus: nat, spots: seq<seq<(nat, nat)>>)

  function KindOf(s: Script.ScanInfo): Kind
    requires 0 <= s.ss && 0 <= s.se && 0 <= s.al
  {
    if s.ss == 0 then (if s.ah == 0 then DcFirst(s.al) else DcRefine(s.al))
    else AcBand(Band.Band(s.ah != 0, s.ss, s.se), s.al)
  }

  /** The plan is for a scan of the script, for components of the image's shape. */
  predicate Planned(s: Script.ScanInfo, p: Plan, held: Image, precision: nat) {
    && Script.ComponentsOk(s, |held|) && Script.BandOk(s, precision)
    && GoodProgScan(p.scan) && p.scan.kind == KindOf(s)
    && |p.spots| == |held| && (forall c :: 0 <= c < |held| ==> |p.spots[c]| == |held[c]|)
  }

  // The decoder.

  datatype Delivery = Lost | Delivered(image: Image)

  /** The DC values, or bits, of all segments, MCU by MCU. */
  function DcSegments(read: seq<Reader>, s: ProgScan, sizes: seq<nat>, bits: seq<seq<bit>>): Parsed<seq<seq<int>>>
    requires GoodProgScan(s) && !s.kind.AcBand? && |read| == NUM_TABLES
    decreases |sizes|
  {
    if sizes == [] then Got([], [])
    else if bits == [] then Stuck
    else
      match DcSegment(read, s, sizes[0], bits[0])
      case Stuck => Stuck
      case Got(vs, _) =>
        match DcSegments(read, s, sizes[1..], bits[1..])
        case Stuck => Stuck
        case Got(more, _) => Got(vs + more, [])
  }

  function DcSegment(read: seq<Reader>, s: ProgScan, n: nat, bits: seq<bit>): Parsed<seq<seq<int>>>
    requires GoodProgScan(s) && !s.kind.AcBand? && |read| == NUM_TABLES
  {
    if s.kind.DcFirst? then ParseDcFirsts(read, s, Initial(s).last, n, bits)
    else
      match ParseDcRefines(|s.membership|, n, bits)
      case Stuck => Stuck
      case Got(vs, rest) => Got(vs, rest)
  }

  /** The blocks of all segments of an AC scan. */
  function AcSegments(read: Reader, b: Band, held: seq<seq<Block>>, bits: seq<seq<bit>>): Parsed<seq<Block>>
    requires GoodBand(b)
    decreases |held|
  {
    if held == [] then Got([], [])
    else if bits == [] then Stuck
    else
      match ParseBands(read, b, held[0], 0, bits[0])
      case Stuck => Stuck
      case Got(xs, _) =>
        match AcSegments(read, b, held[1..], bits[1..])
        case Stuck => Stuck
        case Got(more, _) => Got(xs + more, [])
  }

  /** A DC value after a scan: the value sent, or one more bit. */
  function NewDc(refine: bool, v: int, sent: int): int { if refine then 2 * v + sent else sent }

  function Sent(p: Plan, vs: seq<seq<int>>, c: nat, i: nat): int
    requires c < |p.spots| && i < |p.spots[c]|
  {
    var (j, b) := p.spots[c][i];
    if j < |vs| && b < |vs[j]| then vs[j][b] else 0
  }

  function WithDc(p: Plan, comps: seq<int>, refine: bool, vs: seq<seq<int>>, held: Image): (r: Image)
    requires |p.spots| == |held| && forall c :: 0 <= c < |held| ==> |p.spots[c]| == |held[c]|
    ensures SameShape(r, held)
    ensures forall c, i :: 0 <= c < |held| && 0 <= i < |held[c]| ==>
      r[c][i] == if c in comps then held[c][i][0 := NewDc(refine, held[c][i][0], Sent(p, vs, c, i))] else held[c][i]
  {
    seq(|held|, c requires 0 <= c < |held| =>
      seq(|held[c]|, i requires 0 <= i < |held[c]| =>
        if c in comps then held[c][i][0 := NewDc(refine, held[c][i][0], Sent(p, vs, c, i))] else held[c][i]))
  }

  /** Decodes the segments of one scan into the image. */
  function DecodeScan(read: seq<Reader>, s: Script.ScanInfo, p: Plan, held: Image, bits: seq<seq<bit>>, precision: nat): Delivery
    requires |read| == NUM_TABLES && Planned(s, p, held, precision)
  {
    match p.scan.kind
    case AcBand(b, _) =>
      (var c := s.comps[0];
       match AcSegments(read[AcTableOf(p.scan)], b, Intervals(p.scan.interval, p.scan.interval, held[c]), bits)
       case Stuck => Lost
       case Got(xs, _) => Delivered(held[c := xs]))
    case _ =>
      match DcSegments(read, p.scan, Quotas(p.scan.interval, p.mcus), bits)
      case Stuck => Lost
      case Got(vs, _) => Delivered(WithDc(p, s.comps, s.ah != 0, vs, held))
  }

  // What a scan conveys.

  /** The blocks of the components are where the plan says, and an AC scan has one of them in each MCU. */
  ghost predicate InPlace(s: Script.ScanInfo, p: Plan, image: Image, mcus: seq<Mcu>, precision: nat)
    requires Planned(s, p, image, precision)
  {
    if p.scan.kind.AcBand? then
      |mcus| == |image[s.comps[0]]| && forall i :: 0 <= i < |mcus| ==> mcus[i] == [image[s.comps[0]][i]]
    else
      forall c, i :: c in s.comps && 0 <= i < |image[c]| ==> Spotted(mcus, p.spots[c][i], image[c][i])
  }

  predicate Spotted(mcus: seq<Mcu>, spot: (nat, nat), x: Block) {
    spot.0 < |mcus| && spot.1 < |mcus[spot.0]| && mcus[spot.0][spot.1] == x
  }

  /** The segments of a scan of the image decode to what their MCUs convey. */
  ghost predicate Carried(read: seq<Reader>, s: Script.ScanInfo, p: Plan, image: Image, mcus: seq<Mcu>, bits: seq<seq<bit>>,
                          precision: nat)
    requires |read| == NUM_TABLES && Planned(s, p, image, precision)
  {
    && |mcus| == p.mcus && GoodProgMcus(p.scan, mcus) && InPlace(s, p, image, mcus, precision)
    && AllConveyed(read, p.scan, Intervals(p.scan.interval, p.scan.interval, mcus), bits)
  }

  ghost predicate AllConveyed(read: seq<Reader>, s: ProgScan, ints: seq<seq<Mcu>>, bits: seq<seq<bit>>)
    requires |read| == NUM_TABLES && GoodProgScan(s)
  {
    |bits| == |ints| && forall k :: 0 <= k < |ints| ==> GoodProgMcus(s, ints[k]) && SegmentDecodes(read, s, ints[k], bits[k])
  }

  // Segments of DC scans.

  function DcSent(kind: Kind, mcus: seq<Mcu>): (vs: seq<seq<int>>)
    requires !kind.AcBand?
    ensures |vs| == |mcus| && forall j :: 0 <= j < |mcus| ==> |vs[j]| == |mcus[j]|
    ensures forall j, b :: 0 <= j < |mcus| && 0 <= b < |mcus[j]| ==>
      vs[j][b] == if kind.DcFirst? then ShiftRight(mcus[j][b][0], kind.al) else DcBit(mcus[j][b][0], kind.al)
  {
    if kind.DcFirst? then AllDcValues(mcus, kind.al) else AllDcBits(mcus, kind.al)
  }

  lemma DcSentJoin(kind: Kind, xs: seq<Mcu>, ys: seq<Mcu>)
    requires !kind.AcBand?
    ensures DcSent(kind, xs + ys) == DcSent(kind, xs) + DcSent(kind, ys)
  {
    forall j | 0 <= j < |xs + ys|
      ensures DcSent(kind, xs + ys)[j] == (DcSent(kind, xs) + DcSent(kind, ys))[j]
    {
    }
  }

  lemma {:induction false} DcSegmentsDecode(read: seq<Reader>, s: ProgScan, ints: seq<seq<Mcu>>, bits: seq<seq<bit>>)
    requires |read| == NUM_TABLES && GoodProgScan(s) && !s.kind.AcBand? && AllConveyed(read, s, ints, bits)
    ensures DcSegments(read, s, Sizes(ints), bits) == Got(DcSent(s.kind, Joined(ints)), [])
    decreases |ints|
  {
    if ints == [] {
      assert DcSent(s.kind, []) == [];
    } else {
      assert GoodProgMcus(s, ints[0]) && SegmentDecodes(read, s, ints[0], bits[0]);
      DcSegmentsDecode(read, s, ints[1..], bits[1..]);
      assert Sizes(ints)[1..] == Sizes(ints[1..]);
      DcSentJoin(s.kind, ints[0], Joined(ints[1..]));
    }
  }

  // Segments of AC scans.

  predicate Single(mcus: seq<Mcu>) { forall i :: 0 <= i < |mcus| ==> |mcus[i]| == 1 }

  lemma OverlaysJoin(b: Band, al: nat, xs: seq<Mcu>, more: seq<Mcu>, ys: seq<Block>, others: seq<Block>)
    requires GoodBand(b) && Single(xs) && Single(more) && |xs| == |ys| && |more| == |others|
    ensures Single(xs + more)
    ensures Overlays(b, AtPrecision(Alone(xs + more), al), ys + others)
         == Overlays(b, AtPrecision(Alone(xs), al), ys) + Overlays(b, AtPrecision(Alone(more), al), others)
  {
    hide Overlay, Transformed;
    assert AtPrecision(Alone(xs + more), al) == AtPrecision(Alone(xs), al) + AtPrecision(Alone(more), al);
  }

  /** The blocks the decoder holds are as a scan of the band at bit al expects them. */
  ghost predicate AllHolding(b: Band, al: nat, ints: seq<seq<Mcu>>, held: seq<seq<Block>>)
    requires GoodBand(b)
  {
    |held| == |ints| && forall k :: 0 <= k < |ints| ==> Single(ints[k]) && Holding(b, Alone(ints[k]), al, held[k])
  }

  lemma {:induction false} AcSegmentsDecode(read: seq<Reader>, s: ProgScan, ints: seq<seq<Mcu>>, held: seq<seq<Block>>,
                                            bits: seq<seq<bit>>)
    requires |read| == NUM_TABLES && GoodProgScan(s) && s.kind.AcBand? && AllConveyed(read, s, ints, bits)
    requires AllHolding(s.kind.band, s.kind.al, ints, held)
    ensures Single(Joined(ints)) && |Joined(ints)| == |Joined(held)|
    ensures AcSegments(read[AcTableOf(s)], s.kind.band, held, bits)
         == Got(Overlays(s.kind.band, AtPrecision(Alone(Joined(ints)), s.kind.al), Joined(held)), [])
    decreases |ints|
  {
    if ints != [] {
      assert GoodProgMcus(s, ints[0]) && SegmentDecodes(read, s, ints[0], bits[0]);
      assert Single(ints[0]) && Holding(s.kind.band, Alone(ints[0]), s.kind.al, held[0]);
      AcSegmentsDecode(read, s, ints[1..], held[1..], bits[1..]);
      OverlaysJoin(s.kind.band, s.kind.al, ints[0], Joined(ints[1..]), held[0], Joined(held[1..]));
    }
  }

  // What the decoder holds.

  /** A coefficient as far as bit l: the point transform of its kind; nothing while l is negative. */
  function Precise(v: int, k: nat, l: int): int {
    if l < 0 then 0 else if k == 0 then ShiftRight(v, l) else PointTransform(v, l)
  }

  /** Block y holds block x of component c as far as the scans have sent it. */
  predicate UpToBlock(script: seq<Script.ScanInfo>, c: nat, x: Block, y: Block) {
    forall k: nat :: k < 64 ==> y[k] == Precise(x[k], k, Script.LastBit(script, c, k))
  }

  /** The decoder holds every coefficient to the last bit position at which the scans have sent it. */
  predicate UpTo(script: seq<Script.ScanInfo>, image: Image, held: Image) {
    && SameShape(image, held)
    && forall c: nat, i: nat :: c < |image| && i < |image[c]| ==> UpToBlock(script, c, image[c][i], held[c][i])
  }

  /** A scan that does not have the component leaves it alone. */
  lemma OtherBlock(before: seq<Script.ScanInfo>, s: Script.ScanInfo, c: nat, x: Block, y: Block)
    requires UpToBlock(before, c, x, y) && c !in s.comps
    ensures UpToBlock(before + [s], c, x, y)
  {
    hide Script.LastBit, Precise;
    forall k: nat | k < 64
      ensures y[k] == Precise(x[k], k, Script.LastBit(before + [s], c, k))
    {
      Script.LastBitNext(before, s, c, k);
    }
  }

  /** One DC value: the first bits, or one more. */
  lemma DcBlock(before: seq<Script.ScanInfo>, s: Script.ScanInfo, c: nat, x: Block, y: Block, sent: int)
    requires UpToBlock(before, c, x, y) && c in s.comps && s.ss == 0 == s.se && s.al >= 0 && Script.InStep(before, s, c, 0)
    requires sent == if s.ah == 0 then ShiftRight(x[0], s.al) else DcBit(x[0], s.al)
    ensures UpToBlock(before + [s], c, x, y[0 := NewDc(s.ah != 0, y[0], sent)])
  {
    hide Script.LastBit;
    var z := y[0 := NewDc(s.ah != 0, y[0], sent)];
    forall k: nat | k < 64
      ensures z[k] == Precise(x[k], k, Script.LastBit(before + [s], c, k))
    {
      Script.LastBitNext(before, s, c, k);
      if k == 0 && s.ah != 0 {
        DcRefines(x[0], s.al);
      }
    }
  }

  /** A decoder that is up to date holds what the next scan of a band expects. */
  lemma ReadyForBand(before: seq<Script.ScanInfo>, s: Script.ScanInfo, c: nat, x: Block, y: Block)
    requires UpToBlock(before, c, x, y) && c in s.comps && 1 <= s.ss <= s.se <= 63 && s.al >= 0
    requires forall k: nat :: Script.InStep(before, s, c, k)
    ensures HoldingBlock(Band.Band(s.ah != 0, s.ss, s.se), x, s.al, y)
  {
    hide Script.LastBit;
    forall k | s.ss <= k <= s.se
      ensures y[k] == if s.ah != 0 then PointTransform(x[k], s.al + 1) else 0
    {
      assert Script.InStep(before, s, c, k);
    }
  }

  /** One block of a band. */
  lemma BandBlock(before: seq<Script.ScanInfo>, s: Script.ScanInfo, c: nat, x: Block, y: Block, b: Band)
    requires UpToBlock(before, c, x, y) && c in s.comps && b.ss == s.ss && b.se == s.se && GoodBand(b) && s.al >= 0
    ensures UpToBlock(before + [s], c, x, Overlay(b, Transformed(x, s.al), y))
  {
    hide Script.LastBit, PointTransform;
    var z := Overlay(b, Transformed(x, s.al), y);
    forall k: nat | k < 64
      ensures z[k] == Precise(x[k], k, Script.LastBit(before + [s], c, k))
    {
      Script.LastBitNext(before, s, c, k);
    }
  }

  // One scan.

  lemma DcScanReceived(read: seq<Reader>, before: seq<Script.ScanInfo>, s: Script.ScanInfo, p: Plan, image: Image, held: Image,
                       mcus: seq<Mcu>, bits: seq<seq<bit>>, precision: nat)
    requires |read| == NUM_TABLES && UpTo(before, image, held) && Planned(s, p, image, precision) && !p.scan.kind.AcBand?
    requires Carried(read, s, p, image, mcus, bits, precision) && Script.ScanInStep(before, s)
    ensures Planned(s, p, held, precision)
    ensures var r := DecodeScan(read, s, p, held, bits, precision); r.Delivered? && UpTo(before + [s], image, r.image)
  {
    hide AllConveyed, DcSegments, UpToBlock, Script.InStep, ShiftRight, DcBit;
    var ints := Intervals(p.scan.interval, p.scan.interval, mcus);
    DcSegmentsDecode(read, p.scan, ints, bits);
    IntervalsJoin(p.scan.interval, p.scan.interval, mcus);
    QuotasOf(p.scan.interval, mcus);
    var vs := DcSent(p.scan.kind, mcus);
    var r := WithDc(p, s.comps, s.ah != 0, vs, held);
    forall c: nat, i: nat | c < |image| && i < |image[c]|
      ensures UpToBlock(before + [s], c, image[c][i], r[c][i])
    {
      if c in s.comps {
        assert Spotted(mcus, p.spots[c][i], image[c][i]);
        assert Script.InStep(before, s, c, 0);
        DcBlock(before, s, c, image[c][i], held[c][i], Sent(p, vs, c, i));
      } else {
        OtherBlock(before, s, c, image[c][i], held[c][i]);
      }
    }
  }

  /** The blocks of the one component of an AC scan, cut into intervals, are ready for it. */
  lemma HoldingCuts(b: Band, al: nat, interval: nat, mcus: seq<Mcu>, xs: seq<Block>, ys: seq<Block>)
    requires GoodBand(b) && |mcus| == |xs| == |ys| && forall i :: 0 <= i < |mcus| ==> mcus[i] == [xs[i]]
    requires forall i :: 0 <= i < |xs| ==> HoldingBlock(b, xs[i], al, ys[i])
    ensures AllHolding(b, al, Intervals(interval, interval, mcus), Intervals(interval, interval, ys))
  {
    hide HoldingBlock;
    var related := (m: Mcu, y: Block) => |m| == 1 && HoldingBlock(b, m[0], al, y);
    var ints, held := Intervals(interval, interval, mcus), Intervals(interval, interval, ys);
    SameCuts(interval, interval, mcus, ys, related);
    forall k | 0 <= k < |ints|
      ensures Single(ints[k]) && Holding(b, Alone(ints[k]), al, held[k])
    {
      assert AllRelated(ints[k], held[k], related);
    }
  }

  lemma AcScanReceived(read: seq<Reader>, before: seq<Script.ScanInfo>, s: Script.ScanInfo, p: Plan, image: Image, held: Image,
                       mcus: seq<Mcu>, bits: seq<seq<bit>>, precision: nat)
    requires |read| == NUM_TABLES && UpTo(before, image, held) && Planned(s, p, image, precision) && p.scan.kind.AcBand?
    requires Carried(read, s, p, image, mcus, bits, precision) && Script.ScanInStep(before, s)
    ensures Planned(s, p, held, precision)
    ensures var r := DecodeScan(read, s, p, held, bits, precision); r.Delivered? && UpTo(before + [s], image, r.image)
  {
    hide AllConveyed, AcSegments, UpToBlock, Script.InStep, HoldingBlock, PointTransform;
    var c, b, al, interval := s.comps[0], p.scan.kind.band, p.scan.kind.al, p.scan.interval;
    var ints, cut := Intervals(interval, interval, mcus), Intervals(interval, interval, held[c]);
    forall i | 0 <= i < |image[c]|
      ensures HoldingBlock(b, image[c][i], al, held[c][i])
    {
      forall k: nat
        ensures Script.InStep(before, s, c, k)
      {
      }
      ReadyForBand(before, s, c, image[c][i], held[c][i]);
    }
    HoldingCuts(b, al, interval, mcus, image[c], held[c]);
    AcSegmentsDecode(read, p.scan, ints, cut, bits);
    IntervalsJoin(interval, interval, mcus);
    IntervalsJoin(interval, interval, held[c]);
    var r := held[c := Overlays(b, AtPrecision(Alone(mcus), al), held[c])];
    forall d: nat, i: nat | d < |image| && i < |image[d]|
      ensures UpToBlock(before + [s], d, image[d][i], r[d][i])
    {
      if d == c {
        BandBlock(before, s, c, image[c][i], held[c][i], b);
      } else {
        assert d !in s.comps;
        OtherBlock(before, s, d, image[d][i], held[d][i]);
      }
    }
  }

  // The whole script.

  /** A scan as it was coded: what the decoder knows of it, its tables, and its segments. */
  datatype Coded = Coded(plan: Plan, read: seq<Reader>, bits: seq<seq<bit>>)

  ghost predicate CodedScan(s: Script.ScanInfo, k: Coded, image: Image, precision: nat) {
    && |k.read| == NUM_TABLES && Planned(s, k.plan, image, precision)
    && exists mcus :: Carried(k.read, s, k.plan, image, mcus, k.bits, precision)
  }

  /** Decodes the scans in order into what the decoder holds. */
  function DecodeScript(script: seq<Script.ScanInfo>, scans: seq<Coded>, held: Image, precision: nat): Delivery
    requires |scans| == |script|
    decreases |script|
  {
    if script == [] then Delivered(held)
    else if |scans[0].read| != NUM_TABLES || !Planned(script[0], scans[0].plan, held, precision) then Lost
    else
      match DecodeScan(scans[0].read, script[0], scans[0].plan, held, scans[0].bits, precision)
      case Lost => Lost
      case Delivered(h) => DecodeScript(script[1..], scans[1..], h, precision)
  }

  lemma ScanReceived(before: seq<Script.ScanInfo>, s: Script.ScanInfo, k: Coded, image: Image, held: Image, precision: nat)
    requires UpTo(before, image, held) && CodedScan(s, k, image, precision) && |s.comps| >= 1 && Script.ScanInStep(before, s)
    ensures |k.read| == NUM_TABLES && Planned(s, k.plan, held, precision)
    ensures var r := DecodeScan(k.read, s, k.plan, held, k.bits, precision); r.Delivered? && UpTo(before + [s], image, r.image)
  {
    hide Carried, DecodeScan, Script.ScanInStep, UpToBlock;
    var mcus :| Carried(k.read, s, k.plan, image, mcus, k.bits, precision);
    if k.plan.scan.kind.AcBand? {
      AcScanReceived(k.read, before, s, k.plan, image, held, mcus, k.bits, precision);
    } else {
      DcScanReceived(k.read, before, s, k.plan, image, held, mcus, k.bits, precision);
    }
  }

  /** The scans from number m on. */
  lemma {:induction false} ScansReceived(script: seq<Script.ScanInfo>, scans: seq<Coded>, image: Image, held: Image, precision: nat, m: nat)
    requires Script.GoodProgressive(script, |image|, precision) && |scans| == |script| && m <= |script|
    requires forall i :: 0 <= i < |script| ==> CodedScan(script[i], scans[i], image, precision)
    requires UpTo(script[..m], image, held)
    ensures var r := DecodeScript(script[m..], scans[m..], held, precision); r.Delivered? && UpTo(script, image, r.image)
    decreases |script| - m
  {
    hide CodedScan, Script.GoodProgressive, Script.ScanInStep, DecodeScan, UpTo;
    if m == |script| {
      assert script[..m] == script && script[m..] == [];
    } else {
      Script.Unscriptable(script, m, |image|, precision);
      assert CodedScan(script[m], scans[m], image, precision);
      ScanReceived(script[..m], script[m], scans[m], image, held, precision);
      var h := DecodeScan(scans[m].read, script[m], scans[m].plan, held, scans[m].bits, precision).image;
      assert script[..m] + [script[m]] == script[..m + 1];
      assert script[m..][1..] == script[m + 1..] && scans[m..][1..] == scans[m + 1..];
      ScansReceived(script, scans, image, h, precision, m + 1);
    }
  }

  predicate Blank(held: Image) { forall c: nat, i: nat, k: nat :: c < |held| && i < |held[c]| && k < 64 ==> held[c][i][k] == 0 }

  /**
   * Decoding all scans of an accepted progressive script, starting from zeros, gives every coefficient of
   * every component to the bit position of the last scan that sends it, whatever else the script does.
   */
  lemma ScriptDelivers(script: seq<Script.ScanInfo>, scans: seq<Coded>, image: Image, held: Image, precision: nat)
    requires Script.GoodProgressive(script, |image|, precision) && |scans| == |script|
    requires forall i :: 0 <= i < |script| ==> CodedScan(script[i], scans[i], image, precision)
    requires SameShape(image, held) && Blank(held)
    ensures var r := DecodeScript(script, scans, held, precision); r.Delivered? && UpTo(script, image, r.image)
  {
    hide CodedScan, Script.GoodProgressive, DecodeScript;
    assert script[..0] == [] && script[0..] == script && scans[0..] == scans;
    ScansReceived(script, scans, image, held, precision, 0);
  }

  /** The standard progression delivers the image exactly. */
  lemma SimpleProgressionDelivers(ycc: bool, scans: seq<Coded>, image: Image, held: Image, precision: nat)
    requires |image| >= 1 && |scans| == |Script.SimpleScript(|image|, ycc)|
    requires forall i :: 0 <= i < |scans| ==> CodedScan(Script.SimpleScript(|image|, ycc)[i], scans[i], image, precision)
    requires SameShape(image, held) && Blank(held)
    ensures DecodeScript(Script.SimpleScript(|image|, ycc), scans, held, precision) == Delivered(image)
  {
    hide CodedScan, Script.GoodProgressive, DecodeScript, Script.SimpleScript, Script.LastBit;
    var script := Script.SimpleScript(|image|, ycc);
    SimpleProgression.SimpleAccepted(|image|, ycc, precision);
    ScriptDelivers(script, scans, image, held, precision);
    ExactImage(script, image, DecodeScript(script, scans, held, precision).image);
  }

  /** Where every coefficient has been sent down to bit 0, nothing is missing. */
  lemma ExactImage(script: seq<Script.ScanInfo>, image: Image, held: Image)
    requires UpTo(script, image, held) && forall c: nat, k: nat :: c < |image| && k < 64 ==> Script.LastBit(script, c, k) == 0
    ensures held == image
  {
    hide UpToBlock, Script.LastBit;
    forall c: nat | c < |image|
      ensures held[c] == image[c]
    {
      forall i: nat | i < |image[c]|
        ensures held[c][i] == image[c][i]
      {
        assert UpToBlock(script, c, image[c][i], held[c][i]);
        ExactBlock(script, c, image[c][i], held[c][i]);
      }
    }
  }

  lemma ExactBlock(script: seq<Script.ScanInfo>, c: nat, x: Block, y: Block)
    requires UpToBlock(script, c, x, y) && forall k: nat :: k < 64 ==> Script.LastBit(script, c, k) == 0
    ensures y == x
  {
    hide Script.LastBit;
    forall k: nat | k < 64
      ensures y[k] == x[k]
    {
    }
  }
}
