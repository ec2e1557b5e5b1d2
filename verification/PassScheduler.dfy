/** The pass scheduler: which passes a compression makes, and when headers are written. */
module PassScheduler {
  import opened ScanScript

  datatype PassType = MainPass | HuffOptPass | OutputPass

  /** What the scheduler makes other modules do. */
  datatype Event = StartEntropy(scan: nat, gather: bool) | FrameHeader | ScanHeader(scan: nat) | FinishEntropy | Trailer

  /** The parameters of a scan that matter here. */
  datatype ScanKind = ScanKind(ss: int, ah: int)

  function KindsOf(script: seq<ScanInfo>): (r: seq<ScanKind>)
    ensures |r| == |script| && forall i :: 0 <= i < |r| ==> r[i] == ScanKind(script[i].ss, script[i].ah)
  {
    seq(|script|, i requires 0 <= i < |script| => ScanKind(script[i].ss, script[i].ah))
  }

  /** Accepted scripts are what the scheduler assumes: nothing is refined by the first scan, and lossless scans have a predictor. */
  lemma AcceptedKinds(script: seq<ScanInfo>, n: nat, precision: nat)
    requires script != []
    requires GoodProgressive(script, n, precision) || GoodSequential(script, n) || GoodLossless(script, n, precision)
    ensures KindsOf(script)[0].ah == 0
    ensures GoodLossless(script, n, precision) ==> forall i :: 0 <= i < |script| ==> KindsOf(script)[i].ss != 0
  {
    FirstScan(script, n, precision);
  }

  // The reference: scan by scan.

  /** Only DC refinement needs no statistics. */
  predicate NeedsStatistics(scans: seq<ScanKind>, optimize: bool, i: nat)
    requires i < |scans|
  {
    optimize && (scans[i].ss != 0 || scans[i].ah == 0)
  }

  /** A statistics pass if needed, then the start of the output pass; the frame header precedes the first scan header. */
  function OutputStart(scans: seq<ScanKind>, optimize: bool, i: nat): seq<Event>
    requires i < |scans|
  {
    (if NeedsStatistics(scans, optimize, i) then [StartEntropy(i, true), FinishEntropy] else [])
    + [StartEntropy(i, false)] + (if i == 0 then [FrameHeader] else []) + [ScanHeader(i)]
  }

  lemma StartsOutput(scans: seq<ScanKind>, optimize: bool, i: nat, done: seq<Event>, events: seq<Event>)
    requires i < |scans|
    requires events == done + if NeedsStatistics(scans, optimize, i) then [StartEntropy(i, true), FinishEntropy] else []
    ensures events + [StartEntropy(i, false)] + (if i == 0 then [FrameHeader] else []) + [ScanHeader(i)]
         == done + OutputStart(scans, optimize, i)
  {
  }

  /** The first n scans. */
  function AllEvents(scans: seq<ScanKind>, optimize: bool, n: nat): seq<Event>
    requires n <= |scans|
  {
    if n == 0 then [] else AllEvents(scans, optimize, n - 1) + OutputStart(scans, optimize, n - 1) + [FinishEntropy]
  }

  function Headers(events: seq<Event>): seq<Event>
    decreases |events|
  {
    if events == [] then []
    else
      var n := |events| - 1;
      Headers(events[..n]) + if events[n].FrameHeader? || events[n].ScanHeader? then [events[n]] else []
  }

  lemma {:induction false} HeadersConcat(a: seq<Event>, b: seq<Event>)
    ensures Headers(a + b) == Headers(a) + Headers(b)
    decreases |b|
  {
    if b == [] {
      assert a + b == a;
    } else {
      HeadersConcat(a, b[..|b| - 1]);
      assert (a + b)[..|a + b| - 1] == a + b[..|b| - 1];
    }
  }

  lemma HeadersOne(e: Event)
    ensures Headers([e]) == if e.FrameHeader? || e.ScanHeader? then [e] else []
  {
    assert [e][..0] == [];
  }

  function ScanHeaders(n: nat): seq<Event> {
    if n == 0 then [] else ScanHeaders(n - 1) + [ScanHeader(n - 1)]
  }

  lemma StatisticsHeaders(scans: seq<ScanKind>, optimize: bool, i: nat)
    requires i < |scans|
    ensures Headers(if NeedsStatistics(scans, optimize, i) then [StartEntropy(i, true), FinishEntropy] else []) == []
  {
    HeadersOne(StartEntropy(i, true));
    HeadersOne(FinishEntropy);
    HeadersConcat([StartEntropy(i, true)], [FinishEntropy]);
    assert [StartEntropy(i, true)] + [FinishEntropy] == [StartEntropy(i, true), FinishEntropy];
  }

  lemma OutputHeaders(scans: seq<ScanKind>, optimize: bool, i: nat)
    requires i < |scans|
    ensures Headers(OutputStart(scans, optimize, i)) == (if i == 0 then [FrameHeader] else []) + [ScanHeader(i)]
  {
    hide Headers, NeedsStatistics;
    var a := if NeedsStatistics(scans, optimize, i) then [StartEntropy(i, true), FinishEntropy] else [];
    var b, f, h := [StartEntropy(i, false)], if i == 0 then [FrameHeader] else [], [ScanHeader(i)];
    StatisticsHeaders(scans, optimize, i);
    HeadersOne(StartEntropy(i, false));
    HeadersOne(FrameHeader);
    HeadersOne(ScanHeader(i));
    HeadersConcat(a, b);
    HeadersConcat(a + b, f);
    HeadersConcat(a + b + f, h);
    NoHeaders();
  }

  lemma NoHeaders()
    ensures Headers([]) == []
  {
  }

  /** The frame header is written once, before everything, and the scan headers follow in script order. */
  lemma {:induction false} HeadersInOrder(scans: seq<ScanKind>, optimize: bool, n: nat)
    requires n <= |scans|
    ensures Headers(AllEvents(scans, optimize, n)) == (if n == 0 then [] else [FrameHeader]) + ScanHeaders(n)
  {
    hide OutputStart;
    if n > 0 {
      var before, start := AllEvents(scans, optimize, n - 1), OutputStart(scans, optimize, n - 1);
      HeadersInOrder(scans, optimize, n - 1);
      HeadersConcat(before, start);
      HeadersConcat(before + start, [FinishEntropy]);
      HeadersOne(FinishEntropy);
      OutputHeaders(scans, optimize, n - 1);
    }
  }

  /**
   * With optimisation, right before the output of every scan but a DC refinement there is a whole statistics pass of
   * the same scan; there are no other statistics passes.
   */
  ghost predicate StatisticsPrecede(scans: seq<ScanKind>, optimize: bool, events: seq<Event>) {
    forall k :: 0 <= k < |events| ==> PassAt(scans, optimize, events, k)
  }

  ghost predicate PassAt(scans: seq<ScanKind>, optimize: bool, events: seq<Event>, k: nat)
    requires k < |events|
  {
    match events[k]
    case StartEntropy(i, gather) =>
      i < |scans| &&
      if gather then
        && optimize && (scans[i].ss != 0 || scans[i].ah == 0)
        && k + 2 < |events| && events[k + 1] == FinishEntropy && events[k + 2] == StartEntropy(i, false)
      else optimize && (scans[i].ss != 0 || scans[i].ah == 0) ==> k >= 2 && events[k - 2] == StartEntropy(i, true) && events[k - 1] == FinishEntropy
    case _ => true
  }

  /** How often a scan is put out. */
  function Outputs(events: seq<Event>, i: nat): nat {
    if events == [] then 0 else Outputs(events[..|events| - 1], i) + if events[|events| - 1] == StartEntropy(i, false) then 1 else 0
  }

  /** Every scan up to n is put out once, after its statistics. */
  lemma {:induction false} PassesInOrder(scans: seq<ScanKind>, optimize: bool, n: nat, i: nat)
    requires n <= |scans|
    ensures StatisticsPrecede(scans, optimize, AllEvents(scans, optimize, n))
    ensures Outputs(AllEvents(scans, optimize, n), i) == if i < n then 1 else 0
  {
    hide OutputStart, StatisticsPrecede, Outputs;
    if n > 0 {
      var before, start := AllEvents(scans, optimize, n - 1), OutputStart(scans, optimize, n - 1);
      PassesInOrder(scans, optimize, n - 1, i);
      StartIs(scans, optimize, n - 1);
      StartOnce(scans, optimize, n - 1, i);
      NextPrecedes(scans, optimize, n - 1, before, start);
      OutputsConcat(before, start, i);
      OutputsConcat(before + start, [FinishEntropy], i);
      OutputsOne(FinishEntropy, i);
    } else {
      NoPasses(scans, optimize, i);
    }
  }

  lemma NoPasses(scans: seq<ScanKind>, optimize: bool, i: nat)
    ensures StatisticsPrecede(scans, optimize, []) && Outputs([], i) == 0
  {
  }

  lemma {:induction false} OutputsConcat(a: seq<Event>, b: seq<Event>, i: nat)
    ensures Outputs(a + b, i) == Outputs(a, i) + Outputs(b, i)
    decreases |b|
  {
    if b == [] {
      assert a + b == a;
    } else {
      OutputsConcat(a, b[..|b| - 1], i);
      assert (a + b)[..|a + b| - 1] == a + b[..|b| - 1];
    }
  }

  lemma OutputsOne(e: Event, i: nat)
    ensures Outputs([e], i) == if e == StartEntropy(i, false) then 1 else 0
  {
    assert [e][..0] == [];
  }

  lemma StartOnce(scans: seq<ScanKind>, optimize: bool, n: nat, i: nat)
    requires n < |scans|
    ensures Outputs(OutputStart(scans, optimize, n), i) == if i == n then 1 else 0
  {
    hide Outputs, NeedsStatistics;
    var s := [StartEntropy(n, true), FinishEntropy];
    var a := if NeedsStatistics(scans, optimize, n) then s else [];
    var b, f, h := [StartEntropy(n, false)], if n == 0 then [FrameHeader] else [], [ScanHeader(n)];
    assert s == [StartEntropy(n, true)] + [FinishEntropy];
    OutputsOne(StartEntropy(n, true), i);
    OutputsOne(FinishEntropy, i);
    OutputsConcat([StartEntropy(n, true)], [FinishEntropy], i);
    OutputsOne(StartEntropy(n, false), i);
    OutputsOne(FrameHeader, i);
    OutputsOne(ScanHeader(n), i);
    NoPasses(scans, optimize, i);
    OutputsConcat(a, b, i);
    OutputsConcat(a + b, f, i);
    OutputsConcat(a + b + f, h, i);
  }

  /** What the start of an output pass consists of. */
  ghost predicate Starting(scans: seq<ScanKind>, optimize: bool, i: nat, start: seq<Event>)
    requires i < |scans|
  {
    var o := if NeedsStatistics(scans, optimize, i) then 2 else 0;
    && o + 1 <= |start| && start[o] == StartEntropy(i, false)
    && (o == 2 ==> start[0] == StartEntropy(i, true) && start[1] == FinishEntropy)
    && (forall k :: o < k < |start| ==> !start[k].StartEntropy?)
  }

  lemma StartIs(scans: seq<ScanKind>, optimize: bool, i: nat)
    requires i < |scans|
    ensures Starting(scans, optimize, i, OutputStart(scans, optimize, i))
  {
  }

  lemma NextPrecedes(scans: seq<ScanKind>, optimize: bool, i: nat, before: seq<Event>, start: seq<Event>)
    requires i < |scans| && StatisticsPrecede(scans, optimize, before) && Starting(scans, optimize, i, start)
    ensures StatisticsPrecede(scans, optimize, before + start + [FinishEntropy])
  {
    hide PassAt, Starting, NeedsStatistics;
    var all := before + start + [FinishEntropy];
    forall k | 0 <= k < |all|
      ensures PassAt(scans, optimize, all, k)
    {
      if k < |before| {
        assert PassAt(scans, optimize, before, k);
        StillAt(scans, optimize, before, start + [FinishEntropy], k);
        assert all == before + (start + [FinishEntropy]);
      } else {
        StartsAt(scans, optimize, i, before, start, k);
      }
    }
  }

  lemma StillAt(scans: seq<ScanKind>, optimize: bool, before: seq<Event>, more: seq<Event>, k: nat)
    requires k < |before| && PassAt(scans, optimize, before, k)
    ensures PassAt(scans, optimize, before + more, k)
  {
  }

  lemma StartsAt(scans: seq<ScanKind>, optimize: bool, i: nat, before: seq<Event>, start: seq<Event>, k: nat)
    requires i < |scans| && Starting(scans, optimize, i, start) && |before| <= k < |before| + |start| + 1
    ensures PassAt(scans, optimize, before + start + [FinishEntropy], k)
  {
    var all, j := before + start + [FinishEntropy], k - |before|;
    if j < |start| {
      assert all[k] == start[j];
      if NeedsStatistics(scans, optimize, i) {
        assert all[|before|] == start[0] && all[|before| + 1] == start[1] && all[|before| + 2] == start[2];
      }
    }
  }

  lemma RunInOrder(scans: seq<ScanKind>, optimize: bool)
    ensures StatisticsPrecede(scans, optimize, AllEvents(scans, optimize, |scans|) + [Trailer])
    ensures forall i: nat :: Outputs(AllEvents(scans, optimize, |scans|) + [Trailer], i) == if i < |scans| then 1 else 0
  {
    hide AllEvents, PassAt, Outputs;
    var events := AllEvents(scans, optimize, |scans|);
    PassesInOrder(scans, optimize, |scans|, 0);
    forall k | 0 <= k < |events| + 1
      ensures PassAt(scans, optimize, events + [Trailer], k)
    {
      if k < |events| {
        StillAt(scans, optimize, events, [Trailer], k);
      } else {
        EndsAt(scans, optimize, events);
      }
    }
    forall i: nat
      ensures Outputs(events + [Trailer], i) == if i < |scans| then 1 else 0
    {
      PassesInOrder(scans, optimize, |scans|, i);
      OutputsConcat(events, [Trailer], i);
      OutputsOne(Trailer, i);
    }
  }

  lemma EndsAt(scans: seq<ScanKind>, optimize: bool, events: seq<Event>)
    ensures PassAt(scans, optimize, events + [Trailer], |events|)
  {
  }

  /** Whether Huffman tables are made for the image. */
  function EffectiveOptimize(optimize: bool, arith: bool, lossless: bool, progressive: bool, precision: nat, standardTables: bool): bool {
    if arith then false else optimize || lossless || progressive || (precision == 12 && standardTables)
  }

  class Master {
    const scans: seq<ScanKind>
    const optimize: bool
    const arith: bool
    const lossless: bool
    const transcode: bool
    var passType: PassType
    var scanNumber: nat
    var passNumber: nat
    var totalPasses: nat
    var isLastPass: bool
    var callPassStartup: bool
    /** The scan whose parameters are in effect. */
    var current: nat
    var events: seq<Event>

    /** What the settings of a compression have in common: no statistics for arithmetic coding. */
    ghost predicate Settled()
      reads this
    {
      && scans != [] && scans[0].ah == 0 && (arith ==> !optimize) && (lossless ==> forall i :: 0 <= i < |scans| ==> scans[i].ss != 0)
      && totalPasses == (if optimize then 2 * |scans| else |scans|) && scanNumber <= |scans|
    }

    /** The scans that are finished. */
    ghost function Finished(): seq<Event>
      requires scanNumber <= |scans|
      reads this
    {
      AllEvents(scans, optimize, scanNumber)
    }

    /** What holds before a pass is prepared. */
    ghost predicate Between()
      reads this
    {
      && Settled()
      && match passType
         case MainPass => passNumber == 0 == scanNumber && events == [] && !transcode
         case HuffOptPass => optimize && passNumber == 2 * scanNumber && events == Finished()
         case OutputPass =>
           if optimize then
             && scanNumber < |scans| && passNumber == 2 * scanNumber + 1 && current == scanNumber
             && NeedsStatistics(scans, optimize, scanNumber)
             && events == Finished() + [StartEntropy(scanNumber, true), FinishEntropy]
           else passNumber == scanNumber && events == Finished()
    }

    /** What holds when a pass has been prepared and its data has gone through. */
    ghost predicate During()
      reads this
    {
      && Settled() && scanNumber < |scans| && isLastPass == (passNumber == totalPasses - 1)
      && match passType
         case MainPass =>
           && passNumber == 0 == scanNumber == current && !transcode
           && events == if optimize then [StartEntropy(0, true)] else OutputStart(scans, optimize, 0)
         case HuffOptPass =>
           && optimize && passNumber == 2 * scanNumber && NeedsStatistics(scans, optimize, scanNumber)
           && current == scanNumber && events == Finished() + [StartEntropy(scanNumber, true)]
         case OutputPass =>
           && passNumber == (if optimize then 2 * scanNumber + 1 else scanNumber)
           && events == Finished() + OutputStart(scans, optimize, scanNumber)
    }

    constructor (scans: seq<ScanKind>, optimizeCoding: bool, arith: bool, lossless: bool, progressive: bool, precision: nat,
                 standardTables: bool, transcode: bool)
      requires scans != [] && scans[0].ah == 0 && (lossless ==> forall i :: 0 <= i < |scans| ==> scans[i].ss != 0)
      ensures Between() && !isLastPass && passNumber == 0
      ensures this.scans == scans && this.arith == arith && this.lossless == lossless && this.transcode == transcode
      ensures optimize == EffectiveOptimize(optimizeCoding, arith, lossless, progressive, precision, standardTables)
    {
      this.scans, this.arith, this.lossless, this.transcode := scans, arith, lossless, transcode;
      var o := optimizeCoding;
      if arith {
        o := false;
      } else {
        if lossless || progressive {
          o := true;
        }
        if precision == 12 && !o && standardTables {
          o := true;
        }
      }
      optimize := o;
      passType := if transcode then (if o then HuffOptPass else OutputPass) else MainPass;
      scanNumber, passNumber, current := 0, 0, 0;
      totalPasses := if o then |scans| * 2 else |scans|;
      isLastPass, callPassStartup, events := false, false, [];
    }

    /** Writes the headers that were put off until the first rows of the image arrive. */
    method PassStartup()
      modifies `callPassStartup, `events
      ensures !callPassStartup && events == old(events) + [FrameHeader, ScanHeader(current)]
    {
      callPassStartup := false;
      events := events + [FrameHeader];
      events := events + [ScanHeader(current)];
    }

    /** An output pass after the first. */
    method StartOutput()
      requires Settled() && scanNumber < |scans| && (optimize ==> current == scanNumber)
      modifies `current, `events, `callPassStartup
      ensures !callPassStartup && current == scanNumber
      ensures events
           == old(events) + [StartEntropy(scanNumber, false)] + (if scanNumber == 0 then [FrameHeader] else []) + [ScanHeader(scanNumber)]
    {
      if !optimize {
        current := scanNumber;
      }
      events := events + [StartEntropy(current, false)];
      if scanNumber == 0 {
        events := events + [FrameHeader];
      }
      events := events + [ScanHeader(current)];
      callPassStartup := false;
    }

    /** Prepares the next pass; a pass for statistics that are not needed is skipped. */
    method PrepareForPass()
      requires Between() && passNumber < totalPasses
      modifies this
      ensures passType == MainPass && callPassStartup ==> !optimize && old(passType) == MainPass && events == [StartEntropy(0, false)]
      ensures passType == MainPass ==> callPassStartup == !optimize && Settled() && passNumber == 0 == scanNumber == current && !transcode
      ensures passType == MainPass ==> isLastPass == (passNumber == totalPasses - 1)
      ensures !callPassStartup ==> During()
      ensures passNumber >= old(passNumber) && totalPasses == old(totalPasses) && (passType == MainPass <==> old(passType) == MainPass)
      ensures passType != MainPass ==> !callPassStartup
    {
      hide AllEvents, OutputStart;
      if !passType.MainPass? && (passType.HuffOptPass? ==> !NeedsStatistics(scans, optimize, scanNumber)) {
        StartsOutput(scans, optimize, scanNumber, Finished(), events);
      }
      match passType {
        case MainPass =>
          current := scanNumber;
          events := events + [StartEntropy(current, optimize)];
          callPassStartup := !optimize;
        case HuffOptPass =>
          current := scanNumber;
          if scans[current].ss != 0 || scans[current].ah == 0 || arith || lossless {
            events := events + [StartEntropy(current, true)];
            callPassStartup := false;
          } else {
            passType := OutputPass;
            passNumber := passNumber + 1;
            StartOutput();
          }
        case OutputPass =>
          StartOutput();
      }
      isLastPass := passNumber == totalPasses - 1;
    }

    /** Ends a pass, and decides what the next one is. */
    method FinishPass()
      requires During()
      modifies `passType, `scanNumber, `passNumber, `events
      ensures Between() && passNumber == old(passNumber) + 1 && passNumber <= totalPasses && passType != MainPass
    {
      events := events + [FinishEntropy];
      match passType {
        case MainPass =>
          passType := OutputPass;
          if !optimize {
            scanNumber := scanNumber + 1;
          }
        case HuffOptPass =>
          passType := OutputPass;
        case OutputPass =>
          if optimize {
            passType := HuffOptPass;
          }
          scanNumber := scanNumber + 1;
      }
      passNumber := passNumber + 1;
    }

    /** The first pass, which takes in the image. */
    method FirstPass()
      requires Between() && passType == MainPass && passNumber < totalPasses
      modifies this
      ensures Between() && passNumber == 1 && passNumber <= totalPasses && passType != MainPass
      ensures totalPasses == old(totalPasses) && isLastPass == (passNumber == totalPasses)
    {
      PrepareForPass();
      if callPassStartup {
        PassStartup();
      }
      FinishPass();
    }

    /**
     * A whole compression: it ends with every pass done, and every scan has been written once, in script order,
     * after the statistics it needs.
     */
    method Compress()
      requires Between() && !isLastPass && passNumber == 0 && (passType == MainPass <==> !transcode)
      modifies this
      ensures passNumber == totalPasses && scanNumber == |scans|
      ensures events == AllEvents(scans, optimize, |scans|) + [Trailer]
      ensures StatisticsPrecede(scans, optimize, events)
      ensures forall i: nat :: Outputs(events, i) == if i < |scans| then 1 else 0
    {
      hide AllEvents, OutputStart, StatisticsPrecede, Outputs;
      if !transcode {
        FirstPass();
      }
      while !isLastPass
        invariant Between() && passType != MainPass && passNumber <= totalPasses
        invariant isLastPass == (passNumber == totalPasses)
        decreases totalPasses - passNumber
      {
        PrepareForPass();
        FinishPass();
      }
      events := events + [Trailer];
      RunInOrder(scans, optimize);
    }
  }
}
