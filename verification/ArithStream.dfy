/** Whole arithmetic-coded scans as one stream of bytes with restart markers, and back. */
module ArithStream {
  import opened Bytes
  import opened ProbabilityTable
  import opened IntervalCoder
  import opened ArithEncoder
  import opened ArithDecoder
  import opened ZigZag
  import opened ArithModel
  import opened ArithMcu
  import opened ArithScan
  import opened ArithReader
  import opened ArithRoundTrip
  import BitWriters

  /** Finished segments, each followed by the next restart marker. */
  function Framed(datas: seq<seq<byte>>): seq<byte> { BitWriters.Framed(datas) }

  /** Finished segments, and the last one without a marker. */
  function Unmarked(datas: seq<seq<byte>>): seq<byte>
    requires datas != []
  {
    Framed(datas[..|datas| - 1]) + Stuff(datas[|datas| - 1])
  }

  lemma FramedIs(datas: seq<seq<byte>>)
    requires datas != []
    ensures Framed(datas) == Unmarked(datas) + [0xFF, 0xD0 + (|datas| - 1) % 8]
  {
    BitWriters.StuffOntoConcat(Framed(datas[..|datas| - 1]), datas[|datas| - 1]);
  }

  /** Segment i of the stream, whose data are datas, holds the decisions of traces[i]. */
  ghost predicate Coded(traces: seq<Trace>, datas: seq<seq<byte>>, ms: seq<nat>) {
    |traces| == |datas| == |ms| && forall i :: 0 <= i < |datas| ==> CodedSegment(traces[i], datas[i], ms[i])
  }

  ghost predicate CodedSegment(t: Trace, data: seq<byte>, m: nat) {
    InBins(t, NUM_BINS) && Follows(Start(FirstBins()), t, m, CodeValue(data, m))
  }

  lemma CodedNext(traces: seq<Trace>, datas: seq<seq<byte>>, ms: seq<nat>, i: nat, data: seq<byte>, m: nat)
    requires i < |traces| && Coded(traces[..i], datas, ms) && CodedSegment(traces[i], data, m)
    ensures Coded(traces[..i + 1], datas + [data], ms + [m])
  {
    hide CodedSegment;
    assert traces[..i + 1] == traces[..i] + [traces[i]];
  }

  /** The encoder is at the start of a segment, after what has been written before. */
  ghost predicate Begins(e: Encoder, before: seq<byte>)
    reads e, e.stats
  {
    e.Valid() && e.stats.Length == NUM_BINS && e.Ideal() == Start(FirstBins()) && e.prior == e.out == before
  }

  method NewEncoder() returns (e: Encoder)
    ensures fresh(e) && fresh(e.stats) && Begins(e, Framed([]))
  {
    hide FirstBins, Start;
    var stats := NewBins(FirstBins());
    e := new Encoder(stats);
  }

  /** Codes one segment; the bin of fixed probability is what it was before. */
  method WriteSegment(e: Encoder, t: Trace, ghost before: seq<byte>) returns (ghost data: seq<byte>, ghost m: nat)
    requires Begins(e, before) && InBins(t, NUM_BINS)
    modifies e, e.stats
    ensures e.out == before + Stuff(data) && CodedSegment(t, data, m)
    ensures e.stats[FIXED_BIN] == FIXED_STATE
  {
    hide Stuff, CodeValue, InBins, FirstBins, EncodeAll;
    FirstStatistics(e.stats[..], t);
    e.EncodeTrace(t);
    m := e.Ideal().shifts + 32;
    e.Finish();
    data := e.data;
  }

  /** Starts a new segment: zeros in all statistics areas, and registers as at the start of the scan. */
  method StartSegment(e: Encoder)
    requires e.stats.Length == NUM_BINS && e.stats[FIXED_BIN] == FIXED_STATE
    modifies e, e.stats
    ensures Begins(e, old(e.out))
  {
    hide GoodBin;
    forall i | 0 <= i < FIXED_BIN {
      e.stats[i] := 0;
    }
    assert e.stats[..] == FirstBins();
    e.Reset();
  }

  /** A segment, the marker after it, and the start of the next segment. */
  method WriteMarked(e: Encoder, t: Trace, num: nat, ghost before: seq<byte>) returns (ghost data: seq<byte>, ghost m: nat)
    requires Begins(e, before) && InBins(t, NUM_BINS) && num < 8
    modifies e, e.stats
    ensures Begins(e, before + Stuff(data) + [0xFF, 0xD0 + num]) && CodedSegment(t, data, m)
  {
    hide Stuff, CodedSegment, InBins, FirstBins, Start;
    data, m := WriteSegment(e, t, before);
    e.EmitMarker(num);
    StartSegment(e);
  }

  /** Codes the segments of a scan one after the other, each but the last followed by the next restart marker. */
  method EncodeStream(traces: seq<Trace>) returns (out: seq<byte>, ghost datas: seq<seq<byte>>, ghost ms: seq<nat>)
    requires traces != [] && forall i :: 0 <= i < |traces| ==> InBins(traces[i], NUM_BINS)
    ensures |datas| == |traces| && Coded(traces, datas, ms) && out == Unmarked(datas)
  {
    hide Stuff, Coded, CodedSegment, InBins, Framed, Unmarked, Begins;
    var e := NewEncoder();
    datas, ms := [], [];
    ghost var data, m;
    var i := 0;
    NothingWritten();
    while i < |traces| - 1
      invariant i < |traces| && |datas| == i && Coded(traces[..i], datas, ms)
      invariant Begins(e, Framed(datas)) && fresh(e) && fresh(e.stats)
    {
      data, m := WriteMarked(e, traces[i], i % 8, Framed(datas));
      CodedNext(traces, datas, ms, i, data, m);
      FramedNext(datas, data);
      datas, ms, i := datas + [data], ms + [m], i + 1;
    }
    data, m := WriteSegment(e, traces[i], Framed(datas));
    CodedNext(traces, datas, ms, i, data, m);
    UnmarkedNext(datas, data);
    datas, ms := datas + [data], ms + [m];
    out := e.out;
    assert traces[..i + 1] == traces;
  }

  lemma NothingWritten()
    ensures Framed([]) == [] && Coded([], [], [])
  {
  }

  lemma FramedNext(datas: seq<seq<byte>>, data: seq<byte>)
    ensures Framed(datas + [data]) == Framed(datas) + Stuff(data) + [0xFF, 0xD0 + |datas| % 8]
  {
    FramedIs(datas + [data]);
    UnmarkedNext(datas, data);
  }

  lemma UnmarkedNext(datas: seq<seq<byte>>, data: seq<byte>)
    ensures Unmarked(datas + [data]) == Framed(datas) + Stuff(data)
  {
    assert (datas + [data])[..|datas|] == datas;
  }

  // Finding the segments again.

  lemma {:induction false} FramedPrefix(datas: seq<seq<byte>>, i: nat)
    requires i <= |datas|
    ensures Framed(datas[..i]) <= Framed(datas)
    decreases |datas|
  {
    hide Framed;
    if i == |datas| {
      assert datas[..i] == datas;
    } else {
      var n := |datas| - 1;
      FramedPrefix(datas[..n], i);
      assert datas[..n][..i] == datas[..i] && datas == datas[..n] + [datas[n]];
      FramedNext(datas[..n], datas[n]);
      PrefixAgain(Framed(datas[..i]), Framed(datas[..n]), Stuff(datas[n]), [0xFF, 0xD0 + n % 8]);
    }
  }

  lemma PrefixAgain(a: seq<byte>, b: seq<byte>, c: seq<byte>, d: seq<byte>)
    requires a <= b
    ensures a <= b + c + d
  {
  }

  lemma HoldsFrom(input: seq<byte>, before: seq<byte>, data: seq<byte>, marker: byte)
    requires before + Stuff(data) + [0xFF, marker] <= input && marker != 0 && marker != 0xFF
    ensures Holds(input, |before|, data, 1)
    ensures input[|before| + |Stuff(data)| + 1] == marker
  {
    hide Stuff;
    var all, end := before + Stuff(data) + [0xFF, marker], |before| + |Stuff(data)|;
    assert input[..|all|] == all;
    assert input[|before|..end] == all[|before|..end] == Stuff(data);
    assert input[end] == all[end] && input[end + 1] == all[end + 1];
  }

  /** Every segment of the stream stands where the segments before it end, followed by its marker. */
  ghost predicate Segmented(input: seq<byte>, datas: seq<seq<byte>>) {
    forall i :: 0 <= i < |datas| ==> SegmentAt(input, datas, i)
  }

  ghost predicate SegmentAt(input: seq<byte>, datas: seq<seq<byte>>, i: nat)
    requires i < |datas|
  {
    var p := |Framed(datas[..i])|;
    && Holds(input, p, datas[i], 1)
    && (i + 1 < |datas| ==> |Framed(datas[..i + 1])| == p + |Stuff(datas[i])| + 2 && input[p + |Stuff(datas[i])| + 1] == 0xD0 + i % 8)
  }

  lemma StreamSegmented(datas: seq<seq<byte>>, marker: byte, rest: seq<byte>)
    requires datas != [] && marker != 0 && marker != 0xFF
    ensures Segmented(Unmarked(datas) + [0xFF, marker] + rest, datas)
  {
    hide Stuff, Framed, Holds;
    var input, n := Unmarked(datas) + [0xFF, marker] + rest, |datas| - 1;
    forall i | 0 <= i < |datas|
      ensures SegmentAt(input, datas, i)
    {
      if i < n {
        FramedNext(datas[..i], datas[i]);
        assert datas[..i] + [datas[i]] == datas[..i + 1] && datas[..n][..i + 1] == datas[..i + 1];
        FramedPrefix(datas[..n], i + 1);
        PrefixAgain(Framed(datas[..i + 1]), Framed(datas[..n]), Stuff(datas[n]), [0xFF, marker] + rest);
        assert input == Framed(datas[..n]) + Stuff(datas[n]) + ([0xFF, marker] + rest);
        HoldsFrom(input, Framed(datas[..i]), datas[i], 0xD0 + i % 8);
      } else {
        HoldsFrom(input, Framed(datas[..n]), datas[n], marker);
      }
    }
  }

  // The decoder.

  /** The MCUs in front, and then those that are parsed, are the whole scan. */
  predicate ScanCompletes(xs: seq<seq<seq<int>>>, p: Parsed<seq<seq<seq<int>>>>, goal: Parsed<seq<seq<seq<int>>>>) {
    p.Got? && goal == Got(xs + p.value, p.rest)
  }

  lemma ScanStarts(goal: Parsed<seq<seq<seq<int>>>>)
    requires goal.Got?
    ensures ScanCompletes([], goal, goal)
  {
    assert [] + goal.value == goal.value;
  }

  lemma ScanEnds(xs: seq<seq<seq<int>>>, t: Trace, goal: Parsed<seq<seq<seq<int>>>>)
    requires ScanCompletes(xs, Got([], t), goal)
    ensures goal == Got(xs, t)
  {
    assert xs + [] == xs;
  }

  /** What is left of the segments, of which the first one is in progress. */
  function Left(t: Trace, traces: seq<Trace>): Segments { if traces == [] then Last(t) else More(t, Listed(traces)) }

  lemma RestartReads(t: Trace, traces: seq<Trace>, s: Scan, dc: DcState, known: seq<seq<Block>>, xs: seq<seq<seq<int>>>,
                     goal: Parsed<seq<seq<seq<int>>>>)
    requires GoodScan(s) && GoodDc(s, dc) && GoodMcus(s, known) && known != [] && s.interval > 0
    requires ScanCompletes(xs, ParseScan(Left(t, traces), s, dc, 0, known), goal)
    ensures traces != []
    ensures ScanCompletes(xs, ParseScan(Left(traces[0], traces[1..]), s, AfterRestart(s, dc), s.interval, known), goal)
  {
  }

  lemma McuReads(t: Trace, traces: seq<Trace>, s: Scan, dc: DcState, togo: nat, known: seq<seq<Block>>, xs: seq<seq<seq<int>>>,
                 goal: Parsed<seq<seq<seq<int>>>>)
    requires GoodScan(s) && GoodDc(s, dc) && GoodMcus(s, known) && known != [] && (s.interval > 0 ==> togo > 0)
    requires ScanCompletes(xs, ParseScan(Left(t, traces), s, dc, togo, known), goal)
    ensures var r := ParseMcu(t, s, dc, known[0], 0);
      && r.Got?
      && ScanCompletes(xs + [r.value.0],
                       ParseScan(Left(r.rest, traces), s, r.value.1, if s.interval > 0 then togo - 1 else togo, known[1..]), goal)
  {
    hide ParseMcu, GoodScan, GoodDc;
    var r := ParseMcu(t, s, dc, known[0], 0);
    if r.Got? {
      var q := ParseScan(Left(r.rest, traces), s, r.value.1, if s.interval > 0 then togo - 1 else togo, known[1..]);
      assert q.Got? ==> xs + ([r.value.0] + q.value) == (xs + [r.value.0]) + q.value;
    }
  }

  /** The decoder stands in segment j of the stream. */
  ghost predicate In(d: Decoder, input: seq<byte>, datas: seq<seq<byte>>, j: nat)
    reads d, d.stats
  {
    Ready(d) && j < |datas| && d.input == input && d.origin == |Framed(datas[..j])| && d.data == datas[j] && d.fill == 1
  }

  /** Bins and registers for the segment at the given position. */
  method OpenSegment(input: seq<byte>, pos: nat, ghost traces: seq<Trace>, ghost datas: seq<seq<byte>>, ghost ms: seq<nat>, ghost j: nat)
    returns (d: Decoder)
    requires Coded(traces, datas, ms) && j < |datas| && SegmentAt(input, datas, j) && pos == |Framed(datas[..j])|
    ensures fresh(d) && fresh(d.stats) && In(d, input, datas, j) && d.todo == traces[j]
  {
    hide Framed, FirstBins, Stuff, CodeValue, Start, Holds;
    assert CodedSegment(traces[j], datas[j], ms[j]);
    var stats := ClearedBins();
    d := new Decoder(input, pos, stats, datas[j], 1, ms[j], traces[j]);
  }

  /** Goes on behind the next restart marker, which is the expected one. */
  method ProcessRestart(d: Decoder, input: seq<byte>, num: nat, ghost traces: seq<Trace>, ghost datas: seq<seq<byte>>,
                        ghost ms: seq<nat>, ghost j: nat) returns (marker: byte, next: Decoder)
    requires Coded(traces, datas, ms) && Segmented(input, datas) && In(d, input, datas, j) && j + 1 < |datas| && num == j % 8
    modifies d
    ensures marker == 0xD0 + num
    ensures fresh(next) && fresh(next.stats) && In(next, input, datas, j + 1) && next.todo == traces[j + 1]
  {
    hide Framed, Stuff, Holds, Coded, GoodBins, Follows, Renorm, InBins, Places, CodeValue;
    assert SegmentAt(input, datas, j) && SegmentAt(input, datas, j + 1);
    marker := d.ReadMarker();
    next := OpenSegment(input, d.pos, traces, datas, ms, j + 1);
  }

  /** An MCU of the segment. */
  method ReadMcu(d: Decoder, s: Scan, dc: DcState, known: seq<Block>, ghost input: seq<byte>, ghost datas: seq<seq<byte>>, ghost j: nat)
    returns (xs: seq<seq<int>>, next: DcState)
    requires In(d, input, datas, j) && GoodScan(s) && GoodDc(s, dc) && |known| == |s.membership|
    requires ParseMcu(d.todo, s, dc, known, 0).Got?
    modifies d, d.stats
    ensures In(d, input, datas, j) && GoodDc(s, next) && Got((xs, next), d.todo) == old(ParseMcu(d.todo, s, dc, known, 0))
  {
    hide Ready, ParseMcu, GoodScan, GoodDc, Framed;
    xs, next := DecodeMcu(d, s, dc, known);
  }

  /** Decodes a whole scan; known is what the scans before have delivered of its blocks. */
  method DecodeStream(input: seq<byte>, s: Scan, known: seq<seq<Block>>, ghost traces: seq<Trace>, ghost datas: seq<seq<byte>>,
                      ghost ms: seq<nat>) returns (result: seq<seq<seq<int>>>)
    requires GoodScan(s) && GoodMcus(s, known) && datas != [] && Coded(traces, datas, ms) && Segmented(input, datas)
    requires ParseScan(Listed(traces), s, DcReset(s), s.interval, known).Got?
    ensures result == ParseScan(Listed(traces), s, DcReset(s), s.interval, known).value
  {
    hide Coded, Segmented, In, ParseScan, Listed, ParseMcu, ScanCompletes, Framed, GoodScan;
    ghost var goal := ParseScan(Listed(traces), s, DcReset(s), s.interval, known);
    var dc, togo, num := DcReset(s), s.interval, 0;
    ghost var j := 0;
    FirstSegment(input, traces, datas, ms);
    ScanStarts(goal);
    var d := OpenSegment(input, 0, traces, datas, ms, 0);
    result := [];
    var i := 0;
    assert known[0..] == known;
    while i < |known|
      invariant i <= |known| && GoodDc(s, dc) && j < |datas| && num == j % 8
      invariant fresh(d) && fresh(d.stats) && In(d, input, datas, j)
      invariant ScanCompletes(result, ParseScan(Left(d.todo, traces[j + 1..]), s, dc, togo, known[i..]), goal)
    {
      if s.interval > 0 && togo == 0 {
        RestartReads(d.todo, traces[j + 1..], s, dc, known[i..], result, goal);
        var marker;
        marker, d := ProcessRestart(d, input, num, traces, datas, ms, j);
        assert traces[j + 1..][1..] == traces[j + 2..];
        dc, togo, num, j := AfterRestart(s, dc), s.interval, (num + 1) % 8, j + 1;
      }
      McuReads(d.todo, traces[j + 1..], s, dc, togo, known[i..], result, goal);
      var xs;
      xs, dc := ReadMcu(d, s, dc, known[i], input, datas, j);
      assert known[i..][1..] == known[i + 1..];
      togo := if s.interval > 0 then togo - 1 else togo;
      result, i := result + [xs], i + 1;
    }
    NothingToParse(Left(d.todo, traces[j + 1..]), s, dc, togo);
    assert known[i..] == [];
    ScanEnds(result, Left(d.todo, traces[j + 1..]).t, goal);
  }

  lemma NothingToParse(segs: Segments, s: Scan, dc: DcState, togo: nat)
    requires GoodScan(s) && GoodDc(s, dc)
    ensures ParseScan(segs, s, dc, togo, []) == Got([], segs.t)
  {
  }

  lemma FirstSegment(input: seq<byte>, traces: seq<Trace>, datas: seq<seq<byte>>, ms: seq<nat>)
    requires datas != [] && Coded(traces, datas, ms) && Segmented(input, datas)
    ensures |traces| == |datas| && SegmentAt(input, datas, 0) && |Framed(datas[..0])| == 0
    ensures Listed(traces) == Left(traces[0], traces[1..])
  {
    hide CodedSegment, Holds;
  }

  /**
   * A whole scan of any kind, from coefficient blocks to one stream of bytes with restart markers and back, by a
   * decoder that learns from the decisions so far which bin comes next: what the scan conveys of every block comes
   * back, if its DC differences fit.  `known` is what the decoder knows of the blocks beforehand.
   */
  method TransmitStream(order: Order, scan: Scan, mcus: seq<seq<Block>>, known: seq<seq<Block>>, marker: byte, rest: seq<byte>)
    returns (out: seq<byte>, result: seq<seq<seq<int>>>)
    requires GoodScan(scan) && order[0] == 0 && GoodMcus(scan, mcus) && GoodMcus(scan, ReorderedMcus(mcus, order))
    requires KnownMcus(scan.kind, ReorderedMcus(mcus, order), known) && GoodMcus(scan, known)
    requires ScanFits(scan, DcReset(scan), scan.interval, ReorderedMcus(mcus, order))
    requires marker != 0 && marker != 0xFF
    ensures result == ConveyedScan(scan.kind, ReorderedMcus(mcus, order))
  {
    hide ParseScan, ScanSegments, ScanFits, ConveyedScan, Listed, SegmentBins, InBins, Coded, Segmented, Unmarked;
    ghost var ordered := ReorderedMcus(mcus, order);
    var model := new EntropyModel(order, scan);
    var traces := model.EncodeScan(mcus);
    assert model.OrderedMcus(mcus) == ordered;
    AllKnown16(scan.kind, ordered, known);
    ScanBins(scan, DcReset(scan), scan.interval, ordered);
    ListedBins(traces);
    ghost var datas, ms;
    out, datas, ms := EncodeStream(traces);
    StreamSegmented(datas, marker, rest);
    WrappedReset(scan, DcReset(scan));
    assert Wrapped(DcReset(scan)) == DcReset(scan);
    ScanRoundTrip(scan, DcReset(scan), scan.interval, ordered, known);
    result := DecodeStream(out + [0xFF, marker] + rest, scan, known, traces, datas, ms);
  }
}
