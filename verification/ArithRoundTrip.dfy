/** The arithmetic coder from end to end: decisions to bytes and back, and whole scans. */
module ArithRoundTrip {
  import opened Bytes
  import opened ProbabilityTable
  import opened IntervalCoder
  import opened ArithEncoder
  import opened ArithDecoder
  import opened ZigZag
  import opened ArithModel
  import opened ArithMcu
  import opened ArithScan

  /** A copy of the initial statistics bins. */
  method NewBins(bins: seq<byte>) returns (stats: array<byte>)
    ensures fresh(stats) && stats[..] == bins
  {
    stats := new byte[|bins|](i requires 0 <= i < |bins| => bins[i]);
  }

  /** Codes a sequence of decisions into one segment. */
  method EncodeSegment(bins: seq<byte>, t: Trace)
    returns (segment: seq<byte>, end: seq<byte>, ghost data: seq<byte>, ghost m: nat)
    requires GoodBins(bins) && InBins(t, |bins|)
    ensures segment == Stuff(data) && Follows(Start(bins), t, m, CodeValue(data, m))
    ensures end == EncodeAll(Start(bins), t).bins
    ensures data != [] ==> data[|data| - 1] != 0
  {
    var stats := NewBins(bins);
    var e := new Encoder(stats);
    e.EncodeTrace(t);
    end := stats[..];
    m := e.Ideal().shifts + 32;
    e.Finish();
    segment, data := e.out, e.data;
    assert segment == [] + Stuff(data);
  }

  /** Decodes a segment that is followed by a marker, asking for the bins of t in turn. */
  method DecodeSegment(stats: array<byte>, t: Trace, input: seq<byte>, ghost data: seq<byte>, ghost fill: nat, ghost m: nat)
    returns (decoded: Log, end: seq<byte>)
    requires GoodBins(stats[..]) && InBins(t, stats.Length) && Holds(input, 0, data, fill)
    requires Follows(Start(stats[..]), t, m, CodeValue(data, m))
    modifies stats
    ensures Append(decoded, Done) == t
    ensures end == EncodeAll(Start(old(stats[..])), t).bins
  {
    var d := new Decoder(input, 0, stats, data, fill, m, t);
    decoded := d.DecodeTrace(t);
    end := stats[..];
  }

  /** Codes any sequence of decisions, closes the segment with a marker as the next writer does, and
      decodes it: every decision comes back, whatever the bins, and the decoder's statistics end
      up where the encoder's did. */
  method EncodeAndDecode(bins: seq<byte>, t: Trace, marker: byte, rest: seq<byte>)
    returns (segment: seq<byte>, decoded: Log, encoderBins: seq<byte>, decoderBins: seq<byte>)
    requires GoodBins(bins) && InBins(t, |bins|) && marker != 0 && marker != 0xFF
    ensures Append(decoded, Done) == t
    ensures decoderBins == encoderBins
  {
    ghost var data, m;
    segment, encoderBins, data, m := EncodeSegment(bins, t);
    var input := segment + [0xFF, marker] + rest;
    assert input[0..|segment|] == Stuff(data);
    var stats := NewBins(bins);
    decoded, decoderBins := DecodeSegment(stats, t, input, data, 1, m);
  }

  /** The bins at the start of a segment: all zero but the one of fixed probability. */
  function FirstBins(): (r: seq<byte>)
    ensures GoodBins(r) && |r| == NUM_BINS
  {
    seq(NUM_BINS, i => if i == FIXED_BIN then FIXED_STATE else 0)
  }

  /** A bin in the state 113 stays in it, whatever is coded with it. */
  lemma {:induction false} FixedStays(c: Coder, t: Trace, i: nat)
    requires 0x8000 <= c.size <= 0x10000 && GoodBins(c.bins) && InBins(t, |c.bins|) && i < |c.bins| && c.bins[i] == 113
    ensures EncodeAll(c, t).bins[i] == 113
    decreases t
  {
    hide RowOf, GoodBin, AfterLps, AfterMps, Choose, Renorm;
    if t.Then? {
      FixedChoice(c.size, c.bins[i], t.head.val);
      FixedStays(IntervalCoder.Encode(c, t.head), t.tail, i);
    }
  }

  lemma FixedChoice(size: int, sv: byte, val: bit)
    requires 0x8000 <= size <= 0x10000 && sv == 113
    ensures GoodBin(sv) && Choose(size, sv, val).sv == sv
  {
    hide RowOf, AfterLps, AfterMps;
    FixedEstimate(sv);
  }

  /**
   * What the statistics are at the start of a segment: the bin of fixed probability is in the last state of the
   * table, where it remains; every other bin is in the first state and expects a zero.
   */
  lemma FirstStatistics(bins: seq<byte>, t: Trace)
    requires bins == FirstBins() && InBins(t, |bins|)
    ensures bins[FIXED_BIN] == 113 && EncodeAll(Start(bins), t).bins[FIXED_BIN] == bins[FIXED_BIN]
    ensures forall i :: 0 <= i < NUM_BINS && i != FIXED_BIN ==> bins[i] % 128 == 0 && Mps(bins[i]) == 0
  {
    hide EncodeAll, InBins;
    FixedStays(Start(bins), t, FIXED_BIN);
  }

  /** The decoder's bins for a segment: areas filled with zeros, and its own bin of fixed probability. */
  method ClearedBins() returns (stats: array<byte>)
    ensures fresh(stats) && stats[..] == FirstBins()
  {
    stats := new byte[NUM_BINS](_ => 0);
    stats[FIXED_BIN] := 113;
    assert stats[..] == FirstBins();
  }

  lemma {:induction false} ListedBins(ts: seq<Trace>)
    requires SegmentBins(Listed(ts))
    ensures forall i :: 0 <= i < |ts| ==> InBins(ts[i], NUM_BINS)
    decreases |ts|
  {
    if |ts| > 1 {
      ListedBins(ts[1..]);
      assert forall i :: 1 <= i < |ts| ==> ts[i] == ts[1..][i - 1];
    }
  }

  /** A segment of a scan: encoder and decoder have their own statistics. */
  method TransmitSegment(t: Trace, marker: byte) returns (segment: seq<byte>, decoded: Log)
    requires InBins(t, NUM_BINS) && marker != 0 && marker != 0xFF
    ensures Append(decoded, Done) == t
  {
    hide FirstBins, InBins, Stuff, CodeValue, EncodeAll;
    ghost var data, m;
    var end;
    segment, end, data, m := EncodeSegment(FirstBins(), t);
    var input := segment + [0xFF, marker];
    assert input[0..|segment|] == Stuff(data);
    var stats := ClearedBins();
    decoded, end := DecodeSegment(stats, t, input, data, 1, m);
  }

  /** A whole scan of any kind, from coefficient blocks to code segments and back: what the scan
      conveys of every block is decoded, across all restarts.  `known` is what the decoder knows of
      the blocks beforehand. */
  method TransmitScan(order: Order, scan: Scan, mcus: seq<seq<Block>>, known: seq<seq<Block>>)
    returns (segments: seq<seq<byte>>, result: Parsed<seq<seq<seq<int>>>>)
    requires GoodScan(scan) && order[0] == 0 && GoodMcus(scan, mcus) && GoodMcus(scan, ReorderedMcus(mcus, order))
    requires KnownMcus(scan.kind, ReorderedMcus(mcus, order), known) && GoodMcus(scan, known)
    ensures result == if ScanFits(scan, DcReset(scan), scan.interval, ReorderedMcus(mcus, order))
                      then Got(ConveyedScan(scan.kind, ReorderedMcus(mcus, order)), Done) else Stuck
  {
    hide ParseScan, ScanSegments, ScanFits, ConveyedScan, Listed, SegmentBins, InBins;
    ghost var ordered := ReorderedMcus(mcus, order);
    var model := new EntropyModel(order, scan);
    var traces := model.EncodeScan(mcus);
    assert model.OrderedMcus(mcus) == ordered;
    AllKnown16(scan.kind, ordered, known);
    ScanBins(scan, DcReset(scan), scan.interval, ordered);
    ListedBins(traces);
    segments := [];
    var received: seq<Trace> := [];
    for i := 0 to |traces|
      invariant received == traces[..i]
    {
      var segment, decoded := TransmitSegment(traces[i], JPEG_RST0 + i % 8);
      segments := segments + [segment];
      received := received + [Append(decoded, Done)];
    }
    assert received == traces;
    WrappedReset(scan, DcReset(scan));
    assert Wrapped(DcReset(scan)) == DcReset(scan);
    ScanRoundTrip(scan, DcReset(scan), scan.interval, ordered, known);
    result := ParseScan(Listed(received), scan, DcReset(scan), scan.interval, known);
  }
}
