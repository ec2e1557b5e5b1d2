/** A lossless scan from samples to bytes and back, with tables made for it. */
module LosslessTransmission {
  import opened Bytes
  import opened BitStrings
  import opened BitLogs
  import opened BitWriters
  import opened HuffmanItems
  import opened SeqHuffman
  import opened HuffmanScan
  import opened HuffmanEncoder
  import opened EncoderLogs
  import opened OptimizedTables
  import opened RestartIntervals
  import opened LosslessPrediction
  import opened LosslessScan
  import opened LosslessEncoder
  import opened LosslessRoundTrip

  /** The rows of all segments; the prediction starts anew in each. */
  function DecodeRows(read: seq<Reader>, s: LScan, sizes: seq<nat>, bits: seq<seq<bit>>): Parsed<seq<Row>>
    requires GoodLScan(s) && |read| == NUM_TABLES
    decreases |sizes|
  {
    if sizes == [] then Got([], [])
    else if bits == [] then Stuck
    else
      match ParseRows(read, s, [], sizes[0], bits[0])
      case Stuck => Stuck
      case Got(rows, _) =>
        match DecodeRows(read, s, sizes[1..], bits[1..])
        case Stuck => Stuck
        case Got(more, _) => Got(rows + more, [])
  }

  lemma {:induction false} RowsDecode(read: seq<Reader>, s: LScan, ints: seq<seq<Row>>, bits: seq<seq<bit>>)
    requires GoodLScan(s) && |read| == NUM_TABLES && |bits| == |ints|
    requires forall k :: 0 <= k < |ints| ==> GoodRows(s, ints[k]) && IntervalDecodes(read, s, ints[k], bits[k])
    ensures DecodeRows(read, s, Sizes(ints), bits) == Got(Joined(ints), [])
    decreases |ints|
  {
    if ints != [] {
      assert IntervalDecodes(read, s, ints[0], bits[0]);
      RowsDecode(read, s, ints[1..], bits[1..]);
      assert Sizes(ints)[1..] == Sizes(ints[1..]);
    }
  }

  /** Without a point transform the samples are the ones compressed. */
  lemma UnscaledRows(s: LScan, rows: seq<Row>)
    requires GoodRows(s, rows) && s.al == 0
    ensures ScaledRows(s, rows) == rows
  {
    hide Scaled;
    forall y | 0 <= y < |rows|
      ensures ScaledRow(s, rows[y]) == rows[y]
    {
      forall c | 0 <= c < |rows[y]|
        ensures ScaledRow(s, rows[y])[c] == rows[y][c]
      {
        UnscaledIsSame(rows[y][c]);
      }
    }
  }

  /**
   * Gathers the statistics of a scan, makes its tables, writes it, and decodes what was written: the samples come
   * back at the precision of the point transform, and it fails only if an optimal code is over 32 bits.
   */
  method TransmitLossless(width: nat, s: LScan, rows: seq<Row>, rest: seq<byte>)
    returns (ok: bool, out: seq<byte>, decoded: seq<Row>)
    requires 32 <= width && GoodLScan(s) && GoodRows(s, rows)
    requires forall t: TableId :: Countable(TallySegs(ScanSegs(s, rows), NoCounts())[t])
    requires rest == [] || (|rest| >= 2 && rest[0] == 0xFF && (0 < rest[1] < 0xD0 || rest[1] > 0xD7))
    ensures ok ==> decoded == ScaledRows(s, rows)
    ensures ok && s.al == 0 ==> decoded == rows
    ensures !ok ==> exists t: TableId :: TooLong(TallySegs(ScanSegs(s, rows), NoCounts())[t])
  {
    hide Countable, TooLong, GeneratedFrom, TallySegs, CoveredSegs, EmitSegs, Segments, ReadsBook, ScanSegs, IntervalDecodes,
      Intervals, GoodBook, ScaledRow;
    out, decoded := [], [];
    var unused := new ByteWriter(width);
    var differ := new Differencer(s);
    var counter := new LosslessCoder(s, unused, true, NoBook());
    var counted := CompressScan(differ, counter, rows);
    var counts := counter.counts;
    var tables, book;
    ghost var sizes;
    ok, tables, book, sizes := MakeTables(counts);
    if !ok {
      return;
    }
    GeneratedTablesServe(counts, NoCounts(), ScanSegs(s, rows), sizes, tables, book);
    BookFits(tables, book);
    var w := new ByteWriter(width);
    differ := new Differencer(s);
    var coder := new LosslessCoder(s, w, false, book);
    ok := CompressScan(differ, coder, rows);
    out := w.out;
    EncodedLosslessScanDecodes(DecodersOf(tables), book, s, rows, out, w.done, w.raw, rest);
    ghost var xs := ScaledRows(s, rows);
    var bits := Strings(DataBits(Segments(out + rest, 0)));
    var parsed := DecodeRows(DecodersOf(tables), s, Quotas(RowsPer(s), |rows|), bits);
    QuotasOf(RowsPer(s), xs);
    RowsDecode(DecodersOf(tables), s, Intervals(RowsPer(s), RowsPer(s), xs), bits);
    IntervalsJoin(RowsPer(s), RowsPer(s), xs);
    decoded := parsed.value;
    if s.al == 0 {
      UnscaledRows(s, rows);
    }
  }
}
