/** A sequential scan from blocks to bytes and back, with tables made for it. */
module HuffmanTransmission {
  import opened Bytes
  import opened ZigZag
  import opened BitLogs
  import opened BitWriters
  import opened HuffmanCodes
  import opened HuffmanItems
  import opened SeqHuffman
  import opened HuffmanScan
  import opened HuffmanEncoder
  import opened OptimizedTables
  import EncoderLogs

  /** The blocks of an MCU, back in natural order. */
  function Restored(mcus: seq<Mcu>): (r: seq<seq<Block>>)
    ensures |r| == |mcus|
    ensures forall i :: 0 <= i < |mcus| ==> |r[i]| == |mcus[i]|
    ensures forall i, b :: 0 <= i < |mcus| && 0 <= b < |mcus[i]| ==> r[i][b] == FromZigZag(mcus[i][b])
  {
    seq(|mcus|, i requires 0 <= i < |mcus| =>
      seq(|mcus[i]|, b requires 0 <= b < |mcus[i]| => FromZigZag(mcus[i][b])))
  }

  /** Going through the blocks in zigzag order loses nothing. */
  lemma RestoredReordered(mcus: seq<seq<Block>>)
    ensures Restored(ReorderedMcus(mcus, NaturalOrders())) == mcus
  {
    hide FromZigZag, ToZigZag;
    var xs := ReorderedMcus(mcus, NaturalOrders());
    var r := Restored(xs);
    forall i | 0 <= i < |mcus|
      ensures r[i] == mcus[i]
    {
      forall b | 0 <= b < |mcus[i]|
        ensures r[i][b] == mcus[i][b]
      {
        ReorderedIsZigZag(mcus[i][b]);
        ZigZagRoundTrip(mcus[i][b]);
      }
    }
  }

  lemma ReorderedIsZigZag(block: Block)
    ensures Reordered(block, NaturalOrders()) == ToZigZag(block)
  {
    hide NaturalOrder;
  }

  /** What a scan writes, as far as its values are in range. */
  ghost function ItemsOf(s: Scan, mcus: seq<seq<Block>>): Segs
    requires GoodScan(s) && GoodMcus(s, ReorderedMcus(mcus, NaturalOrders()))
  {
    var xs := ReorderedMcus(mcus, NaturalOrders());
    if ScanInRange(s, ResetDc(s), s.interval, xs, 14) then ScanItems(s, ResetDc(s), s.interval, xs) else Last(Nil)
  }

  lemma SameCounts(c: Stats)
    requires GoodStats(c) && forall t: TableId, i: nat :: i < 257 ==> c[t][i] == 0
    ensures c == EncoderLogs.NoCounts()
  {
    forall t: TableId
      ensures c[t] == EncoderLogs.NoCounts()[t]
    {
    }
  }

  /**
   * Gathers the statistics of a scan, makes its tables, writes it, and decodes what was written: whenever this
   * succeeds the blocks come back, and it fails only if a value is out of range or an optimal code is over 32 bits.
   */
  method TransmitOptimized(bytes: nat, scan: Scan, maxBits: nat, mcus: seq<seq<Block>>, rest: seq<byte>)
    returns (ok: bool, out: seq<byte>, decoded: seq<seq<Block>>)
    requires (bytes == 4 || bytes == 8) && GoodScan(scan) && maxBits <= 14
    requires forall i :: 0 <= i < |mcus| ==> |mcus[i]| == |scan.membership|
    requires GoodMcus(scan, ReorderedMcus(mcus, NaturalOrders()))
    requires forall t: TableId :: Countable(TallySegs(ItemsOf(scan, mcus), EncoderLogs.NoCounts())[t])
    requires rest == [] || (|rest| >= 2 && rest[0] == 0xFF && (0 < rest[1] < 0xD0 || rest[1] > 0xD7))
    ensures ok ==> decoded == mcus
    ensures ok ==> ScanInRange(scan, ResetDc(scan), scan.interval, ReorderedMcus(mcus, NaturalOrders()), maxBits)
    ensures !ok ==>
      || !ScanInRange(scan, ResetDc(scan), scan.interval, ReorderedMcus(mcus, NaturalOrders()), maxBits)
      || exists t: TableId :: TooLong(TallySegs(ItemsOf(scan, mcus), EncoderLogs.NoCounts())[t])
  {
    hide ScanInRange, ScanItems, Countable, TooLong, GeneratedFrom, TallySegs, CoveredSegs, EmitSegs, Segments, ParseScan,
      ReadsBook, GoodBook;
    var order := NaturalOrders();
    ghost var xs := ReorderedMcus(mcus, order);
    out, decoded := [], [];
    var gatherer := new StatisticsGatherer(order, scan, maxBits);
    SameCounts(gatherer.counts);
    ok := gatherer.GatherScan(mcus);
    if !ok {
      return;
    }
    var counts := gatherer.counts;
    assert counts == TallySegs(ItemsOf(scan, mcus), EncoderLogs.NoCounts());
    var tables, book;
    ghost var sizes;
    ok, tables, book, sizes := MakeTables(counts);
    if !ok {
      return;
    }
    GeneratedTablesServe(counts, EncoderLogs.NoCounts(), ItemsOf(scan, mcus), sizes, tables, book);
    BookFits(tables, book);
    var w := new WordWriter(bytes);
    var encoder := new SequentialEncoder(w, order, scan, book, maxBits);
    ok := encoder.EncodeScan(mcus);
    out := w.out;
    EncodedScanDecodes(DecodersOf(tables), book, scan, xs, out, w.done, w.raw, rest);
    var bits := Strings(DataBits(Segments(out + rest, 0)));
    var parsed := ParseScan(DecodersOf(tables), scan, ResetDc(scan), scan.interval, |mcus|, bits, 0, bits[0]);
    decoded := Restored(parsed.value);
    RestoredReordered(mcus);
  }
}
