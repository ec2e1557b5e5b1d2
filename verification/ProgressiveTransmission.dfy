/** A progressive image from blocks to bytes and back: every scan of a script is coded with tables made for it. */
module ProgressiveTransmission {
  import opened Bytes
  import opened ZigZag
  import opened BitLogs
  import opened BitWriters
  import opened HuffmanCodes
  import opened HuffmanItems
  import opened HuffmanScan
  import opened ProgressiveScan
  import opened HuffmanEncoder
  import opened EncoderLogs
  import opened OptimizedTables
  import opened ProgressiveRoundTrip
  import opened RestartIntervals
  import opened ScriptDecoding
  import Progressive = ProgressiveEncoder
  import Script = ScanScript

  /** A scan to be coded: what the decoder will know of it, and its MCUs with blocks in natural order. */
  datatype Job = Job(plan: Plan, mcus: seq<seq<Block>>)

  /** The job is the given scan of the script, of this image. */
  ghost predicate GoodJob(s: Script.ScanInfo, job: Job, order: Order, image: Image, precision: nat) {
    && Planned(s, job.plan, image, precision) && GoodProgScan(job.plan.scan)
    && |job.mcus| == job.plan.mcus
    && (forall i :: 0 <= i < |job.mcus| ==> |job.mcus[i]| == |job.plan.scan.membership|)
    && (forall i, j :: 0 <= i < |job.mcus| && 0 <= j < |job.mcus[i]| ==> Progressive.Is16(job.mcus[i][j]))
    && GoodProgMcus(job.plan.scan, ReorderedMcus(job.mcus, order))
    && InPlace(s, job.plan, image, ReorderedMcus(job.mcus, order), precision)
  }

  /** The encoder has a plan it can follow. */
  predicate Sound(job: Job, order: Order) {
    GoodProgScan(job.plan.scan) && GoodProgMcus(job.plan.scan, ReorderedMcus(job.mcus, order))
  }

  /** What the scan writes or counts. */
  function ItemsOf(job: Job, order: Order): Segs
    requires Sound(job, order)
  {
    var s := job.plan.scan;
    ProgScanItems(s, Initial(s), s.interval, ReorderedMcus(job.mcus, order))
  }

  ghost predicate JobCountable(job: Job, order: Order) {
    Sound(job, order) && forall t: TableId :: Countable(TallySegs(ItemsOf(job, order), NoCounts())[t])
  }

  /** Why a scan may fail: a coefficient is out of range, or an optimal code is over 32 bits. */
  ghost predicate Uncodable(job: Job, order: Order, maxBits: nat) {
    && Sound(job, order)
    && var s := job.plan.scan;
       || !ProgScanFits(s, Initial(s), s.interval, ReorderedMcus(job.mcus, order), maxBits)
       || exists t: TableId :: TooLong(TallySegs(ItemsOf(job, order), NoCounts())[t])
  }

  /** Counts the symbols of a scan, and makes its tables. */
  method GatherScan(width: nat, order: Order, maxBits: nat, s: Script.ScanInfo, job: Job, ghost image: Image, ghost precision: nat)
    returns (ok: bool, tables: seq<Table>, book: CodeBook)
    requires 32 <= width && order[0] == 0 && maxBits <= 14 && GoodJob(s, job, order, image, precision)
    requires JobCountable(job, order)
    ensures !ok ==> Uncodable(job, order, maxBits)
    ensures ok ==> ProgScanFits(job.plan.scan, Initial(job.plan.scan), job.plan.scan.interval, ReorderedMcus(job.mcus, order), maxBits)
    ensures ok ==> |tables| == NUM_TABLES && GoodBook(book) && ReadsBook(DecodersOf(tables), book) && CoveredSegs(book, ItemsOf(job, order))
  {
    hide Planned, InPlace, ProgScanFits, ProgScanItems, Countable, TooLong, GeneratedFrom, TallySegs, CoveredSegs, ReadsBook, GoodBook;
    var unused := new ByteWriter(width);
    var counter := new Progressive.Encoder(unused, true, order, job.plan.scan, NoBook(), maxBits);
    tables, book := [], NoBook();
    ok := counter.EncodeScan(job.mcus);
    if !ok {
      return;
    }
    var counts := counter.counts;
    assert counts == TallySegs(ItemsOf(job, order), NoCounts());
    ghost var sizes;
    ok, tables, book, sizes := MakeTables(counts);
    if !ok {
      return;
    }
    GeneratedTablesServe(counts, NoCounts(), ItemsOf(job, order), sizes, tables, book);
    BookFits(tables, book);
  }

  /** What the encoder has written decodes. */
  lemma ScanIsCoded(order: Order, maxBits: nat, s: Script.ScanInfo, job: Job, image: Image, precision: nat, tables: seq<Table>,
                    book: CodeBook, out: seq<byte>, done: seq<seq<byte>>, raw: seq<byte>, rest: seq<byte>)
    requires maxBits <= 14 && GoodJob(s, job, order, image, precision) && |tables| == NUM_TABLES
    requires ProgScanFits(job.plan.scan, Initial(job.plan.scan), job.plan.scan.interval, ReorderedMcus(job.mcus, order), maxBits)
    requires ReadsBook(DecodersOf(tables), book) && CoveredSegs(book, ItemsOf(job, order))
    requires out == StuffOnto(Framed(done), raw) && DataBits(done + [raw]) == EmitSegs(book, ItemsOf(job, order), Empty)
    requires rest == [] || (|rest| >= 2 && rest[0] == 0xFF && (0 < rest[1] < 0xD0 || rest[1] > 0xD7))
    ensures CodedScan(s, Coded(job.plan, DecodersOf(tables), Strings(DataBits(Segments(out + rest, 0)))), image, precision)
  {
    hide Planned, InPlace, ProgScanFits, ProgScanItems, CoveredSegs, ReadsBook, EmitSegs, Segments, SegmentDecodes, Strings, Intervals;
    var xs, read := ReorderedMcus(job.mcus, order), DecodersOf(tables);
    EncodedProgressiveScanDecodes(read, book, job.plan.scan, xs, out, done, raw, rest, maxBits);
    assert Carried(read, s, job.plan, image, xs, Strings(DataBits(Segments(out + rest, 0))), precision);
  }

  /** Codes one scan of the script, and hands the decoder its segments. */
  method TransmitScan(width: nat, order: Order, maxBits: nat, s: Script.ScanInfo, job: Job, rest: seq<byte>,
                      ghost image: Image, ghost precision: nat) returns (ok: bool, out: seq<byte>, coded: Coded)
    requires 32 <= width && order[0] == 0 && maxBits <= 14 && GoodJob(s, job, order, image, precision)
    requires JobCountable(job, order)
    requires rest == [] || (|rest| >= 2 && rest[0] == 0xFF && (0 < rest[1] < 0xD0 || rest[1] > 0xD7))
    ensures !ok ==> Uncodable(job, order, maxBits)
    ensures ok ==> CodedScan(s, coded, image, precision)
  {
    hide Planned, InPlace, ProgScanFits, ProgScanItems, JobCountable, CoveredSegs, ReadsBook, GoodBook, EmitSegs, Segments,
      CodedScan, Uncodable;
    var tables, book;
    ok, tables, book := GatherScan(width, order, maxBits, s, job, image, precision);
    out, coded := [], Coded(job.plan, [], []);
    if !ok {
      return;
    }
    var w := new ByteWriter(width);
    var encoder := new Progressive.Encoder(w, false, order, job.plan.scan, book, maxBits);
    ok := encoder.EncodeScan(job.mcus);
    out := w.out;
    coded := Coded(job.plan, DecodersOf(tables), Strings(DataBits(Segments(out + rest, 0))));
    ScanIsCoded(order, maxBits, s, job, image, precision, tables, book, out, w.done, w.raw, rest);
  }

  /** An image of zeros. */
  function Zeros(held: Image): (r: Image)
    ensures SameShape(held, r) && Blank(r)
  {
    seq(|held|, c requires 0 <= c < |held| => seq(|held[c]|, _ => seq(64, _ => 0)))
  }

  /**
   * Codes the scans of an accepted script one after the other, each with tables made for it, and decodes all of
   * them: whenever this succeeds, every coefficient of every component arrives at the precision of the last scan
   * that sends it.
   */
  method TransmitScript(width: nat, order: Order, maxBits: nat, script: seq<Script.ScanInfo>, jobs: seq<Job>, rest: seq<byte>,
                        image: Image, precision: nat) returns (ok: bool, files: seq<seq<byte>>, received: Delivery)
    requires 32 <= width && order[0] == 0 && maxBits <= 14
    requires Script.GoodProgressive(script, |image|, precision) && |jobs| == |script|
    requires forall i :: 0 <= i < |script| ==> GoodJob(script[i], jobs[i], order, image, precision) && JobCountable(jobs[i], order)
    requires rest == [] || (|rest| >= 2 && rest[0] == 0xFF && (0 < rest[1] < 0xD0 || rest[1] > 0xD7))
    ensures !ok ==> exists i :: 0 <= i < |script| && Uncodable(jobs[i], order, maxBits)
    ensures ok ==> received.Delivered? && UpTo(script, image, received.image)
  {
    hide Script.GoodProgressive, JobCountable, CodedScan, Uncodable, Blank, UpTo;
    files, received := [], Lost;
    var scans: seq<Coded> := [];
    var i := 0;
    while i < |script|
      invariant i <= |script| && |scans| == i
      invariant forall k :: 0 <= k < i ==> CodedScan(script[k], scans[k], image, precision)
    {
      var out, coded;
      ok, out, coded := TransmitScan(width, order, maxBits, script[i], jobs[i], rest, image, precision);
      if !ok {
        return;
      }
      files, scans := files + [out], scans + [coded];
      i := i + 1;
    }
    ok := true;
    ScriptDelivers(script, scans, image, Zeros(image), precision);
    received := DecodeScript(script, scans, Zeros(image), precision);
  }
}
