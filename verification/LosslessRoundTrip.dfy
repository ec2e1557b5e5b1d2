/** From the bytes of a lossless scan back to its samples. */
module LosslessRoundTrip {
  import opened Bytes
  import opened BitStrings
  import opened BitLogs
  import opened BitWriters
  import opened HuffmanItems
  import opened SeqHuffman
  import opened HuffmanScan
  import opened HuffmanEncoder
  import opened RestartIntervals
  import opened LosslessPrediction
  import opened LosslessScan
  import opened LosslessEncoder

  /** The bits of a segment decode to the rows of a restart interval, all of them predicted within it. */
  ghost predicate IntervalDecodes(read: seq<Reader>, s: LScan, rows: seq<Row>, bits: seq<bit>)
    requires |read| == NUM_TABLES && GoodLScan(s) && GoodRows(s, rows)
  {
    var p := ParseRows(read, s, [], |rows|, bits);
    p.Got? && p.value == rows
  }

  ghost predicate AllIntervalsDecode(read: seq<Reader>, s: LScan, ints: seq<seq<Row>>, bits: seq<seq<bit>>, i: nat)
    requires |read| == NUM_TABLES && GoodLScan(s)
    decreases |ints|
  {
    ints != [] ==>
      && i < |bits| && GoodRows(s, ints[0]) && IntervalDecodes(read, s, ints[0], bits[i])
      && AllIntervalsDecode(read, s, ints[1..], bits, i + 1)
  }

  lemma {:induction false} SegmentsDecode(read: seq<Reader>, book: CodeBook, s: LScan, segs: Segs, ints: seq<seq<Row>>,
                                          bits: seq<seq<bit>>, tails: seq<seq<bit>>, i: nat)
    requires ReadsBook(read, book) && GoodLScan(s) && CoveredSegs(book, segs) && HoldsRows(s, [], segs, ints)
    requires i < |bits| && Match(book, segs, bits, tails, i, bits[i])
    ensures AllIntervalsDecode(read, s, ints, bits, i)
    decreases segs
  {
    hide Reads, LosslessItems;
    RowsRoundTrip(read, book, s, [], ints[0], tails[i]);
    if segs.More? {
      SegmentsDecode(read, book, s, segs.others, ints[1..], bits, tails, i + 1);
    } else {
      assert ints[1..] == [];
    }
  }

  lemma {:induction false} IntervalDecodesAt(read: seq<Reader>, s: LScan, ints: seq<seq<Row>>, bits: seq<seq<bit>>, i: nat, k: nat)
    requires |read| == NUM_TABLES && GoodLScan(s) && AllIntervalsDecode(read, s, ints, bits, i) && k < |ints|
    ensures i + k < |bits| && GoodRows(s, ints[k]) && IntervalDecodes(read, s, ints[k], bits[i + k])
    decreases k
  {
    hide IntervalDecodes;
    if k > 0 {
      IntervalDecodesAt(read, s, ints[1..], bits, i + 1, k - 1);
    }
  }

  lemma EachDecodes(read: seq<Reader>, s: LScan, ints: seq<seq<Row>>, bits: seq<seq<bit>>)
    requires |read| == NUM_TABLES && GoodLScan(s) && AllIntervalsDecode(read, s, ints, bits, 0) && |bits| == |ints|
    ensures forall k :: 0 <= k < |ints| ==> GoodRows(s, ints[k]) && IntervalDecodes(read, s, ints[k], bits[k])
  {
    hide IntervalDecodes;
    forall k | 0 <= k < |ints|
      ensures GoodRows(s, ints[k]) && IntervalDecodes(read, s, ints[k], bits[k])
    {
      IntervalDecodesAt(read, s, ints, bits, 0, k);
    }
  }

  lemma {:induction false} HoldsSize(s: LScan, prev: Row, book: CodeBook, segs: Segs, ints: seq<seq<Row>>, b: Bits)
    requires GoodLScan(s) && GoodPrev(s, prev) && HoldsRows(s, prev, segs, ints)
    ensures |EmitSegs(book, segs, b)| == |ints|
    decreases segs
  {
    if segs.More? {
      HoldsSize(s, [], book, segs.others, ints[1..], Empty);
    }
  }

  /**
   * The bytes of a lossless scan, up to the next marker that is no restart marker, hold one segment for each
   * restart interval of rows, and each decodes to its rows exactly, at the precision of the point transform.
   */
  lemma EncodedLosslessScanDecodes(read: seq<Reader>, book: CodeBook, s: LScan, rows: seq<Row>,
                                   out: seq<byte>, done: seq<seq<byte>>, raw: seq<byte>, rest: seq<byte>)
    requires ReadsBook(read, book) && GoodLScan(s) && GoodRows(s, rows) && CoveredSegs(book, ScanSegs(s, rows))
    requires out == StuffOnto(Framed(done), raw)
    requires DataBits(done + [raw]) == EmitSegs(book, ScanSegs(s, rows), Empty)
    requires rest == [] || (|rest| >= 2 && rest[0] == 0xFF && (0 < rest[1] < 0xD0 || rest[1] > 0xD7))
    ensures var bits, ints := Strings(DataBits(Segments(out + rest, 0))), Intervals(RowsPer(s), RowsPer(s), ScaledRows(s, rows));
            |bits| == |ints|
            && forall k :: 0 <= k < |ints| ==> GoodRows(s, ints[k]) && IntervalDecodes(read, s, ints[k], bits[k])
  {
    hide Segments, IntervalDecodes, LosslessSegs, Intervals, Reads, EmitSegs, CoveredSegs, Match;
    ScanSegments(done, raw, rest);
    var xs := ScaledRows(s, rows);
    var segs, ints := ScanSegs(s, rows), Intervals(RowsPer(s), RowsPer(s), xs);
    var bits, tails := Strings(EmitSegs(book, segs, Empty)), Tails(book, segs);
    SameNumber(book, segs, Empty);
    assert bits[0..] == bits && tails[0..] == tails;
    EmittedMatch(book, segs, bits, tails, 0);
    ScanHoldsRows(s, [], RowsPer(s), xs);
    HoldsSize(s, [], book, segs, ints, Empty);
    SegmentsDecode(read, book, s, segs, ints, bits, tails, 0);
    EachDecodes(read, s, ints, bits);
  }
}
