/** A lossless Huffman scan: its items, its restart intervals, and what a decoder gets back. */
module LosslessScan {
  import opened Bytes
  import opened BitStrings
  import opened Coefficients
  import opened Words
  import opened BitLogs
  import opened HuffmanCodes
  import opened HuffmanItems
  import opened SeqHuffman
  import opened HuffmanScan
  import opened RestartIntervals
  import opened LosslessPrediction

  /**
   * The DC table of each component, the width of the image, the predictor, the precision, the point transform,
   * and the restart interval in MCUs. Sampling factors are one, so an MCU is one sample of each component.
   */
  datatype LScan = LScan(tables: seq<nat>, width: nat, sel: int, precision: nat, al: nat, interval: nat)

  predicate Configured(s: LScan) {
    && 1 <= |s.tables| && (forall c :: 0 <= c < |s.tables| ==> s.tables[c] < 4)
    && s.width > 0 && 1 <= s.sel <= 7 && s.al < s.precision <= 16
  }

  /** A restart interval has to be a number of whole rows. */
  predicate GoodLScan(s: LScan) { Configured(s) && s.interval % s.width == 0 }

  /** The restart interval in rows. */
  function RowsPer(s: LScan): nat
    requires s.width > 0
  {
    s.interval / s.width
  }

  /** A row of samples of every component. */
  type Row = seq<Samples>

  predicate GoodRow(s: LScan, row: Row) {
    |row| == |s.tables| && forall c :: 0 <= c < |row| ==> |row[c]| == s.width && InWord(row[c])
  }

  /** The row above, or nothing at the start of an interval. */
  predicate GoodPrev(s: LScan, prev: Row) { prev == [] || GoodRow(s, prev) }

  predicate GoodRows(s: LScan, rows: seq<Row>) { forall y :: 0 <= y < |rows| ==> GoodRow(s, rows[y]) }

  function ModeOf(s: LScan, prev: Row, c: nat): (m: Mode)
    requires GoodLScan(s) && GoodPrev(s, prev) && c < |s.tables|
    ensures Predictable(m, s.width)
  {
    if prev == [] then FirstRow(Pow2(s.precision - s.al - 1)) else FromAbove(s.sel, prev[c])
  }

  /** A row of differences of every component. */
  type Diffs = seq<seq<int>>

  predicate GoodDiffs(s: LScan, d: Diffs) { |d| == |s.tables| && forall c :: 0 <= c < |d| ==> |d[c]| == s.width }

  function RowDifferences(s: LScan, prev: Row, row: Row): (d: Diffs)
    requires GoodLScan(s) && GoodPrev(s, prev) && GoodRow(s, row)
    ensures GoodDiffs(s, d) && forall c :: 0 <= c < |d| ==> d[c] == Differences(ModeOf(s, prev, c), row[c])
  {
    seq(|row|, c requires 0 <= c < |row| => Differences(ModeOf(s, prev, c), row[c]))
  }

  /**
   * What is subtracted from a sample: in the first row of an interval the sample to the left, and half the range of
   * the samples at its start; in every other row the sample above at its start, and then what the predictor makes of
   * the samples to the left, above, and above to the left.
   */
  lemma DifferencesAre(s: LScan, prev: Row, row: Row, c: nat, x: nat)
    requires GoodLScan(s) && GoodPrev(s, prev) && GoodRow(s, row) && c < |s.tables| && x < s.width
    ensures prev == [] && x == 0 ==> 2 * (row[c][x] - RowDifferences(s, prev, row)[c][x]) == Pow2(s.precision - s.al)
    ensures prev == [] && x > 0 ==> RowDifferences(s, prev, row)[c][x] == row[c][x] - row[c][x - 1]
    ensures prev != [] && x == 0 ==> RowDifferences(s, prev, row)[c][x] == row[c][x] - prev[c][x]
    ensures prev != [] && x > 0 ==>
      RowDifferences(s, prev, row)[c][x] == row[c][x] - Predict(s.sel, row[c][x - 1], prev[c][x], prev[c][x - 1])
  {
    HalfRange(s.precision - s.al);
  }

  lemma HalfRange(n: nat)
    requires n > 0
    ensures Pow2(n) == 2 * Pow2(n - 1)
  {
  }

  // Items.

  /** A difference as a signed 16-bit number. */
  function Signed16(d: int): int {
    if d % 0x10000 >= 0x8000 then d % 0x10000 - 0x10000 else d % 0x10000
  }

  /** The size of a difference, and its bits, of which there are none for the magnitude 32768. */
  function DifferenceItems(t: TableId, d: int, rest: Items): Items {
    var v := Signed16(d);
    Sym(t, Size(v) % 256, Raw(ExtraBits(v), if Size(v) == 16 then 0 else Size(v), rest))
  }

  /** What the decoder makes of a difference. */
  function Received16(d: int): int { if Signed16(d) == -0x8000 then 0x8000 else Signed16(d) }

  lemma ReceivedSame(d: int)
    ensures Same16(Received16(d), d)
  {
  }

  function TableOf(s: LScan, c: nat): TableId
    requires GoodLScan(s) && c < |s.tables|
  {
    DcTable(s.tables[c])
  }

  /** The MCU of column x, from component c on. */
  function McuDiffItems(s: LScan, d: Diffs, x: nat, c: nat, rest: Items): Items
    requires GoodLScan(s) && GoodDiffs(s, d) && x < s.width && c <= |s.tables|
    decreases |s.tables| - c
  {
    if c == |s.tables| then rest else DifferenceItems(TableOf(s, c), d[c][x], McuDiffItems(s, d, x, c + 1, rest))
  }

  /** The MCUs of a row, from column x on. */
  function RowItems(s: LScan, d: Diffs, x: nat, rest: Items): Items
    requires GoodLScan(s) && GoodDiffs(s, d) && x <= s.width
    decreases s.width - x
  {
    if x == s.width then rest else McuDiffItems(s, d, x, 0, RowItems(s, d, x + 1, rest))
  }

  /** The rows of a restart interval that are left, below prev. */
  function LosslessItems(s: LScan, prev: Row, rows: seq<Row>): Items
    requires GoodLScan(s) && GoodPrev(s, prev) && GoodRows(s, rows)
    decreases |rows|
  {
    if rows == [] then Nil else RowItems(s, RowDifferences(s, prev, rows[0]), 0, LosslessItems(s, rows[0], rows[1..]))
  }

  /** A scan, segment by segment; togo rows are left in the restart interval, and prev is the row above. */
  function LosslessSegs(s: LScan, prev: Row, togo: nat, rows: seq<Row>): Segs
    requires GoodLScan(s) && GoodPrev(s, prev) && GoodRows(s, rows)
    decreases |rows|, if togo == 0 then 1 else 0
  {
    if rows == [] then Last(Nil)
    else if RowsPer(s) > 0 && togo == 0 then More(Nil, LosslessSegs(s, [], RowsPer(s), rows))
    else
      var segs := LosslessSegs(s, rows[0], if RowsPer(s) > 0 then togo - 1 else togo, rows[1..]);
      First(segs, RowItems(s, RowDifferences(s, prev, rows[0]), 0, segs.items))
  }

  /** The segments are the restart intervals, each predicted on its own. */
  ghost predicate HoldsRows(s: LScan, prev: Row, segs: Segs, ints: seq<seq<Row>>)
    requires GoodLScan(s) && GoodPrev(s, prev)
    decreases segs
  {
    && ints != [] && GoodRows(s, ints[0]) && segs.items == LosslessItems(s, prev, ints[0])
    && (segs.More? <==> |ints| > 1)
    && (segs.More? ==> HoldsRows(s, [], segs.others, ints[1..]))
  }

  lemma HoldsRowsFirst(s: LScan, prev: Row, row: Row, segs: Segs, ints: seq<seq<Row>>)
    requires GoodLScan(s) && GoodPrev(s, prev) && GoodRow(s, row) && HoldsRows(s, row, segs, ints)
    ensures HoldsRows(s, prev, First(segs, RowItems(s, RowDifferences(s, prev, row), 0, segs.items)), [[row] + ints[0]] + ints[1..])
  {
    var all := [[row] + ints[0]] + ints[1..];
    assert ([row] + ints[0])[1..] == ints[0];
    assert all[1..] == ints[1..];
  }

  lemma {:induction false} ScanHoldsRows(s: LScan, prev: Row, togo: nat, rows: seq<Row>)
    requires GoodLScan(s) && GoodPrev(s, prev) && GoodRows(s, rows)
    ensures HoldsRows(s, prev, LosslessSegs(s, prev, togo, rows), Intervals(RowsPer(s), togo, rows))
    decreases |rows|, if togo == 0 then 1 else 0
  {
    if rows == [] {
    } else if RowsPer(s) > 0 && togo == 0 {
      ScanHoldsRows(s, [], RowsPer(s), rows);
      var more := Intervals(RowsPer(s), RowsPer(s), rows);
      assert ([[]] + more)[1..] == more;
    } else {
      var togo' := if RowsPer(s) > 0 then togo - 1 else togo;
      ScanHoldsRows(s, rows[0], togo', rows[1..]);
      HoldsRowsFirst(s, prev, rows[0], LosslessSegs(s, rows[0], togo', rows[1..]), Intervals(RowsPer(s), togo', rows[1..]));
    }
  }

  // Decoding.

  function ParseDifference(read: Reader, bits: seq<bit>): Parsed<int> {
    match read(bits)
    case Bad => Stuck
    case Symbol(n, rest) =>
      if n == 0 then Got(0, rest)
      else if n == 16 then Got(0x8000, rest)
      else if n > 16 then Stuck
      else
        match Receive(n, rest)
        case Short => Stuck
        case Bits(v, rest') => Got(Extend(v, n), rest')
  }

  /** The differences of an MCU, from component c on. */
  function ParseDiffMcu(read: seq<Reader>, s: LScan, c: nat, bits: seq<bit>): Parsed<seq<int>>
    requires GoodLScan(s) && |read| == NUM_TABLES && c <= |s.tables|
    decreases |s.tables| - c
  {
    if c == |s.tables| then Got([], bits)
    else
      match ParseDifference(read[TableOf(s, c)], bits)
      case Stuck => Stuck
      case Got(d, bits') =>
        match ParseDiffMcu(read, s, c + 1, bits')
        case Stuck => Stuck
        case Got(ds, bits'') => Got([d] + ds, bits'')
  }

  /** n MCUs. */
  function ParseDiffRow(read: seq<Reader>, s: LScan, n: nat, bits: seq<bit>): Parsed<seq<seq<int>>>
    requires GoodLScan(s) && |read| == NUM_TABLES
    decreases n
  {
    if n == 0 then Got([], bits)
    else
      match ParseDiffMcu(read, s, 0, bits)
      case Stuck => Stuck
      case Got(ds, bits') =>
        match ParseDiffRow(read, s, n - 1, bits')
        case Stuck => Stuck
        case Got(more, bits'') => Got([ds] + more, bits'')
  }

  /** A row of MCUs of differences. */
  predicate Shaped(s: LScan, ms: seq<seq<int>>) { |ms| == s.width && forall x :: 0 <= x < |ms| ==> |ms[x]| == |s.tables| }

  /** The differences of one component. */
  function Column(s: LScan, ms: seq<seq<int>>, c: nat): (d: seq<int>)
    requires Shaped(s, ms) && c < |s.tables|
    ensures |d| == s.width && forall x :: 0 <= x < s.width ==> d[x] == ms[x][c]
  {
    seq(s.width, x requires 0 <= x < s.width => ms[x][c])
  }

  function UndifferencedRow(s: LScan, prev: Row, ms: seq<seq<int>>): (row: Row)
    requires GoodLScan(s) && GoodPrev(s, prev) && Shaped(s, ms)
    ensures GoodRow(s, row)
    ensures forall c :: 0 <= c < |row| ==> row[c] == Undifferenced(ModeOf(s, prev, c), Column(s, ms, c), s.width)
  {
    seq(|s.tables|, c requires 0 <= c < |s.tables| => Undifferenced(ModeOf(s, prev, c), Column(s, ms, c), s.width))
  }

  /** n rows below prev. */
  function ParseRows(read: seq<Reader>, s: LScan, prev: Row, n: nat, bits: seq<bit>): Parsed<seq<Row>>
    requires GoodLScan(s) && |read| == NUM_TABLES && GoodPrev(s, prev)
    decreases n
  {
    if n == 0 then Got([], bits)
    else
      match ParseDiffRow(read, s, s.width, bits)
      case Stuck => Stuck
      case Got(ms, bits') =>
        if !Shaped(s, ms) then Stuck
        else
          var row := UndifferencedRow(s, prev, ms);
          match ParseRows(read, s, row, n - 1, bits')
          case Stuck => Stuck
          case Got(rows, bits'') => Got([row] + rows, bits'')
  }

  // The round trip.

  lemma SizeOf16(d: int)
    ensures Size(Signed16(d)) <= 16
    ensures Size(Signed16(d)) == 16 <==> Signed16(d) == -0x8000
    ensures Size(Signed16(d)) == 0 <==> Signed16(d) == 0
  {
    var v := Signed16(d);
    assert Shl(1, 15) == 0x8000 && Shl(1, 16) == 0x10000 by {
      ShlConstants(1);
      assert Shl(1, 16) == 2 * Shl(1, 15);
    }
    BitLengthBounds(Abs(v));
    BitLengthMono(Abs(v), 16);
    if Abs(v) < 0x8000 {
      BitLengthMono(Abs(v), 15);
    }
  }

  /** A difference is received as the same number modulo 2^16. */
  lemma DifferenceRoundTrip(read: Reader, book: CodeBook, t: TableId, d: int, rest: Items, tail: seq<bit>)
    requires Reads(read, book[t]) && Covered(book, DifferenceItems(t, d, rest))
    ensures ParseDifference(read, ItemBits(book, DifferenceItems(t, d, rest), tail)) == Got(Received16(d), ItemBits(book, rest, tail))
    ensures Covered(book, rest)
  {
    hide Reads, Signed16, ExtraBits, Extend, BitLength, ToBits, Pow2;
    var v, bits := Signed16(d), ItemBits(book, rest, tail);
    SizeOf16(d);
    ExtendExtra(v);
    var n := Size(v);
    var k := if n == 16 then 0 else n;
    ReadSymbol(read, book[t], n, ToBits(ExtraBits(v), k) + bits);
    if 0 < n < 16 {
      ReceiveBits(ExtraBits(v), n, bits);
    } else {
      assert ToBits(ExtraBits(v), 0) + bits == bits;
    }
  }

  /** The received differences of column x. */
  function ReceivedMcu(s: LScan, d: Diffs, x: nat): (ds: seq<int>)
    requires GoodDiffs(s, d) && x < s.width
    ensures |ds| == |s.tables| && forall c :: 0 <= c < |ds| ==> ds[c] == Received16(d[c][x])
  {
    seq(|s.tables|, c requires 0 <= c < |s.tables| => Received16(d[c][x]))
  }

  function ReceivedRow(s: LScan, d: Diffs): (ms: seq<seq<int>>)
    requires GoodDiffs(s, d)
    ensures Shaped(s, ms) && forall x :: 0 <= x < |ms| ==> ms[x] == ReceivedMcu(s, d, x)
  {
    seq(s.width, x requires 0 <= x < s.width => ReceivedMcu(s, d, x))
  }

  ghost predicate McuDecodes(read: seq<Reader>, book: CodeBook, s: LScan, d: Diffs, x: nat, c: nat, rest: Items, tail: seq<bit>)
    requires GoodLScan(s) && |read| == NUM_TABLES && GoodDiffs(s, d) && x < s.width && c <= |s.tables|
  {
    ParseDiffMcu(read, s, c, ItemBits(book, McuDiffItems(s, d, x, c, rest), tail))
    == Got(ReceivedMcu(s, d, x)[c..], ItemBits(book, rest, tail))
  }

  lemma McuDecodesStep(read: seq<Reader>, book: CodeBook, s: LScan, d: Diffs, x: nat, c: nat, rest: Items, tail: seq<bit>)
    requires GoodLScan(s) && |read| == NUM_TABLES && GoodDiffs(s, d) && x < s.width && c < |s.tables|
    requires McuDecodes(read, book, s, d, x, c + 1, rest, tail)
    requires ParseDifference(read[TableOf(s, c)], ItemBits(book, McuDiffItems(s, d, x, c, rest), tail))
          == Got(Received16(d[c][x]), ItemBits(book, McuDiffItems(s, d, x, c + 1, rest), tail))
    ensures McuDecodes(read, book, s, d, x, c, rest, tail)
  {
    hide DifferenceItems, Received16, ParseDifference;
    var ds := ReceivedMcu(s, d, x);
    assert ds[c..] == [ds[c]] + ds[c + 1..];
  }

  lemma {:induction false} McuRoundTrips(read: seq<Reader>, book: CodeBook, s: LScan, d: Diffs, x: nat, c: nat, rest: Items, tail: seq<bit>)
    requires ReadsBook(read, book) && GoodLScan(s) && GoodDiffs(s, d) && x < s.width && c <= |s.tables|
    requires Covered(book, McuDiffItems(s, d, x, c, rest))
    ensures McuDecodes(read, book, s, d, x, c, rest, tail)
    ensures Covered(book, rest)
    decreases |s.tables| - c
  {
    hide DifferenceItems, Received16, ParseDifference, Reads;
    if c < |s.tables| {
      DifferenceRoundTrip(read[TableOf(s, c)], book, TableOf(s, c), d[c][x], McuDiffItems(s, d, x, c + 1, rest), tail);
      McuRoundTrips(read, book, s, d, x, c + 1, rest, tail);
      McuDecodesStep(read, book, s, d, x, c, rest, tail);
    } else {
      assert ReceivedMcu(s, d, x)[c..] == [];
    }
  }

  ghost predicate RowDecodes(read: seq<Reader>, book: CodeBook, s: LScan, d: Diffs, x: nat, rest: Items, tail: seq<bit>)
    requires GoodLScan(s) && |read| == NUM_TABLES && GoodDiffs(s, d) && x <= s.width
  {
    ParseDiffRow(read, s, s.width - x, ItemBits(book, RowItems(s, d, x, rest), tail))
    == Got(ReceivedRow(s, d)[x..], ItemBits(book, rest, tail))
  }

  lemma RowDecodesStep(read: seq<Reader>, book: CodeBook, s: LScan, d: Diffs, x: nat, rest: Items, tail: seq<bit>)
    requires GoodLScan(s) && |read| == NUM_TABLES && GoodDiffs(s, d) && x < s.width
    requires RowDecodes(read, book, s, d, x + 1, rest, tail)
    requires McuDecodes(read, book, s, d, x, 0, RowItems(s, d, x + 1, rest), tail)
    ensures RowDecodes(read, book, s, d, x, rest, tail)
  {
    hide McuDiffItems, ParseDiffMcu;
    var ms := ReceivedRow(s, d);
    assert ms[x..] == [ms[x]] + ms[x + 1..];
    assert ms[x][0..] == ms[x];
  }

  lemma {:induction false} RowRoundTrips(read: seq<Reader>, book: CodeBook, s: LScan, d: Diffs, x: nat, rest: Items, tail: seq<bit>)
    requires ReadsBook(read, book) && GoodLScan(s) && GoodDiffs(s, d) && x <= s.width && Covered(book, RowItems(s, d, x, rest))
    ensures RowDecodes(read, book, s, d, x, rest, tail)
    ensures Covered(book, rest)
    decreases s.width - x
  {
    hide McuDiffItems, McuDecodes, Reads;
    if x < s.width {
      McuRoundTrips(read, book, s, d, x, 0, RowItems(s, d, x + 1, rest), tail);
      RowRoundTrips(read, book, s, d, x + 1, rest, tail);
      RowDecodesStep(read, book, s, d, x, rest, tail);
    } else {
      assert ReceivedRow(s, d)[x..] == [];
    }
  }

  /** Received differences give the row back. */
  lemma ReceivedRestores(s: LScan, prev: Row, row: Row)
    requires GoodLScan(s) && GoodPrev(s, prev) && GoodRow(s, row)
    ensures UndifferencedRow(s, prev, ReceivedRow(s, RowDifferences(s, prev, row))) == row
  {
    hide Undifferenced, Differences, Received16, Same16, ModeOf;
    var d := RowDifferences(s, prev, row);
    var ms := ReceivedRow(s, d);
    forall c | 0 <= c < |row|
      ensures Undifferenced(ModeOf(s, prev, c), Column(s, ms, c), s.width) == row[c]
    {
      forall x | 0 <= x < s.width
        ensures Same16(Column(s, ms, c)[x], d[c][x])
      {
        ReceivedSame(d[c][x]);
        assert ms[x] == ReceivedMcu(s, d, x);
      }
      RowRestored(ModeOf(s, prev, c), row[c], Column(s, ms, c));
    }
  }

  ghost predicate RowsDecode(read: seq<Reader>, book: CodeBook, s: LScan, prev: Row, rows: seq<Row>, tail: seq<bit>)
    requires GoodLScan(s) && |read| == NUM_TABLES && GoodPrev(s, prev) && GoodRows(s, rows)
  {
    ParseRows(read, s, prev, |rows|, ItemBits(book, LosslessItems(s, prev, rows), tail)) == Got(rows, tail)
  }

  lemma RowsDecodeStep(read: seq<Reader>, book: CodeBook, s: LScan, prev: Row, row: Row, rows: seq<Row>, tail: seq<bit>)
    requires GoodLScan(s) && |read| == NUM_TABLES && GoodPrev(s, prev) && GoodRow(s, row) && GoodRows(s, rows)
    requires RowDecodes(read, book, s, RowDifferences(s, prev, row), 0, LosslessItems(s, row, rows), tail)
    requires RowsDecode(read, book, s, row, rows, tail)
    ensures RowsDecode(read, book, s, prev, [row] + rows, tail)
  {
    hide RowItems, ParseDiffRow, UndifferencedRow, ReceivedRow;
    assert ([row] + rows)[1..] == rows;
    var ms := ReceivedRow(s, RowDifferences(s, prev, row));
    assert ms[0..] == ms;
    ReceivedRestores(s, prev, row);
  }

  /** A restart interval gives every row back, at the precision of the point transform. */
  lemma {:induction false} RowsRoundTrip(read: seq<Reader>, book: CodeBook, s: LScan, prev: Row, rows: seq<Row>, tail: seq<bit>)
    requires ReadsBook(read, book) && GoodLScan(s) && GoodPrev(s, prev) && GoodRows(s, rows)
    requires Covered(book, LosslessItems(s, prev, rows))
    ensures RowsDecode(read, book, s, prev, rows, tail)
    decreases |rows|
  {
    hide RowItems, RowDecodes, RowDifferences, Reads;
    if rows != [] {
      var row, more := rows[0], rows[1..];
      RowRoundTrips(read, book, s, RowDifferences(s, prev, row), 0, LosslessItems(s, row, more), tail);
      RowsRoundTrip(read, book, s, row, more, tail);
      RowsDecodeStep(read, book, s, prev, row, more, tail);
      assert [row] + more == rows;
    }
  }
}
