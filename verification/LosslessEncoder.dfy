/**
 * The lossless compressor: differencing row by row, and Huffman coding of the differences. Each keeps its own
 * restart counter, one in rows and one in MCUs.
 */
module LosslessEncoder {
  import opened Bytes
  import opened BitStrings
  import opened Coefficients
  import opened Words
  import opened BitLogs
  import opened BitWriters
  import opened HuffmanItems
  import opened SeqHuffman
  import opened HuffmanScan
  import opened HuffmanEncoder
  import opened EncoderLogs
  import opened LosslessPrediction
  import opened LosslessScan

  /** The row that predicts the next one: none at the start of a scan, or when an interval is complete. */
  function Above(s: LScan, prev: Row, togo: nat): Row {
    if s.interval > 0 && togo == 0 then [] else prev
  }

  /** The rows left in the restart interval after one more. */
  function RowsLeft(s: LScan, togo: nat): nat
    requires GoodLScan(s)
  {
    if s.interval == 0 then togo else if togo == 0 then (if RowsPer(s) > 0 then RowsPer(s) - 1 else 0) else togo - 1
  }

  lemma IntervalRows(s: LScan)
    requires GoodLScan(s)
    ensures s.interval == RowsPer(s) * s.width && (s.interval > 0 <==> RowsPer(s) > 0)
  {
  }

  /** A scaled row. */
  function ScaledRow(s: LScan, row: Row): (r: Row)
    requires GoodRow(s, row)
    ensures GoodRow(s, r) && forall c :: 0 <= c < |r| ==> r[c] == Scaled(row[c], s.al)
  {
    seq(|row|, c requires 0 <= c < |row| => Scaled(row[c], s.al))
  }

  /** The state of component c: prev is the row above, and togo rows are left in the interval. */
  ghost predicate Tracks(s: LScan, firstRow: bool, rowsToGo: nat, prevRow: Samples, c: nat, prev: Row, togo: nat)
    requires GoodLScan(s) && GoodPrev(s, prev) && c < |s.tables|
  {
    && firstRow == (Above(s, prev, togo) == [])
    && (s.interval > 0 ==> rowsToGo == if togo == 0 then RowsPer(s) else togo)
    && (Above(s, prev, togo) != [] ==> prevRow == prev[c])
  }

  /** Differencing. */
  class Differencer {
    const s: LScan
    /** Whether the next row of a component is differenced as a first row. */
    var firstRow: seq<bool>
    var rowsToGo: seq<nat>
    var curRow: seq<Samples>
    var prevRow: seq<Samples>
    var diffBuf: Diffs

    ghost predicate Sized()
      reads this
    {
      && |firstRow| == |rowsToGo| == |curRow| == |prevRow| == |diffBuf| == |s.tables|
    }

    /** The state of every component: prev is the row above, and togo rows are left in the interval. */
    ghost predicate Valid(prev: Row, togo: nat)
      reads this
    {
      && Sized() && GoodLScan(s) && GoodPrev(s, prev)
      && forall c :: 0 <= c < |s.tables| ==> Tracks(s, firstRow[c], rowsToGo[c], prevRow[c], c, prev, togo)
    }

    constructor (s: LScan)
      requires Configured(s)
      ensures Sized() && this.s == s
    {
      this.s := s;
      firstRow := seq(|s.tables|, _ => false);
      rowsToGo := seq(|s.tables|, _ => 0);
      curRow, prevRow, diffBuf := seq(|s.tables|, _ => []), seq(|s.tables|, _ => []), seq(|s.tables|, _ => []);
    }

    /** Starts a pass; fails if the restart interval is not a number of whole rows. */
    method StartPass() returns (ok: bool)
      requires Sized() && Configured(s)
      modifies `firstRow, `rowsToGo
      ensures Sized() && (ok <==> GoodLScan(s)) && (ok ==> Valid([], RowsPer(s)))
    {
      if s.interval % s.width != 0 {
        return false;
      }
      var ci := 0;
      while ci < |s.tables|
        invariant ci <= |s.tables| && Sized()
        invariant forall c :: 0 <= c < ci ==> Tracks(s, firstRow[c], rowsToGo[c], prevRow[c], c, [], RowsPer(s))
      {
        ResetPredictor(ci);
        ci := ci + 1;
      }
      return true;
    }

    method ResetPredictor(ci: nat)
      requires Sized() && GoodLScan(s) && ci < |s.tables|
      modifies `firstRow, `rowsToGo
      ensures Sized() && firstRow == old(firstRow)[ci := true] && rowsToGo == old(rowsToGo)[ci := RowsPer(s)]
    {
      rowsToGo := rowsToGo[ci := s.interval / s.width];
      firstRow := firstRow[ci := true];
    }

    /** The differences of the current row of a component, and how its next row will be differenced. */
    method PredictDifference(ci: nat, ghost prev: Row, ghost row: Row, ghost togo: nat) returns (diffs: seq<int>)
      requires Sized() && GoodLScan(s) && GoodPrev(s, prev) && GoodRow(s, row) && ci < |s.tables|
      requires Tracks(s, firstRow[ci], rowsToGo[ci], prevRow[ci], ci, prev, togo) && curRow[ci] == row[ci]
      modifies `firstRow, `rowsToGo
      ensures Sized() && diffs == Differences(ModeOf(s, Above(s, prev, togo), ci), row[ci])
      ensures firstRow[ci] == (s.interval > 0 && RowsLeft(s, togo) == 0)
      ensures s.interval > 0 ==> rowsToGo[ci] == (if RowsLeft(s, togo) == 0 then RowsPer(s) else RowsLeft(s, togo))
      ensures forall c :: 0 <= c < |s.tables| && c != ci ==> firstRow[c] == old(firstRow[c]) && rowsToGo[c] == old(rowsToGo[c])
    {
      IntervalRows(s);
      ghost var m := ModeOf(s, Above(s, prev, togo), ci);
      var first := firstRow[ci];
      if first {
        diffs := Difference1D(curRow[ci], Pow2(s.precision - s.al - 1), m);
      } else if s.sel == 1 {
        diffs := Difference1D(curRow[ci], prevRow[ci][0], m);
      } else {
        diffs := Difference2D(s.sel, curRow[ci], prevRow[ci]);
      }
      var restart := false;
      if s.interval > 0 {
        rowsToGo := rowsToGo[ci := rowsToGo[ci] - 1];
        if rowsToGo[ci] == 0 {
          ResetPredictor(ci);
          restart := true;
        }
      }
      if first && !restart {
        firstRow := firstRow[ci := false];
      }
    }

    /** One component of a row: scaling, differencing, and swapping the row buffers. */
    method DifferenceComponent(ci: nat, input: Samples, ghost prev: Row, ghost row: Row, ghost togo: nat)
      requires Sized() && GoodLScan(s) && GoodPrev(s, prev) && GoodRow(s, row) && ci < |s.tables|
      requires Tracks(s, firstRow[ci], rowsToGo[ci], prevRow[ci], ci, prev, togo) && InWord(input) && Scaled(input, s.al) == row[ci]
      modifies this
      ensures Sized() && GoodPrev(s, Above(s, prev, togo))
      ensures diffBuf == old(diffBuf)[ci := Differences(ModeOf(s, Above(s, prev, togo), ci), row[ci])]
      ensures Tracks(s, firstRow[ci], rowsToGo[ci], prevRow[ci], ci, row, RowsLeft(s, togo))
      ensures forall c :: 0 <= c < |s.tables| && c != ci ==>
        firstRow[c] == old(firstRow[c]) && rowsToGo[c] == old(rowsToGo[c]) && prevRow[c] == old(prevRow[c])
    {
      var scaled;
      if s.al > 0 {
        scaled := SimpleDownscale(input, s.al);
      } else {
        UnscaledIsSame(input);
        scaled := input;
      }
      curRow := curRow[ci := scaled];
      var diffs := PredictDifference(ci, prev, row, togo);
      diffBuf := diffBuf[ci := diffs];
      var temp := curRow[ci];
      curRow := curRow[ci := prevRow[ci]];
      prevRow := prevRow[ci := temp];
    }

    /** A row of every component. */
    method DifferenceRow(input: Row, ghost prev: Row, ghost togo: nat)
      requires Valid(prev, togo) && GoodRow(s, input)
      modifies this
      ensures Valid(ScaledRow(s, input), RowsLeft(s, togo))
      ensures diffBuf == RowDifferences(s, Above(s, prev, togo), ScaledRow(s, input))
    {
      hide RowsLeft, RowsPer, ModeOf, Differences, Tracks;
      ghost var row := ScaledRow(s, input);
      var ci := 0;
      while ci < |s.tables|
        invariant ci <= |s.tables| && Sized()
        invariant forall c :: 0 <= c < ci ==> Tracks(s, firstRow[c], rowsToGo[c], prevRow[c], c, row, RowsLeft(s, togo))
        invariant forall c :: 0 <= c < ci ==> diffBuf[c] == Differences(ModeOf(s, Above(s, prev, togo), c), row[c])
        invariant forall c :: ci <= c < |s.tables| ==> Tracks(s, firstRow[c], rowsToGo[c], prevRow[c], c, prev, togo)
      {
        DifferenceComponent(ci, input[ci], prev, row, togo);
        ci := ci + 1;
      }
    }
  }

  // Coding differences.

  lemma SameMagnitude(d: int)
    ensures var v := Signed16(d);
            if d % 0x10000 >= 0x8000 then
              v < 0 && Abs(v) == (if (0 - d) % 0x8000 == 0 then 0x8000 else (0 - d) % 0x8000)
            else v >= 0 && Abs(v) == d % 0x8000
  {
  }

  /** The size of a difference, and the number whose low bits are sent. */
  method Magnitude(d: int) returns (nbits: nat, temp2: int)
    ensures nbits == Size(Signed16(d)) && temp2 == OnesComplement(Signed16(d))
  {
    hide Signed16;
    SameMagnitude(d);
    var temp: nat;
    if d % 0x10000 >= 0x8000 {
      temp := (0 - d) % 0x8000;
      if temp == 0 {
        temp := 0x8000;
      }
      temp2 := 0 - temp - 1;
    } else {
      temp := d % 0x8000;
      temp2 := temp;
    }
    nbits := 0;
    while temp > 0
      invariant nbits + BitLength(temp) == Size(Signed16(d))
    {
      nbits := nbits + 1;
      temp := temp / 2;
    }
  }

  /** A row of MCUs and what follows, in a new segment if the interval is used up. */
  function RowSegs(s: LScan, restart: bool, d: Diffs, rest: Segs): Segs
    requires GoodLScan(s) && GoodDiffs(s, d)
  {
    var segs := First(rest, RowItems(s, d, 0, rest.items));
    if restart then More(Nil, segs) else segs
  }

  /** The MCUs of some rows. */
  function McusOf(s: LScan, rows: nat): nat { rows * s.width }

  lemma McusLeft(s: LScan, togo: nat)
    requires GoodLScan(s) && s.interval > 0
    ensures McusOf(s, togo) == 0 <==> togo == 0
    ensures McusOf(s, RowsLeft(s, togo)) == (if togo == 0 then s.interval else McusOf(s, togo)) - s.width
    ensures s.interval >= s.width
  {
    IntervalRows(s);
    assert McusOf(s, RowsPer(s)) == s.interval;
    if togo > 0 {
      assert McusOf(s, togo) == McusOf(s, togo - 1) + s.width;
    } else {
      assert McusOf(s, RowsPer(s)) == McusOf(s, RowsPer(s) - 1) + s.width;
    }
  }

  /** The entropy coder, writing or counting. */
  class LosslessCoder {
    const s: LScan
    const w: ByteWriter
    const gather: bool
    const book: CodeBook
    var counts: Stats
    var restartsToGo: nat
    var nextNum: nat

    /** The items of the current segment so far, and the output when the segment started. */
    ghost var log: Log
    ghost var base: Output

    ghost predicate Steady()
      reads w, `counts, `log, `base
    {
      w.Valid() && GoodStats(counts) && GoodBook(book) && GoodStats(base.counts) && Out() == Done(gather, book, log, base)
      && (gather || Covers(book, log)) && (!gather ==> base.bits == Empty)
    }

    ghost function Out(): Output
      reads w, `counts
    {
      Output(w.Contents(), counts)
    }

    ghost function Now(items: Items): Items
      reads `log
    {
      Append(log, items)
    }

    /** What is left of the scan, with the current segment completed. */
    ghost function Whole(rest: Segs): Segs
      reads `log
    {
      First(rest, Append(log, rest.items))
    }

    ghost function Total(rest: Segs): Outcome
      requires Steady()
      reads w, `counts, `log, `base
    {
      TotalOf(gather, book, DataBits(w.done), base, Whole(rest))
    }

    constructor (s: LScan, w: ByteWriter, gather: bool, book: CodeBook)
      requires w.Valid() && w.done == [] && w.Contents() == Empty && GoodBook(book)
      ensures this.s == s && this.w == w && this.gather == gather && this.book == book
      ensures Steady() && log == Start && base == Output(Empty, NoCounts()) && restartsToGo == s.interval && nextNum == 0
    {
      this.s, this.w, this.gather, this.book := s, w, gather, book;
      counts := NoCounts();
      restartsToGo, nextNum := s.interval, 0;
      log, base := Start, Output(Empty, NoCounts());
    }

    lemma NothingYet(all: Segs)
      requires Steady() && log == Start && w.done == []
      ensures Whole(all) == all
      ensures Total(all) == if gather then Counted(TallySegs(all, base.counts)) else Written(EmitSegs(book, all, Empty))
    {
      assert DataBits([]) + EmitSegs(book, all, Empty) == EmitSegs(book, all, Empty);
    }

    /** Writes bits. */
    method EmitBits(code: nat, size: nat, ghost value: nat)
      requires Steady() && !gather && 0 < size <= 16 && ToBits(code, size) == ToBits(value, size)
      modifies `log, w`putBuffer, w`putBits, w`out, w`raw, w`held
      ensures Steady() && log == AddRaw(old(log), value, size)
    {
      PutSame(w.Contents(), code, value, size);
      var sent := w.EmitBits(code, size);
      log := AddRaw(log, value, size);
    }

    method EmitSymbol(t: TableId, symbol: byte, ghost rest: Items) returns (ok: bool)
      requires Steady() && !gather
      modifies `log, w`putBuffer, w`putBits, w`out, w`raw, w`held
      ensures Steady() && log == (if ok then AddSym(old(log), t, symbol) else old(log))
      ensures !ok ==> !Covered(book, old(Now(Sym(t, symbol, rest))))
    {
      assert GoodCodes(book[t]);
      ok := w.EmitBits(book[t].co[symbol], book[t].si[symbol]);
      if ok {
        log := AddSym(log, t, symbol);
      } else {
        CoversAppend(book, log, Sym(t, symbol, rest));
      }
    }

    /** A symbol without additional bits. */
    ghost method LogNothing(value: nat)
      requires Steady()
      modifies `log
      ensures Steady() && log == AddRaw(old(log), value, 0)
    {
      log := AddRaw(log, value, 0);
    }

    /** Writes a difference. */
    method EncodeDifference(t: TableId, d: int, ghost rest: Items) returns (ok: bool)
      requires Steady() && !gather
      modifies `log, w`putBuffer, w`putBits, w`out, w`raw, w`held
      ensures Steady()
      ensures ok ==> Now(rest) == old(Now(DifferenceItems(t, d, rest)))
      ensures !ok ==> !Covered(book, old(Now(DifferenceItems(t, d, rest))))
    {
      hide Put, ToBits, BitLength, Covered;
      ghost var v := Signed16(d);
      SizeOf16(d);
      var nbits, temp2 := Magnitude(d);
      ghost var k := if nbits == 16 then 0 else nbits;
      ok := EmitSymbol(t, nbits, Raw(ExtraBits(v), k, rest));
      if !ok {
        return;
      }
      assert Now(Raw(ExtraBits(v), k, rest)) == old(Now(DifferenceItems(t, d, rest)));
      if nbits != 0 && nbits != 16 {
        LowBitsSame(temp2, 32, nbits);
        EmitBits(LowBits(temp2, 32), nbits, ExtraBits(v));
      } else {
        LogNothing(ExtraBits(v));
      }
    }

    /** Counts a difference. */
    method CountDifference(t: TableId, d: int, ghost rest: Items)
      requires Steady() && gather
      modifies `log, `counts
      ensures Steady() && Now(rest) == old(Now(DifferenceItems(t, d, rest)))
    {
      ghost var v := Signed16(d);
      SizeOf16(d);
      var nbits, temp2 := Magnitude(d);
      ghost var k := if nbits == 16 then 0 else nbits;
      counts := Bump(counts, t, nbits);
      log := AddSym(log, t, nbits);
      assert Now(Raw(ExtraBits(v), k, rest)) == old(Now(DifferenceItems(t, d, rest)));
      log := AddRaw(log, ExtraBits(v), k);
    }

    /** Starts a new segment: nothing to do when counting. */
    ghost method CountSegment(segs: Segs)
      requires Steady() && gather
      modifies `log, `base
      ensures Steady() && log == Start && Total(segs) == old(Total(More(Nil, segs)))
    {
      EndSegment(gather, book, DataBits(w.done), base, log, segs, Out(), Out());
      log, base := Start, Out();
    }

    /** Pads the segment and writes the restart marker. */
    method EmitRestart(ghost segs: Segs)
      requires Steady() && !gather && nextNum == |w.done| % 8
      modifies `log, `base, w`putBuffer, w`putBits, w`out, w`raw, w`held, w`before, w`done
      ensures Steady() && log == Start && |w.done| == old(|w.done|) + 1
      ensures Total(segs) == old(Total(More(Nil, segs)))
      ensures Covered(book, old(Append(log, Nil)))
    {
      ghost var o, d := Out(), DataBits(w.done);
      EndSegment(gather, book, d, base, log, segs, o, Output(Empty, o.counts));
      w.FlushBits();
      DataBitsNext(w.done, w.raw);
      w.EmitMarker(nextNum);
      log, base := Start, Out();
    }

    /** Counts one more MCU. */
    method CountMcu()
      modifies `restartsToGo, `nextNum
      ensures s.interval == 0 ==> restartsToGo == old(restartsToGo) && nextNum == old(nextNum)
      ensures s.interval > 0 ==> restartsToGo == (if old(restartsToGo) == 0 then s.interval else old(restartsToGo)) - 1
      ensures s.interval > 0 ==> nextNum == if old(restartsToGo) == 0 then (old(nextNum) + 1) % 8 else old(nextNum)
    {
      if s.interval > 0 {
        if restartsToGo == 0 {
          restartsToGo := s.interval;
          nextNum := (nextNum + 1) % 8;
        }
        restartsToGo := restartsToGo - 1;
      }
    }

    /** One MCU. */
    method EncodeMcu(d: Diffs, x: nat, ghost rest: Items) returns (ok: bool)
      requires Steady() && !gather && GoodLScan(s) && GoodDiffs(s, d) && x < s.width
      modifies `log, w`putBuffer, w`putBits, w`out, w`raw, w`held
      ensures Steady()
      ensures ok ==> Now(rest) == old(Now(McuDiffItems(s, d, x, 0, rest)))
      ensures !ok ==> !Covered(book, old(Now(McuDiffItems(s, d, x, 0, rest))))
    {
      var c := 0;
      while c < |s.tables|
        invariant c <= |s.tables| && Steady()
        invariant Now(McuDiffItems(s, d, x, c, rest)) == old(Now(McuDiffItems(s, d, x, 0, rest)))
      {
        ok := EncodeDifference(DcTable(s.tables[c]), d[c][x], McuDiffItems(s, d, x, c + 1, rest));
        if !ok {
          return;
        }
        c := c + 1;
      }
      return true;
    }

    /** The MCUs of a row; the restart counter goes down with each of them. */
    method EncodeRow(d: Diffs, ghost rest: Items) returns (ok: bool)
      requires Steady() && !gather && GoodLScan(s) && GoodDiffs(s, d)
      requires s.interval > 0 ==> s.interval >= s.width && (restartsToGo == 0 || restartsToGo >= s.width)
      modifies `log, `restartsToGo, `nextNum, w`putBuffer, w`putBits, w`out, w`raw, w`held
      ensures Steady()
      ensures ok ==> Now(rest) == old(Now(RowItems(s, d, 0, rest)))
      ensures !ok ==> !Covered(book, old(Now(RowItems(s, d, 0, rest))))
      ensures ok && s.interval > 0 ==> restartsToGo == (if old(restartsToGo) == 0 then s.interval else old(restartsToGo)) - s.width
      ensures ok ==> nextNum == if s.interval > 0 && old(restartsToGo) == 0 then (old(nextNum) + 1) % 8 else old(nextNum)
    {
      hide McuDiffItems;
      ghost var start := if restartsToGo == 0 then s.interval else restartsToGo;
      var x := 0;
      while x < s.width
        invariant x <= s.width && Steady()
        invariant Now(RowItems(s, d, x, rest)) == old(Now(RowItems(s, d, 0, rest)))
        invariant x == 0 ==> restartsToGo == old(restartsToGo) && nextNum == old(nextNum)
        invariant x > 0 && s.interval > 0 ==> restartsToGo == start - x
        invariant x > 0 ==> nextNum == if s.interval > 0 && old(restartsToGo) == 0 then (old(nextNum) + 1) % 8 else old(nextNum)
      {
        ok := EncodeMcu(d, x, RowItems(s, d, x + 1, rest));
        if !ok {
          return;
        }
        CountMcu();
        x := x + 1;
      }
      return true;
    }

    /** What holds between rows; togo rows are left in the interval. */
    ghost predicate Ready(togo: nat)
      reads this, w
    {
      && Steady() && GoodLScan(s)
      && (!gather ==> nextNum == |w.done| % 8 && (s.interval > 0 ==> restartsToGo == McusOf(s, togo)))
    }

    /** A restart marker, if the interval is used up: the counter of MCUs knows. */
    method RestartIfDue(ghost togo: nat, ghost segs: Segs)
      requires Ready(togo) && !gather
      modifies `log, `base, w`putBuffer, w`putBits, w`out, w`raw, w`held, w`before, w`done
      ensures Steady() && |w.done| == old(|w.done|) + if s.interval > 0 && togo == 0 then 1 else 0
      ensures Total(segs) == old(Total(if s.interval > 0 && togo == 0 then More(Nil, segs) else segs))
      ensures CoveredSegs(book, Whole(segs))
          <==> CoveredSegs(book, old(Whole(if s.interval > 0 && togo == 0 then More(Nil, segs) else segs)))
    {
      hide Steady, McusOf, TotalOf, Covered;
      if s.interval > 0 {
        McusLeft(s, togo);
        if restartsToGo == 0 {
          assert Whole(More(Nil, segs)) == More(Append(log, Nil), segs);
          EmitRestart(segs);
        }
      }
    }

    /** Writes a whole row of MCUs, after a restart marker if the interval is used up. */
    method EncodeMcusHuff(d: Diffs, ghost togo: nat, ghost rest: Segs) returns (ok: bool)
      requires Ready(togo) && !gather && GoodDiffs(s, d)
      modifies `log, `base, `restartsToGo, `nextNum, w
      ensures ok ==> Ready(RowsLeft(s, togo))
      ensures ok ==> Total(rest) == old(Total(RowSegs(s, s.interval > 0 && togo == 0, d, rest)))
      ensures ok ==> (CoveredSegs(book, Whole(rest)) <==> CoveredSegs(book, old(Whole(RowSegs(s, s.interval > 0 && togo == 0, d, rest)))))
      ensures !ok ==> !CoveredSegs(book, old(Whole(RowSegs(s, s.interval > 0 && togo == 0, d, rest))))
    {
      hide RowItems, McusOf, RowsLeft, GoodDiffs, TotalOf, Append, Covered, Steady, GoodLScan;
      ghost var segs := First(rest, RowItems(s, d, 0, rest.items));
      if s.interval > 0 {
        McusLeft(s, togo);
      }
      RestartIfDue(togo, segs);
      ok := EncodeRow(d, rest.items);
    }

    /** Counts a whole row of MCUs; the counter of MCUs does not matter here. */
    method EncodeMcusGather(d: Diffs, ghost togo: nat, ghost rest: Segs)
      requires Ready(togo) && gather && GoodDiffs(s, d)
      modifies `log, `base, `counts, `restartsToGo
      ensures Ready(RowsLeft(s, togo))
      ensures Total(rest) == old(Total(RowSegs(s, s.interval > 0 && togo == 0, d, rest)))
    {
      if s.interval > 0 {
        if restartsToGo == 0 {
          restartsToGo := s.interval;
        }
        restartsToGo := restartsToGo - 1;
      }
      ghost var segs := First(rest, RowItems(s, d, 0, rest.items));
      ghost var total := Total(RowSegs(s, s.interval > 0 && togo == 0, d, rest));
      if s.interval > 0 && togo == 0 {
        CountSegment(segs);
      }
      CountRow(d, rest.items);
    }

    method CountRow(d: Diffs, ghost rest: Items)
      requires Steady() && gather && GoodLScan(s) && GoodDiffs(s, d)
      modifies `log, `counts
      ensures Steady() && Now(rest) == old(Now(RowItems(s, d, 0, rest)))
    {
      hide DifferenceItems, Steady, Now;
      var x := 0;
      while x < s.width
        invariant x <= s.width && Steady()
        invariant Now(RowItems(s, d, x, rest)) == old(Now(RowItems(s, d, 0, rest)))
      {
        ghost var more := RowItems(s, d, x + 1, rest);
        var c := 0;
        while c < |s.tables|
          invariant c <= |s.tables| && Steady()
          invariant Now(McuDiffItems(s, d, x, c, more)) == old(Now(RowItems(s, d, 0, rest)))
        {
          CountDifference(DcTable(s.tables[c]), d[c][x], McuDiffItems(s, d, x, c + 1, more));
          c := c + 1;
        }
        x := x + 1;
      }
    }

    /** Pads the last segment. */
    method FinishPass()
      requires Steady()
      modifies w`putBuffer, w`putBits, w`out, w`raw, w`held
      ensures !gather ==> w.Valid() && Written(DataBits(w.done + [w.raw])) == old(Total(Last(Nil)))
      ensures !gather ==> CoveredSegs(book, old(Whole(Last(Nil))))
      ensures gather ==> Counted(counts) == old(Total(Last(Nil)))
    {
      LastSegmentDone(gather, book, DataBits(w.done), base, log, Out());
      if !gather {
        w.FlushBits();
        DataBitsNext(w.done, w.raw);
      }
    }
  }

  /** A scan is its first row and the scan of the others. */
  lemma ScanIsRow(s: LScan, prev: Row, togo: nat, rows: seq<Row>)
    requires GoodLScan(s) && GoodPrev(s, prev) && GoodRows(s, rows) && rows != []
    ensures LosslessSegs(s, prev, togo, rows)
         == RowSegs(s, s.interval > 0 && togo == 0, RowDifferences(s, Above(s, prev, togo), rows[0]),
                    LosslessSegs(s, rows[0], RowsLeft(s, togo), rows[1..]))
  {
    IntervalRows(s);
  }

  function ScaledRows(s: LScan, rows: seq<Row>): (r: seq<Row>)
    requires GoodRows(s, rows)
    ensures |r| == |rows| && GoodRows(s, r) && forall y :: 0 <= y < |r| ==> r[y] == ScaledRow(s, rows[y])
  {
    seq(|rows|, y requires 0 <= y < |rows| => ScaledRow(s, rows[y]))
  }

  /** The items of a whole scan. */
  function ScanSegs(s: LScan, rows: seq<Row>): Segs
    requires GoodLScan(s) && GoodRows(s, rows)
  {
    LosslessSegs(s, [], RowsPer(s), ScaledRows(s, rows))
  }

  /**
   * Compresses a scan row by row. The two restart counters stay in step: a row is differenced as a first row
   * exactly at the start of the scan and after each restart marker. Writing fails only for a missing code.
   */
  method CompressScan(differ: Differencer, coder: LosslessCoder, rows: seq<Row>) returns (ok: bool)
    requires differ.s == coder.s && differ as object != coder && GoodLScan(differ.s) && GoodRows(differ.s, rows)
    requires differ.Sized() && coder.Steady() && coder.log == Start && coder.w.done == []
    requires coder.restartsToGo == differ.s.interval && coder.nextNum == 0
    modifies differ, coder, coder.w
    ensures coder.gather ==> ok && coder.counts == TallySegs(ScanSegs(differ.s, rows), old(coder.base.counts))
    ensures !coder.gather ==> (ok <==> CoveredSegs(coder.book, ScanSegs(differ.s, rows)))
    ensures !coder.gather && ok ==>
      coder.w.Valid() && DataBits(coder.w.done + [coder.w.raw]) == EmitSegs(coder.book, ScanSegs(differ.s, rows), Empty)
  {
    hide LosslessSegs, RowSegs, RowDifferences, GoodRow, TotalOf, CoveredSegs, McusOf, RowsLeft, GoodLScan;
    var s := differ.s;
    ghost var xs, book, gather, all := ScaledRows(s, rows), coder.book, coder.gather, ScanSegs(s, rows);
    StartsReady(s);
    var started := differ.StartPass();
    ghost var prev: Row, togo := [], RowsPer(s);
    coder.NothingYet(all);
    ghost var total := coder.Total(all);
    assert xs[0..] == xs;
    var y := 0;
    while y < |rows|
      invariant y <= |rows| && GoodPrev(s, prev) && differ.Valid(prev, togo) && coder.Ready(togo)
      invariant coder.Total(LosslessSegs(s, prev, togo, xs[y..])) == total
      invariant !gather ==> (CoveredSegs(book, coder.Whole(LosslessSegs(s, prev, togo, xs[y..]))) <==> CoveredSegs(book, all))
    {
      ghost var left := xs[y..];
      assert left[0] == xs[y] == ScaledRow(s, rows[y]) && left[1..] == xs[y + 1..];
      ScanIsRow(s, prev, togo, left);
      ghost var rest := LosslessSegs(s, left[0], RowsLeft(s, togo), left[1..]);
      differ.DifferenceRow(rows[y], prev, togo);
      if coder.gather {
        coder.EncodeMcusGather(differ.diffBuf, togo, rest);
      } else {
        ok := coder.EncodeMcusHuff(differ.diffBuf, togo, rest);
        if !ok {
          return;
        }
      }
      prev, togo := left[0], RowsLeft(s, togo);
      y := y + 1;
    }
    assert xs[y..] == [];
    NoRowsLeft(s, prev, togo);
    coder.FinishPass();
    return true;
  }

  lemma NoRowsLeft(s: LScan, prev: Row, togo: nat)
    requires GoodLScan(s) && GoodPrev(s, prev)
    ensures LosslessSegs(s, prev, togo, []) == Last(Nil)
  {
  }

  lemma StartsReady(s: LScan)
    requires GoodLScan(s)
    ensures McusOf(s, RowsPer(s)) == s.interval && Configured(s)
  {
    IntervalRows(s);
  }
}
