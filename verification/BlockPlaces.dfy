/** Where each DCT block of an image stands in a scan, as a decoder can compute it. */
module BlockPlaces {
  import opened ZigZag
  import opened McuLayout

  lemma {:induction false} AddRowAt(acc: seq<Block>, m: Image, c: nat, row: nat, col: nat, n: nat, x: nat)
    requires GoodImage(m) && c < |m.comps|
    ensures acc <= AddRow(acc, m, c, row, col, n)
    ensures x < n ==> AddRow(acc, m, c, row, col, n)[|acc| + x] == Padded(m, c, row, col + x)
    decreases n
  {
    if n > 0 {
      AddRowAt(acc, m, c, row, col, n - 1, x);
    }
  }

  lemma {:induction false} AddRowsAt(acc: seq<Block>, m: Image, c: nat, row: nat, col: nat, n: nat, w: nat, y: nat, x: nat)
    requires GoodImage(m) && c < |m.comps|
    ensures acc <= AddRows(acc, m, c, row, col, n, w) && |AddRows(acc, m, c, row, col, n, w)| == |acc| + Times(w, n)
    ensures y < n && x < w ==>
      Times(w, y) + x < Times(w, n) && AddRows(acc, m, c, row, col, n, w)[|acc| + Times(w, y) + x] == Padded(m, c, row + y, col + x)
    decreases n
  {
    hide Padded, AddRow;
    AddRowsSize(acc, m, c, row, col, n, w);
    if n > 0 {
      var before := AddRows(acc, m, c, row, col, n - 1, w);
      AddRowsAt(acc, m, c, row, col, n - 1, w, y, x);
      AddRowAt(before, m, c, row + n - 1, col, w, x);
      Increasing(w, y, n, x);
    }
  }

  lemma Increasing(w: nat, y: nat, n: nat, x: nat)
    requires n > 0
    ensures Times(w, n) == Times(w, n - 1) + w
    ensures y < n && x < w ==> Times(w, y) + x < Times(w, n)
    ensures y < n - 1 && x < w ==> Times(w, y) + x < Times(w, n - 1)
  {
    if y < n {
      MulMono(y + 1, n, w);
    }
    if y < n - 1 {
      MulMono(y + 1, n - 1, w);
    }
  }

  /** The place of a block in its MCU, behind those of the components before number i of the scan. */
  function Offset(m: Image, scan: seq<nat>, i: nat, y: nat, x: nat): nat
    requires GoodImage(m) && GoodScan(m, scan) && i < |scan|
  {
    BlocksInMcu(m, scan, i) + Times(McuWidth(m, scan, scan[i]), y) + x
  }

  lemma {:induction false} McuPartAt(m: Image, scan: seq<nat>, r: nat, col: nat, k: nat, i: nat, y: nat, x: nat)
    requires GoodImage(m) && GoodScan(m, scan) && i < k <= |scan|
    requires y < McuHeight(m, scan, scan[i]) && x < McuWidth(m, scan, scan[i])
    ensures var c := scan[i];
      Offset(m, scan, i, y, x) < |McuPart(m, scan, r, col, k)|
      && McuPart(m, scan, r, col, k)[Offset(m, scan, i, y, x)]
         == Padded(m, c, Times(r, McuHeight(m, scan, c)) + y, Times(col, McuWidth(m, scan, c)) + x)
    decreases k
  {
    hide Padded, AddRows, McuWidth, McuHeight, Times;
    var c := scan[k - 1];
    var w, h := McuWidth(m, scan, c), McuHeight(m, scan, c);
    McuPartSize(m, scan, r, col, k - 1);
    if i < k - 1 {
      McuPartAt(m, scan, r, col, k - 1, i, y, x);
    }
    AddRowsAt(McuPart(m, scan, r, col, k - 1), m, c, Times(r, h), Times(col, w), h, w, y, x);
  }

  // Rows and columns.

  /** The MCU row or column of a block, and the place in it. */
  lemma Grouped(v: nat, n: nat)
    requires n > 0
    ensures v % n < n && Times(v / n, n) + v % n == v
  {
  }

  lemma GroupInside(v: nat, total: nat, n: nat)
    requires n > 0 && v < total
    ensures v / n < CeilDiv(total, n)
  {
    CeilBounds(total, n);
    Grouped(v, n);
    if v / n >= CeilDiv(total, n) {
      MulMono(CeilDiv(total, n), v / n, n);
    }
  }

  function Group(v: nat, n: nat): nat
    requires n > 0
  {
    v / n
  }

  /** The number of the MCU that has the block, and the number of the block in it. */
  function SpotOf(m: Image, scan: seq<nat>, i: nat, row: nat, col: nat): (nat, nat)
    requires GoodImage(m) && GoodScan(m, scan) && i < |scan|
  {
    var w, h := McuWidth(m, scan, scan[i]), McuHeight(m, scan, scan[i]);
    if w == 0 || h == 0 then (0, 0)
    else (Times(Group(row, h), McusPerRow(m, scan)) + Group(col, w), Offset(m, scan, i, row % h, col % w))
  }

  lemma SpotInside(m: Image, scan: seq<nat>, i: nat, row: nat, col: nat)
    requires GoodImage(m) && GoodScan(m, scan) && i < |scan|
    requires row < HeightInBlocks(m, scan[i]) && col < WidthInBlocks(m, scan[i])
    ensures McuWidth(m, scan, scan[i]) > 0 && McuHeight(m, scan, scan[i]) > 0
    ensures row / McuHeight(m, scan, scan[i]) < McuRowsInScan(m, scan) && col / McuWidth(m, scan, scan[i]) < McusPerRow(m, scan)
  {
    hide WidthInBlocks, HeightInBlocks, McusAcross, IMcuRows, CeilDiv;
    var c := scan[i];
    SameMcus(m, c);
    GroupInside(row, HeightInBlocks(m, c), m.comps[c].v);
    GroupInside(col, WidthInBlocks(m, c), m.comps[c].h);
  }

  /** Every block of every component of a scan is in the scan, where a decoder looks for it. */
  lemma EveryBlockPlaced(m: Image, scan: seq<nat>, i: nat, row: nat, col: nat)
    requires GoodImage(m) && GoodScan(m, scan) && i < |scan|
    requires row < HeightInBlocks(m, scan[i]) && col < WidthInBlocks(m, scan[i])
    ensures var (j, b) := SpotOf(m, scan, i, row, col);
      j < |WholeScan(m, scan)| && b < |WholeScan(m, scan)[j]| && WholeScan(m, scan)[j][b] == m.dct(scan[i], row, col)
  {
    hide WidthInBlocks, HeightInBlocks, Reference, McuPart, GoodImage, McusPerRow, McuWidth, McuHeight, McuRowsInScan, BlocksInMcu;
    var c := scan[i];
    var w, h := McuWidth(m, scan, c), McuHeight(m, scan, c);
    SpotInside(m, scan, i, row, col);
    Grouped(row, h);
    Grouped(col, w);
    ReferenceAt(m, scan, McuRowsInScan(m, scan), 0, row / h, col / w);
    McuPartAt(m, scan, row / h, col / w, |scan|, i, row % h, col % w);
  }

  // Dummy blocks.

  ghost predicate Inside(m: Image, c: nat, row: nat, col: nat)
    requires c < |m.comps|
  {
    row < HeightInBlocks(m, c) && col < WidthInBlocks(m, c)
  }

  /** The first block that a component has in an MCU is inside the image. */
  lemma FirstInside(m: Image, scan: seq<nat>, c: nat, r: nat, col: nat)
    requires GoodImage(m) && GoodScan(m, scan) && c in scan && r < McuRowsInScan(m, scan) && col < McusPerRow(m, scan)
    ensures Inside(m, c, Times(r, McuHeight(m, scan, c)), Times(col, McuWidth(m, scan, c)))
  {
    hide WidthInBlocks, HeightInBlocks, IMcuRows, McusAcross, CeilDiv;
    SomeBlocks(m, c);
    if |scan| > 1 {
      SameMcus(m, c);
      InGroup(HeightInBlocks(m, c), m.comps[c].v, r, 0);
      InGroup(WidthInBlocks(m, c), m.comps[c].h, col, 0);
    }
  }

  /** The last block of the row above, in the same MCU. */
  lemma AboveRight(m: Image, c: nat, row: nat, col: nat, x: nat)
    requires GoodImage(m) && c < |m.comps| && row >= HeightInBlocks(m, c) && row > 0 && x < m.comps[c].h
    ensures Padded(m, c, row, Times(col, m.comps[c].h) + x)
         == Flat(Padded(m, c, row - 1, Times(col, m.comps[c].h) + m.comps[c].h - 1)[0])
  {
    hide WidthInBlocks, HeightInBlocks, Flat;
    var h := m.comps[c].h;
    assert (Times(col, h) + x) / h == col by {
      InGroupOf(col, h, x);
    }
  }

  lemma InGroupOf(q: nat, n: nat, x: nat)
    requires x < n
    ensures (Times(q, n) + x) / n == q
  {
    var v := Times(q, n) + x;
    Grouped(v, n);
    if v / n < q {
      MulMono(v / n + 1, q, n);
      MulNext(v / n, n);
    } else if q < v / n {
      MulMono(q + 1, v / n, n);
      MulNext(q, n);
    }
  }

  lemma FlatIs(dc: int)
    ensures Flat(dc)[0] == dc && forall k :: 1 <= k < 64 ==> Flat(dc)[k] == 0
  {
  }

  /** A block has no AC coefficients, and the DC value of the one before. */
  predicate Repeats(b: Block, before: Block) {
    b[0] == before[0] && forall k :: 1 <= k < 64 ==> b[k] == 0
  }

  lemma DummyAfter(m: Image, scan: seq<nat>, c: nat, r: nat, col: nat, y: nat, x: nat)
    requires GoodImage(m) && GoodScan(m, scan) && c in scan && r < McuRowsInScan(m, scan) && col < McusPerRow(m, scan)
    requires y < McuHeight(m, scan, c) && x < McuWidth(m, scan, c)
    requires !Inside(m, c, Times(r, McuHeight(m, scan, c)) + y, Times(col, McuWidth(m, scan, c)) + x)
    ensures var row, column := Times(r, McuHeight(m, scan, c)), Times(col, McuWidth(m, scan, c));
      if x > 0 then Repeats(Padded(m, c, row + y, column + x), Padded(m, c, row + y, column + x - 1))
      else y > 0 && Repeats(Padded(m, c, row + y, column), Padded(m, c, row + y - 1, column + McuWidth(m, scan, c) - 1))
  {
    hide WidthInBlocks, HeightInBlocks, Flat, McuRowsInScan, McusPerRow;
    FirstInside(m, scan, c, r, col);
    var row, column := Times(r, McuHeight(m, scan, c)), Times(col, McuWidth(m, scan, c));
    if row + y < HeightInBlocks(m, c) {
      FlatIs(Padded(m, c, row + y, column + x - 1)[0]);
    } else {
      AloneHasNone(m, scan, c, r, y);
      AboveRight(m, c, row + y, col, x);
      FlatIs(Padded(m, c, row + y - 1, column + McuWidth(m, scan, c) - 1)[0]);
      if x > 0 {
        AboveRight(m, c, row + y, col, x - 1);
      }
    }
  }

  lemma AloneHasNone(m: Image, scan: seq<nat>, c: nat, r: nat, y: nat)
    requires GoodImage(m) && GoodScan(m, scan) && c in scan && r < McuRowsInScan(m, scan) && y < McuHeight(m, scan, c)
    requires Times(r, McuHeight(m, scan, c)) + y >= HeightInBlocks(m, c)
    ensures |scan| > 1
  {
    hide HeightInBlocks, IMcuRows;
  }

  /**
   * Every dummy block follows a block of its component in the same MCU, repeats its DC value and has no AC
   * coefficients: sequential coding gives it a difference of zero and an end-of-block code.
   */
  lemma DummyRepeats(m: Image, scan: seq<nat>, i: nat, r: nat, col: nat, y: nat, x: nat)
    requires GoodImage(m) && GoodScan(m, scan) && i < |scan| && r < McuRowsInScan(m, scan) && col < McusPerRow(m, scan)
    requires y < McuHeight(m, scan, scan[i]) && x < McuWidth(m, scan, scan[i])
    requires !Inside(m, scan[i], Times(r, McuHeight(m, scan, scan[i])) + y, Times(col, McuWidth(m, scan, scan[i])) + x)
    ensures var mcu, b := McuAt(m, scan, r, col), Offset(m, scan, i, y, x);
      BlocksInMcu(m, scan, i) < b < |mcu| && Repeats(mcu[b], mcu[b - 1])
  {
    hide Inside, Padded, Repeats, BlocksInMcu, McuWidth, McuHeight, McuPart, McuRowsInScan, McusPerRow, GoodImage, Times;
    var w := McuWidth(m, scan, scan[i]);
    DummyAfter(m, scan, scan[i], r, col, y, x);
    McuPartAt(m, scan, r, col, |scan|, i, y, x);
    if x > 0 {
      McuPartAt(m, scan, r, col, |scan|, i, y, x - 1);
    } else {
      McuPartAt(m, scan, r, col, |scan|, i, y - 1, w - 1);
      RowAbove(w, y);
    }
  }

  lemma RowAbove(w: nat, y: nat)
    requires y > 0
    ensures Times(w, y) == Times(w, y - 1) + w
  {
  }
}
