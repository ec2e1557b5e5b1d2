/**
 * What an image's scans consist of: DCT blocks padded to whole MCUs, in MCU order. This is the reference that
 * every coefficient controller is compared with.
 */
module McuLayout {
  import opened ZigZag

  type Mcu = seq<Block>

  const MAX_BLOCKS_IN_MCU := 10
  const DCTSIZE := 8

  datatype Sampling = Sampling(h: nat, v: nat)

  /** An image: its size, the sampling factors of its components, and the DCT block at every position. */
  datatype Image = Image(width: nat, height: nat, comps: seq<Sampling>, dct: (nat, nat, nat) -> Block)

  predicate GoodImage(m: Image) {
    && m.width > 0 && m.height > 0 && m.comps != []
    && forall c :: 0 <= c < |m.comps| ==> 1 <= m.comps[c].h <= 4 && 1 <= m.comps[c].v <= 4
  }

  function MaxH(comps: seq<Sampling>): (r: nat)
    ensures r >= 1
  {
    if comps == [] then 1 else
      var r, h := MaxH(comps[..|comps| - 1]), comps[|comps| - 1].h;
      if h > r then h else r
  }

  function MaxV(comps: seq<Sampling>): (r: nat)
    ensures r >= 1
  {
    if comps == [] then 1 else
      var r, v := MaxV(comps[..|comps| - 1]), comps[|comps| - 1].v;
      if v > r then v else r
  }

  function CeilDiv(a: nat, b: nat): nat
    requires b > 0
  {
    (a + b - 1) / b
  }

  function Times(a: nat, b: nat): nat { a * b }

  /** The size of a component in DCT blocks. */
  function WidthInBlocks(m: Image, c: nat): nat
    requires c < |m.comps|
  {
    CeilDiv(m.width * m.comps[c].h, MaxH(m.comps) * DCTSIZE)
  }

  function HeightInBlocks(m: Image, c: nat): nat
    requires c < |m.comps|
  {
    CeilDiv(m.height * m.comps[c].v, MaxV(m.comps) * DCTSIZE)
  }

  function McusAcross(m: Image): nat { CeilDiv(m.width, MaxH(m.comps) * DCTSIZE) }

  /** The number of rows of interleaved MCUs. */
  function IMcuRows(m: Image): nat { CeilDiv(m.height, MaxV(m.comps) * DCTSIZE) }

  // Rounding up.

  lemma CeilBounds(a: nat, b: nat)
    requires b > 0
    ensures (CeilDiv(a, b) - 1) * b < a <= CeilDiv(a, b) * b
  {
    var q, r := (a + b - 1) / b, (a + b - 1) % b;
    assert a + b - 1 == q * b + r;
    assert (q - 1) * b == q * b - b;
  }

  lemma MulMono(x: int, y: int, k: nat)
    requires x <= y
    ensures x * k <= y * k
  {
  }

  lemma MulNext(x: int, k: nat)
    ensures (x + 1) * k == x * k + k
  {
  }

  lemma CeilUnique(a: nat, b: nat, q: int)
    requires b > 0 && (q - 1) * b < a <= q * b
    ensures CeilDiv(a, b) == q
  {
    var p := CeilDiv(a, b);
    CeilBounds(a, b);
    if p <= q - 1 {
      MulMono(p, q - 1, b);
    }
    if q <= p - 1 {
      MulMono(q, p - 1, b);
    }
  }

  /** Scaling by h, rounding up, and rounding up again to multiples of h is rounding up at once. */
  lemma CeilNested(w: nat, h: nat, m: nat)
    requires h > 0 && m > 0
    ensures CeilDiv(CeilDiv(w * h, m), h) == CeilDiv(w, m)
  {
    hide CeilDiv;
    var q, b := CeilDiv(w, m), CeilDiv(w * h, m);
    CeilBounds(w, m);
    CeilBounds(w * h, m);
    var u := (q - 1) * m;
    assert (q - 1) * h * m == u * h;
    MulMono(u + 1, w, h);
    assert (u + 1) * h == u * h + h;
    hide CeilDiv;
    if b <= (q - 1) * h {
      MulMono(b, (q - 1) * h, m);
    }
    MulMono(w, q * m, h);
    assert (q * m) * h == (q * h) * m;
    if b - 1 >= q * h {
      MulMono(q * h, b - 1, m);
    }
    CeilUnique(b, h, q);
  }

  // The largest sampling factors.

  predicate LargestH(comps: seq<Sampling>, h: nat) {
    (forall i :: 0 <= i < |comps| ==> comps[i].h <= h) && exists i :: 0 <= i < |comps| && comps[i].h == h
  }

  predicate LargestV(comps: seq<Sampling>, v: nat) {
    (forall i :: 0 <= i < |comps| ==> comps[i].v <= v) && exists i :: 0 <= i < |comps| && comps[i].v == v
  }

  lemma {:induction false} MaxHAttained(comps: seq<Sampling>)
    requires comps != [] && forall i :: 0 <= i < |comps| ==> 1 <= comps[i].h
    ensures LargestH(comps, MaxH(comps))
  {
    var n := |comps| - 1;
    var init := comps[..n];
    if n > 0 {
      MaxHAttained(init);
      var i :| 0 <= i < n && init[i].h == MaxH(init);
      assert comps[i].h == MaxH(init);
    }
    assert comps[n].h <= MaxH(comps);
    assert forall i :: 0 <= i < n ==> comps[i] == init[i];
  }

  lemma {:induction false} MaxVAttained(comps: seq<Sampling>)
    requires comps != [] && forall i :: 0 <= i < |comps| ==> 1 <= comps[i].v
    ensures LargestV(comps, MaxV(comps))
  {
    var n := |comps| - 1;
    var init := comps[..n];
    if n > 0 {
      MaxVAttained(init);
      var i :| 0 <= i < n && init[i].v == MaxV(init);
      assert comps[i].v == MaxV(init);
    }
    assert comps[n].v <= MaxV(comps);
    assert forall i :: 0 <= i < n ==> comps[i] == init[i];
  }

  lemma LargestAre(m: Image, h: nat, v: nat)
    requires GoodImage(m) && LargestH(m.comps, h) && LargestV(m.comps, v)
    ensures MaxH(m.comps) == h && MaxV(m.comps) == v
  {
    MaxHAttained(m.comps);
    MaxVAttained(m.comps);
  }

  /** As many MCUs of 8 times the largest factors as it takes to cover the image's samples, and not one more. */
  lemma McusCover(m: Image, h: nat, v: nat)
    requires GoodImage(m) && LargestH(m.comps, h) && LargestV(m.comps, v)
    ensures (McusAcross(m) - 1) * (8 * h) < m.width <= McusAcross(m) * (8 * h)
    ensures (IMcuRows(m) - 1) * (8 * v) < m.height <= IMcuRows(m) * (8 * v)
  {
    hide CeilDiv, MaxH, MaxV;
    LargestAre(m, h, v);
    CeilBounds(m.width, 8 * h);
    CeilBounds(m.height, 8 * v);
  }

  /** The same for the blocks of a component and its samples, of which there are h / H times as many in a row. */
  lemma BlocksCover(m: Image, c: nat, h: nat, v: nat)
    requires GoodImage(m) && c < |m.comps| && LargestH(m.comps, h) && LargestV(m.comps, v)
    ensures (WidthInBlocks(m, c) - 1) * (8 * h) < m.width * m.comps[c].h <= WidthInBlocks(m, c) * (8 * h)
    ensures (HeightInBlocks(m, c) - 1) * (8 * v) < m.height * m.comps[c].v <= HeightInBlocks(m, c) * (8 * v)
  {
    hide CeilDiv, MaxH, MaxV;
    LargestAre(m, h, v);
    CeilBounds(m.width * m.comps[c].h, 8 * h);
    CeilBounds(m.height * m.comps[c].v, 8 * v);
  }

  /** A component is as many MCUs wide as the image, and as many interleaved rows high. */
  lemma SameMcus(m: Image, c: nat)
    requires GoodImage(m) && c < |m.comps|
    ensures CeilDiv(WidthInBlocks(m, c), m.comps[c].h) == McusAcross(m)
    ensures CeilDiv(HeightInBlocks(m, c), m.comps[c].v) == IMcuRows(m)
  {
    CeilNested(m.width, m.comps[c].h, MaxH(m.comps) * DCTSIZE);
    CeilNested(m.height, m.comps[c].v, MaxV(m.comps) * DCTSIZE);
  }

  /** The real units in the last group of n. */
  function LastOf(total: nat, n: nat): (r: nat)
    requires n > 0
    ensures 1 <= r <= n
  {
    if total % n == 0 then n else total % n
  }

  lemma LastGroup(total: nat, n: nat)
    requires n > 0 && total > 0
    ensures total == (CeilDiv(total, n) - 1) * n + LastOf(total, n)
  {
    var q, r := total / n, total % n;
    assert total == q * n + r;
    if r == 0 {
      assert (q - 1) * n == q * n - n;
      CeilUnique(total, n, q);
    } else {
      assert (q + 1) * n == q * n + n;
      CeilUnique(total, n, q + 1);
    }
  }

  /** Unit i of group g exists iff it is in a full group or below the end of the last. */
  lemma InGroup(total: nat, n: nat, g: nat, i: nat)
    requires n > 0 && total > 0 && g < CeilDiv(total, n) && i < n
    ensures g * n + i < total <==> g < CeilDiv(total, n) - 1 || i < LastOf(total, n)
  {
    var q := CeilDiv(total, n);
    LastGroup(total, n);
    if g < q - 1 {
      MulMono(g + 1, q - 1, n);
      assert (g + 1) * n == g * n + n;
    }
  }

  // Dummy blocks.

  /** No AC coefficients. */
  function Flat(dc: int): Block { [dc] + seq(63, _ => 0) }

  /** The block at a position: beyond the right and bottom edges, the DC value of the block before it in its MCU. */
  function Padded(m: Image, c: nat, row: nat, col: nat): Block
    requires GoodImage(m) && c < |m.comps|
    decreases row, col
  {
    var h := m.comps[c].h;
    if row < HeightInBlocks(m, c) then
      if col < WidthInBlocks(m, c) || col == 0 then m.dct(c, row, col) else Flat(Padded(m, c, row, col - 1)[0])
    else if row == 0 then Flat(0)
    else Flat(Padded(m, c, row - 1, col / h * h + h - 1)[0])
  }

  // MCUs.

  /** The components of a scan; one component alone is not interleaved. */
  predicate GoodScan(m: Image, scan: seq<nat>) {
    && 1 <= |scan| <= 4 && (forall i :: 0 <= i < |scan| ==> scan[i] < |m.comps|)
    && (|scan| > 1 ==> BlocksInMcu(m, scan, |scan|) <= MAX_BLOCKS_IN_MCU)
  }

  function BlocksInMcu(m: Image, scan: seq<nat>, k: nat): nat
    requires k <= |scan| && forall i :: 0 <= i < |scan| ==> scan[i] < |m.comps|
  {
    if k == 0 then 0 else BlocksInMcu(m, scan, k - 1) + Times(McuWidth(m, scan, scan[k - 1]), McuHeight(m, scan, scan[k - 1]))
  }

  function McuWidth(m: Image, scan: seq<nat>, c: nat): nat
    requires c < |m.comps|
  {
    if |scan| == 1 then 1 else m.comps[c].h
  }

  function McuHeight(m: Image, scan: seq<nat>, c: nat): nat
    requires c < |m.comps|
  {
    if |scan| == 1 then 1 else m.comps[c].v
  }

  function McusPerRow(m: Image, scan: seq<nat>): nat
    requires GoodImage(m) && GoodScan(m, scan)
  {
    if |scan| == 1 then WidthInBlocks(m, scan[0]) else McusAcross(m)
  }

  /** n blocks of a row, appended to acc. */
  function AddRow(acc: seq<Block>, m: Image, c: nat, row: nat, col: nat, n: nat): (r: seq<Block>)
    requires GoodImage(m) && c < |m.comps|
    ensures |r| == |acc| + n
    decreases n
  {
    if n == 0 then acc else AddRow(acc, m, c, row, col, n - 1) + [Padded(m, c, row, col + n - 1)]
  }

  /** A rectangle of blocks, appended to acc row by row. */
  function AddRows(acc: seq<Block>, m: Image, c: nat, row: nat, col: nat, n: nat, w: nat): (r: seq<Block>)
    requires GoodImage(m) && c < |m.comps|
    decreases n
  {
    if n == 0 then acc else AddRow(AddRows(acc, m, c, row, col, n - 1, w), m, c, row + n - 1, col, w)
  }

  /** The blocks of one component of the MCU in the given MCU row and column. */
  function AddComponent(acc: seq<Block>, m: Image, c: nat, w: nat, h: nat, r: nat, col: nat): seq<Block>
    requires GoodImage(m) && c < |m.comps|
  {
    AddRows(acc, m, c, Times(r, h), Times(col, w), h, w)
  }

  /** The blocks of the first k components of that MCU. */
  function McuPart(m: Image, scan: seq<nat>, r: nat, col: nat, k: nat): seq<Block>
    requires GoodImage(m) && GoodScan(m, scan) && k <= |scan|
    decreases k
  {
    if k == 0 then []
    else
      var c := scan[k - 1];
      AddComponent(McuPart(m, scan, r, col, k - 1), m, c, McuWidth(m, scan, c), McuHeight(m, scan, c), r, col)
  }

  function McuAt(m: Image, scan: seq<nat>, r: nat, col: nat): Mcu
    requires GoodImage(m) && GoodScan(m, scan)
  {
    McuPart(m, scan, r, col, |scan|)
  }

  /** All MCUs before column col of MCU row r. */
  function Reference(m: Image, scan: seq<nat>, r: nat, col: nat): seq<Mcu>
    requires GoodImage(m) && GoodScan(m, scan)
    decreases r, col
  {
    if col > 0 then Reference(m, scan, r, col - 1) + [McuAt(m, scan, r, col - 1)]
    else if r > 0 then Reference(m, scan, r - 1, McusPerRow(m, scan))
    else []
  }

  /** The number of MCU rows of a scan. */
  function McuRowsInScan(m: Image, scan: seq<nat>): nat
    requires GoodImage(m) && GoodScan(m, scan)
  {
    if |scan| == 1 then HeightInBlocks(m, scan[0]) else IMcuRows(m)
  }

  /** The whole scan. */
  function WholeScan(m: Image, scan: seq<nat>): seq<Mcu>
    requires GoodImage(m) && GoodScan(m, scan)
  {
    Reference(m, scan, McuRowsInScan(m, scan), 0)
  }

  // The controllers' walk over interleaved rows.

  /** The number of block rows of a component in the last interleaved row. */
  function LastRowHeight(m: Image, c: nat): (r: nat)
    requires GoodImage(m) && c < |m.comps|
    ensures 1 <= r <= m.comps[c].v
  {
    LastOf(HeightInBlocks(m, c), m.comps[c].v)
  }

  /** MCU rows per interleaved row i; the last one may have fewer. */
  function RowsPerIMcuRow(m: Image, scan: seq<nat>, i: nat): (r: nat)
    requires GoodImage(m) && GoodScan(m, scan)
    ensures r >= 1
  {
    var v := m.comps[scan[0]].v;
    if |scan| > 1 then 1 else if i < IMcuRows(m) - 1 then v else LastRowHeight(m, scan[0])
  }

  /** The MCU row at offset y of interleaved row i. */
  function McuRow(m: Image, scan: seq<nat>, i: nat, y: nat): nat
    requires GoodImage(m) && GoodScan(m, scan)
  {
    if |scan| > 1 then i + y
    else if i < IMcuRows(m) then Times(i, m.comps[scan[0]].v) + y
    else HeightInBlocks(m, scan[0])
  }

  lemma CeilPositive(a: nat, b: nat)
    requires a > 0 && b > 0
    ensures CeilDiv(a, b) > 0
  {
    CeilBounds(a, b);
  }

  lemma SomeBlocks(m: Image, c: nat)
    requires GoodImage(m) && c < |m.comps|
    ensures WidthInBlocks(m, c) > 0 && HeightInBlocks(m, c) > 0 && IMcuRows(m) > 0 && McusAcross(m) > 0
  {
    MulMono(1, m.width, m.comps[c].h);
    MulMono(1, m.height, m.comps[c].v);
    CeilPositive(m.width * m.comps[c].h, MaxH(m.comps) * DCTSIZE);
    CeilPositive(m.height * m.comps[c].v, MaxV(m.comps) * DCTSIZE);
    CeilPositive(m.width, MaxH(m.comps) * DCTSIZE);
    CeilPositive(m.height, MaxV(m.comps) * DCTSIZE);
  }

  /** The rows of an interleaved row end where those of the next one start, and the last ends with the scan. */
  lemma NextIMcuRow(m: Image, scan: seq<nat>, i: nat)
    requires GoodImage(m) && GoodScan(m, scan) && i < IMcuRows(m)
    ensures McuRow(m, scan, i, RowsPerIMcuRow(m, scan, i)) == McuRow(m, scan, i + 1, 0)
    ensures i + 1 == IMcuRows(m) ==> McuRow(m, scan, i + 1, 0) == McuRowsInScan(m, scan)
  {
    if |scan| == 1 {
      var c := scan[0];
      var v := m.comps[c].v;
      SameMcus(m, c);
      SomeBlocks(m, c);
      LastGroup(HeightInBlocks(m, c), v);
      assert (i + 1) * v == i * v + v;
    }
  }

  /** Row y below MCU row r of a component is there iff the controllers' test says so. */
  lemma RealRow(m: Image, scan: seq<nat>, c: nat, i: nat, y: nat, yindex: nat)
    requires GoodImage(m) && GoodScan(m, scan) && c in scan && i < IMcuRows(m)
    requires y < RowsPerIMcuRow(m, scan, i) && yindex < McuHeight(m, scan, c)
    ensures Times(McuRow(m, scan, i, y), McuHeight(m, scan, c)) + yindex == Times(i, m.comps[c].v) + (y + yindex)
    ensures y + yindex < m.comps[c].v
    ensures Times(i, m.comps[c].v) + (y + yindex) < HeightInBlocks(m, c)
       <==> i < IMcuRows(m) - 1 || y + yindex < LastRowHeight(m, c)
  {
    SameMcus(m, c);
    SomeBlocks(m, c);
    InGroup(HeightInBlocks(m, c), m.comps[c].v, i, y + yindex);
  }

  /** Rows below the image are only in interleaved MCUs, and never first in them. */
  lemma DummyRow(m: Image, scan: seq<nat>, c: nat, i: nat, y: nat, yindex: nat)
    requires GoodImage(m) && GoodScan(m, scan) && c in scan && i < IMcuRows(m)
    requires y < RowsPerIMcuRow(m, scan, i) && yindex < McuHeight(m, scan, c)
    requires i == IMcuRows(m) - 1 && y + yindex >= LastRowHeight(m, c)
    ensures McuWidth(m, scan, c) == m.comps[c].h > 0 && yindex > 0
    ensures Times(McuRow(m, scan, i, y), McuHeight(m, scan, c)) + yindex >= HeightInBlocks(m, c)
  {
    RealRow(m, scan, c, i, y, yindex);
    RealRow(m, scan, c, i, y, 0);
  }

  /** The number of real columns of an MCU. */
  function RealColumns(m: Image, scan: seq<nat>, c: nat, col: nat): (n: nat)
    requires GoodImage(m) && GoodScan(m, scan) && c < |m.comps|
    ensures 1 <= n <= McuWidth(m, scan, c)
  {
    if col < McusPerRow(m, scan) - 1 then McuWidth(m, scan, c)
    else if |scan| == 1 then 1 else LastOf(WidthInBlocks(m, c), m.comps[c].h)
  }

  lemma RealColumn(m: Image, scan: seq<nat>, c: nat, col: nat, x: nat)
    requires GoodImage(m) && GoodScan(m, scan) && c in scan && col < McusPerRow(m, scan) && x < McuWidth(m, scan, c)
    ensures Times(col, McuWidth(m, scan, c)) + x < WidthInBlocks(m, c) <==> x < RealColumns(m, scan, c, col)
  {
    SameMcus(m, c);
    SomeBlocks(m, c);
    if |scan| > 1 {
      InGroup(WidthInBlocks(m, c), m.comps[c].h, col, x);
    }
  }

  lemma ComponentSize(acc: seq<Block>, m: Image, c: nat, w: nat, h: nat, r: nat, col: nat)
    requires GoodImage(m) && c < |m.comps|
    ensures |AddComponent(acc, m, c, w, h, r, col)| == |acc| + Times(w, h)
  {
    AddRowsSize(acc, m, c, Times(r, h), Times(col, w), h, w);
  }

  lemma {:induction false} McuPartSize(m: Image, scan: seq<nat>, r: nat, col: nat, k: nat)
    requires GoodImage(m) && GoodScan(m, scan) && k <= |scan|
    ensures |McuPart(m, scan, r, col, k)| == BlocksInMcu(m, scan, k)
  {
    if k > 0 {
      var c := scan[k - 1];
      var w, h := McuWidth(m, scan, c), McuHeight(m, scan, c);
      McuPartSize(m, scan, r, col, k - 1);
      ComponentSize(McuPart(m, scan, r, col, k - 1), m, c, w, h, r, col);
    }
  }

  lemma {:induction false} AddRowsSize(acc: seq<Block>, m: Image, c: nat, row: nat, col: nat, n: nat, w: nat)
    requires GoodImage(m) && c < |m.comps|
    ensures |AddRows(acc, m, c, row, col, n, w)| == |acc| + w * n
  {
    if n > 0 {
      AddRowsSize(acc, m, c, row, col, n - 1, w);
      assert w * n == w * (n - 1) + w;
    }
  }

  lemma {:induction false} BlocksMono(m: Image, scan: seq<nat>, k: nat, n: nat)
    requires k <= n <= |scan| && forall i :: 0 <= i < |scan| ==> scan[i] < |m.comps|
    ensures BlocksInMcu(m, scan, k) <= BlocksInMcu(m, scan, n)
  {
    if k < n {
      BlocksMono(m, scan, k, n - 1);
    }
  }

  /** The blocks of an MCU fit the workspace. */
  lemma BlocksFit(m: Image, scan: seq<nat>, k: nat)
    requires GoodImage(m) && GoodScan(m, scan) && k <= |scan|
    ensures BlocksInMcu(m, scan, k) <= BlocksInMcu(m, scan, |scan|) <= MAX_BLOCKS_IN_MCU
  {
    BlocksMono(m, scan, k, |scan|);
    if |scan| == 1 {
      assert BlocksInMcu(m, scan, 1) == BlocksInMcu(m, scan, 0) + 1;
    }
  }

  /** The n-th MCU of a scan, row by row. */
  lemma {:induction false} ReferenceAt(m: Image, scan: seq<nat>, r: nat, col: nat, r0: nat, col0: nat)
    requires GoodImage(m) && GoodScan(m, scan) && col0 < McusPerRow(m, scan) && col <= McusPerRow(m, scan)
    requires r0 < r || (r0 == r && col0 < col)
    ensures |Reference(m, scan, r, col)| == r * McusPerRow(m, scan) + col
    ensures 0 <= r0 * McusPerRow(m, scan) + col0 < |Reference(m, scan, r, col)|
    ensures Reference(m, scan, r, col)[r0 * McusPerRow(m, scan) + col0] == McuAt(m, scan, r0, col0)
    decreases r, col
  {
    var n := McusPerRow(m, scan);
    ReferenceSize(m, scan, r, col);
    assert r0 < r ==> (r0 + 1) * n <= r * n by {
      if r0 < r {
        MulMono(r0 + 1, r, n);
      }
    }
    assert (r0 + 1) * n == r0 * n + n;
    if col > 0 {
      ReferenceSize(m, scan, r, col - 1);
      if r0 < r || col0 < col - 1 {
        ReferenceAt(m, scan, r, col - 1, r0, col0);
      }
    } else {
      ReferenceAt(m, scan, r - 1, n, r0, col0);
    }
  }

  lemma {:induction false} ReferenceSize(m: Image, scan: seq<nat>, r: nat, col: nat)
    requires GoodImage(m) && GoodScan(m, scan)
    ensures |Reference(m, scan, r, col)| == r * McusPerRow(m, scan) + col
    decreases r, col
  {
    if col > 0 {
      ReferenceSize(m, scan, r, col - 1);
    } else if r > 0 {
      ReferenceSize(m, scan, r - 1, McusPerRow(m, scan));
      assert r * McusPerRow(m, scan) == (r - 1) * McusPerRow(m, scan) + McusPerRow(m, scan);
    }
  }

  // Whole components, padded to full MCUs.

  function PaddedWidth(m: Image, c: nat): nat
    requires GoodImage(m) && c < |m.comps|
  {
    Times(McusAcross(m), m.comps[c].h)
  }

  function PaddedHeight(m: Image, c: nat): nat
    requires GoodImage(m) && c < |m.comps|
  {
    Times(IMcuRows(m), m.comps[c].v)
  }

  /** Filling up the last MCU of a row. */
  lemma DummyColumns(m: Image, c: nat)
    requires GoodImage(m) && c < |m.comps|
    ensures var wb, h := WidthInBlocks(m, c), m.comps[c].h;
            && wb > 0 && wb <= PaddedWidth(m, c)
            && PaddedWidth(m, c) - wb == (if wb % h > 0 then h - wb % h else 0)
            && PaddedWidth(m, c) / h == McusAcross(m)
  {
    var wb, h := WidthInBlocks(m, c), m.comps[c].h;
    SameMcus(m, c);
    SomeBlocks(m, c);
    LastGroup(wb, h);
    MulNext(McusAcross(m) - 1, h);
    DivTimes(McusAcross(m), h);
  }

  lemma DivTimes(q: nat, h: nat)
    requires h > 0
    ensures Times(q, h) / h == q
  {
    var d, r := Times(q, h) / h, Times(q, h) % h;
    assert Times(q, h) == d * h + r;
    if d < q {
      MulMono(d + 1, q, h);
      MulNext(d, h);
    }
    if q < d {
      MulMono(q + 1, d, h);
      MulNext(q, h);
    }
  }

  /** Which rows of an interleaved row are in the image. */
  lemma BlockRows(m: Image, c: nat, i: nat, r: nat)
    requires GoodImage(m) && c < |m.comps| && i < IMcuRows(m) && r < m.comps[c].v
    ensures Times(i, m.comps[c].v) + r < HeightInBlocks(m, c) <==> i < IMcuRows(m) - 1 || r < LastRowHeight(m, c)
    ensures Times(i, m.comps[c].v) + m.comps[c].v == Times(i + 1, m.comps[c].v) <= PaddedHeight(m, c)
  {
    SameMcus(m, c);
    SomeBlocks(m, c);
    InGroup(HeightInBlocks(m, c), m.comps[c].v, i, r);
    MulNext(i, m.comps[c].v);
    MulMono(i + 1, IMcuRows(m), m.comps[c].v);
  }

  /** Every block of a scan's MCUs is inside the padded component. */
  lemma InsidePadding(m: Image, scan: seq<nat>, c: nat, i: nat, y: nat, yindex: nat, col: nat, x: nat)
    requires GoodImage(m) && GoodScan(m, scan) && c in scan && i < IMcuRows(m) && col < McusPerRow(m, scan)
    requires y < RowsPerIMcuRow(m, scan, i) && yindex < McuHeight(m, scan, c) && x < McuWidth(m, scan, c)
    ensures Times(i, m.comps[c].v) + (y + yindex) < Times(i + 1, m.comps[c].v) <= PaddedHeight(m, c)
    ensures Times(col, McuWidth(m, scan, c)) + x < PaddedWidth(m, c)
  {
    var h, v := m.comps[c].h, m.comps[c].v;
    RealRow(m, scan, c, i, y, yindex);
    MulNext(i, v);
    MulMono(i + 1, IMcuRows(m), v);
    if |scan| == 1 {
      DummyColumns(m, c);
    } else {
      MulNext(col, h);
      MulMono(col + 1, McusAcross(m), h);
    }
  }
}
