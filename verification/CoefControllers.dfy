/**
 * The coefficient controllers: one-pass, full-buffer and transcoding. Each hands MCUs to the entropy coder, which
 * may refuse one at any time; the controller is then called again later. Whatever happens, what the coder has
 * got is a prefix of the same reference sequence.
 */
module CoefControllers {
  import opened ZigZag
  import opened McuLayout

  /** Writing the next blocks of a row at the end of what the workspace holds. */
  lemma NextBlock(acc: seq<Block>, m: Image, c: nat, row: nat, col: nat, n: nat, before: seq<Block>, b: Block)
    requires GoodImage(m) && c < |m.comps| && before == AddRow(acc, m, c, row, col, n) && b == Padded(m, c, row, col + n)
    ensures before + [b] == AddRow(acc, m, c, row, col, n + 1)
  {
  }

  lemma DivExact(q: nat, h: nat, x: nat)
    requires x < h
    ensures (q * h + x) / h == q
  {
    var d, r := (q * h + x) / h, (q * h + x) % h;
    assert q * h + x == d * h + r;
    if d < q {
      MulMono(d + 1, q, h);
      MulNext(d, h);
    }
    if q < d {
      MulMono(q + 1, d, h);
      MulNext(q, h);
    }
  }

  /** A block below the image has the DC value of the last block above it in its MCU. */
  lemma BelowImage(m: Image, c: nat, row: nat, q: nat, x: nat)
    requires GoodImage(m) && c < |m.comps| && row >= HeightInBlocks(m, c) && row > 0 && x < m.comps[c].h
    ensures Padded(m, c, row, Times(q, m.comps[c].h) + x) == Flat(Padded(m, c, row - 1, Times(q, m.comps[c].h) + (m.comps[c].h - 1))[0])
  {
    DivExact(q, m.comps[c].h, x);
  }

  /** A block to the right of the image has the DC value of the block before it. */
  lemma RightOfImage(m: Image, c: nat, row: nat, col: nat)
    requires GoodImage(m) && c < |m.comps| && row < HeightInBlocks(m, c) && col >= WidthInBlocks(m, c)
    ensures col > 0 && Padded(m, c, row, col) == Flat(Padded(m, c, row, col - 1)[0])
  {
    SomeBlocks(m, c);
  }

  /** Dummy blocks are flat already. */
  lemma FlatSame(b: Block, dc: int)
    requires b == Flat(dc)
    ensures Flat(b[0]) == b
  {
  }

  lemma LastOfRow(acc: seq<Block>, m: Image, c: nat, row: nat, col: nat, n: nat)
    requires GoodImage(m) && c < |m.comps| && n > 0
    ensures AddRow(acc, m, c, row, col, n)[|acc| + n - 1] == Padded(m, c, row, col + n - 1)
  {
  }

  /** The last block before a row of an MCU is the last one of the row above. */
  lemma EndOfRows(base: seq<Block>, m: Image, c: nat, row: nat, col: nat, n: nat, w: nat)
    requires GoodImage(m) && c < |m.comps| && n > 0 && w > 0
    ensures var acc := AddRows(base, m, c, row, col, n, w);
            |acc| > 0 && acc[|acc| - 1] == Padded(m, c, row + n - 1, col + w - 1)
  {
    LastOfRow(AddRows(base, m, c, row, col, n - 1, w), m, c, row + n - 1, col, w);
  }

  lemma SomeMcus(m: Image, scan: seq<nat>)
    requires GoodImage(m) && GoodScan(m, scan)
    ensures McusPerRow(m, scan) > 0
  {
    SomeBlocks(m, scan[0]);
  }

  lemma RowInside(w: nat, h: nat, y: nat)
    requires y < h
    ensures Times(w, 0) == 0 && Times(w, y) + w == Times(w, y + 1) <= Times(w, h)
  {
    MulMono(y + 1, h, w);
  }

  /** Where a controller is: before column col of the row at offset y of interleaved row i. */
  ghost predicate Delivered(m: Image, scan: seq<nat>, i: nat, y: nat, col: nat, sent: seq<Mcu>)
    requires GoodImage(m) && GoodScan(m, scan)
  {
    sent == Reference(m, scan, McuRow(m, scan, i, y), col)
  }

  lemma DeliveredNext(m: Image, scan: seq<nat>, i: nat, y: nat, col: nat, sent: seq<Mcu>, mcu: Mcu)
    requires GoodImage(m) && GoodScan(m, scan) && Delivered(m, scan, i, y, col, sent)
    requires mcu == McuAt(m, scan, McuRow(m, scan, i, y), col)
    ensures Delivered(m, scan, i, y, col + 1, sent + [mcu])
  {
  }

  lemma DeliveredRow(m: Image, scan: seq<nat>, i: nat, y: nat, sent: seq<Mcu>)
    requires GoodImage(m) && GoodScan(m, scan) && i < IMcuRows(m)
    requires Delivered(m, scan, i, y, McusPerRow(m, scan), sent)
    ensures Delivered(m, scan, i, y + 1, 0, sent)
  {
    assert McuRow(m, scan, i, y + 1) == McuRow(m, scan, i, y) + 1;
  }

  lemma DeliveredIMcuRow(m: Image, scan: seq<nat>, i: nat, sent: seq<Mcu>)
    requires GoodImage(m) && GoodScan(m, scan) && i < IMcuRows(m)
    requires Delivered(m, scan, i, RowsPerIMcuRow(m, scan, i), 0, sent)
    ensures Delivered(m, scan, i + 1, 0, 0, sent)
    ensures i + 1 == IMcuRows(m) ==> sent == WholeScan(m, scan)
  {
    NextIMcuRow(m, scan, i);
  }

  /** The one-pass controller: blocks are transformed just before they are coded. */
  class OnePassController {
    const image: Image
    const scan: seq<nat>
    const mcuBuffer: array<Block>
    var iMcuRow: nat
    var mcuCtr: nat
    var mcuVertOffset: nat
    var rowsPerIMcuRow: nat
    /** The MCUs that the entropy coder has got, and how many more it can take for now. */
    var sent: seq<Mcu>
    var room: nat

    ghost predicate Shape()
      reads this
    {
      && GoodImage(image) && GoodScan(image, scan) && mcuBuffer.Length == MAX_BLOCKS_IN_MCU
      && iMcuRow <= IMcuRows(image) && rowsPerIMcuRow == RowsPerIMcuRow(image, scan, iMcuRow)
    }

    ghost predicate Valid()
      reads this
    {
      && Shape() && mcuVertOffset < rowsPerIMcuRow && mcuCtr < McusPerRow(image, scan)
      && Delivered(image, scan, iMcuRow, mcuVertOffset, mcuCtr, sent)
    }

    constructor (image: Image, scan: seq<nat>)
      requires GoodImage(image) && GoodScan(image, scan)
      ensures Valid() && this.image == image && this.scan == scan && fresh(mcuBuffer)
      ensures iMcuRow == 0 && sent == [] && room == 0
    {
      this.image, this.scan := image, scan;
      mcuBuffer := new Block[MAX_BLOCKS_IN_MCU](_ => Flat(0));
      iMcuRow, mcuCtr, mcuVertOffset, sent, room := 0, 0, 0, [], 0;
      rowsPerIMcuRow := RowsPerIMcuRow(image, scan, 0);
      SomeBlocks(image, scan[0]);
      NextIMcuRow(image, scan, 0);
    }

    /** Prepares the counters for the next interleaved row. */
    method StartIMcuRow()
      requires GoodImage(image) && GoodScan(image, scan)
      modifies `rowsPerIMcuRow, `mcuCtr, `mcuVertOffset
      ensures rowsPerIMcuRow == RowsPerIMcuRow(image, scan, iMcuRow) && mcuCtr == 0 == mcuVertOffset
    {
      var c := scan[0];
      if |scan| > 1 {
        rowsPerIMcuRow := 1;
      } else if iMcuRow < IMcuRows(image) - 1 {
        rowsPerIMcuRow := image.comps[c].v;
      } else {
        rowsPerIMcuRow := LastRowHeight(image, c);
      }
      mcuCtr, mcuVertOffset := 0, 0;
    }

    /** The forward DCT of count blocks of a row, into the workspace. */
    method ForwardDct(blkn: nat, c: nat, row: nat, col: nat, count: nat)
      requires GoodImage(image) && c < |image.comps| && blkn + count <= mcuBuffer.Length
      requires row < HeightInBlocks(image, c) && col + count <= WidthInBlocks(image, c)
      modifies mcuBuffer
      ensures mcuBuffer[..blkn + count] == AddRow(old(mcuBuffer[..blkn]), image, c, row, col, count)
    {
      var bi := 0;
      while bi < count
        invariant bi <= count
        invariant mcuBuffer[..blkn + bi] == AddRow(old(mcuBuffer[..blkn]), image, c, row, col, bi)
      {
        ghost var before := mcuBuffer[..blkn + bi];
        mcuBuffer[blkn + bi] := image.dct(c, row, col + bi);
        assert mcuBuffer[..blkn + (bi + 1)] == before + [image.dct(c, row, col + bi)];
        NextBlock(old(mcuBuffer[..blkn]), image, c, row, col, bi, before, mcuBuffer[blkn + bi]);
        bi := bi + 1;
      }
    }

    /** Dummy blocks up to the end of a row of the MCU. */
    method RightDummies(blkn: nat, c: nat, ghost row: nat, ghost col: nat, from: nat, w: nat, ghost acc: seq<Block>)
      requires GoodImage(image) && c < |image.comps| && blkn + w <= mcuBuffer.Length && 1 <= from <= w && |acc| == blkn
      requires row < HeightInBlocks(image, c) && (from < w ==> WidthInBlocks(image, c) <= col + from)
      requires mcuBuffer[..blkn + from] == AddRow(acc, image, c, row, col, from)
      modifies mcuBuffer
      ensures mcuBuffer[..blkn + w] == AddRow(acc, image, c, row, col, w)
    {
      var bi := from;
      while bi < w
        invariant from <= bi <= w
        invariant mcuBuffer[..blkn + bi] == AddRow(acc, image, c, row, col, bi)
      {
        ghost var before := mcuBuffer[..blkn + bi];
        LastOfRow(acc, image, c, row, col, bi);
        assert mcuBuffer[blkn + bi - 1] == before[blkn + bi - 1];
        RightOfImage(image, c, row, col + bi);
        mcuBuffer[blkn + bi] := Flat(mcuBuffer[blkn + bi - 1][0]);
        assert mcuBuffer[..blkn + (bi + 1)] == before + [mcuBuffer[blkn + bi]];
        NextBlock(acc, image, c, row, col, bi, before, mcuBuffer[blkn + bi]);
        bi := bi + 1;
      }
    }

    /** A row of dummy blocks at the bottom of an MCU. */
    method BottomDummies(blkn: nat, c: nat, ghost row: nat, ghost mcuCol: nat, ghost acc: seq<Block>)
      requires GoodImage(image) && c < |image.comps| && |acc| == blkn > 0
      requires blkn + image.comps[c].h <= mcuBuffer.Length && row >= HeightInBlocks(image, c) && row > 0
      requires mcuBuffer[..blkn] == acc
      requires acc[blkn - 1] == Padded(image, c, row - 1, Times(mcuCol, image.comps[c].h) + (image.comps[c].h - 1))
      modifies mcuBuffer
      ensures mcuBuffer[..blkn + image.comps[c].h]
           == AddRow(acc, image, c, row, Times(mcuCol, image.comps[c].h), image.comps[c].h)
    {
      hide Times, Padded, GoodImage;
      ghost var col := Times(mcuCol, image.comps[c].h);
      var bi := 0;
      assert mcuBuffer[blkn - 1] == acc[blkn - 1];
      while bi < image.comps[c].h
        invariant bi <= image.comps[c].h
        invariant mcuBuffer[blkn - 1] == acc[blkn - 1]
        invariant mcuBuffer[..blkn + bi] == AddRow(acc, image, c, row, col, bi)
      {
        ghost var before := mcuBuffer[..blkn + bi];
        BelowImage(image, c, row, mcuCol, bi);
        mcuBuffer[blkn + bi] := Flat(mcuBuffer[blkn - 1][0]);
        assert mcuBuffer[..blkn + (bi + 1)] == before + [mcuBuffer[blkn + bi]];
        NextBlock(acc, image, c, row, col, bi, before, mcuBuffer[blkn + bi]);
        bi := bi + 1;
      }
    }

    /** A row of blocks with real blocks in it, completed with dummy blocks. */
    method RealBlocks(blkn: nat, c: nat, row: nat, col: nat)
      requires GoodImage(image) && GoodScan(image, scan) && c in scan && col < McusPerRow(image, scan)
      requires row < HeightInBlocks(image, c) && blkn + McuWidth(image, scan, c) <= mcuBuffer.Length
      modifies mcuBuffer
      ensures var w := McuWidth(image, scan, c);
              mcuBuffer[..blkn + w] == AddRow(old(mcuBuffer[..blkn]), image, c, row, Times(col, w), w)
    {
      hide Times, CeilDiv, LastOf, Padded, McusPerRow;
      var w, blockcnt := McuWidth(image, scan, c), RealColumns(image, scan, c, col);
      RealColumn(image, scan, c, col, blockcnt - 1);
      ForwardDct(blkn, c, row, Times(col, w), blockcnt);
      if blockcnt < w {
        RealColumn(image, scan, c, col, blockcnt);
      }
      RightDummies(blkn, c, row, Times(col, w), blockcnt, w, old(mcuBuffer[..blkn]));
    }

    /** One row of blocks of one component of an MCU. */
    method BuildRow(blkn: nat, c: nat, y: nat, yindex: nat, col: nat, ghost base: seq<Block>)
      requires Shape() && iMcuRow < IMcuRows(image) && c in scan && y < rowsPerIMcuRow && col < McusPerRow(image, scan)
      requires c < |image.comps| && yindex < McuHeight(image, scan, c) && blkn + McuWidth(image, scan, c) <= mcuBuffer.Length
      requires var w, h := McuWidth(image, scan, c), McuHeight(image, scan, c);
               mcuBuffer[..blkn] == AddRows(base, image, c, Times(McuRow(image, scan, iMcuRow, y), h), Times(col, w), yindex, w)
      modifies mcuBuffer
      ensures var w, h := McuWidth(image, scan, c), McuHeight(image, scan, c);
              mcuBuffer[..blkn + w] == AddRows(base, image, c, Times(McuRow(image, scan, iMcuRow, y), h), Times(col, w), yindex + 1, w)
    {
      hide Times, Padded, LastRowHeight, HeightInBlocks, McuRow, McusPerRow, McuWidth, McuHeight, GoodImage, GoodScan, IMcuRows;
      var row := Times(iMcuRow, image.comps[c].v) + (y + yindex);
      RealRow(image, scan, c, iMcuRow, y, yindex);
      if iMcuRow < IMcuRows(image) - 1 || y + yindex < LastRowHeight(image, c) {
        RealBlocks(blkn, c, row, col);
      } else {
        ghost var w := McuWidth(image, scan, c);
        DummyRow(image, scan, c, iMcuRow, y, yindex);
        EndOfRows(base, image, c, Times(McuRow(image, scan, iMcuRow, y), McuHeight(image, scan, c)), Times(col, w), yindex, w);
        BottomDummies(blkn, c, row, col, mcuBuffer[..blkn]);
      }
    }

    /** The blocks of one component of an MCU. */
    method BuildComponent(blkn0: nat, c: nat, y: nat, col: nat) returns (blkn: nat)
      requires Shape() && iMcuRow < IMcuRows(image) && c in scan && y < rowsPerIMcuRow && col < McusPerRow(image, scan)
      requires blkn0 + Times(McuWidth(image, scan, c), McuHeight(image, scan, c)) <= mcuBuffer.Length
      modifies mcuBuffer
      ensures blkn == blkn0 + Times(McuWidth(image, scan, c), McuHeight(image, scan, c))
      ensures mcuBuffer[..blkn]
           == AddComponent(old(mcuBuffer[..blkn0]), image, c, McuWidth(image, scan, c), McuHeight(image, scan, c),
                           McuRow(image, scan, iMcuRow, y), col)
    {
      hide Padded, AddRow, McuAt, McuWidth, McuHeight, McuRow, Times;
      var w, h := McuWidth(image, scan, c), McuHeight(image, scan, c);
      var yindex := 0;
      blkn := blkn0;
      RowInside(w, h + 1, 0);
      while yindex < h
        invariant yindex <= h && blkn == blkn0 + Times(w, yindex) <= mcuBuffer.Length
        invariant mcuBuffer[..blkn]
               == AddRows(old(mcuBuffer[..blkn0]), image, c, Times(McuRow(image, scan, iMcuRow, y), h), Times(col, w), yindex, w)
      {
        RowInside(w, h, yindex);
        BuildRow(blkn, c, y, yindex, col, old(mcuBuffer[..blkn0]));
        blkn := blkn + w;
        yindex := yindex + 1;
      }
    }

    /** One MCU, in the workspace. */
    method BuildMcu(y: nat, col: nat) returns (blkn: nat)
      requires Shape() && iMcuRow < IMcuRows(image) && y < rowsPerIMcuRow && col < McusPerRow(image, scan)
      modifies mcuBuffer
      ensures blkn <= mcuBuffer.Length && mcuBuffer[..blkn] == McuAt(image, scan, McuRow(image, scan, iMcuRow, y), col)
    {
      hide Padded, AddRow, AddRows, McuWidth, McuHeight;
      var ci := 0;
      blkn := 0;
      while ci < |scan|
        invariant ci <= |scan| && blkn == BlocksInMcu(image, scan, ci) <= mcuBuffer.Length
        invariant mcuBuffer[..blkn] == McuPart(image, scan, McuRow(image, scan, iMcuRow, y), col, ci)
      {
        BlocksFit(image, scan, ci + 1);
        blkn := BuildComponent(blkn, scan[ci], y, col);
        ci := ci + 1;
      }
    }

    /** The entropy coder takes the MCU, unless it has no room. */
    method EncodeMcu(mcu: Mcu) returns (ok: bool)
      modifies `sent, `room
      ensures ok <==> old(room) > 0
      ensures sent == (if ok then old(sent) + [mcu] else old(sent)) && room == if ok then old(room) - 1 else old(room)
    {
      ok := room > 0;
      if ok {
        sent, room := sent + [mcu], room - 1;
      }
    }

    /** Goes on with the current interleaved row, until it is complete or the entropy coder has no room. */
    method CompressData() returns (done: bool)
      requires Valid() && iMcuRow < IMcuRows(image)
      modifies this, mcuBuffer
      ensures Valid() && |sent| - old(|sent|) == old(room) - room
      ensures done ==> iMcuRow == old(iMcuRow) + 1 && mcuCtr == 0 == mcuVertOffset
      ensures !done ==> iMcuRow == old(iMcuRow) && room == 0
      ensures iMcuRow == IMcuRows(image) ==> sent == WholeScan(image, scan)
    {
      hide McuAt, McuRow, McusPerRow, Delivered, RowsPerIMcuRow, IMcuRows, WholeScan, GoodImage, GoodScan;
      SomeMcus(image, scan);
      var yoffset := mcuVertOffset;
      while yoffset < rowsPerIMcuRow
        invariant yoffset <= rowsPerIMcuRow && Shape() && iMcuRow == old(iMcuRow)
        invariant 0 <= mcuCtr < McusPerRow(image, scan) && (yoffset == rowsPerIMcuRow ==> mcuCtr == 0)
        invariant Delivered(image, scan, iMcuRow, yoffset, mcuCtr, sent) && |sent| - old(|sent|) == old(room) - room
        decreases rowsPerIMcuRow - yoffset
      {
        var col, rows := mcuCtr, rowsPerIMcuRow;
        while col < McusPerRow(image, scan)
          invariant col <= McusPerRow(image, scan) && Shape() && iMcuRow == old(iMcuRow) && rowsPerIMcuRow == rows
          invariant Delivered(image, scan, iMcuRow, yoffset, col, sent) && |sent| - old(|sent|) == old(room) - room
        {
          ghost var before := sent;
          var blkn := BuildMcu(yoffset, col);
          var ok := EncodeMcu(mcuBuffer[..blkn]);
          if !ok {
            mcuVertOffset, mcuCtr := yoffset, col;
            return false;
          }
          DeliveredNext(image, scan, iMcuRow, yoffset, col, before, mcuBuffer[..blkn]);
          col := col + 1;
        }
        DeliveredRow(image, scan, iMcuRow, yoffset, sent);
        mcuCtr := 0;
        yoffset := yoffset + 1;
      }
      DeliveredIMcuRow(image, scan, iMcuRow, sent);
      iMcuRow := iMcuRow + 1;
      StartIMcuRow();
      return true;
    }
  }
  // The full-image buffer.

  predicate RowStored(m: Image, c: nat, r: nat, row: seq<Block>)
    requires GoodImage(m) && c < |m.comps|
  {
    |row| == PaddedWidth(m, c) && forall x :: 0 <= x < |row| ==> row[x] == Padded(m, c, r, x)
  }

  /** The first n rows of a component are stored, dummy blocks included. */
  predicate ComponentStored(m: Image, c: nat, rows: seq<seq<Block>>, n: nat)
    requires GoodImage(m) && c < |m.comps|
  {
    |rows| == PaddedHeight(m, c) && forall r :: 0 <= r < n && r < |rows| ==> RowStored(m, c, r, rows[r])
  }

  /** The interleaved rows before i are stored. */
  predicate Stored(m: Image, whole: seq<seq<seq<Block>>>, i: nat)
    requires GoodImage(m)
  {
    |whole| == |m.comps| && forall c :: 0 <= c < |whole| ==> ComponentStored(m, c, whole[c], Times(i, m.comps[c].v))
  }

  lemma StoredBlock(m: Image, whole: seq<seq<seq<Block>>>, i: nat, c: nat, r: nat, x: nat)
    requires GoodImage(m) && Stored(m, whole, i) && c < |m.comps|
    requires r < Times(i, m.comps[c].v) && r < PaddedHeight(m, c) && x < PaddedWidth(m, c)
    ensures |whole| == |m.comps| && |whole[c]| == PaddedHeight(m, c) && |whole[c][r]| == PaddedWidth(m, c)
    ensures whole[c][r][x] == Padded(m, c, r, x)
  {
    assert ComponentStored(m, c, whole[c], Times(i, m.comps[c].v));
    assert RowStored(m, c, r, whole[c][r]);
  }

  /** The blocks of a row right of the image all have the DC value of the last block in it. */
  lemma {:induction false} RightMargin(m: Image, c: nat, row: nat, col: nat)
    requires GoodImage(m) && c < |m.comps| && row < HeightInBlocks(m, c) && col >= WidthInBlocks(m, c) > 0
    ensures Padded(m, c, row, col) == Flat(Padded(m, c, row, WidthInBlocks(m, c) - 1)[0])
    decreases col
  {
    RightOfImage(m, c, row, col);
    if col > WidthInBlocks(m, c) {
      RightMargin(m, c, row, col - 1);
    }
  }

  /** A row of blocks in the image, completed with dummy blocks. */
  method RealBlockRow(m: Image, c: nat, row: nat) returns (blocks: seq<Block>)
    requires GoodImage(m) && c < |m.comps| && row < HeightInBlocks(m, c)
    ensures RowStored(m, c, row, blocks)
  {
    hide Times, CeilDiv, McusAcross;
    var across, h := WidthInBlocks(m, c), m.comps[c].h;
    var ndummy := across % h;
    if ndummy > 0 {
      ndummy := h - ndummy;
    }
    DummyColumns(m, c);
    blocks := [];
    var bi := 0;
    while bi < across
      invariant bi <= across && |blocks| == bi
      invariant forall x :: 0 <= x < |blocks| ==> blocks[x] == Padded(m, c, row, x)
    {
      blocks := blocks + [m.dct(c, row, bi)];
      bi := bi + 1;
    }
    var lastDc := blocks[across - 1][0];
    bi := 0;
    while bi < ndummy
      invariant bi <= ndummy && |blocks| == across + bi
      invariant forall x :: 0 <= x < |blocks| ==> blocks[x] == Padded(m, c, row, x)
    {
      RightMargin(m, c, row, across + bi);
      blocks := blocks + [Flat(lastDc)];
      bi := bi + 1;
    }
  }

  /** The dummy blocks of one MCU in a row below the image. */
  method DummyMcuRow(m: Image, c: nat, ghost row: nat, above: seq<Block>, q: nat, blocks0: seq<Block>) returns (blocks: seq<Block>)
    requires GoodImage(m) && c < |m.comps| && row >= HeightInBlocks(m, c) && row > 0 && q < McusAcross(m)
    requires RowStored(m, c, row - 1, above) && |blocks0| == Times(q, m.comps[c].h)
    requires forall x :: 0 <= x < |blocks0| ==> blocks0[x] == Padded(m, c, row, x)
    ensures |blocks| == Times(q + 1, m.comps[c].h)
    ensures forall x :: 0 <= x < |blocks| ==> blocks[x] == Padded(m, c, row, x)
  {
    hide Padded;
    var h := m.comps[c].h;
    MulNext(q, h);
    MulMono(q + 1, McusAcross(m), h);
    var lastDc := above[Times(q, h) + (h - 1)][0];
    blocks := blocks0;
    var bi := 0;
    while bi < h
      invariant bi <= h && |blocks| == Times(q, h) + bi
      invariant forall x :: 0 <= x < |blocks| ==> blocks[x] == Padded(m, c, row, x)
    {
      BelowImage(m, c, row, q, bi);
      blocks := blocks + [Flat(lastDc)];
      bi := bi + 1;
    }
  }

  /** A row of dummy blocks: in each MCU, the DC value of the last block above it. */
  method DummyBlockRow(m: Image, c: nat, ghost row: nat, above: seq<Block>) returns (blocks: seq<Block>)
    requires GoodImage(m) && c < |m.comps| && row >= HeightInBlocks(m, c) && row > 0
    requires RowStored(m, c, row - 1, above)
    ensures RowStored(m, c, row, blocks)
  {
    hide Padded, McusAcross;
    DummyColumns(m, c);
    var across, q := |above| / m.comps[c].h, 0;
    blocks := [];
    assert Times(0, m.comps[c].h) == 0;
    while q < across
      invariant q <= across && |blocks| == Times(q, m.comps[c].h)
      invariant forall x :: 0 <= x < |blocks| ==> blocks[x] == Padded(m, c, row, x)
    {
      blocks := DummyMcuRow(m, c, row, above, q, blocks);
      q := q + 1;
    }
  }
  lemma LoadedRows(m: Image, c: nat, i: nat, n: nat)
    requires GoodImage(m) && c < |m.comps| && i < n
    ensures Times(i + 1, m.comps[c].v) <= Times(n, m.comps[c].v)
  {
    MulMono(i + 1, n, m.comps[c].v);
  }

  lemma StoredBefore(m: Image, c: nat, rows: seq<seq<Block>>, i: nat, n: nat)
    requires GoodImage(m) && c < |m.comps| && i <= n && ComponentStored(m, c, rows, Times(n, m.comps[c].v))
    ensures ComponentStored(m, c, rows, Times(i, m.comps[c].v))
  {
    MulMono(i, n, m.comps[c].v);
  }

  lemma StoreRow(m: Image, c: nat, rows: seq<seq<Block>>, n: nat, row: seq<Block>)
    requires GoodImage(m) && c < |m.comps| && ComponentStored(m, c, rows, n) && n < |rows| && RowStored(m, c, n, row)
    ensures ComponentStored(m, c, rows[n := row], n + 1)
  {
  }

  /** All block rows of a component in an interleaved row. */
  method LoadComponent(m: Image, c: nat, i: nat, buffer0: seq<seq<Block>>) returns (buffer: seq<seq<Block>>)
    requires GoodImage(m) && c < |m.comps| && i < IMcuRows(m) && ComponentStored(m, c, buffer0, Times(i, m.comps[c].v))
    ensures ComponentStored(m, c, buffer, Times(i + 1, m.comps[c].v))
  {
    hide Times, HeightInBlocks, RowStored, IMcuRows, PaddedHeight;
    var v := m.comps[c].v;
    var first, blockRows, row := Times(i, v), v, [];
    BlockRows(m, c, i, 0);
    if i == IMcuRows(m) - 1 {
      blockRows := HeightInBlocks(m, c) % v;
      if blockRows == 0 {
        blockRows := v;
      }
    }
    buffer := buffer0;
    var blockRow := 0;
    while blockRow < blockRows
      invariant blockRow <= blockRows && ComponentStored(m, c, buffer, first + blockRow)
    {
      BlockRows(m, c, i, blockRow);
      row := RealBlockRow(m, c, first + blockRow);
      StoreRow(m, c, buffer, first + blockRow, row);
      buffer := buffer[first + blockRow := row];
      blockRow := blockRow + 1;
    }
    if i == IMcuRows(m) - 1 {
      while blockRow < v
        invariant blockRows <= blockRow <= v && ComponentStored(m, c, buffer, first + blockRow)
      {
        BlockRows(m, c, i, blockRow);
        row := DummyBlockRow(m, c, first + blockRow, buffer[first + blockRow - 1]);
        StoreRow(m, c, buffer, first + blockRow, row);
        buffer := buffer[first + blockRow := row];
        blockRow := blockRow + 1;
      }
    }
  }

  /** The full-buffer controller: blocks are transformed in the first pass, and coded in that and any later pass. */
  class BufferedController {
    const image: Image
    var whole: seq<seq<seq<Block>>>
    var scan: seq<nat>
    var iMcuRow: nat
    var mcuCtr: nat
    var mcuVertOffset: nat
    var rowsPerIMcuRow: nat
    /** The MCUs that the entropy coder has got in this pass, and how many more it can take for now. */
    var sent: seq<Mcu>
    var room: nat
    /** The number of interleaved rows in the buffer. */
    ghost var loaded: nat

    ghost predicate Shape()
      reads this
    {
      && GoodImage(image) && GoodScan(image, scan) && iMcuRow <= IMcuRows(image)
      && rowsPerIMcuRow == RowsPerIMcuRow(image, scan, iMcuRow)
      && loaded <= IMcuRows(image) && Stored(image, whole, loaded)
    }

    ghost predicate Valid()
      reads this
    {
      && Shape() && mcuVertOffset < rowsPerIMcuRow && mcuCtr < McusPerRow(image, scan)
      && Delivered(image, scan, iMcuRow, mcuVertOffset, mcuCtr, sent) && iMcuRow <= loaded
    }

    constructor (image: Image, scan: seq<nat>)
      requires GoodImage(image) && GoodScan(image, scan)
      ensures Valid() && this.image == image && this.scan == scan && loaded == 0 && iMcuRow == 0 && sent == []
    {
      this.image, this.scan := image, scan;
      whole := seq(|image.comps|, c requires 0 <= c < |image.comps| =>
        seq(PaddedHeight(image, c), _ => seq(PaddedWidth(image, c), _ => Flat(0))));
      loaded := 0;
      iMcuRow, mcuCtr, mcuVertOffset, sent, room := 0, 0, 0, [], 0;
      rowsPerIMcuRow := RowsPerIMcuRow(image, scan, 0);
      SomeBlocks(image, scan[0]);
      NextIMcuRow(image, scan, 0);
    }

    /** Begins a pass over another scan. */
    method StartPass(scan: seq<nat>)
      requires GoodImage(image) && GoodScan(image, scan) && loaded <= IMcuRows(image) && Stored(image, whole, loaded)
      modifies `scan, `iMcuRow, `mcuCtr, `mcuVertOffset, `rowsPerIMcuRow, `sent
      ensures Valid() && this.scan == scan && iMcuRow == 0 && sent == []
    {
      this.scan, iMcuRow, sent := scan, 0, [];
      StartIMcuRow();
      SomeMcus(image, scan);
      SomeBlocks(image, scan[0]);
    }

    method StartIMcuRow()
      requires GoodImage(image) && GoodScan(image, scan)
      modifies `rowsPerIMcuRow, `mcuCtr, `mcuVertOffset
      ensures rowsPerIMcuRow == RowsPerIMcuRow(image, scan, iMcuRow) && mcuCtr == 0 == mcuVertOffset
    {
      var c := scan[0];
      if |scan| > 1 {
        rowsPerIMcuRow := 1;
      } else if iMcuRow < IMcuRows(image) - 1 {
        rowsPerIMcuRow := image.comps[c].v;
      } else {
        rowsPerIMcuRow := LastRowHeight(image, c);
      }
      mcuCtr, mcuVertOffset := 0, 0;
    }

    /** One row of blocks of one component of an MCU, read from the buffer. */
    method CollectRow(c: nat, y: nat, yindex: nat, col: nat, mcu0: Mcu, ghost base: seq<Block>) returns (mcu: Mcu)
      requires Shape() && iMcuRow < loaded && c in scan && y < rowsPerIMcuRow && col < McusPerRow(image, scan)
      requires c < |image.comps| && yindex < McuHeight(image, scan, c)
      requires var w, h := McuWidth(image, scan, c), McuHeight(image, scan, c);
               mcu0 == AddRows(base, image, c, Times(McuRow(image, scan, iMcuRow, y), h), Times(col, w), yindex, w)
      ensures var w, h := McuWidth(image, scan, c), McuHeight(image, scan, c);
              mcu == AddRows(base, image, c, Times(McuRow(image, scan, iMcuRow, y), h), Times(col, w), yindex + 1, w)
    {
      hide Times, Padded, Stored, GoodScan, GoodImage, McuRow, McusPerRow, McuHeight, McuWidth, IMcuRows;
      var w, startCol := McuWidth(image, scan, c), Times(col, McuWidth(image, scan, c));
      var row := Times(iMcuRow, image.comps[c].v) + (y + yindex);
      RealRow(image, scan, c, iMcuRow, y, yindex);
      mcu := mcu0;
      var xindex := 0;
      while xindex < w
        invariant xindex <= w && mcu == AddRow(mcu0, image, c, row, startCol, xindex)
      {
        InsidePadding(image, scan, c, iMcuRow, y, yindex, col, xindex);
        LoadedRows(image, c, iMcuRow, loaded);
        StoredBlock(image, whole, loaded, c, row, startCol + xindex);
        mcu := mcu + [whole[c][row][startCol + xindex]];
        xindex := xindex + 1;
      }
    }

    /** One MCU, read from the buffer. */
    method CollectMcu(y: nat, col: nat) returns (mcu: Mcu)
      requires Shape() && iMcuRow < loaded && y < rowsPerIMcuRow && col < McusPerRow(image, scan)
      ensures mcu == McuAt(image, scan, McuRow(image, scan, iMcuRow, y), col)
    {
      hide Times, Padded, Stored, GoodImage, McuRow, McusPerRow, McuHeight, McuWidth;
      var ci := 0;
      mcu := [];
      while ci < |scan|
        invariant ci <= |scan| && mcu == McuPart(image, scan, McuRow(image, scan, iMcuRow, y), col, ci)
      {
        var c, yindex := scan[ci], 0;
        ghost var base, r, w := mcu, McuRow(image, scan, iMcuRow, y), McuWidth(image, scan, c);
        while yindex < McuHeight(image, scan, c)
          invariant yindex <= McuHeight(image, scan, c)
          invariant mcu == AddRows(base, image, c, Times(r, McuHeight(image, scan, c)), Times(col, w), yindex, w)
        {
          mcu := CollectRow(c, y, yindex, col, mcu, base);
          yindex := yindex + 1;
        }
        ci := ci + 1;
      }
    }

    /** The entropy coder takes the MCU, unless it has no room. */
    method EncodeMcu(mcu: Mcu) returns (ok: bool)
      modifies `sent, `room
      ensures ok <==> old(room) > 0
      ensures sent == (if ok then old(sent) + [mcu] else old(sent)) && room == if ok then old(room) - 1 else old(room)
    {
      ok := room > 0;
      if ok {
        sent, room := sent + [mcu], room - 1;
      }
    }

    /** Codes the current interleaved row from the buffer. */
    method CompressOutput() returns (done: bool)
      requires Valid() && iMcuRow < loaded
      modifies `iMcuRow, `mcuCtr, `mcuVertOffset, `rowsPerIMcuRow, `sent, `room
      ensures Valid() && |sent| - old(|sent|) == old(room) - room
      ensures done ==> iMcuRow == old(iMcuRow) + 1 && mcuCtr == 0 == mcuVertOffset
      ensures !done ==> iMcuRow == old(iMcuRow) && room == 0
      ensures iMcuRow == IMcuRows(image) ==> sent == WholeScan(image, scan)
    {
      hide McuAt, McuRow, McusPerRow, Delivered, RowsPerIMcuRow, IMcuRows, WholeScan, GoodImage, GoodScan, Stored;
      SomeMcus(image, scan);
      var yoffset := mcuVertOffset;
      while yoffset < rowsPerIMcuRow
        invariant yoffset <= rowsPerIMcuRow && Shape() && iMcuRow == old(iMcuRow)
        invariant 0 <= mcuCtr < McusPerRow(image, scan) && (yoffset == rowsPerIMcuRow ==> mcuCtr == 0)
        invariant Delivered(image, scan, iMcuRow, yoffset, mcuCtr, sent) && |sent| - old(|sent|) == old(room) - room
        decreases rowsPerIMcuRow - yoffset
      {
        var col, rows := mcuCtr, rowsPerIMcuRow;
        while col < McusPerRow(image, scan)
          invariant col <= McusPerRow(image, scan) && Shape() && iMcuRow == old(iMcuRow) && rowsPerIMcuRow == rows
          invariant Delivered(image, scan, iMcuRow, yoffset, col, sent) && |sent| - old(|sent|) == old(room) - room
        {
          ghost var before := sent;
          var mcu := CollectMcu(yoffset, col);
          var ok := EncodeMcu(mcu);
          if !ok {
            mcuVertOffset, mcuCtr := yoffset, col;
            return false;
          }
          DeliveredNext(image, scan, iMcuRow, yoffset, col, before, mcu);
          col := col + 1;
        }
        DeliveredRow(image, scan, iMcuRow, yoffset, sent);
        mcuCtr := 0;
        yoffset := yoffset + 1;
      }
      DeliveredIMcuRow(image, scan, iMcuRow, sent);
      iMcuRow := iMcuRow + 1;
      StartIMcuRow();
      return true;
    }

    /** Transforms the current interleaved row of every component into the buffer. */
    method LoadIMcuRow()
      requires Shape() && iMcuRow < IMcuRows(image) && iMcuRow <= loaded <= iMcuRow + 1
      modifies `whole, `loaded
      ensures Shape() && loaded == iMcuRow + 1
    {
      hide Times, RowsPerIMcuRow, IMcuRows, GoodImage, GoodScan, ComponentStored;
      var ci := 0;
      while ci < |image.comps|
        invariant ci <= |image.comps| == |whole| && loaded == old(loaded)
        invariant forall c :: 0 <= c < ci ==> ComponentStored(image, c, whole[c], Times(iMcuRow + 1, image.comps[c].v))
        invariant forall c :: ci <= c < |whole| ==> ComponentStored(image, c, whole[c], Times(loaded, image.comps[c].v))
      {
        StoredBefore(image, ci, whole[ci], iMcuRow, loaded);
        var buffer := LoadComponent(image, ci, iMcuRow, whole[ci]);
        whole := whole[ci := buffer];
        ci := ci + 1;
      }
      loaded := iMcuRow + 1;
    }

    /** Loads the current interleaved row, and codes what the scan needs of it. */
    method CompressFirstPass() returns (done: bool)
      requires Valid() && iMcuRow < IMcuRows(image) && loaded <= iMcuRow + 1
      modifies this
      ensures Valid() && scan == old(scan) && loaded == old(iMcuRow) + 1 && |sent| - old(|sent|) == old(room) - room
      ensures done ==> iMcuRow == old(iMcuRow) + 1 && mcuCtr == 0 == mcuVertOffset
      ensures !done ==> iMcuRow == old(iMcuRow) && room == 0
      ensures iMcuRow == IMcuRows(image) ==> sent == WholeScan(image, scan) && loaded == IMcuRows(image)
    {
      LoadIMcuRow();
      done := CompressOutput();
    }
  }
}
