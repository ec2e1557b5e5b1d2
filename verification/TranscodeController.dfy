/** The coefficient controller for transcoding: blocks come from coefficient arrays that hold no dummy blocks. */
module TranscodeController {
  import opened ZigZag
  import opened McuLayout
  import opened CoefControllers

  lemma FlatUpdate(b: Block, dc: int)
    requires b == Flat(b[0])
    ensures b[0 := dc] == Flat(dc)
  {
  }

  class Transcoder {
    /** Here the block function gives the blocks of the coefficient arrays. */
    const image: Image
    const scan: seq<nat>
    const dummyBuffer: array<Block>
    var iMcuRow: nat
    var mcuCtr: nat
    var mcuVertOffset: nat
    var rowsPerIMcuRow: nat
    /** The MCUs that the entropy coder has got, and how many more it can take for now. */
    var sent: seq<Mcu>
    var room: nat

    ghost predicate Shape()
      reads this
    {
      && GoodImage(image) && GoodScan(image, scan) && dummyBuffer.Length == MAX_BLOCKS_IN_MCU
      && iMcuRow <= IMcuRows(image) && rowsPerIMcuRow == RowsPerIMcuRow(image, scan, iMcuRow)
    }

    /** The AC coefficients of the dummy blocks stay zero. */
    ghost predicate AllFlat()
      reads dummyBuffer
    {
      forall i :: 0 <= i < dummyBuffer.Length ==> dummyBuffer[i] == Flat(dummyBuffer[i][0])
    }

    ghost predicate Valid()
      reads this, dummyBuffer
    {
      && Shape() && AllFlat() && mcuVertOffset < rowsPerIMcuRow && mcuCtr < McusPerRow(image, scan)
      && Delivered(image, scan, iMcuRow, mcuVertOffset, mcuCtr, sent)
    }

    constructor (image: Image, scan: seq<nat>)
      requires GoodImage(image) && GoodScan(image, scan)
      ensures Valid() && this.image == image && this.scan == scan && fresh(dummyBuffer)
      ensures iMcuRow == 0 && sent == [] && room == 0
    {
      this.image, this.scan := image, scan;
      dummyBuffer := new Block[MAX_BLOCKS_IN_MCU](_ => Flat(0));
      iMcuRow, mcuCtr, mcuVertOffset, sent, room := 0, 0, 0, [], 0;
      rowsPerIMcuRow := RowsPerIMcuRow(image, scan, 0);
      SomeBlocks(image, scan[0]);
      NextIMcuRow(image, scan, 0);
    }

    method StartIMcuRow()
      requires GoodImage(image) && GoodScan(image, scan)
      modifies `rowsPerIMcuRow, `mcuCtr, `mcuVertOffset
      ensures rowsPerIMcuRow == RowsPerIMcuRow(image, scan, iMcuRow) && mcuCtr == 0 == mcuVertOffset
    {
      var c := scan[0];
      if |scan| > 1 {
        rowsPerIMcuRow := 1;
      } else if iMcuRow < IMcuRows(image) - 1 {
        rowsPerIMcuRow := image.comps[c].v;
      } else {
        rowsPerIMcuRow := LastRowHeight(image, c);
      }
      mcuCtr, mcuVertOffset := 0, 0;
    }

    /** A dummy block with the DC value of the block before it. */
    method AddDummy(mcu0: Mcu) returns (mcu: Mcu)
      requires 0 < |mcu0| < dummyBuffer.Length && AllFlat()
      modifies dummyBuffer
      ensures AllFlat() && mcu == mcu0 + [Flat(mcu0[|mcu0| - 1][0])]
    {
      var blkn := |mcu0|;
      FlatUpdate(dummyBuffer[blkn], mcu0[blkn - 1][0]);
      dummyBuffer[blkn] := dummyBuffer[blkn][0 := mcu0[blkn - 1][0]];
      mcu := mcu0 + [dummyBuffer[blkn]];
    }

    /** A row of blocks with real blocks in it, completed with dummy blocks. */
    method RealBlocks(c: nat, row: nat, col: nat, mcu0: Mcu) returns (mcu: Mcu)
      requires GoodImage(image) && GoodScan(image, scan) && c in scan && c < |image.comps| && col < McusPerRow(image, scan)
      requires row < HeightInBlocks(image, c) && |mcu0| + McuWidth(image, scan, c) <= dummyBuffer.Length && AllFlat()
      modifies dummyBuffer
      ensures var w := McuWidth(image, scan, c); AllFlat() && mcu == AddRow(mcu0, image, c, row, Times(col, w), w)
    {
      hide Times, CeilDiv, LastOf, Flat, McusPerRow, GoodImage, GoodScan, WidthInBlocks, RealColumns;
      var w, blockcnt := McuWidth(image, scan, c), RealColumns(image, scan, c, col);
      var startCol := Times(col, w);
      mcu := mcu0;
      var xindex := 0;
      while xindex < blockcnt
        invariant xindex <= blockcnt && mcu == AddRow(mcu0, image, c, row, startCol, xindex) && AllFlat()
      {
        RealColumn(image, scan, c, col, xindex);
        mcu := mcu + [image.dct(c, row, startCol + xindex)];
        xindex := xindex + 1;
      }
      while xindex < w
        invariant blockcnt <= xindex <= w && mcu == AddRow(mcu0, image, c, row, startCol, xindex) && AllFlat()
      {
        RealColumn(image, scan, c, col, xindex);
        LastOfRow(mcu0, image, c, row, startCol, xindex);
        RightOfImage(image, c, row, startCol + xindex);
        mcu := AddDummy(mcu);
        xindex := xindex + 1;
      }
    }

    /** A row of dummy blocks: each repeats the DC value of the one before it. */
    method DummyBlocks(c: nat, ghost row: nat, ghost col: nat, mcu0: Mcu) returns (mcu: Mcu)
      requires GoodImage(image) && c < |image.comps| && mcu0 != [] && |mcu0| + image.comps[c].h <= dummyBuffer.Length
      requires row >= HeightInBlocks(image, c) && row > 0 && AllFlat()
      requires mcu0[|mcu0| - 1] == Padded(image, c, row - 1, Times(col, image.comps[c].h) + (image.comps[c].h - 1))
      modifies dummyBuffer
      ensures var h := image.comps[c].h; AllFlat() && mcu == AddRow(mcu0, image, c, row, Times(col, h), h)
    {
      hide Times, Padded;
      ghost var h, dc := image.comps[c].h, mcu0[|mcu0| - 1][0];
      mcu := mcu0;
      var xindex := 0;
      while xindex < image.comps[c].h
        invariant xindex <= h && mcu == AddRow(mcu0, image, c, row, Times(col, h), xindex) && AllFlat()
        invariant mcu[|mcu| - 1][0] == dc
      {
        BelowImage(image, c, row, col, xindex);
        mcu := AddDummy(mcu);
        xindex := xindex + 1;
      }
    }

    /** One row of blocks of one component of an MCU. */
    method BuildRow(c: nat, y: nat, yindex: nat, col: nat, mcu0: Mcu, ghost base: seq<Block>) returns (mcu: Mcu)
      requires Shape() && iMcuRow < IMcuRows(image) && c in scan && y < rowsPerIMcuRow && col < McusPerRow(image, scan)
      requires c < |image.comps| && yindex < McuHeight(image, scan, c) && AllFlat()
      requires |mcu0| + McuWidth(image, scan, c) <= dummyBuffer.Length
      requires var w, h := McuWidth(image, scan, c), McuHeight(image, scan, c);
               mcu0 == AddRows(base, image, c, Times(McuRow(image, scan, iMcuRow, y), h), Times(col, w), yindex, w)
      modifies dummyBuffer
      ensures var w, h := McuWidth(image, scan, c), McuHeight(image, scan, c);
              AllFlat()
              && mcu == AddRows(base, image, c, Times(McuRow(image, scan, iMcuRow, y), h), Times(col, w), yindex + 1, w)
    {
      hide Times, Padded, LastRowHeight, HeightInBlocks, McuRow, McusPerRow, McuWidth, McuHeight, GoodImage, GoodScan, IMcuRows;
      var row := Times(iMcuRow, image.comps[c].v) + (y + yindex);
      RealRow(image, scan, c, iMcuRow, y, yindex);
      if iMcuRow < IMcuRows(image) - 1 || y + yindex < LastRowHeight(image, c) {
        mcu := RealBlocks(c, row, col, mcu0);
      } else {
        ghost var w := McuWidth(image, scan, c);
        DummyRow(image, scan, c, iMcuRow, y, yindex);
        EndOfRows(base, image, c, Times(McuRow(image, scan, iMcuRow, y), McuHeight(image, scan, c)), Times(col, w), yindex, w);
        mcu := DummyBlocks(c, row, col, mcu0);
      }
    }

    /** The blocks of one component of an MCU. */
    method BuildComponent(c: nat, y: nat, col: nat, mcu0: Mcu) returns (mcu: Mcu)
      requires Shape() && iMcuRow < IMcuRows(image) && c in scan && y < rowsPerIMcuRow && col < McusPerRow(image, scan)
      requires c < |image.comps| && AllFlat()
      requires |mcu0| + Times(McuWidth(image, scan, c), McuHeight(image, scan, c)) <= dummyBuffer.Length
      modifies dummyBuffer
      ensures AllFlat() && |mcu| == |mcu0| + Times(McuWidth(image, scan, c), McuHeight(image, scan, c))
      ensures mcu == AddComponent(mcu0, image, c, McuWidth(image, scan, c), McuHeight(image, scan, c),
                                  McuRow(image, scan, iMcuRow, y), col)
    {
      hide Padded, AddRow, GoodImage, GoodScan, IMcuRows, RowsPerIMcuRow;
      ghost var w := McuWidth(image, scan, c);
      var h := McuHeight(image, scan, c);
      var yindex := 0;
      mcu := mcu0;
      while yindex < h
        invariant yindex <= h && |mcu| == |mcu0| + Times(w, yindex) && AllFlat()
        invariant mcu == AddRows(mcu0, image, c, Times(McuRow(image, scan, iMcuRow, y), h), Times(col, w), yindex, w)
      {
        RowInside(w, h, yindex);
        mcu := BuildRow(c, y, yindex, col, mcu, mcu0);
        yindex := yindex + 1;
      }
    }

    method BuildMcu(y: nat, col: nat) returns (mcu: Mcu)
      requires Shape() && iMcuRow < IMcuRows(image) && y < rowsPerIMcuRow && col < McusPerRow(image, scan) && AllFlat()
      modifies dummyBuffer
      ensures AllFlat() && mcu == McuAt(image, scan, McuRow(image, scan, iMcuRow, y), col)
    {
      hide Times, AddComponent, IMcuRows, RowsPerIMcuRow, McusPerRow, McuRow;
      var ci := 0;
      mcu := [];
      while ci < |scan|
        invariant ci <= |scan| && |mcu| == BlocksInMcu(image, scan, ci) <= dummyBuffer.Length && AllFlat()
        invariant mcu == McuPart(image, scan, McuRow(image, scan, iMcuRow, y), col, ci)
      {
        BlocksFit(image, scan, ci + 1);
        mcu := BuildComponent(scan[ci], y, col, mcu);
        ci := ci + 1;
      }
    }

    /** The entropy coder takes the MCU, unless it has no room. */
    method EncodeMcu(mcu: Mcu) returns (ok: bool)
      modifies `sent, `room
      ensures ok <==> old(room) > 0
      ensures sent == (if ok then old(sent) + [mcu] else old(sent)) && room == if ok then old(room) - 1 else old(room)
    {
      ok := room > 0;
      if ok {
        sent, room := sent + [mcu], room - 1;
      }
    }

    /** Goes on with the current interleaved row, until it is complete or the entropy coder has no room. */
    method CompressOutput() returns (done: bool)
      requires Valid() && iMcuRow < IMcuRows(image)
      modifies this, dummyBuffer
      ensures Valid() && |sent| - old(|sent|) == old(room) - room
      ensures done ==> iMcuRow == old(iMcuRow) + 1 && mcuCtr == 0 == mcuVertOffset
      ensures !done ==> iMcuRow == old(iMcuRow) && room == 0
      ensures iMcuRow == IMcuRows(image) ==> sent == WholeScan(image, scan)
    {
      hide McuAt, McuRow, McusPerRow, Delivered, RowsPerIMcuRow, IMcuRows, WholeScan, GoodImage, GoodScan;
      SomeMcus(image, scan);
      var yoffset := mcuVertOffset;
      while yoffset < rowsPerIMcuRow
        invariant yoffset <= rowsPerIMcuRow && Shape() && iMcuRow == old(iMcuRow) && AllFlat()
        invariant 0 <= mcuCtr < McusPerRow(image, scan) && (yoffset == rowsPerIMcuRow ==> mcuCtr == 0)
        invariant Delivered(image, scan, iMcuRow, yoffset, mcuCtr, sent) && |sent| - old(|sent|) == old(room) - room
        decreases rowsPerIMcuRow - yoffset
      {
        var col, rows := mcuCtr, rowsPerIMcuRow;
        while col < McusPerRow(image, scan)
          invariant col <= McusPerRow(image, scan) && Shape() && iMcuRow == old(iMcuRow) && rowsPerIMcuRow == rows && AllFlat()
          invariant Delivered(image, scan, iMcuRow, yoffset, col, sent) && |sent| - old(|sent|) == old(room) - room
        {
          ghost var before := sent;
          var mcu := BuildMcu(yoffset, col);
          var ok := EncodeMcu(mcu);
          if !ok {
            mcuVertOffset, mcuCtr := yoffset, col;
            return false;
          }
          DeliveredNext(image, scan, iMcuRow, yoffset, col, before, mcu);
          col := col + 1;
        }
        DeliveredRow(image, scan, iMcuRow, yoffset, sent);
        mcuCtr := 0;
        yoffset := yoffset + 1;
      }
      DeliveredIMcuRow(image, scan, iMcuRow, sent);
      iMcuRow := iMcuRow + 1;
      StartIMcuRow();
      return true;
    }
  }
}
