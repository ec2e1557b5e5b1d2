/** The dimensions of an image and of a scan, worked out as the master controller does before the passes. */
module ScanSetup {
  import opened McuLayout
  import opened BlockPlaces

  const JPEG_MAX_DIMENSION := 65500
  const MAX_COMPONENTS := 10
  const MAX_SAMP_FACTOR := 4
  const MAX_COMPS_IN_SCAN := 4

  function Copies(i: nat, n: nat): (r: seq<nat>)
    ensures |r| == n && forall j :: 0 <= j < n ==> r[j] == i
  {
    seq(n, _ => i)
  }

  /** For every block of an MCU, which component of the scan it belongs to. */
  function MembershipOf(m: Image, scan: seq<nat>, k: nat): (r: seq<nat>)
    requires k <= |scan| && forall i :: 0 <= i < |scan| ==> scan[i] < |m.comps|
    ensures |r| == BlocksInMcu(m, scan, k) && forall i :: 0 <= i < |r| ==> r[i] < k
  {
    if k == 0 then []
    else
      var n := Times(McuWidth(m, scan, scan[k - 1]), McuHeight(m, scan, scan[k - 1]));
      MembershipOf(m, scan, k - 1) + Copies(k - 1, n)
  }

  /** The blocks from the first one of component i on, up to the first one of the next component, belong to i. */
  lemma {:induction false} MembershipIs(m: Image, scan: seq<nat>, k: nat, i: nat, b: nat)
    requires i < k <= |scan| && forall j :: 0 <= j < |scan| ==> scan[j] < |m.comps|
    requires BlocksInMcu(m, scan, i) <= b < BlocksInMcu(m, scan, i + 1)
    ensures b < BlocksInMcu(m, scan, k) && MembershipOf(m, scan, k)[b] == i
    decreases k
  {
    hide McuWidth, McuHeight, Times;
    if i < k - 1 {
      MembershipIs(m, scan, k - 1, i, b);
    }
  }

  /**
   * The place in the MCU where a decoder finds a block of component number i of the scan belongs to i, whether the
   * block is inside the image or a dummy block beyond its edges.
   */
  lemma SpotBelongs(m: Image, scan: seq<nat>, i: nat, row: nat, col: nat)
    requires GoodImage(m) && GoodScan(m, scan) && i < |scan|
    ensures var b := SpotOf(m, scan, i, row, col).1;
      b < BlocksInMcu(m, scan, |scan|) && MembershipOf(m, scan, |scan|)[b] == i
  {
    hide BlocksInMcu, Times;
    var w, h := McuWidth(m, scan, scan[i]), McuHeight(m, scan, scan[i]);
    Increasing(w, row % h, h, col % w);
    PartGrows(m, scan, i);
    MembershipIs(m, scan, |scan|, i, SpotOf(m, scan, i, row, col).1);
  }

  lemma PartGrows(m: Image, scan: seq<nat>, i: nat)
    requires i < |scan| && forall j :: 0 <= j < |scan| ==> scan[j] < |m.comps|
    ensures BlocksInMcu(m, scan, i + 1) == BlocksInMcu(m, scan, i) + Times(McuWidth(m, scan, scan[i]), McuHeight(m, scan, scan[i]))
  {
  }

  /** What the setup of a scan stores for one of its components. */
  datatype Shape = Shape(mcuWidth: nat, mcuHeight: nat, mcuBlocks: nat, lastColWidth: nat, lastRowHeight: nat)

  ghost predicate ShapeOf(m: Image, scan: seq<nat>, c: nat, s: Shape)
    requires GoodImage(m) && c < |m.comps|
  {
    && s.mcuWidth == McuWidth(m, scan, c) && s.mcuHeight == McuHeight(m, scan, c)
    && s.mcuBlocks == Times(s.mcuWidth, s.mcuHeight)
    && s.lastColWidth == (if |scan| == 1 then 1 else LastOf(WidthInBlocks(m, c), m.comps[c].h))
    && s.lastRowHeight == LastRowHeight(m, c)
  }

  class Setup {
    const image: Image
    var maxH: nat
    var maxV: nat
    var widthInBlocks: seq<nat>
    var heightInBlocks: seq<nat>
    var totalIMcuRows: nat

    var mcusPerRow: nat
    var mcuRowsInScan: nat
    var shapes: seq<Shape>
    var blocksInMcu: nat
    const mcuMembership: array<nat>
    var restartInterval: nat

    constructor (image: Image)
      ensures this.image == image && fresh(mcuMembership) && mcuMembership.Length == MAX_BLOCKS_IN_MCU
    {
      this.image := image;
      mcuMembership := new nat[MAX_BLOCKS_IN_MCU](_ => 0);
    }

    /** The image's dimensions are known. */
    ghost predicate Ready()
      reads `maxH, `maxV, `widthInBlocks, `heightInBlocks, `totalIMcuRows
    {
      && GoodImage(image) && mcuMembership.Length == MAX_BLOCKS_IN_MCU
      && LargestH(image.comps, maxH) && LargestV(image.comps, maxV)
      && |widthInBlocks| == |heightInBlocks| == |image.comps|
      && (forall c :: 0 <= c < |image.comps| ==>
            widthInBlocks[c] == WidthInBlocks(image, c) && heightInBlocks[c] == HeightInBlocks(image, c))
      && totalIMcuRows == IMcuRows(image)
    }

    /** Checks the image and computes its dimensions. */
    method InitialSetup() returns (ok: bool)
      requires mcuMembership.Length == MAX_BLOCKS_IN_MCU
      modifies this
      ensures ok <==>
        GoodImage(image) && image.width <= JPEG_MAX_DIMENSION && image.height <= JPEG_MAX_DIMENSION && |image.comps| <= MAX_COMPONENTS
      ensures ok ==> Ready()
    {
      hide LargestH, LargestV, WidthInBlocks, HeightInBlocks, IMcuRows;
      if image.height <= 0 || image.width <= 0 || |image.comps| <= 0 || image.height > JPEG_MAX_DIMENSION
         || image.width > JPEG_MAX_DIMENSION || |image.comps| > MAX_COMPONENTS {
        return false;
      }
      ok := SamplingFactors();
      if ok {
        Dimensions();
      }
    }

    /** Checks the sampling factors and finds the largest ones. */
    method SamplingFactors() returns (ok: bool)
      requires image.comps != []
      modifies this`maxH, this`maxV
      ensures ok <==> forall c :: 0 <= c < |image.comps| ==> 1 <= image.comps[c].h <= 4 && 1 <= image.comps[c].v <= 4
      ensures ok ==> LargestH(image.comps, maxH) && LargestV(image.comps, maxV)
    {
      hide LargestH, LargestV;
      var comps := image.comps;
      maxH, maxV := 1, 1;
      var ci := 0;
      while ci < |comps|
        invariant ci <= |comps|
        invariant forall c :: 0 <= c < ci ==> 1 <= comps[c].h <= MAX_SAMP_FACTOR && 1 <= comps[c].v <= MAX_SAMP_FACTOR
        invariant if ci == 0 then maxH == 1 == maxV else LargestH(comps[..ci], maxH) && LargestV(comps[..ci], maxV)
      {
        if comps[ci].h <= 0 || comps[ci].h > MAX_SAMP_FACTOR || comps[ci].v <= 0 || comps[ci].v > MAX_SAMP_FACTOR {
          return false;
        }
        ghost var h, v := maxH, maxV;
        maxH := if maxH < comps[ci].h then comps[ci].h else maxH;
        maxV := if maxV < comps[ci].v then comps[ci].v else maxV;
        Larger(comps, ci, h, v, maxH, maxV);
        ci := ci + 1;
      }
      assert comps[..ci] == comps;
      ok := true;
    }

    /** The sizes of the components in blocks, and the height of the image in interleaved MCUs. */
    method Dimensions()
      requires GoodImage(image) && mcuMembership.Length == MAX_BLOCKS_IN_MCU
      requires LargestH(image.comps, maxH) && LargestV(image.comps, maxV)
      modifies this`widthInBlocks, this`heightInBlocks, this`totalIMcuRows
      ensures Ready()
    {
      hide LargestH, LargestV, CeilDiv, MaxH, MaxV;
      var m := image;
      LargestAre(m, maxH, maxV);
      widthInBlocks, heightInBlocks := [], [];
      var ci := 0;
      while ci < |m.comps|
        invariant ci <= |m.comps| && |widthInBlocks| == |heightInBlocks| == ci
        invariant forall c :: 0 <= c < ci ==> widthInBlocks[c] == WidthInBlocks(m, c) && heightInBlocks[c] == HeightInBlocks(m, c)
      {
        widthInBlocks := widthInBlocks + [CeilDiv(m.width * m.comps[ci].h, maxH * DCTSIZE)];
        heightInBlocks := heightInBlocks + [CeilDiv(m.height * m.comps[ci].v, maxV * DCTSIZE)];
        ci := ci + 1;
      }
      totalIMcuRows := CeilDiv(m.height, maxV * DCTSIZE);
    }

    /** Checks a scan and computes its dimensions; the restart interval may be given in MCU rows. */
    method PerScanSetup(scan: seq<nat>, restartInRows: nat) returns (ok: bool)
      requires Ready() && forall i :: 0 <= i < |scan| ==> scan[i] < |image.comps|
      modifies this`mcusPerRow, this`mcuRowsInScan, this`shapes, this`blocksInMcu, this`restartInterval, mcuMembership
      ensures Ready() && (ok <==> GoodScan(image, scan))
      ensures ok ==> mcusPerRow == McusPerRow(image, scan) && mcuRowsInScan == McuRowsInScan(image, scan)
      ensures ok ==> |shapes| == |scan| && forall i :: 0 <= i < |scan| ==> ShapeOf(image, scan, scan[i], shapes[i])
      ensures ok ==> blocksInMcu == BlocksInMcu(image, scan, |scan|) <= MAX_BLOCKS_IN_MCU
                     && mcuMembership[..blocksInMcu] == MembershipOf(image, scan, |scan|)
      ensures ok ==>
        restartInterval == if restartInRows == 0 then old(restartInterval)
                           else if restartInRows * McusPerRow(image, scan) < 65535 then restartInRows * McusPerRow(image, scan) else 65535
    {
      hide WidthInBlocks, HeightInBlocks, McusAcross, IMcuRows, LargestH, LargestV, BlocksInMcu, MembershipOf;
      if |scan| == 1 {
        SetupAlone(scan);
      } else {
        if |scan| <= 0 || |scan| > MAX_COMPS_IN_SCAN {
          return false;
        }
        ok := SetupInterleaved(scan);
        if !ok {
          return;
        }
      }
      ok := true;
      if restartInRows > 0 {
        var nominal := restartInRows * mcusPerRow;
        restartInterval := if nominal < 65535 then nominal else 65535;
      }
    }

    /** A scan of one component: its MCUs are its blocks. */
    method SetupAlone(scan: seq<nat>)
      requires Ready() && |scan| == 1 && scan[0] < |image.comps|
      modifies this`mcusPerRow, this`mcuRowsInScan, this`shapes, this`blocksInMcu, mcuMembership
      ensures Ready() && GoodScan(image, scan)
      ensures mcusPerRow == McusPerRow(image, scan) && mcuRowsInScan == McuRowsInScan(image, scan)
      ensures |shapes| == 1 && ShapeOf(image, scan, scan[0], shapes[0])
      ensures blocksInMcu == BlocksInMcu(image, scan, 1) == 1 && mcuMembership[..blocksInMcu] == MembershipOf(image, scan, 1)
    {
      hide WidthInBlocks, HeightInBlocks, McusAcross, IMcuRows, LargestH, LargestV;
      var c := scan[0];
      mcusPerRow, mcuRowsInScan := widthInBlocks[c], heightInBlocks[c];
      var tmp := heightInBlocks[c] % image.comps[c].v;
      shapes := [Shape(1, 1, 1, 1, if tmp == 0 then image.comps[c].v else tmp)];
      blocksInMcu, mcuMembership[0] := 1, 0;
      OneMember(image, scan);
      assert mcuMembership[..1] == [0];
    }

    /** A scan of several components, whose MCUs have the blocks of the components' sampling factors. */
    method SetupInterleaved(scan: seq<nat>) returns (ok: bool)
      requires Ready() && 1 < |scan| <= MAX_COMPS_IN_SCAN && forall i :: 0 <= i < |scan| ==> scan[i] < |image.comps|
      modifies this`mcusPerRow, this`mcuRowsInScan, this`shapes, this`blocksInMcu, mcuMembership
      ensures Ready() && (ok <==> GoodScan(image, scan))
      ensures ok ==> mcusPerRow == McusPerRow(image, scan) && mcuRowsInScan == McuRowsInScan(image, scan)
      ensures ok ==> |shapes| == |scan| && forall i :: 0 <= i < |scan| ==> ShapeOf(image, scan, scan[i], shapes[i])
      ensures ok ==> blocksInMcu == BlocksInMcu(image, scan, |scan|) <= MAX_BLOCKS_IN_MCU
                     && mcuMembership[..blocksInMcu] == MembershipOf(image, scan, |scan|)
    {
      hide WidthInBlocks, HeightInBlocks, IMcuRows, McusAcross, MembershipOf, BlocksInMcu, ShapeOf, Ready;
      ReadyFacts();
      mcusPerRow, mcuRowsInScan := ImageInMcus();
      blocksInMcu, shapes := 0, [];
      NoMembers(image, scan);
      var ci := 0;
      while ci < |scan|
        invariant ci <= |scan| && |shapes| == ci
        invariant forall i :: 0 <= i < ci ==> ShapeOf(image, scan, scan[i], shapes[i])
        invariant blocksInMcu == BlocksInMcu(image, scan, ci) <= MAX_BLOCKS_IN_MCU
        invariant mcuMembership[..blocksInMcu] == MembershipOf(image, scan, ci)
        modifies this`shapes, this`blocksInMcu, mcuMembership
      {
        var shape := InterleavedShape(scan, scan[ci]);
        shapes := shapes + [shape];
        NextMembers(image, scan, ci);
        if blocksInMcu + shape.mcuBlocks > MAX_BLOCKS_IN_MCU {
          MorePart(image, scan, ci + 1, |scan|);
          return false;
        }
        Join(ci, shape.mcuBlocks);
        ci := ci + 1;
      }
      ok := true;
    }

    lemma ReadyFacts()
      requires Ready()
      ensures GoodImage(image) && mcuMembership.Length == MAX_BLOCKS_IN_MCU
    {
    }

    method ImageInMcus() returns (across: nat, rows: nat)
      requires Ready()
      ensures across == McusAcross(image) && rows == IMcuRows(image)
    {
      hide WidthInBlocks, HeightInBlocks, LargestH, LargestV, CeilDiv, MaxH, MaxV;
      LargestAre(image, maxH, maxV);
      across := CeilDiv(image.width, maxH * DCTSIZE);
      rows := CeilDiv(image.height, maxV * DCTSIZE);
    }

    method InterleavedShape(scan: seq<nat>, c: nat) returns (s: Shape)
      requires Ready() && |scan| > 1 && c < |image.comps|
      ensures ShapeOf(image, scan, c, s) && s.mcuBlocks == image.comps[c].h * image.comps[c].v
    {
      hide WidthInBlocks, HeightInBlocks, IMcuRows, LargestH, LargestV;
      var w, h := image.comps[c].h, image.comps[c].v;
      var lastCol, lastRow := widthInBlocks[c] % w, heightInBlocks[c] % h;
      s := Shape(w, h, w * h, if lastCol == 0 then w else lastCol, if lastRow == 0 then h else lastRow);
    }

    /** n more blocks that belong to component number ci of the scan. */
    method Join(ci: nat, n: nat)
      requires blocksInMcu + n <= mcuMembership.Length
      modifies this`blocksInMcu, mcuMembership
      ensures blocksInMcu == old(blocksInMcu) + n
      ensures mcuMembership[..blocksInMcu] == old(mcuMembership[..blocksInMcu]) + Copies(ci, n)
    {
      var mcublks := n;
      while mcublks > 0
        invariant 0 <= mcublks <= n && blocksInMcu == old(blocksInMcu) + (n - mcublks) <= mcuMembership.Length
        invariant mcuMembership[..blocksInMcu] == old(mcuMembership[..blocksInMcu]) + Copies(ci, n - mcublks)
      {
        mcuMembership[blocksInMcu] := ci;
        blocksInMcu := blocksInMcu + 1;
        mcublks := mcublks - 1;
      }
    }
  }

  lemma Larger(comps: seq<Sampling>, n: nat, h: nat, v: nat, h': nat, v': nat)
    requires n < |comps| && 1 <= comps[n].h && 1 <= comps[n].v
    requires if n == 0 then h == 1 == v else LargestH(comps[..n], h) && LargestV(comps[..n], v)
    requires h' == if h < comps[n].h then comps[n].h else h
    requires v' == if v < comps[n].v then comps[n].v else v
    ensures LargestH(comps[..n + 1], h') && LargestV(comps[..n + 1], v')
  {
    var more := comps[..n + 1];
    assert more[n] == comps[n] && forall i :: 0 <= i < n ==> more[i] == comps[..n][i];
    if n > 0 {
      var i :| 0 <= i < n && comps[..n][i].h == h;
      var j :| 0 <= j < n && comps[..n][j].v == v;
      assert more[i].h == h && more[j].v == v;
    }
  }

  lemma OneMember(m: Image, scan: seq<nat>)
    requires |scan| == 1 && scan[0] < |m.comps|
    ensures BlocksInMcu(m, scan, 1) == 1 && MembershipOf(m, scan, 1) == [0]
  {
  }

  lemma NoMembers(m: Image, scan: seq<nat>)
    requires forall i :: 0 <= i < |scan| ==> scan[i] < |m.comps|
    ensures BlocksInMcu(m, scan, 0) == 0 && MembershipOf(m, scan, 0) == []
  {
  }

  lemma NextMembers(m: Image, scan: seq<nat>, ci: nat)
    requires ci < |scan| && |scan| > 1 && forall i :: 0 <= i < |scan| ==> scan[i] < |m.comps|
    ensures var n := m.comps[scan[ci]].h * m.comps[scan[ci]].v;
      && BlocksInMcu(m, scan, ci + 1) == BlocksInMcu(m, scan, ci) + n
      && MembershipOf(m, scan, ci + 1) == MembershipOf(m, scan, ci) + Copies(ci, n)
  {
  }

  lemma {:induction false} MorePart(m: Image, scan: seq<nat>, j: nat, k: nat)
    requires j <= k <= |scan| && forall i :: 0 <= i < |scan| ==> scan[i] < |m.comps|
    ensures BlocksInMcu(m, scan, j) <= BlocksInMcu(m, scan, k)
    decreases k
  {
    if j < k {
      MorePart(m, scan, j, k - 1);
    }
  }
}
