/**
 * The scans of a progressive script as the coefficient controllers deliver them: their MCUs, dummy blocks included,
 * hold every block of the image where the decoder looks for it.
 */
module ScriptLayout {
  import opened Bytes
  import opened ZigZag
  import opened HuffmanItems
  import opened ProgressiveBands
  import opened ProgressiveScan
  import opened BlockPlaces
  import opened ScanSetup
  import Layout = McuLayout
  import Decoding = ScriptDecoding
  import Progressive = ProgressiveEncoder
  import HuffmanScan
  import SimpleProgression
  import Script = ScanScript
  import Transmission = ProgressiveTransmission

  /** The components of a scan. */
  function ComponentsOf(s: Script.ScanInfo): (r: seq<nat>)
    requires forall i :: 0 <= i < |s.comps| ==> s.comps[i] >= 0
    ensures |r| == |s.comps| && forall i :: 0 <= i < |r| ==> r[i] == s.comps[i]
  {
    seq(|s.comps|, i requires 0 <= i < |s.comps| => s.comps[i])
  }

  /** The number of blocks of a component. */
  function Blocks(m: Layout.Image, c: nat): nat
    requires c < |m.comps|
  {
    Layout.Times(Layout.HeightInBlocks(m, c), Layout.WidthInBlocks(m, c))
  }

  /** The row and column of block i of a component, counted row by row. */
  function RowOf(m: Layout.Image, c: nat, i: nat): nat
    requires c < |m.comps|
  {
    if Layout.WidthInBlocks(m, c) == 0 then 0 else Group(i, Layout.WidthInBlocks(m, c))
  }

  function ColumnOf(m: Layout.Image, c: nat, i: nat): nat
    requires c < |m.comps|
  {
    if Layout.WidthInBlocks(m, c) == 0 then 0 else i % Layout.WidthInBlocks(m, c)
  }

  lemma RowAndColumn(m: Layout.Image, c: nat, i: nat)
    requires c < |m.comps| && i < Blocks(m, c)
    ensures Layout.WidthInBlocks(m, c) > 0
    ensures RowOf(m, c, i) < Layout.HeightInBlocks(m, c) && ColumnOf(m, c, i) < Layout.WidthInBlocks(m, c)
    ensures Layout.Times(RowOf(m, c, i), Layout.WidthInBlocks(m, c)) + ColumnOf(m, c, i) == i
  {
    hide Layout.WidthInBlocks, Layout.HeightInBlocks;
    var h, w := Layout.HeightInBlocks(m, c), Layout.WidthInBlocks(m, c);
    if w > 0 {
      Grouped(i, w);
      if RowOf(m, c, i) >= h {
        Layout.MulMono(h, RowOf(m, c, i), w);
      }
    }
  }

  /** Block i of a component, in zigzag order. */
  function BlockAt(m: Layout.Image, c: nat, i: nat, order: Order): Block
    requires c < |m.comps|
  {
    Reordered(m.dct(c, RowOf(m, c, i), ColumnOf(m, c, i)), order)
  }

  /** The blocks of a component, row by row. */
  function ComponentBlocks(m: Layout.Image, c: nat, order: Order): (xs: seq<Block>)
    requires c < |m.comps|
    ensures |xs| == Blocks(m, c) && forall i :: 0 <= i < |xs| ==> xs[i] == BlockAt(m, c, i, order)
  {
    seq(Blocks(m, c), i requires 0 <= i < Blocks(m, c) => BlockAt(m, c, i, order))
  }

  function BlocksOf(m: Layout.Image, order: Order): (image: Decoding.Image)
    ensures |image| == |m.comps| && forall c :: 0 <= c < |image| ==> image[c] == ComponentBlocks(m, c, order)
  {
    seq(|m.comps|, c requires 0 <= c < |m.comps| => ComponentBlocks(m, c, order))
  }

  /** The image has the DCT block of every row and column of a component, row by row, and no others. */
  lemma EveryBlockListed(m: Layout.Image, c: nat, row: nat, col: nat, order: Order)
    requires c < |m.comps| && row < Layout.HeightInBlocks(m, c) && col < Layout.WidthInBlocks(m, c)
    ensures |BlocksOf(m, order)[c]| == Layout.HeightInBlocks(m, c) * Layout.WidthInBlocks(m, c)
    ensures row * Layout.WidthInBlocks(m, c) + col < |BlocksOf(m, order)[c]|
    ensures BlocksOf(m, order)[c][row * Layout.WidthInBlocks(m, c) + col] == Reordered(m.dct(c, row, col), order)
  {
    hide Layout.WidthInBlocks, Layout.HeightInBlocks, Reordered;
    var h, w := Layout.HeightInBlocks(m, c), Layout.WidthInBlocks(m, c);
    Layout.MulMono(row + 1, h, w);
    Layout.MulNext(row, w);
    RowAndColumn(m, c, row * w + col);
    OneRow(RowOf(m, c, row * w + col), ColumnOf(m, c, row * w + col), row, col, w);
  }

  lemma OneRow(q: nat, r: nat, row: nat, col: nat, w: nat)
    requires r < w && col < w && Layout.Times(q, w) + r == row * w + col
    ensures q == row && r == col
  {
    if q < row {
      Layout.MulMono(q + 1, row, w);
      Layout.MulNext(q, w);
    } else if row < q {
      Layout.MulMono(row + 1, q, w);
      Layout.MulNext(row, w);
    }
  }

  /** The place of a component in a scan. */
  function IndexIn(scan: seq<nat>, c: nat): (i: nat)
    ensures c in scan ==> i < |scan| && scan[i] == c
  {
    if scan == [] then 0 else if scan[0] == c then 0 else 1 + IndexIn(scan[1..], c)
  }

  /** Where the blocks of a component of a scan are. */
  function ComponentSpots(m: Layout.Image, scan: seq<nat>, c: nat): (spots: seq<(nat, nat)>)
    requires Layout.GoodImage(m) && Layout.GoodScan(m, scan) && c < |m.comps|
    ensures |spots| == Blocks(m, c)
    ensures c in scan ==> forall i :: 0 <= i < |spots| ==>
      spots[i] == SpotOf(m, scan, IndexIn(scan, c), RowOf(m, c, i), ColumnOf(m, c, i))
  {
    if c in scan then
      seq(Blocks(m, c), i requires 0 <= i < Blocks(m, c) => SpotOf(m, scan, IndexIn(scan, c), RowOf(m, c, i), ColumnOf(m, c, i)))
    else seq(Blocks(m, c), _ => (0, 0))
  }

  function SpotsOf(m: Layout.Image, scan: seq<nat>): (spots: seq<seq<(nat, nat)>>)
    requires Layout.GoodImage(m) && Layout.GoodScan(m, scan)
    ensures |spots| == |m.comps| && forall c :: 0 <= c < |spots| ==> spots[c] == ComponentSpots(m, scan, c)
  {
    seq(|m.comps|, c requires 0 <= c < |m.comps| => ComponentSpots(m, scan, c))
  }

  /** The scan can be coded: its components have tables, and its MCUs are not too large. */
  predicate Scannable(m: Layout.Image, s: Script.ScanInfo, tables: seq<HuffmanScan.Component>, precision: nat) {
    && Layout.GoodImage(m) && Script.ComponentsOk(s, |m.comps|) && Script.BandOk(s, precision)
    && Layout.GoodScan(m, ComponentsOf(s)) && |tables| == |m.comps|
    && forall c :: 0 <= c < |tables| ==> tables[c].dcTbl < 4 && tables[c].acTbl < 4
  }

  function PlanOf(m: Layout.Image, s: Script.ScanInfo, tables: seq<HuffmanScan.Component>, interval: nat, precision: nat): Decoding.Plan
    requires Scannable(m, s, tables, precision)
  {
    var scan := ComponentsOf(s);
    var comps := seq(|scan|, i requires 0 <= i < |scan| => tables[scan[i]]);
    Decoding.Plan(ProgScan(Decoding.KindOf(s), comps, MembershipOf(m, scan, |scan|), interval),
                  |Layout.WholeScan(m, scan)|, SpotsOf(m, scan))
  }

  /**
   * Wherever a decoder looks for a block of a component of the scan, inside the image or beyond its edges, the block
   * belongs to that component and is coded with the component's own tables.
   */
  lemma SpotTables(m: Layout.Image, s: Script.ScanInfo, tables: seq<HuffmanScan.Component>, interval: nat, precision: nat,
                   i: nat, row: nat, col: nat)
    requires Scannable(m, s, tables, precision) && i < |s.comps|
    ensures var p, b := PlanOf(m, s, tables, interval, precision), SpotOf(m, ComponentsOf(s), i, row, col).1;
      b < |p.scan.membership| && p.scan.membership[b] == i < |p.scan.comps| && p.scan.comps[i] == tables[s.comps[i]]
  {
    hide SpotOf, MembershipOf, Layout.WholeScan, Layout.GoodScan, Layout.GoodImage;
    SpotBelongs(m, ComponentsOf(s), i, row, col);
  }

  /** What the controller delivers for the scan. */
  function JobOf(m: Layout.Image, s: Script.ScanInfo, tables: seq<HuffmanScan.Component>, interval: nat, precision: nat): Transmission.Job
    requires Scannable(m, s, tables, precision)
  {
    Transmission.Job(PlanOf(m, s, tables, interval, precision), Layout.WholeScan(m, ComponentsOf(s)))
  }

  // Every MCU is whole.

  /** All MCUs have all their blocks. */
  lemma {:induction false} McusWhole(m: Layout.Image, scan: seq<nat>, r: nat, col: nat)
    requires Layout.GoodImage(m) && Layout.GoodScan(m, scan)
    ensures forall j :: 0 <= j < |Layout.Reference(m, scan, r, col)| ==>
      |Layout.Reference(m, scan, r, col)[j]| == Layout.BlocksInMcu(m, scan, |scan|)
    decreases r, col
  {
    hide Layout.McuPart, Layout.McusPerRow, Layout.GoodScan;
    if col > 0 {
      McusWhole(m, scan, r, col - 1);
      Layout.McuPartSize(m, scan, r, col - 1, |scan|);
    } else if r > 0 {
      McusWhole(m, scan, r - 1, Layout.McusPerRow(m, scan));
    }
  }

  /** A scan of one component is its blocks, row by row. */
  lemma AloneInPlace(m: Layout.Image, c: nat, i: nat)
    requires Layout.GoodImage(m) && c < |m.comps| && Layout.GoodScan(m, [c])
    ensures |Layout.WholeScan(m, [c])| == Blocks(m, c)
    ensures i < Blocks(m, c) ==> Layout.WholeScan(m, [c])[i] == [m.dct(c, RowOf(m, c, i), ColumnOf(m, c, i))]
  {
    hide Layout.WidthInBlocks, Layout.HeightInBlocks, Layout.Reference, RowOf, ColumnOf;
    Layout.ReferenceSize(m, [c], Layout.McuRowsInScan(m, [c]), 0);
    if i < Blocks(m, c) {
      RowAndColumn(m, c, i);
      EveryBlockPlaced(m, [c], 0, RowOf(m, c, i), ColumnOf(m, c, i));
      McusWhole(m, [c], Layout.McuRowsInScan(m, [c]), 0);
      OneBlock(m, c);
    }
  }

  lemma OneBlock(m: Layout.Image, c: nat)
    requires c < |m.comps|
    ensures Layout.BlocksInMcu(m, [c], 0) == 0 && Layout.BlocksInMcu(m, [c], 1) == 1
  {
  }

  // Sixteen-bit coefficients.

  ghost predicate All16(xs: seq<Block>) { forall i :: 0 <= i < |xs| ==> Progressive.Is16(xs[i]) }

  /** The DCT delivers sixteen-bit coefficients. */
  ghost predicate Dct16(m: Layout.Image) { forall c, row, col :: Progressive.Is16(m.dct(c, row, col)) }

  lemma {:induction false} Padded16(m: Layout.Image, c: nat, row: nat, col: nat)
    requires Layout.GoodImage(m) && c < |m.comps| && Dct16(m)
    ensures Progressive.Is16(Layout.Padded(m, c, row, col))
    decreases row, col
  {
    var h := m.comps[c].h;
    if row < Layout.HeightInBlocks(m, c) {
      if col >= Layout.WidthInBlocks(m, c) && col > 0 {
        Padded16(m, c, row, col - 1);
      }
    } else if row > 0 {
      Padded16(m, c, row - 1, col / h * h + h - 1);
    }
  }

  lemma {:induction false} Row16(acc: seq<Block>, m: Layout.Image, c: nat, row: nat, col: nat, n: nat)
    requires Layout.GoodImage(m) && c < |m.comps| && Dct16(m) && All16(acc)
    ensures All16(Layout.AddRow(acc, m, c, row, col, n))
    decreases n
  {
    hide Layout.Padded, Progressive.Is16, Dct16;
    if n > 0 {
      Row16(acc, m, c, row, col, n - 1);
      Padded16(m, c, row, col + n - 1);
    }
  }

  lemma {:induction false} Rows16(acc: seq<Block>, m: Layout.Image, c: nat, row: nat, col: nat, n: nat, w: nat)
    requires Layout.GoodImage(m) && c < |m.comps| && Dct16(m) && All16(acc)
    ensures All16(Layout.AddRows(acc, m, c, row, col, n, w))
    decreases n
  {
    hide All16, Dct16, Layout.AddRow;
    if n > 0 {
      Rows16(acc, m, c, row, col, n - 1, w);
      Row16(Layout.AddRows(acc, m, c, row, col, n - 1, w), m, c, row + n - 1, col, w);
    }
  }

  lemma {:induction false} Mcu16(m: Layout.Image, scan: seq<nat>, r: nat, col: nat, k: nat)
    requires Layout.GoodImage(m) && Layout.GoodScan(m, scan) && k <= |scan| && Dct16(m)
    ensures All16(Layout.McuPart(m, scan, r, col, k))
    decreases k
  {
    hide Dct16, Layout.AddRows, Layout.McuWidth, Layout.McuHeight, Layout.Times, Progressive.Is16;
    if k > 0 {
      var c := scan[k - 1];
      var w, h := Layout.McuWidth(m, scan, c), Layout.McuHeight(m, scan, c);
      Mcu16(m, scan, r, col, k - 1);
      Rows16(Layout.McuPart(m, scan, r, col, k - 1), m, c, Layout.Times(r, h), Layout.Times(col, w), h, w);
    }
  }

  lemma {:induction false} Mcus16(m: Layout.Image, scan: seq<nat>, r: nat, col: nat)
    requires Layout.GoodImage(m) && Layout.GoodScan(m, scan) && Dct16(m)
    ensures forall j :: 0 <= j < |Layout.Reference(m, scan, r, col)| ==> All16(Layout.Reference(m, scan, r, col)[j])
    decreases r, col
  {
    hide Dct16, All16, Layout.McuPart, Layout.McusPerRow, Layout.GoodScan;
    if col > 0 {
      Mcus16(m, scan, r, col - 1);
      Mcu16(m, scan, r, col - 1, |scan|);
    } else if r > 0 {
      Mcus16(m, scan, r - 1, Layout.McusPerRow(m, scan));
    }
  }

  // The jobs of a script.

  lemma SpotsInPlace(m: Layout.Image, scan: seq<nat>, order: Order, c: nat, i: nat)
    requires Layout.GoodImage(m) && Layout.GoodScan(m, scan) && c in scan && c < |m.comps| && i < Blocks(m, c)
    ensures Decoding.Spotted(ReorderedMcus(Layout.WholeScan(m, scan), order), ComponentSpots(m, scan, c)[i], BlockAt(m, c, i, order))
  {
    hide Layout.WidthInBlocks, Layout.HeightInBlocks, Layout.WholeScan, RowOf, ColumnOf, SpotOf, Layout.GoodScan, Blocks, Reordered;
    RowAndColumn(m, c, i);
    EveryBlockPlaced(m, scan, IndexIn(scan, c), RowOf(m, c, i), ColumnOf(m, c, i));
  }

  lemma AloneReordered(m: Layout.Image, c: nat, order: Order, i: nat)
    requires Layout.GoodImage(m) && c < |m.comps| && Layout.GoodScan(m, [c])
    ensures |ReorderedMcus(Layout.WholeScan(m, [c]), order)| == Blocks(m, c)
    ensures i < Blocks(m, c) ==> ReorderedMcus(Layout.WholeScan(m, [c]), order)[i] == [BlockAt(m, c, i, order)]
  {
    hide Layout.WholeScan, Layout.GoodScan, Layout.GoodImage, RowOf, ColumnOf, Reordered, Blocks;
    AloneInPlace(m, c, i);
  }

  lemma PlanIsPlanned(m: Layout.Image, s: Script.ScanInfo, tables: seq<HuffmanScan.Component>, interval: nat, order: Order, precision: nat)
    requires Scannable(m, s, tables, precision)
    ensures Decoding.Planned(s, PlanOf(m, s, tables, interval, precision), BlocksOf(m, order), precision)
    ensures s.ss > 0 ==> |MembershipOf(m, ComponentsOf(s), |s.comps|)| == 1
  {
    hide Layout.WholeScan, Layout.GoodScan, Layout.GoodImage, Blocks, BlockAt, Layout.McuWidth, Layout.McuHeight;
    var scan := ComponentsOf(s);
    if s.ss > 0 {
      assert scan == [scan[0]];
      OneBlock(m, scan[0]);
    }
  }

  /** The MCUs the controller delivers for a scan of a script have all blocks of its components in place. */
  lemma JobInPlace(m: Layout.Image, s: Script.ScanInfo, tables: seq<HuffmanScan.Component>, interval: nat, order: Order, precision: nat)
    requires Scannable(m, s, tables, precision)
    ensures var p := PlanOf(m, s, tables, interval, precision);
      Decoding.Planned(s, p, BlocksOf(m, order), precision)
      && Decoding.InPlace(s, p, BlocksOf(m, order), ReorderedMcus(Layout.WholeScan(m, ComponentsOf(s)), order), precision)
  {
    hide Layout.WholeScan, Layout.GoodScan, Layout.GoodImage, SpotOf, Blocks, BlockAt, Decoding.Spotted, MembershipOf, ReorderedMcus,
      Decoding.Planned;
    PlanIsPlanned(m, s, tables, interval, order, precision);
    var p, image, scan := PlanOf(m, s, tables, interval, precision), BlocksOf(m, order), ComponentsOf(s);
    var mcus := ReorderedMcus(Layout.WholeScan(m, scan), order);
    if p.scan.kind.AcBand? {
      var c := scan[0];
      assert scan == [c];
      AloneReordered(m, c, order, 0);
      forall i | 0 <= i < |mcus|
        ensures mcus[i] == [image[c][i]]
      {
        AloneReordered(m, c, order, i);
      }
    } else {
      forall c, i | c in s.comps && 0 <= i < |image[c]|
        ensures Decoding.Spotted(mcus, p.spots[c][i], image[c][i])
      {
        var k :| 0 <= k < |s.comps| && s.comps[k] == c;
        assert scan[k] == c;
        SpotsInPlace(m, scan, order, c, i);
      }
    }
  }

  /** What the controller delivers for a scan of a script is a job for the encoder. */
  lemma ControllerJob(m: Layout.Image, s: Script.ScanInfo, tables: seq<HuffmanScan.Component>, interval: nat, order: Order, precision: nat)
    requires Scannable(m, s, tables, precision) && Dct16(m)
    ensures Transmission.GoodJob(s, JobOf(m, s, tables, interval, precision), order, BlocksOf(m, order), precision)
  {
    hide Decoding.Planned, Decoding.InPlace, Layout.McuPart, Progressive.Is16, Layout.GoodScan, Layout.GoodImage;
    var scan := ComponentsOf(s);
    JobInPlace(m, s, tables, interval, order, precision);
    McusWhole(m, scan, Layout.McuRowsInScan(m, scan), 0);
    Mcus16(m, scan, Layout.McuRowsInScan(m, scan), 0);
  }

  /** The scans of the script can be coded from this image. */
  ghost predicate Codable(m: Layout.Image, script: seq<Script.ScanInfo>, tables: seq<HuffmanScan.Component>, interval: nat,
                          order: Order, precision: nat)
  {
    forall i :: 0 <= i < |script| ==>
      && Scannable(m, script[i], tables, precision)
      && Transmission.JobCountable(JobOf(m, script[i], tables, interval, precision), order)
  }

  /**
   * An image, from the DCT blocks of its components to the bytes of all scans of an accepted script and back: the
   * MCUs of each scan are what the controllers deliver, and every coefficient of every block arrives at the
   * precision of the last scan that sends it; with the standard progression, exactly.
   */
  method TransmitImage(width: nat, order: Order, maxBits: nat, m: Layout.Image, script: seq<Script.ScanInfo>,
                       tables: seq<HuffmanScan.Component>, interval: nat, rest: seq<byte>, precision: nat)
    returns (ok: bool, files: seq<seq<byte>>, received: Decoding.Delivery)
    requires 32 <= width && order[0] == 0 && maxBits <= 14 && Dct16(m)
    requires Script.GoodProgressive(script, |m.comps|, precision) && Codable(m, script, tables, interval, order, precision)
    requires rest == [] || (|rest| >= 2 && rest[0] == 0xFF && (0 < rest[1] < 0xD0 || rest[1] > 0xD7))
    ensures ok ==> received.Delivered? && Decoding.UpTo(script, BlocksOf(m, order), received.image)
    ensures ok && (exists ycc :: script == Script.SimpleScript(|m.comps|, ycc)) && |m.comps| >= 1 ==>
      received == Decoding.Delivered(BlocksOf(m, order))
    ensures !ok ==> exists i :: 0 <= i < |script| && Scannable(m, script[i], tables, precision)
                                && Transmission.Uncodable(JobOf(m, script[i], tables, interval, precision), order, maxBits)
  {
    hide Script.GoodProgressive, Transmission.JobCountable, Transmission.Uncodable, Transmission.GoodJob, Scannable, Decoding.UpTo, JobOf,
      Dct16, BlocksOf, Script.SimpleScript, Script.LastBit;
    var jobs: seq<Transmission.Job> := [];
    var i := 0;
    while i < |script|
      invariant i <= |script| && |jobs| == i
      invariant forall k :: 0 <= k < i ==>
        && jobs[k] == JobOf(m, script[k], tables, interval, precision)
        && Transmission.GoodJob(script[k], jobs[k], order, BlocksOf(m, order), precision)
    {
      ControllerJob(m, script[i], tables, interval, order, precision);
      jobs, i := jobs + [JobOf(m, script[i], tables, interval, precision)], i + 1;
    }
    ok, files, received := Transmission.TransmitScript(width, order, maxBits, script, jobs, rest, BlocksOf(m, order), precision);
    if ycc :| script == Script.SimpleScript(|m.comps|, ycc) && ok && |m.comps| >= 1 {
      SimpleProgression.SimpleAccepted(|m.comps|, ycc, precision);
      Decoding.ExactImage(script, BlocksOf(m, order), received.image);
    }
  }
}
