/**
 * Successive approximation as a whole: a first scan and the refinement scans after it give back every
 * coefficient of a band in full, whatever is in the rest of the blocks.
 */
module Progression {
  import opened Bytes
  import opened BitStrings
  import opened Coefficients
  import opened ZigZag
  import opened HuffmanItems
  import opened SeqHuffman
  import opened ProgressiveBands
  import opened ProgressiveDecoding
  import opened ProgressiveScan

  // Only the band matters.

  predicate SameBand(b: Band, x: Block, y: Block)
    requires GoodBand(b)
  {
    forall i :: b.ss <= i <= b.se ==> x[i] == y[i]
  }

  predicate SameBands(b: Band, xs: seq<Block>, ys: seq<Block>)
    requires GoodBand(b)
  {
    |xs| == |ys| && forall i :: 0 <= i < |xs| ==> SameBand(b, xs[i], ys[i])
  }

  lemma {:induction false} SameCorrections(b: Band, x: Block, y: Block, k: nat)
    requires GoodBand(b) && b.ss <= k && SameBand(b, x, y)
    ensures Corrections(b, x, k) == Corrections(b, y, k)
    decreases b.se + 1 - k
  {
    if k <= b.se {
      SameCorrections(b, x, y, k + 1);
    }
  }

  lemma {:induction false} SameLastNew(b: Band, x: Block, y: Block, k: nat)
    requires GoodBand(b) && b.ss - 1 <= k <= b.se && SameBand(b, x, y)
    ensures LastNew(b, x, k) == LastNew(b, y, k)
    decreases k
  {
    if k >= b.ss {
      SameLastNew(b, x, y, k - 1);
    }
  }

  lemma {:induction false} SameSymbols(t: TableId, b: Band, x: Block, y: Block, k: nat, r: nat, br: seq<bit>, eob: nat, rest: Items)
    requires GoodBand(b) && b.ss <= k && eob <= b.se && SameBand(b, x, y)
    ensures BlockSymbols(t, b, x, k, r, br, eob, rest) == BlockSymbols(t, b, y, k, r, br, eob, rest)
    decreases if k <= eob then eob + 1 - k else 0, r
  {
    if k > eob {
    } else if x[k] == 0 {
      SameSymbols(t, b, x, y, k + 1, r + 1, br, eob, rest);
    } else if r > 15 {
      SameSymbols(t, b, x, y, k, r - 16, [], eob, rest);
    } else if IsNew(b, x[k]) {
      SameSymbols(t, b, x, y, k + 1, 0, [], eob, rest);
    } else {
      SameSymbols(t, b, x, y, k + 1, r, br + [Correction(x[k])], eob, rest);
    }
  }

  lemma SameStep(t: TableId, b: Band, p: Pending, x: Block, y: Block, rest: Items)
    requires GoodBand(b) && SameBand(b, x, y)
    ensures BlockStep(t, b, p, x, rest) == BlockStep(t, b, p, y, rest) && NextPending(b, p, x) == NextPending(b, p, y)
  {
    SameLastNew(b, x, y, b.se);
    SameCorrections(b, x, y, b.ss);
    SameCorrections(b, x, y, EobOf(b, x) + 1);
    SameSymbols(t, b, x, y, b.ss, 0, [], EobOf(b, x), rest);
  }

  lemma {:induction false} SameDelayed(t: TableId, b: Band, p: Pending, xs: seq<Block>, ys: seq<Block>, rest: Items)
    requires GoodBand(b) && SameBands(b, xs, ys)
    ensures Delayed(t, b, p, xs, rest) == Delayed(t, b, p, ys, rest)
    decreases |xs|
  {
    if xs != [] {
      var q := NextPending(b, p, xs[0]);
      SameStep(t, b, p, xs[0], ys[0], Delayed(t, b, q, xs[1..], rest));
      SameDelayed(t, b, q, xs[1..], ys[1..], rest);
    }
  }

  lemma {:induction false} SameFits(x: Block, y: Block, m: nat, lo: nat, hi: nat)
    requires hi <= 64 && FitsTo(x, m, lo, hi) && forall i :: lo <= i < hi ==> x[i] == y[i]
    ensures FitsTo(y, m, lo, hi)
    decreases hi
  {
    if lo < hi {
      SameFits(x, y, m, lo, hi - 1);
    }
  }

  // One scan, received into blocks that already hold something.

  /** The band of x, and the rest of y. */
  function Overlay(b: Band, x: Block, y: Block): (z: Block)
    requires GoodBand(b)
    ensures forall i :: 0 <= i < 64 ==> z[i] == if b.ss <= i <= b.se then x[i] else y[i]
  {
    seq(64, i requires 0 <= i < 64 => if b.ss <= i <= b.se then x[i] else y[i])
  }

  function Overlays(b: Band, xs: seq<Block>, ys: seq<Block>): (zs: seq<Block>)
    requires GoodBand(b) && |xs| == |ys|
    ensures |zs| == |xs| && forall i :: 0 <= i < |xs| ==> zs[i] == Overlay(b, xs[i], ys[i])
  {
    seq(|xs|, i requires 0 <= i < |xs| => Overlay(b, xs[i], ys[i]))
  }

  /** The blocks at the precision of a scan. */
  function AtPrecision(cs: seq<Block>, al: nat): (xs: seq<Block>)
    ensures |xs| == |cs| && forall i :: 0 <= i < |cs| ==> xs[i] == Transformed(cs[i], al)
  {
    seq(|cs|, i requires 0 <= i < |cs| => Transformed(cs[i], al))
  }

  /** What the decoder holds in the band before a scan at bit al: nothing, or one bit less. */
  predicate Holding(b: Band, cs: seq<Block>, al: nat, ys: seq<Block>)
    requires GoodBand(b)
  {
    |ys| == |cs| && forall i :: 0 <= i < |cs| ==> HoldingBlock(b, cs[i], al, ys[i])
  }

  predicate HoldingBlock(b: Band, c: Block, al: nat, y: Block)
    requires GoodBand(b)
  {
    forall k :: b.ss <= k <= b.se ==> y[k] == if b.refine then PointTransform(c[k], al + 1) else 0
  }

  lemma KnownOverlay(b: Band, c: Block, al: nat, y: Block)
    requires GoodBand(b) && HoldingBlock(b, c, al, y)
    ensures At(b, Overlay(b, Transformed(c, al), y), b.ss) == y
  {
    var x := At(b, Overlay(b, Transformed(c, al), y), b.ss);
    forall k | 0 <= k < 64
      ensures x[k] == y[k]
    {
      PointTransformHalve(c[k], al);
    }
  }

  lemma OverlaysKnown(b: Band, cs: seq<Block>, al: nat, ys: seq<Block>)
    requires GoodBand(b) && Holding(b, cs, al, ys)
    ensures KnownBlocks(b, Overlays(b, AtPrecision(cs, al), ys)) == ys
    ensures SameBands(b, AtPrecision(cs, al), Overlays(b, AtPrecision(cs, al), ys))
  {
    var zs := KnownBlocks(b, Overlays(b, AtPrecision(cs, al), ys));
    forall i | 0 <= i < |cs|
      ensures zs[i] == ys[i]
    {
      KnownOverlay(b, cs[i], al, ys[i]);
    }
  }

  /** A scan of a band brings the band to its precision, and leaves the rest of the blocks alone. */
  lemma ScanDelivers(read: Reader, book: CodeBook, t: TableId, b: Band, cs: seq<Block>, al: nat, ys: seq<Block>, tail: seq<bit>)
    requires Reads(read, book[t]) && GoodBand(b) && AllFit(b, AtPrecision(cs, al)) && Holding(b, cs, al, ys)
    requires Covered(book, Delayed(t, b, Pending(0, []), AtPrecision(cs, al), Nil))
    ensures ParseBands(read, b, ys, 0, ItemBits(book, Delayed(t, b, Pending(0, []), AtPrecision(cs, al), Nil), tail))
         == Got(Overlays(b, AtPrecision(cs, al), ys), tail)
  {
    var xs := AtPrecision(cs, al);
    var zs := Overlays(b, xs, ys);
    OverlaysKnown(b, cs, al, ys);
    SameDelayed(t, b, Pending(0, []), xs, zs, Nil);
    forall i | 0 <= i < |zs|
      ensures Sized(b, zs[i])
    {
      if !b.refine {
        SameFits(xs[i], zs[i], 15, b.ss, b.se + 1);
      }
    }
    SegmentRoundTrip(read, book, t, b, zs, tail);
  }

  // All scans of a band.

  /** A scan with its own table, and whatever follows it. */
  datatype Sent = Sent(read: Reader, book: CodeBook, table: TableId, tail: seq<bit>)

  ghost function BitsSent(s: Sent, b: Band, cs: seq<Block>, al: nat): seq<bit>
    requires GoodBand(b)
  {
    ItemBits(s.book, Delayed(s.table, b, Pending(0, []), AtPrecision(cs, al), Nil), s.tail)
  }

  ghost predicate Transmits(s: Sent, b: Band, cs: seq<Block>, al: nat)
    requires GoodBand(b)
  {
    && Reads(s.read, s.book[s.table]) && AllFit(b, AtPrecision(cs, al))
    && Covered(s.book, Delayed(s.table, b, Pending(0, []), AtPrecision(cs, al), Nil))
  }

  /** The scans at bits |scans| - 1 down to 0; all but the first of them refine. */
  ghost function DecodeScans(b: Band, scans: seq<Sent>, cs: seq<Block>, ys: seq<Block>): Parsed<seq<Block>>
    requires GoodBand(b)
    decreases |scans|
  {
    if scans == [] then Got(ys, [])
    else
      match ParseBands(scans[0].read, b, ys, 0, BitsSent(scans[0], b, cs, |scans| - 1))
      case Stuck => Stuck
      case Got(zs, _) => DecodeScans(b.(refine := true), scans[1..], cs, zs)
  }

  ghost predicate AllTransmit(b: Band, scans: seq<Sent>, cs: seq<Block>)
    requires GoodBand(b)
    decreases |scans|
  {
    scans != [] ==> Transmits(scans[0], b, cs, |scans| - 1) && AllTransmit(b.(refine := true), scans[1..], cs)
  }

  /** After a scan the decoder holds what the next one refines. */
  lemma HoldingAfter(b: Band, cs: seq<Block>, al: nat, ys: seq<Block>)
    requires GoodBand(b) && |ys| == |cs| && al > 0
    ensures Holding(b.(refine := true), cs, al - 1, Overlays(b, AtPrecision(cs, al), ys))
  {
    hide PointTransform;
  }

  lemma OverlayAgain(b: Band, xs: seq<Block>, ws: seq<Block>, ys: seq<Block>)
    requires GoodBand(b) && |xs| == |ys| == |ws|
    ensures Overlays(b.(refine := true), ws, Overlays(b, xs, ys)) == Overlays(b, ws, ys)
  {
    var zs, vs := Overlays(b.(refine := true), ws, Overlays(b, xs, ys)), Overlays(b, ws, ys);
    forall i | 0 <= i < |ws|
      ensures zs[i] == vs[i]
    {
      assert zs[i] == Overlay(b.(refine := true), ws[i], Overlay(b, xs[i], ys[i])) == Overlay(b, ws[i], ys[i]);
    }
  }

  lemma FullPrecision(cs: seq<Block>)
    ensures AtPrecision(cs, 0) == cs
  {
    forall i | 0 <= i < |cs|
      ensures AtPrecision(cs, 0)[i] == cs[i]
    {
      assert Transformed(cs[i], 0) == cs[i];
    }
  }

  /** The first of the scans, and then the others. */
  lemma DecodeFirst(b: Band, scans: seq<Sent>, cs: seq<Block>, ys: seq<Block>, zs: seq<Block>)
    requires GoodBand(b) && scans != [] && AllTransmit(b, scans, cs)
    requires Holding(b, cs, |scans| - 1, ys) && zs == Overlays(b, AtPrecision(cs, |scans| - 1), ys)
    ensures DecodeScans(b, scans, cs, ys) == DecodeScans(b.(refine := true), scans[1..], cs, zs)
  {
    hide Reads, Holding, AllFit, Covered;
    var s := scans[0];
    ScanDelivers(s.read, s.book, s.table, b, cs, |scans| - 1, ys, s.tail);
  }

  lemma {:induction false} ScansDeliver(b: Band, scans: seq<Sent>, cs: seq<Block>, ys: seq<Block>)
    requires GoodBand(b) && scans != [] && AllTransmit(b, scans, cs) && Holding(b, cs, |scans| - 1, ys)
    ensures DecodeScans(b, scans, cs, ys) == Got(Overlays(b, cs, ys), [])
    decreases |scans|
  {
    hide Transmits, HoldingBlock;
    var al := |scans| - 1;
    var zs := Overlays(b, AtPrecision(cs, al), ys);
    DecodeFirst(b, scans, cs, ys, zs);
    if al == 0 {
      FullPrecision(cs);
      assert scans[1..] == [];
    } else {
      HoldingAfter(b, cs, al, ys);
      ScansDeliver(b.(refine := true), scans[1..], cs, zs);
      OverlayAgain(b, AtPrecision(cs, al), cs, ys);
    }
  }

  /**
   * A band sent by a first scan at bit n and refinement scans down to bit 0: starting from zeros in the band,
   * the decoder ends with every coefficient of the band exact, and with everything else as it was.
   */
  lemma ProgressionDelivers(b: Band, scans: seq<Sent>, cs: seq<Block>, ys: seq<Block>)
    requires GoodBand(b) && !b.refine && scans != [] && AllTransmit(b, scans, cs) && |ys| == |cs|
    requires forall i, k :: 0 <= i < |ys| && b.ss <= k <= b.se ==> ys[i][k] == 0
    ensures DecodeScans(b, scans, cs, ys) == Got(Overlays(b, cs, ys), [])
  {
    ScansDeliver(b, scans, cs, ys);
  }

  // DC values.

  /** A DC value received at some precision, then refined bit by bit. */
  function RefineDc(v: int, bits: seq<bit>): int
    decreases |bits|
  {
    if bits == [] then v else RefineDc(2 * v + bits[0], bits[1..])
  }

  /** The bits of the refinement scans at bits al - 1 down to 0. */
  function RefinementBits(v: int, al: nat): (bits: seq<bit>)
    ensures |bits| == al
  {
    if al == 0 then [] else [DcBit(v, al - 1)] + RefinementBits(v, al - 1)
  }

  lemma {:induction false} DcProgressionDelivers(v: int, al: nat)
    ensures RefineDc(ShiftRight(v, al), RefinementBits(v, al)) == v
    decreases al
  {
    if al > 0 {
      DcRefines(v, al - 1);
      DcProgressionDelivers(v, al - 1);
    }
  }
}
