/** The sequential Huffman encoder, writing a scan or counting its symbols. */
module HuffmanEncoder {
  import opened Bytes
  import opened BitStrings
  import opened Coefficients
  import opened Words
  import opened ZigZag
  import opened BitLogs
  import opened BitWriters
  import opened HuffmanItems
  import opened SeqHuffman
  import opened HuffmanScan
  import Prediction = SequentialPrediction
  import RestartIntervals

  lemma CodeBound(code: nat, size: nat, low: nat, nbits: nat)
    requires code < Pow2(size) && low < Pow2(nbits)
    ensures Or(low, Shl(code, nbits)) == Shl(code, nbits) + low < Pow2(nbits + size)
  {
    OrDisjoint(code, nbits, low);
    OrCommutes(low, Shl(code, nbits));
    ShlLess(code + 1, Pow2(size) + 1, nbits);
    ShlAdd(code, 1, nbits);
    ShlShl(1, size, nbits);
    if code + 1 < Pow2(size) {
      ShlLess(code + 1, Pow2(size), nbits);
    }
  }

  lemma LowBitsBound(v: int, n: nat)
    ensures LowBits(v, n) < Pow2(n)
  {
    if v >= 0 {
      WrapBound(v, n);
    } else {
      WrapBound(0 - v - 1, n);
    }
  }

  /** A symbol's code with nbits additional bits of temp, in one piece. */
  method PutCode(w: WordWriter, code: nat, size: nat, temp: int, nbits: nat)
    requires w.Valid() && size <= 16 && nbits <= 15 && code < Pow2(size)
    modifies w`putBuffer, w`freeBits, w`out, w`raw
    ensures w.Valid() && w.Contents() == Put(Put(old(w.Contents()), code, size), LowBits(temp, nbits), nbits)
  {
    var low := LowBits(temp, nbits);
    LowBitsBound(temp, nbits);
    CodeBound(code, size, low, nbits);
    PutShifted(w.Contents(), code, low, size, nbits);
    w.PutBits(Or(low, Shl(code, nbits)), nbits + size);
  }

  /** The value whose low bits are sent: one less if negative. */
  function OnesComplement(v: int): int { if v < 0 then v - 1 else v }

  /** A run of zeros, in units of sixteen, with the last part below sixteen units left. */
  method PutZeroRuns(w: WordWriter, book: CodeBook, ac: TableId, r0: nat, ghost x: Block, ghost k: nat, ghost rest: Items)
    returns (r: nat)
    requires w.Valid() && GoodBook(book) && r0 % 16 == 0 && 1 <= k < 64 && x[k] != 0
    modifies w`putBuffer, w`freeBits, w`out, w`raw
    ensures w.Valid() && r < 256 && r % 16 == 0
    ensures AcInRange(x, 15) ==>
      Emit(book, AcItems(ac, x, k, r / 16, rest), w.Contents())
      == Emit(book, AcItems(ac, x, k, r0 / 16, rest), old(w.Contents()))
  {
    r := r0;
    while r >= 16 * 16
      invariant w.Valid() && r % 16 == 0
      invariant AcInRange(x, 15) ==>
        Emit(book, AcItems(ac, x, k, r / 16, rest), w.Contents())
        == Emit(book, AcItems(ac, x, k, r0 / 16, rest), old(w.Contents()))
    {
      assert GoodCodes(book[ac]);
      r := r - 16 * 16;
      w.PutBits(book[ac].co[ZRL], book[ac].si[ZRL]);
    }
  }

  /** A nonzero coefficient after its run; fails if it has too many bits. */
  method PutCoefficient(w: WordWriter, book: CodeBook, ac: TableId, temp: int, r0: nat, maxBits: nat,
                        ghost x: Block, ghost k: nat, ghost rest: Items) returns (ok: bool)
    requires w.Valid() && GoodBook(book) && maxBits <= 14 && r0 % 16 == 0
    requires 1 <= k < 64 && x[k] == temp != 0
    modifies w`putBuffer, w`freeBits, w`out, w`raw
    ensures w.Valid() && ok == (Size(temp) <= maxBits)
    ensures ok && AcInRange(x, 15) ==>
      Emit(book, AcItems(ac, x, k + 1, 0, rest), w.Contents())
      == Emit(book, AcItems(ac, x, k, r0 / 16, rest), old(w.Contents()))
  {
    var nbits := Size(temp);
    if nbits > maxBits {
      return false;
    }
    var r := PutZeroRuns(w, book, ac, r0, x, k, rest);
    assert GoodCodes(book[ac]);
    var symbol: byte := r + nbits;
    assert r == 16 * (r / 16);
    PutCode(w, book[ac].co[symbol], book[ac].si[symbol], OnesComplement(temp), nbits);
    return true;
  }

  /** The DC difference; fails if it has too many bits. */
  method PutDifference(w: WordWriter, book: CodeBook, dc: TableId, temp: int, maxBits: nat, ghost rest: Items)
    returns (ok: bool)
    requires w.Valid() && GoodBook(book) && maxBits <= 14
    modifies w`putBuffer, w`freeBits, w`out, w`raw
    ensures w.Valid() && ok == (Size(temp) <= maxBits + 1)
    ensures ok ==> Emit(book, rest, w.Contents()) == Emit(book, DcItems(dc, temp, rest), old(w.Contents()))
  {
    var nbits := Size(temp);
    if nbits > maxBits + 1 {
      return false;
    }
    assert GoodCodes(book[dc]);
    PutCode(w, book[dc].co[nbits], book[dc].si[nbits], OnesComplement(temp), nbits);
    return true;
  }

  /** The 63 AC coefficients; fails if one has too many bits. */
  method PutAcCoefficients(w: WordWriter, book: CodeBook, ac: TableId, block: Block, maxBits: nat, order: Order, ghost rest: Items)
    returns (ok: bool)
    requires w.Valid() && GoodBook(book) && maxBits <= 14
    modifies w`putBuffer, w`freeBits, w`out, w`raw
    ensures w.Valid()
    ensures ok <==> AcInRange(Reordered(block, order), maxBits)
    ensures ok ==>
      Emit(book, rest, w.Contents()) == Emit(book, AcItems(ac, Reordered(block, order), 1, 0, rest), old(w.Contents()))
  {
    hide AcItems, BitLength, Put, Reordered;
    ghost var x := Reordered(block, order);
    var k, r: nat := 1, 0;
    while k < 64
      invariant 1 <= k <= 64 && w.Valid() && r % 16 == 0
      invariant forall i :: 1 <= i < k ==> Size(x[i]) <= maxBits
      invariant AcInRange(x, 15) ==>
        Emit(book, AcItems(ac, x, k, r / 16, rest), w.Contents()) == Emit(book, AcItems(ac, x, 1, 0, rest), old(w.Contents()))
    {
      var temp := block[order[k]];
      if temp == 0 {
        if AcInRange(x, 15) {
          AcZero(ac, x, k, r / 16, rest);
        }
        r := r + 16;
      } else {
        var fits := PutCoefficient(w, book, ac, temp, r, maxBits, x, k, rest);
        if !fits {
          return false;
        }
        r := 0;
      }
      k := k + 1;
    }
    if AcInRange(x, 15) {
      AcEnd(ac, x, r / 16, rest);
    }
    if r > 0 {
      assert GoodCodes(book[ac]);
      w.PutBits(book[ac].co[EOB], book[ac].si[EOB]);
    }
    return true;
  }

  /** Writes one block; fails if a value is out of range. */
  method EncodeOneBlock(w: WordWriter, book: CodeBook, dc: TableId, ac: TableId, block: Block, last: int, maxBits: nat,
                        order: Order, ghost rest: Items) returns (ok: bool)
    requires w.Valid() && GoodBook(book) && maxBits <= 14 && order[0] == 0
    modifies w`putBuffer, w`freeBits, w`out, w`raw
    ensures w.Valid()
    ensures ok <==> BlockInRange(last, Reordered(block, order), maxBits)
    ensures ok ==>
      Emit(book, rest, w.Contents())
      == Emit(book, BlockItems(dc, ac, Reordered(block, order), last, rest), old(w.Contents()))
  {
    hide Reordered, GoodBook;
    ghost var x := Reordered(block, order);
    ghost var inRange := AcInRange(x, maxBits);
    ok := PutDifference(w, book, dc, block[0] - last, maxBits, if inRange then AcItems(ac, x, 1, 0, rest) else rest);
    if ok {
      ok := PutAcCoefficients(w, book, ac, block, maxBits, order, rest);
    }
  }

  // The encoder object.

  /** The bits of data bytes, segment by segment. */
  function DataBits(done: seq<seq<byte>>): (r: seq<Bits>)
    ensures |r| == |done|
    ensures forall i :: 0 <= i < |done| ==> r[i] == PutBytes(Empty, done[i])
  {
    seq(|done|, i requires 0 <= i < |done| => PutBytes(Empty, done[i]))
  }

  lemma DataBitsNext(done: seq<seq<byte>>, raw: seq<byte>)
    ensures DataBits(done + [raw]) == DataBits(done) + [PutBytes(Empty, raw)]
  {
  }

  /** The DC predictions an MCU starts with. */
  function StartDc(s: Scan, last: seq<int>, togo: nat): (r: seq<int>)
    ensures |last| == |s.comps| ==> |r| == |last|
  {
    if s.interval > 0 && togo == 0 then ResetDc(s) else last
  }

  /** The MCUs left in the restart interval after one more. */
  function NextToGo(s: Scan, togo: nat): nat {
    if s.interval == 0 then togo else if togo == 0 then s.interval - 1 else togo - 1
  }

  /** The items of an MCU and of what follows, starting a new segment if the interval is used up. */
  ghost function McuSegs(s: Scan, last: seq<int>, togo: nat, xs: Mcu, rest: Segs): Segs
    requires GoodScan(s) && |last| == |s.comps| && GoodMcu(s, xs)
    requires McuInRange(s, StartDc(s, last, togo), xs, 0, 14)
  {
    var segs := First(rest, McuItems(s, StartDc(s, last, togo), xs, 0, rest.items));
    if s.interval > 0 && togo == 0 then More(Nil, segs) else segs
  }

  /** A scan is its first MCU and the scan of the others. */
  lemma ScanIsMcu(s: Scan, last: seq<int>, togo: nat, mcus: seq<Mcu>)
    requires GoodScan(s) && |last| == |s.comps| && GoodMcus(s, mcus) && mcus != []
    requires ScanInRange(s, last, togo, mcus, 14)
    ensures McuInRange(s, StartDc(s, last, togo), mcus[0], 0, 14)
    ensures var last' := AfterMcu(s, StartDc(s, last, togo), mcus[0], 0);
            ScanInRange(s, last', NextToGo(s, togo), mcus[1..], 14)
            && ScanItems(s, last, togo, mcus) == McuSegs(s, last, togo, mcus[0], ScanItems(s, last', NextToGo(s, togo), mcus[1..]))
  {
  }

  lemma ScanFirstInRange(s: Scan, last: seq<int>, togo: nat, mcus: seq<Mcu>, m: nat)
    requires GoodScan(s) && |last| == |s.comps| && GoodMcus(s, mcus) && mcus != []
    ensures ScanInRange(s, last, togo, mcus, m) <==>
      (McuInRange(s, StartDc(s, last, togo), mcus[0], 0, m)
       && ScanInRange(s, AfterMcu(s, StartDc(s, last, togo), mcus[0], 0), NextToGo(s, togo), mcus[1..], m))
  {
  }

  /** After the last MCU, nothing is left of a scan. */
  lemma NothingRemains(s: Scan, last: seq<int>, togo: nat, m: nat, c: Stats)
    requires GoodScan(s) && |last| == |s.comps| && GoodStats(c)
    ensures ScanInRange(s, last, togo, [], m)
    ensures m <= 14 ==> ScanItems(s, last, togo, []) == Last(Nil)
    ensures TallySegs(Last(Nil), c) == c
  {
  }

  lemma {:induction false} InRangeWeaken(s: Scan, last: seq<int>, xs: Mcu, b: nat, m: nat, n: nat)
    requires GoodScan(s) && |last| == |s.comps| && GoodMcu(s, xs) && b <= |xs| && m <= n
    requires McuInRange(s, last, xs, b, m)
    ensures McuInRange(s, last, xs, b, n)
    decreases |xs| - b
  {
    if b < |xs| {
      InRangeWeaken(s, NextDc(s, last, b, xs[b]), xs, b + 1, m, n);
    }
  }

  lemma RestartTotal(book: CodeBook, segs: Segs, d: seq<Bits>, c: Bits, d': seq<Bits>)
    requires d' == d + [Padded(c)]
    ensures d' + EmitSegs(book, segs, Empty) == d + EmitSegs(book, More(Nil, segs), c)
  {
    Regroup(d, [Padded(c)], EmitSegs(book, segs, Empty));
  }

  class SequentialEncoder {
    const w: WordWriter
    const order: Order
    const scan: Scan
    const book: CodeBook
    const maxBits: nat
    var last: seq<int>
    var togo: nat
    var nextNum: nat

    ghost predicate Valid()
      reads this, w
    {
      && w.Valid() && GoodScan(scan) && |last| == |scan.comps| && GoodBook(book) && maxBits <= 14 && order[0] == 0
      && nextNum == |w.done| % 8
    }

    /** All segments, once the current one is padded after the given items, and the others follow. */
    ghost function Total(rest: Segs): seq<Bits>
      requires w.Valid()
      reads w
    {
      DataBits(w.done) + EmitSegs(book, rest, w.Contents())
    }

    constructor (w: WordWriter, order: Order, scan: Scan, book: CodeBook, maxBits: nat)
      requires w.Valid() && w.done == [] && w.Contents() == Empty
      requires GoodScan(scan) && GoodBook(book) && maxBits <= 14 && order[0] == 0
      ensures Valid() && this.w == w && this.order == order && this.scan == scan && this.book == book
      ensures this.maxBits == maxBits && last == ResetDc(scan) && togo == scan.interval
    {
      this.w, this.order, this.scan, this.book, this.maxBits := w, order, scan, book, maxBits;
      last := ResetDc(scan);
      togo := scan.interval;
      nextNum := 0;
    }

    /** Finishes the segment, writes the marker, and resets the DC predictions. */
    method EmitRestart()
      requires w.Valid() && nextNum == |w.done| % 8
      modifies w`putBuffer, w`freeBits, w`out, w`raw, w`before, w`done, `last
      ensures w.Valid() && last == ResetDc(scan) && w.Contents() == Empty
      ensures |w.done| == old(|w.done|) + 1
      ensures DataBits(w.done) == old(DataBits(w.done)) + [Padded(old(w.Contents()))]
    {
      w.FlushBits();
      DataBitsNext(w.done, w.raw);
      w.EmitMarker(nextNum);
      last := ResetDc(scan);
    }

    method EncodeBlocks(blocks: seq<Block>, ghost rest: Items) returns (ok: bool)
      requires Valid() && |blocks| == |scan.membership|
      modifies w`putBuffer, w`freeBits, w`out, w`raw, `last
      ensures Valid()
      ensures ok <==> McuInRange(scan, old(last), ReorderedMcu(blocks, order), 0, maxBits)
      ensures ok ==> last == AfterMcu(scan, old(last), ReorderedMcu(blocks, order), 0)
      ensures ok ==> McuInRange(scan, old(last), ReorderedMcu(blocks, order), 0, 14)
      ensures ok ==>
        Emit(book, rest, w.Contents())
        == Emit(book, McuItems(scan, old(last), ReorderedMcu(blocks, order), 0, rest), old(w.Contents()))
    {
      hide BlockInRange, BlockItems, GoodBook, Emit, Reordered, ReorderedMcu, DataBits, EmitSegs, Framed, StuffOnto;
      ghost var xs, last0 := ReorderedMcu(blocks, order), last;
      ghost var fits := McuInRange(scan, last, xs, 0, maxBits);
      if fits {
        InRangeWeaken(scan, last, xs, 0, maxBits, 14);
      }
      var b := 0;
      while b < |blocks|
        invariant b <= |blocks| && Valid()
        invariant McuInRange(scan, last, xs, b, maxBits) == fits
        invariant AfterMcu(scan, last, xs, b) == AfterMcu(scan, last0, xs, 0)
        invariant fits ==> McuInRange(scan, last, xs, b, 14)
        invariant fits ==>
          Emit(book, McuItems(scan, last, xs, b, rest), w.Contents())
          == Emit(book, McuItems(scan, last0, xs, 0, rest), old(w.Contents()))
      {
        var ci := scan.membership[b];
        var comp := scan.comps[ci];
        ghost var next := if fits then McuItems(scan, NextDc(scan, last, b, xs[b]), xs, b + 1, rest) else rest;
        var done := EncodeOneBlock(w, book, DcTable(comp.dcTbl), AcTable(comp.acTbl), blocks[b], last[ci], maxBits, order, next);
        if !done {
          return false;
        }
        last := last[ci := blocks[b][0]];
        b := b + 1;
      }
      return true;
    }

    /** The restart marker, when the interval is used up. */
    method StartMcu(ghost segs: Segs)
      requires Valid()
      modifies w`putBuffer, w`freeBits, w`out, w`raw, w`before, w`done, `last, `nextNum
      ensures Valid() && last == StartDc(scan, old(last), togo)
      ensures Total(segs) == old(Total(if scan.interval > 0 && togo == 0 then More(Nil, segs) else segs))
    {
      hide EmitSegs, DataBits, GoodBook, Padded, GoodScan;
      if scan.interval > 0 && togo == 0 {
        ghost var d, c := DataBits(w.done), w.Contents();
        EmitRestart();
        nextNum := (nextNum + 1) % 8;
        RestartTotal(book, segs, d, c, DataBits(w.done));
      }
    }

    /** Writes one MCU, after a restart marker if the interval is used up. */
    method EncodeMcu(blocks: seq<Block>, ghost rest: Segs) returns (ok: bool)
      requires Valid() && |blocks| == |scan.membership|
      modifies w`putBuffer, w`freeBits, w`out, w`raw, w`before, w`done, `last, `togo, `nextNum
      ensures Valid()
      ensures ok <==> McuInRange(scan, StartDc(scan, old(last), old(togo)), ReorderedMcu(blocks, order), 0, maxBits)
      ensures ok ==> McuInRange(scan, StartDc(scan, old(last), old(togo)), ReorderedMcu(blocks, order), 0, 14)
      ensures ok ==> last == AfterMcu(scan, StartDc(scan, old(last), old(togo)), ReorderedMcu(blocks, order), 0)
      ensures ok ==> togo == NextToGo(scan, old(togo))
      ensures ok ==> Total(rest) == old(Total(McuSegs(scan, last, togo, ReorderedMcu(blocks, order), rest)))
    {
      ghost var xs, start := ReorderedMcu(blocks, order), StartDc(scan, last, togo);
      ghost var items := if McuInRange(scan, start, xs, 0, 14) then McuItems(scan, start, xs, 0, rest.items) else Nil;
      StartMcu(First(rest, items));
      ghost var c := w.Contents();
      ok := EncodeBlocks(blocks, rest.items);
      if ok {
        EmitFirst(book, rest, items, w.Contents(), c);
        CountMcu();
      }
    }

    method CountMcu()
      modifies `togo
      ensures togo == NextToGo(scan, old(togo))
    {
      if scan.interval > 0 {
        if togo == 0 {
          togo := scan.interval;
        }
        togo := togo - 1;
      }
    }

    /** Pads the last segment. */
    method FinishPass()
      requires Valid()
      modifies w`putBuffer, w`freeBits, w`out, w`raw
      ensures Valid() && DataBits(w.done + [w.raw]) == old(Total(Last(Nil)))
    {
      w.FlushBits();
      DataBitsNext(w.done, w.raw);
    }

    /** Writes a whole scan: the padded segments hold exactly its items. */
    method EncodeScan(mcus: seq<seq<Block>>) returns (ok: bool)
      requires Valid() && w.done == [] && w.Contents() == Empty && last == ResetDc(scan) && togo == scan.interval
      requires forall i :: 0 <= i < |mcus| ==> |mcus[i]| == |scan.membership|
      modifies w`putBuffer, w`freeBits, w`out, w`raw, w`before, w`done, `last, `togo, `nextNum
      ensures Valid()
      ensures GoodMcus(scan, ReorderedMcus(mcus, order))
      ensures ok <==> ScanInRange(scan, ResetDc(scan), scan.interval, ReorderedMcus(mcus, order), maxBits)
      ensures ok ==> ScanInRange(scan, ResetDc(scan), scan.interval, ReorderedMcus(mcus, order), 14)
      ensures ok ==>
        DataBits(w.done + [w.raw])
        == EmitSegs(book, ScanItems(scan, ResetDc(scan), scan.interval, ReorderedMcus(mcus, order)), Empty)
      ensures ok ==>
        Prediction.Sends(scan, [], ScanItems(scan, ResetDc(scan), scan.interval, ReorderedMcus(mcus, order)),
                         RestartIntervals.Intervals(scan.interval, scan.interval, ReorderedMcus(mcus, order)))
    {
      hide ScanInRange, ScanItems, McuInRange, AfterMcu, McuSegs, EmitSegs, GoodBook, Prediction.Sends, RestartIntervals.Intervals,
        StartDc, NextToGo, DataBits;
      ghost var xs := ReorderedMcus(mcus, order);
      ghost var fits := ScanInRange(scan, last, togo, xs, maxBits);
      if fits {
        ScanInRangeWeaken(scan, last, togo, xs, maxBits, 14);
      }
      ghost var segs := if fits then ScanItems(scan, last, togo, xs) else Last(Nil);
      assert xs[0..] == xs;
      StartTotal(segs);
      var i := 0;
      while i < |mcus|
        invariant i <= |mcus| && Valid()
        invariant ScanInRange(scan, last, togo, xs[i..], maxBits) == fits
        invariant fits ==> ScanInRange(scan, last, togo, xs[i..], 14)
        invariant fits ==> Total(ScanItems(scan, last, togo, xs[i..])) == EmitSegs(book, segs, Empty)
      {
        ghost var left := xs[i..];
        assert left[0] == xs[i] == ReorderedMcu(mcus[i], order) && left[1..] == xs[i + 1..];
        ScanFirstInRange(scan, last, togo, left, maxBits);
        if fits {
          ScanIsMcu(scan, last, togo, left);
        }
        ghost var last' := AfterMcu(scan, StartDc(scan, last, togo), left[0], 0);
        ghost var rest := if fits then ScanItems(scan, last', NextToGo(scan, togo), left[1..]) else Last(Nil);
        ok := EncodeMcu(mcus[i], rest);
        if !ok {
          return;
        }
        i := i + 1;
      }
      assert xs[i..] == [];
      NothingRemains(scan, last, togo, maxBits, seq(NUM_TABLES, _ => seq(257, _ => 0)));
      FinishPass();
      Prediction.DifferencesLookBack(scan, xs);
      return true;
    }

    lemma StartTotal(segs: Segs)
      requires w.Valid() && w.done == [] && w.Contents() == Empty
      ensures Total(segs) == EmitSegs(book, segs, Empty)
    {
    }
  }

  lemma {:induction false} ScanInRangeWeaken(s: Scan, last: seq<int>, togo: nat, mcus: seq<Mcu>, m: nat, n: nat)
    requires GoodScan(s) && |last| == |s.comps| && GoodMcus(s, mcus) && m <= n && ScanInRange(s, last, togo, mcus, m)
    ensures ScanInRange(s, last, togo, mcus, n)
    decreases |mcus|, if togo == 0 then 1 else 0
  {
    if mcus != [] {
      if s.interval > 0 && togo == 0 {
        ScanInRangeWeaken(s, ResetDc(s), s.interval, mcus, m, n);
      } else {
        InRangeWeaken(s, last, mcus[0], 0, m, n);
        ScanInRangeWeaken(s, AfterMcu(s, last, mcus[0], 0), ToGo(s, togo), mcus[1..], m, n);
      }
    }
  }

  lemma EmitFirst(book: CodeBook, segs: Segs, items: Items, b: Bits, b0: Bits)
    requires Emit(book, segs.items, b) == Emit(book, items, b0)
    ensures EmitSegs(book, segs, b) == EmitSegs(book, First(segs, items), b0)
  {
  }

  /**
   * From blocks to bytes and back: the file's segments, up to the next marker that is no restart marker, decode
   * to the blocks that were encoded, for any accepted tables that cover the symbols used.
   */
  lemma EncodedScanDecodes(read: seq<Reader>, book: CodeBook, s: Scan, mcus: seq<Mcu>,
                           out: seq<byte>, done: seq<seq<byte>>, raw: seq<byte>, rest: seq<byte>)
    requires ReadsBook(read, book) && GoodScan(s) && GoodMcus(s, mcus)
    requires ScanInRange(s, ResetDc(s), s.interval, mcus, 14)
    requires CoveredSegs(book, ScanItems(s, ResetDc(s), s.interval, mcus))
    requires out == StuffOnto(Framed(done), raw)
    requires DataBits(done + [raw]) == EmitSegs(book, ScanItems(s, ResetDc(s), s.interval, mcus), Empty)
    requires rest == [] || (|rest| >= 2 && rest[0] == 0xFF && (0 < rest[1] < 0xD0 || rest[1] > 0xD7))
    ensures var bits := Strings(DataBits(Segments(out + rest, 0)));
            |bits| > 0
            && var p := ParseScan(read, s, ResetDc(s), s.interval, |mcus|, bits, 0, bits[0]);
               p.Got? && p.value == mcus
  {
    ScanSegments(done, raw, rest);
    TransmitScan(read, book, s, mcus);
  }

  // Gathering statistics.

  class StatisticsGatherer {
    const order: Order
    const scan: Scan
    const maxBits: nat
    var last: seq<int>
    var togo: nat
    var counts: Stats

    ghost predicate Valid()
      reads this
    {
      GoodScan(scan) && |last| == |scan.comps| && maxBits <= 14 && order[0] == 0 && GoodStats(counts)
    }

    constructor (order: Order, scan: Scan, maxBits: nat)
      requires GoodScan(scan) && maxBits <= 14 && order[0] == 0
      ensures Valid() && this.order == order && this.scan == scan && this.maxBits == maxBits
      ensures last == ResetDc(scan) && togo == scan.interval
      ensures forall t: TableId, s: nat :: s < 257 ==> counts[t][s] == 0
    {
      this.order, this.scan, this.maxBits := order, scan, maxBits;
      last := ResetDc(scan);
      togo := scan.interval;
      counts := seq(NUM_TABLES, _ => seq(257, _ => 0));
    }

    /** Counts a run of zeros and the coefficient after it; fails if it has too many bits. */
    method CountCoefficient(ac: TableId, temp: int, r0: nat, ghost x: Block, ghost k: nat, ghost rest: Items)
      returns (ok: bool)
      requires GoodStats(counts) && maxBits <= 14 && 1 <= k < 64 && x[k] == temp != 0
      modifies `counts
      ensures GoodStats(counts) && ok == (Size(temp) <= maxBits)
      ensures ok && AcInRange(x, 15) ==>
        Tally(AcItems(ac, x, k + 1, 0, rest), counts) == Tally(AcItems(ac, x, k, r0, rest), old(counts))
    {
      var r: nat := r0;
      while r > 15
        invariant GoodStats(counts)
        invariant AcInRange(x, 15) ==>
          Tally(AcItems(ac, x, k, r, rest), counts) == Tally(AcItems(ac, x, k, r0, rest), old(counts))
      {
        counts := Bump(counts, ac, ZRL);
        r := r - 16;
      }
      var nbits := Size(temp);
      if nbits > maxBits {
        return false;
      }
      counts := Bump(counts, ac, 16 * r + nbits);
      return true;
    }

    /** Counts the symbols of one block; fails if a value is out of range. */
    method TestOneBlock(dc: TableId, ac: TableId, block: Block, lastDc: int, ghost rest: Items) returns (ok: bool)
      requires GoodStats(counts) && maxBits <= 14 && order[0] == 0
      modifies `counts
      ensures GoodStats(counts)
      ensures ok <==> BlockInRange(lastDc, Reordered(block, order), maxBits)
      ensures ok ==>
        Tally(rest, counts) == Tally(BlockItems(dc, ac, Reordered(block, order), lastDc, rest), old(counts))
    {
      hide AcItems, BitLength, Bump, Reordered;
      ghost var x := Reordered(block, order);
      var nbits := Size(block[0] - lastDc);
      if nbits > maxBits + 1 {
        return false;
      }
      counts := Bump(counts, dc, nbits);
      ghost var c := counts;
      var k, r: nat := 1, 0;
      while k < 64
        invariant 1 <= k <= 64 && GoodStats(counts)
        invariant forall i :: 1 <= i < k ==> Size(x[i]) <= maxBits
        invariant AcInRange(x, 15) ==> Tally(AcItems(ac, x, k, r, rest), counts) == Tally(AcItems(ac, x, 1, 0, rest), c)
      {
        var temp := block[order[k]];
        if temp == 0 {
          if AcInRange(x, 15) {
            AcZero(ac, x, k, r, rest);
          }
          r := r + 1;
        } else {
          var fits := CountCoefficient(ac, temp, r, x, k, rest);
          if !fits {
            return false;
          }
          r := 0;
        }
        k := k + 1;
      }
      if AcInRange(x, 15) {
        AcEnd(ac, x, r, rest);
      }
      if r > 0 {
        counts := Bump(counts, ac, EOB);
      }
      return true;
    }

    method CountBlocks(blocks: seq<Block>, ghost rest: Items) returns (ok: bool)
      requires Valid() && |blocks| == |scan.membership|
      modifies `counts, `last
      ensures Valid()
      ensures ok <==> McuInRange(scan, old(last), ReorderedMcu(blocks, order), 0, maxBits)
      ensures ok ==> last == AfterMcu(scan, old(last), ReorderedMcu(blocks, order), 0)
      ensures ok ==> McuInRange(scan, old(last), ReorderedMcu(blocks, order), 0, 14)
      ensures ok ==>
        Tally(rest, counts) == Tally(McuItems(scan, old(last), ReorderedMcu(blocks, order), 0, rest), old(counts))
    {
      hide BlockInRange, BlockItems, Tally;
      ghost var xs, last0 := ReorderedMcu(blocks, order), last;
      ghost var fits := McuInRange(scan, last, xs, 0, maxBits);
      if fits {
        InRangeWeaken(scan, last, xs, 0, maxBits, 14);
      }
      var b := 0;
      while b < |blocks|
        invariant b <= |blocks| && Valid()
        invariant McuInRange(scan, last, xs, b, maxBits) == fits
        invariant AfterMcu(scan, last, xs, b) == AfterMcu(scan, last0, xs, 0)
        invariant fits ==> McuInRange(scan, last, xs, b, 14)
        invariant fits ==>
          Tally(McuItems(scan, last, xs, b, rest), counts) == Tally(McuItems(scan, last0, xs, 0, rest), old(counts))
      {
        var ci := scan.membership[b];
        var comp := scan.comps[ci];
        ghost var next := if fits then McuItems(scan, NextDc(scan, last, b, xs[b]), xs, b + 1, rest) else rest;
        var done := TestOneBlock(DcTable(comp.dcTbl), AcTable(comp.acTbl), blocks[b], last[ci], next);
        if !done {
          return false;
        }
        last := last[ci := blocks[b][0]];
        b := b + 1;
      }
      return true;
    }

    /** Counts one MCU, after resetting the predictions if the interval is used up. */
    method GatherMcu(blocks: seq<Block>, ghost rest: Segs) returns (ok: bool)
      requires Valid() && |blocks| == |scan.membership|
      modifies `counts, `last, `togo
      ensures Valid()
      ensures ok <==> McuInRange(scan, StartDc(scan, old(last), old(togo)), ReorderedMcu(blocks, order), 0, maxBits)
      ensures ok ==> McuInRange(scan, StartDc(scan, old(last), old(togo)), ReorderedMcu(blocks, order), 0, 14)
      ensures ok ==> last == AfterMcu(scan, StartDc(scan, old(last), old(togo)), ReorderedMcu(blocks, order), 0)
      ensures ok ==> togo == NextToGo(scan, old(togo))
      ensures ok ==>
        TallySegs(rest, counts)
        == TallySegs(McuSegs(scan, old(last), old(togo), ReorderedMcu(blocks, order), rest), old(counts))
    {
      if scan.interval > 0 {
        if togo == 0 {
          last := ResetDc(scan);
          togo := scan.interval;
        }
        togo := togo - 1;
      }
      ok := CountBlocks(blocks, rest.items);
    }

    /** Counts a whole scan: exactly the symbols that the output pass writes. */
    method GatherScan(mcus: seq<seq<Block>>) returns (ok: bool)
      requires Valid() && last == ResetDc(scan) && togo == scan.interval
      requires forall i :: 0 <= i < |mcus| ==> |mcus[i]| == |scan.membership|
      modifies `counts, `last, `togo
      ensures Valid()
      ensures GoodMcus(scan, ReorderedMcus(mcus, order))
      ensures ok <==> ScanInRange(scan, ResetDc(scan), scan.interval, ReorderedMcus(mcus, order), maxBits)
      ensures ok ==> ScanInRange(scan, ResetDc(scan), scan.interval, ReorderedMcus(mcus, order), 14)
      ensures ok ==>
        counts == TallySegs(ScanItems(scan, ResetDc(scan), scan.interval, ReorderedMcus(mcus, order)), old(counts))
      ensures ok ==>
        Prediction.Sends(scan, [], ScanItems(scan, ResetDc(scan), scan.interval, ReorderedMcus(mcus, order)),
                         RestartIntervals.Intervals(scan.interval, scan.interval, ReorderedMcus(mcus, order)))
    {
      hide ScanInRange, ScanItems, McuInRange, AfterMcu, McuSegs, TallySegs, Prediction.Sends, RestartIntervals.Intervals;
      ghost var xs := ReorderedMcus(mcus, order);
      ghost var fits := ScanInRange(scan, last, togo, xs, maxBits);
      if fits {
        ScanInRangeWeaken(scan, last, togo, xs, maxBits, 14);
      }
      ghost var total := if fits then TallySegs(ScanItems(scan, last, togo, xs), counts) else counts;
      assert xs[0..] == xs;
      var i := 0;
      while i < |mcus|
        invariant i <= |mcus| && Valid()
        invariant ScanInRange(scan, last, togo, xs[i..], maxBits) == fits
        invariant fits ==> ScanInRange(scan, last, togo, xs[i..], 14)
        invariant fits ==> TallySegs(ScanItems(scan, last, togo, xs[i..]), counts) == total
      {
        ghost var left := xs[i..];
        assert left[0] == xs[i] == ReorderedMcu(mcus[i], order) && left[1..] == xs[i + 1..];
        ScanFirstInRange(scan, last, togo, left, maxBits);
        if fits {
          ScanIsMcu(scan, last, togo, left);
        }
        ghost var last' := AfterMcu(scan, StartDc(scan, last, togo), left[0], 0);
        ghost var rest := if fits then ScanItems(scan, last', NextToGo(scan, togo), left[1..]) else Last(Nil);
        ok := GatherMcu(mcus[i], rest);
        if !ok {
          return;
        }
        i := i + 1;
      }
      assert xs[i..] == [];
      NothingRemains(scan, last, togo, maxBits, counts);
      Prediction.DifferencesLookBack(scan, xs);
      return true;
    }
  }
}
