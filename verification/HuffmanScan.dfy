/** A sequential Huffman scan: MCUs, DC prediction, restarts; its items, its bits and its statistics. */
module HuffmanScan {
  import opened Bytes
  import opened BitStrings
  import opened Coefficients
  import opened ZigZag
  import opened BitLogs
  import opened BitWriters
  import opened HuffmanItems
  import opened SeqHuffman

  /** The items of a scan, segment by segment. */
  datatype Segs = Last(items: Items) | More(items: Items, others: Segs)

  function First(segs: Segs, items: Items): Segs {
    match segs
    case Last(_) => Last(items)
    case More(_, others) => More(items, others)
  }

  /** The bits of a finished segment: padded with ones. */
  function Padded(b: Bits): Bits { PutOnes(b, Padding(Length(b))) }

  /** The padded bits of every segment, the first of which goes on from b. */
  ghost function EmitSegs(book: CodeBook, segs: Segs, b: Bits): seq<Bits>
    decreases segs
  {
    match segs
    case Last(items) => [Padded(Emit(book, items, b))]
    case More(items, others) => [Padded(Emit(book, items, b))] + EmitSegs(book, others, Empty)
  }

  function TallySegs(segs: Segs, c: Stats): (r: Stats)
    requires GoodStats(c)
    ensures GoodStats(r)
    decreases segs
  {
    match segs
    case Last(items) => Tally(items, c)
    case More(items, others) => TallySegs(others, Tally(items, c))
  }

  predicate CoveredSegs(book: CodeBook, segs: Segs)
    decreases segs
  {
    Covered(book, segs.items) && (segs.More? ==> CoveredSegs(book, segs.others))
  }

  function SegUses(segs: Segs, t: TableId, s: byte): nat
    decreases segs
  {
    Uses(segs.items, t, s) + if segs.More? then SegUses(segs.others, t, s) else 0
  }

  lemma {:induction false} TallySegUses(segs: Segs, c: Stats, t: TableId, s: byte)
    requires GoodStats(c)
    ensures TallySegs(segs, c)[t][s] == c[t][s] + SegUses(segs, t, s)
    decreases segs
  {
    TallyUses(segs.items, c, t, s);
    if segs.More? {
      TallySegUses(segs.others, Tally(segs.items, c), t, s);
    }
  }

  lemma {:induction false} SegUsesCovered(book: CodeBook, segs: Segs)
    requires forall t: TableId, s: byte :: SegUses(segs, t, s) > 0 ==> book[t].si[s] > 0
    ensures CoveredSegs(book, segs)
    decreases segs
  {
    forall t: TableId, s: byte | Uses(segs.items, t, s) > 0
      ensures book[t].si[s] > 0
    {
      assert SegUses(segs, t, s) > 0;
    }
    UsesCovered(book, segs.items);
    if segs.More? {
      forall t: TableId, s: byte | SegUses(segs.others, t, s) > 0
        ensures book[t].si[s] > 0
      {
        assert SegUses(segs, t, s) > 0;
      }
      SegUsesCovered(book, segs.others);
    }
  }

  /** A code book with a code for every counted symbol never lacks a code the output pass needs. */
  lemma StatisticsCover(book: CodeBook, segs: Segs, zero: Stats)
    requires GoodStats(zero) && forall t: TableId, s: byte :: zero[t][s] == 0
    requires forall t: TableId, s: byte :: TallySegs(segs, zero)[t][s] > 0 ==> book[t].si[s] > 0
    ensures CoveredSegs(book, segs)
  {
    forall t: TableId, s: byte | SegUses(segs, t, s) > 0
      ensures book[t].si[s] > 0
    {
      TallySegUses(segs, zero, t, s);
    }
    SegUsesCovered(book, segs);
  }

  // Scans.

  datatype Component = Component(dcTbl: nat, acTbl: nat)

  /** The components of a scan, the component of each block of an MCU, and the restart interval, 0 for none. */
  datatype Scan = Scan(comps: seq<Component>, membership: seq<nat>, interval: nat)

  predicate GoodScan(s: Scan) {
    && (forall i :: 0 <= i < |s.comps| ==> s.comps[i].dcTbl < 4 && s.comps[i].acTbl < 4)
    && (forall i :: 0 <= i < |s.membership| ==> s.membership[i] < |s.comps|)
  }

  /** An MCU's blocks, in zigzag order. */
  type Mcu = seq<Block>

  predicate GoodMcu(s: Scan, xs: Mcu) { |xs| == |s.membership| }

  function ResetDc(s: Scan): (last: seq<int>)
    ensures |last| == |s.comps|
  {
    seq(|s.comps|, _ => 0)
  }

  function NextDc(s: Scan, last: seq<int>, b: nat, x: Block): (r: seq<int>)
    requires GoodScan(s) && |last| == |s.comps| && b < |s.membership|
    ensures |r| == |last|
  {
    last[s.membership[b] := x[0]]
  }

  predicate BlockInRange(last: int, x: Block, maxBits: nat) {
    Size(x[0] - last) <= maxBits + 1 && AcInRange(x, maxBits)
  }

  predicate McuInRange(s: Scan, last: seq<int>, xs: Mcu, b: nat, maxBits: nat)
    requires GoodScan(s) && |last| == |s.comps| && GoodMcu(s, xs) && b <= |xs|
    decreases |xs| - b
  {
    b < |xs| ==> BlockInRange(last[s.membership[b]], xs[b], maxBits) && McuInRange(s, NextDc(s, last, b, xs[b]), xs, b + 1, maxBits)
  }

  function AfterMcu(s: Scan, last: seq<int>, xs: Mcu, b: nat): (r: seq<int>)
    requires GoodScan(s) && |last| == |s.comps| && GoodMcu(s, xs) && b <= |xs|
    ensures |r| == |last|
    decreases |xs| - b
  {
    if b == |xs| then last else AfterMcu(s, NextDc(s, last, b, xs[b]), xs, b + 1)
  }

  /** The items of block b of an MCU. */
  function BlockItemsOf(s: Scan, last: seq<int>, b: nat, x: Block, rest: Items): Items
    requires GoodScan(s) && |last| == |s.comps| && b < |s.membership|
    requires BlockInRange(last[s.membership[b]], x, 14)
  {
    var comp := s.comps[s.membership[b]];
    BlockItems(DcTable(comp.dcTbl), AcTable(comp.acTbl), x, last[s.membership[b]], rest)
  }

  function McuItems(s: Scan, last: seq<int>, xs: Mcu, b: nat, rest: Items): Items
    requires GoodScan(s) && |last| == |s.comps| && GoodMcu(s, xs) && b <= |xs|
    requires McuInRange(s, last, xs, b, 14)
    decreases |xs| - b
  {
    if b == |xs| then rest
    else BlockItemsOf(s, last, b, xs[b], McuItems(s, NextDc(s, last, b, xs[b]), xs, b + 1, rest))
  }

  predicate GoodMcus(s: Scan, mcus: seq<Mcu>) { forall i :: 0 <= i < |mcus| ==> GoodMcu(s, mcus[i]) }

  function ToGo(s: Scan, togo: nat): nat
    requires s.interval > 0 ==> togo > 0
  {
    if s.interval > 0 then togo - 1 else togo
  }

  predicate ScanInRange(s: Scan, last: seq<int>, togo: nat, mcus: seq<Mcu>, maxBits: nat)
    requires GoodScan(s) && |last| == |s.comps| && GoodMcus(s, mcus)
    decreases |mcus|, if togo == 0 then 1 else 0
  {
    if mcus == [] then true
    else if s.interval > 0 && togo == 0 then ScanInRange(s, ResetDc(s), s.interval, mcus, maxBits)
    else (
      && McuInRange(s, last, mcus[0], 0, maxBits)
      && ScanInRange(s, AfterMcu(s, last, mcus[0], 0), ToGo(s, togo), mcus[1..], maxBits)
    )
  }

  /** togo MCUs are left in the current restart interval. */
  function ScanItems(s: Scan, last: seq<int>, togo: nat, mcus: seq<Mcu>): Segs
    requires GoodScan(s) && |last| == |s.comps| && GoodMcus(s, mcus) && ScanInRange(s, last, togo, mcus, 14)
    decreases |mcus|, if togo == 0 then 1 else 0
  {
    if mcus == [] then Last(Nil)
    else if s.interval > 0 && togo == 0 then More(Nil, ScanItems(s, ResetDc(s), s.interval, mcus))
    else
      var segs := ScanItems(s, AfterMcu(s, last, mcus[0], 0), ToGo(s, togo), mcus[1..]);
      First(segs, McuItems(s, last, mcus[0], 0, segs.items))
  }

  // Decoding.

  function ParseMcu(read: seq<Reader>, s: Scan, last: seq<int>, b: nat, bits: seq<bit>): Parsed<Mcu>
    requires GoodScan(s) && |last| == |s.comps| && |read| == NUM_TABLES && b <= |s.membership|
    decreases |s.membership| - b
  {
    if b == |s.membership| then Got([], bits)
    else
      var comp := s.comps[s.membership[b]];
      match ParseBlock(read[DcTable(comp.dcTbl)], read[AcTable(comp.acTbl)], last[s.membership[b]], bits)
      case Stuck => Stuck
      case Got(x, bits') =>
        match ParseMcu(read, s, NextDc(s, last, b, x), b + 1, bits')
        case Stuck => Stuck
        case Got(xs, bits'') => Got([x] + xs, bits'')
  }

  /** n MCUs, the first of them in what is left of segment i. */
  function ParseScan(read: seq<Reader>, s: Scan, last: seq<int>, togo: nat, n: nat,
                     segs: seq<seq<bit>>, i: nat, bits: seq<bit>): Parsed<seq<Mcu>>
    requires GoodScan(s) && |last| == |s.comps| && |read| == NUM_TABLES
    decreases n, if togo == 0 then 1 else 0
  {
    if n == 0 then Got([], bits)
    else if s.interval > 0 && togo == 0 then
      if i + 1 < |segs| then ParseScan(read, s, ResetDc(s), s.interval, n, segs, i + 1, segs[i + 1]) else Stuck
    else
      match ParseMcu(read, s, last, 0, bits)
      case Stuck => Stuck
      case Got(xs, bits') =>
        if |xs| != |s.membership| then Stuck
        else
          match ParseScan(read, s, AfterMcu(s, last, xs, 0), ToGo(s, togo), n - 1, segs, i, bits')
          case Stuck => Stuck
          case Got(more, bits'') => Got([xs] + more, bits'')
  }

  lemma BlockOfRoundTrip(read: seq<Reader>, book: CodeBook, s: Scan, last: seq<int>, b: nat, x: Block, rest: Items, tail: seq<bit>)
    requires ReadsBook(read, book) && GoodScan(s) && |last| == |s.comps| && b < |s.membership|
    requires BlockInRange(last[s.membership[b]], x, 14) && Covered(book, BlockItemsOf(s, last, b, x, rest))
    ensures var comp := s.comps[s.membership[b]];
            ParseBlock(read[DcTable(comp.dcTbl)], read[AcTable(comp.acTbl)], last[s.membership[b]],
                       ItemBits(book, BlockItemsOf(s, last, b, x, rest), tail)) == Got(x, ItemBits(book, rest, tail))
    ensures Covered(book, rest)
  {
    hide ItemBits, ParseBlock, AcItems, Reads;
    var comp := s.comps[s.membership[b]];
    var dc, ac := DcTable(comp.dcTbl), AcTable(comp.acTbl);
    BlockRoundTrip(read[dc], read[ac], book, dc, ac, x, last[s.membership[b]], rest, tail);
    CoveredDc(book, dc, x[0] - last[s.membership[b]], AcItems(ac, x, 1, 0, rest));
    CoveredAc(book, ac, x, 1, 0, rest);
  }

  lemma {:induction false} CoveredAc(book: CodeBook, t: TableId, x: Block, k: nat, r: nat, rest: Items)
    requires 1 <= k <= 64 && AcInRange(x, 15) && Covered(book, AcItems(t, x, k, r, rest))
    ensures Covered(book, rest)
    decreases 64 - k, r
  {
    if k < 64 {
      if x[k] == 0 {
        CoveredAc(book, t, x, k + 1, r + 1, rest);
      } else if r > 15 {
        CoveredAc(book, t, x, k, r - 16, rest);
      } else {
        CoveredAc(book, t, x, k + 1, 0, rest);
      }
    }
  }

  lemma {:induction false} McuRoundTrip(read: seq<Reader>, book: CodeBook, s: Scan, last: seq<int>, xs: Mcu, b: nat,
                                        rest: Items, tail: seq<bit>)
    requires ReadsBook(read, book) && GoodScan(s) && |last| == |s.comps| && GoodMcu(s, xs) && b <= |xs|
    requires McuInRange(s, last, xs, b, 14) && Covered(book, McuItems(s, last, xs, b, rest))
    ensures ParseMcu(read, s, last, b, ItemBits(book, McuItems(s, last, xs, b, rest), tail))
         == Got(xs[b..], ItemBits(book, rest, tail))
    ensures Covered(book, rest)
    decreases |xs| - b
  {
    hide ItemBits, BlockInRange, BlockItems, ReadsBook;
    if b < |xs| {
      var last' := NextDc(s, last, b, xs[b]);
      BlockOfRoundTrip(read, book, s, last, b, xs[b], McuItems(s, last', xs, b + 1, rest), tail);
      McuRoundTrip(read, book, s, last', xs, b + 1, rest, tail);
      assert xs[b..] == [xs[b]] + xs[b + 1..];
    } else {
      assert xs[b..] == [];
    }
  }

  /** Segment i holds the first items and tails[i]; the following segments the others. */
  ghost predicate Match(book: CodeBook, segs: Segs, bits: seq<seq<bit>>, tails: seq<seq<bit>>, i: nat, current: seq<bit>)
    decreases segs
  {
    && i < |bits| == |tails| && current == ItemBits(book, segs.items, tails[i])
    && (segs.More? ==> i + 1 < |bits| && Match(book, segs.others, bits, tails, i + 1, bits[i + 1]))
  }

  /** One MCU of a scan within its interval. */
  lemma ParseOne(read: seq<Reader>, s: Scan, last: seq<int>, togo: nat, xs: Mcu, more: seq<Mcu>, segs: seq<seq<bit>>, i: nat,
                 bits: seq<bit>, bits': seq<bit>)
    requires GoodScan(s) && |last| == |s.comps| && |read| == NUM_TABLES && GoodMcu(s, xs)
    requires s.interval > 0 ==> togo > 0
    requires ParseMcu(read, s, last, 0, bits) == Got(xs, bits')
    requires var p := ParseScan(read, s, AfterMcu(s, last, xs, 0), ToGo(s, togo), |more|, segs, i, bits'); p.Got? && p.value == more
    ensures var p := ParseScan(read, s, last, togo, |more| + 1, segs, i, bits); p.Got? && p.value == [xs] + more
  {
  }

  lemma MatchFirst(book: CodeBook, segs: Segs, items: Items, bits: seq<seq<bit>>, tails: seq<seq<bit>>, i: nat, current: seq<bit>)
    requires Match(book, First(segs, items), bits, tails, i, current)
    ensures i < |bits| == |tails| && current == ItemBits(book, items, tails[i])
    ensures Match(book, segs, bits, tails, i, ItemBits(book, segs.items, tails[i]))
  {
  }

  /** Every MCU of a scan is decoded, across restarts, whatever follows the items in each segment. */
  lemma {:induction false} ScanRoundTrip(read: seq<Reader>, book: CodeBook, s: Scan, last: seq<int>, togo: nat, mcus: seq<Mcu>,
                                         bits: seq<seq<bit>>, tails: seq<seq<bit>>, i: nat, current: seq<bit>)
    requires ReadsBook(read, book) && GoodScan(s) && |last| == |s.comps| && GoodMcus(s, mcus)
    requires ScanInRange(s, last, togo, mcus, 14) && CoveredSegs(book, ScanItems(s, last, togo, mcus))
    requires Match(book, ScanItems(s, last, togo, mcus), bits, tails, i, current)
    ensures var p := ParseScan(read, s, last, togo, |mcus|, bits, i, current); p.Got? && p.value == mcus
    decreases |mcus|, if togo == 0 then 1 else 0
  {
    hide McuItems, ParseMcu, AfterMcu, ItemBits, McuInRange;
    if mcus != [] {
      if s.interval > 0 && togo == 0 {
        ScanRoundTrip(read, book, s, ResetDc(s), s.interval, mcus, bits, tails, i + 1, bits[i + 1]);
      } else {
        var last', togo', xs, more := AfterMcu(s, last, mcus[0], 0), ToGo(s, togo), mcus[0], mcus[1..];
        var segs := ScanItems(s, last', togo', more);
        MatchFirst(book, segs, McuItems(s, last, xs, 0, segs.items), bits, tails, i, current);
        McuRoundTrip(read, book, s, last, xs, 0, segs.items, tails[i]);
        assert xs[0..] == xs;
        ScanRoundTrip(read, book, s, last', togo', more, bits, tails, i, ItemBits(book, segs.items, tails[i]));
        ParseOne(read, s, last, togo, xs, more, bits, i, current, ItemBits(book, segs.items, tails[i]));
        assert mcus == [xs] + more;
      }
    }
  }

  // From the padded segments back.

  function OnesString(n: nat): seq<bit> {
    if n == 0 then [] else OnesString(n - 1) + [1]
  }

  lemma {:induction false} PrependOnes(b: Bits, n: nat, rest: seq<bit>)
    ensures Prepend(PutOnes(b, n), rest) == Prepend(b, OnesString(n) + rest)
  {
    if n == 0 {
      assert OnesString(0) + rest == rest;
    } else {
      PrependOnes(b, n - 1, [1] + rest);
      assert OnesString(n) + rest == OnesString(n - 1) + ([1] + rest);
    }
  }

  /** The padded bits of the segments as strings. */
  function Strings(segs: seq<Bits>): (r: seq<seq<bit>>)
    ensures |r| == |segs| && forall i :: 0 <= i < |segs| ==> r[i] == Prepend(segs[i], [])
  {
    seq(|segs|, i requires 0 <= i < |segs| => Prepend(segs[i], []))
  }

  /** What pads each segment. */
  ghost function Tails(book: CodeBook, segs: Segs): (r: seq<seq<bit>>)
    ensures |r| > 0
    decreases segs
  {
    var t := OnesString(Padding(Length(Emit(book, segs.items, Empty))));
    [t] + if segs.More? then Tails(book, segs.others) else []
  }

  lemma PaddedString(book: CodeBook, items: Items)
    ensures Prepend(Padded(Emit(book, items, Empty)), [])
         == ItemBits(book, items, OnesString(Padding(Length(Emit(book, items, Empty)))))
  {
    var b := Emit(book, items, Empty);
    PrependOnes(b, Padding(Length(b)), []);
    assert OnesString(Padding(Length(b))) + [] == OnesString(Padding(Length(b)));
    EmitBits(book, items, Empty, OnesString(Padding(Length(b))));
  }

  lemma {:induction false} EmittedMatch(book: CodeBook, segs: Segs, bits: seq<seq<bit>>, tails: seq<seq<bit>>, i: nat)
    requires i < |bits| == |tails|
    requires bits[i..] == Strings(EmitSegs(book, segs, Empty)) && tails[i..] == Tails(book, segs)
    ensures Match(book, segs, bits, tails, i, bits[i])
    decreases segs
  {
    PaddedString(book, segs.items);
    assert bits[i] == bits[i..][0] && tails[i] == tails[i..][0];
    if segs.More? {
      var e := EmitSegs(book, segs.others, Empty);
      assert EmitSegs(book, segs, Empty)[1..] == e;
      assert bits[i + 1..] == bits[i..][1..] == Strings(e);
      assert tails[i + 1..] == tails[i..][1..] == Tails(book, segs.others);
      assert |e| > 0;
      EmittedMatch(book, segs.others, bits, tails, i + 1);
    }
  }

  lemma {:induction false} SameNumber(book: CodeBook, segs: Segs, b: Bits)
    ensures |EmitSegs(book, segs, b)| == |Tails(book, segs)|
    decreases segs
  {
    if segs.More? {
      SameNumber(book, segs.others, Empty);
    }
  }

  /** The bits of a whole scan decode to its blocks. */
  lemma TransmitScan(read: seq<Reader>, book: CodeBook, s: Scan, mcus: seq<Mcu>)
    requires ReadsBook(read, book) && GoodScan(s) && GoodMcus(s, mcus)
    requires ScanInRange(s, ResetDc(s), s.interval, mcus, 14)
    requires CoveredSegs(book, ScanItems(s, ResetDc(s), s.interval, mcus))
    ensures var bits := Strings(EmitSegs(book, ScanItems(s, ResetDc(s), s.interval, mcus), Empty));
            |bits| > 0
            && ParseScan(read, s, ResetDc(s), s.interval, |mcus|, bits, 0, bits[0]).Got?
            && ParseScan(read, s, ResetDc(s), s.interval, |mcus|, bits, 0, bits[0]).value == mcus
  {
    var segs := ScanItems(s, ResetDc(s), s.interval, mcus);
    var bits, tails := Strings(EmitSegs(book, segs, Empty)), Tails(book, segs);
    SameNumber(book, segs, Empty);
    assert bits[0..] == bits && tails[0..] == tails;
    EmittedMatch(book, segs, bits, tails, 0);
    ScanRoundTrip(read, book, s, ResetDc(s), s.interval, mcus, bits, tails, 0, bits[0]);
  }
}
