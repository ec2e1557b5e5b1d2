/** Sequential Huffman coding of blocks and MCUs (sections F.1.2 and F.2.2 of T.81). */
module SeqHuffman {
  import opened Bytes
  import opened BitStrings
  import opened Coefficients
  import opened ZigZag
  import opened HuffmanCodes
  import opened HuffmanItems

  /** End of block, and a run of sixteen zeros. */
  const EOB: byte := 0x00
  const ZRL: byte := 0xF0

  function Size(v: int): nat { BitLength(Abs(v)) }

  /** The items of a DC difference. */
  function DcItems(t: TableId, diff: int, rest: Items): Items
    requires Size(diff) < 256
  {
    Sym(t, Size(diff), Raw(ExtraBits(diff), Size(diff), rest))
  }

  /** What the range checks of the encoder admit. */
  predicate AcInRange(x: Block, maxBits: nat) {
    forall i :: 1 <= i < 64 ==> Size(x[i]) <= maxBits
  }

  /** Coefficients k to 63 in zigzag order, after r zeros that are not coded yet. */
  function AcItems(t: TableId, x: Block, k: nat, r: nat, rest: Items): Items
    requires 1 <= k <= 64 && AcInRange(x, 15)
    decreases 64 - k, r
  {
    if k == 64 then if r > 0 then Sym(t, EOB, rest) else rest
    else if x[k] == 0 then AcItems(t, x, k + 1, r + 1, rest)
    else if r > 15 then Sym(t, ZRL, AcItems(t, x, k, r - 16, rest))
    else Sym(t, 16 * r + Size(x[k]), Raw(ExtraBits(x[k]), Size(x[k]), AcItems(t, x, k + 1, 0, rest)))
  }

  /** A zero is only counted. */
  lemma AcZero(t: TableId, x: Block, k: nat, r: nat, rest: Items)
    requires 1 <= k < 64 && x[k] == 0 && AcInRange(x, 15)
    ensures AcItems(t, x, k, r, rest) == AcItems(t, x, k + 1, r + 1, rest)
  {
  }

  /** Zeros that no coefficient follows are an end of block. */
  lemma AcEnd(t: TableId, x: Block, r: nat, rest: Items)
    requires AcInRange(x, 15)
    ensures AcItems(t, x, 64, r, rest) == if r > 0 then Sym(t, EOB, rest) else rest
  {
  }

  function BlockItems(dc: TableId, ac: TableId, x: Block, last: int, rest: Items): Items
    requires Size(x[0] - last) < 256 && AcInRange(x, 15)
  {
    DcItems(dc, x[0] - last, AcItems(ac, x, 1, 0, rest))
  }

  // The decoder.

  datatype Parsed<T> = Stuck | Got(value: T, rest: seq<bit>)

  function ParseDiff(read: Reader, s: seq<bit>): Parsed<int> {
    match read(s)
    case Bad => Stuck
    case Symbol(n, s') =>
      if n == 0 then Got(0, s')
      else
        match Receive(n, s')
        case Short => Stuck
        case Bits(v, s'') => Got(Extend(v, n), s'')
  }

  /** Fills coefficients k to 63 of a block that is zero there. */
  function ParseAc(read: Reader, x: Block, k: nat, s: seq<bit>): Parsed<Block>
    decreases 64 - k
  {
    if k >= 64 then Got(x, s)
    else
      match read(s)
      case Bad => Stuck
      case Symbol(rs, s') =>
        var r, n := rs / 16, rs % 16;
        if n != 0 then
          match Receive(n, s')
          case Short => Stuck
          case Bits(v, s'') => if k + r > 63 then Stuck else ParseAc(read, x[k + r := Extend(v, n)], k + r + 1, s'')
        else if r == 15 then ParseAc(read, x, k + 16, s')
        else Got(x, s')
  }

  /** A block that is zero but for its DC coefficient. */
  function DcOnly(v: int): (b: Block)
    ensures b[0] == v && forall i :: 1 <= i < 64 ==> b[i] == 0
  {
    seq(64, i => if i == 0 then v else 0)
  }

  function ParseBlock(dc: Reader, ac: Reader, last: int, s: seq<bit>): Parsed<Block> {
    match ParseDiff(dc, s)
    case Stuck => Stuck
    case Got(diff, s') => ParseAc(ac, DcOnly(last + diff), 1, s')
  }

  lemma DiffRoundTrip(read: Reader, book: CodeBook, t: TableId, diff: int, rest: Items, tail: seq<bit>)
    requires Reads(read, book[t]) && Size(diff) < 256
    requires Covered(book, DcItems(t, diff, rest))
    ensures ParseDiff(read, ItemBits(book, DcItems(t, diff, rest), tail)) == Got(diff, ItemBits(book, rest, tail))
  {
    var n := Size(diff);
    var s := ItemBits(book, rest, tail);
    ReadSymbol(read, book[t], n, ToBits(ExtraBits(diff), n) + s);
    ExtendExtra(diff);
    if n > 0 {
      ReceiveBits(ExtraBits(diff), n, s);
    } else {
      assert ToBits(ExtraBits(diff), 0) + s == s;
    }
  }

  /** y is x as far as j, and zero from there on. */
  predicate FilledTo(y: Block, x: Block, j: nat) {
    forall i :: 0 <= i < 64 ==> y[i] == if i < j then x[i] else 0
  }

  lemma FilledNext(y: Block, x: Block, j: nat, k: nat)
    requires FilledTo(y, x, j) && j <= k < 64 && forall i :: j <= i < k ==> x[i] == 0
    ensures FilledTo(y[k := x[k]], x, k + 1)
  {
  }

  lemma FilledZeros(y: Block, x: Block, j: nat, k: nat)
    requires FilledTo(y, x, j) && j <= k <= 64 && forall i :: j <= i < k ==> x[i] == 0
    ensures FilledTo(y, x, k)
    ensures k == 64 ==> y == x
  {
  }

  lemma EndRoundTrip(read: Reader, book: CodeBook, t: TableId, x: Block, y: Block, r: nat, rest: Items, tail: seq<bit>)
    requires Reads(read, book[t]) && r < 64 && AcInRange(x, 15)
    requires Covered(book, AcItems(t, x, 64, r, rest))
    ensures ParseAc(read, y, 64 - r, ItemBits(book, AcItems(t, x, 64, r, rest), tail)) == Got(y, ItemBits(book, rest, tail))
  {
    if r > 0 {
      ReadSymbol(read, book[t], EOB, ItemBits(book, rest, tail));
    }
  }

  lemma ZrlRoundTrip(read: Reader, book: CodeBook, t: TableId, x: Block, y: Block,
                     k: nat, r: nat, rest: Items, tail: seq<bit>)
    requires Reads(read, book[t]) && 16 <= r < k < 64 && x[k] != 0 && AcInRange(x, 15)
    requires Covered(book, AcItems(t, x, k, r, rest))
    ensures ParseAc(read, y, k - r, ItemBits(book, AcItems(t, x, k, r, rest), tail))
         == ParseAc(read, y, k - (r - 16), ItemBits(book, AcItems(t, x, k, r - 16, rest), tail))
  {
    ReadSymbol(read, book[t], ZRL, ItemBits(book, AcItems(t, x, k, r - 16, rest), tail));
  }

  /** One nonzero coefficient after fewer than sixteen zeros. */
  lemma CoefRoundTrip(read: Reader, book: CodeBook, t: TableId, x: Block, y: Block,
                      k: nat, r: nat, rest: Items, tail: seq<bit>)
    requires Reads(read, book[t])
    requires r < k < 64 && r <= 15 && x[k] != 0 && AcInRange(x, 15)
    requires Covered(book, AcItems(t, x, k, r, rest))
    ensures ParseAc(read, y, k - r, ItemBits(book, AcItems(t, x, k, r, rest), tail))
         == ParseAc(read, y[k := x[k]], k + 1, ItemBits(book, AcItems(t, x, k + 1, 0, rest), tail))
  {
    hide Reads, ToBits, Shl, Signed, LowBits;
    var n, v := Size(x[k]), ExtraBits(x[k]);
    var s := ItemBits(book, AcItems(t, x, k + 1, 0, rest), tail);
    ReadSymbol(read, book[t], 16 * r + n, ToBits(v, n) + s);
    assert (16 * r + n) / 16 == r && (16 * r + n) % 16 == n;
    ExtendExtra(x[k]);
    ReceiveBits(v, n, s);
  }

  /** The decoder is r zeros behind the encoder. */
  lemma {:induction false} AcRoundTrip(read: Reader, book: CodeBook, t: TableId, x: Block, y: Block,
                                       k: nat, r: nat, rest: Items, tail: seq<bit>)
    requires Reads(read, book[t])
    requires r < k <= 64 && AcInRange(x, 15)
    requires forall i :: k - r <= i < k ==> x[i] == 0
    requires FilledTo(y, x, k - r)
    requires Covered(book, AcItems(t, x, k, r, rest))
    ensures ParseAc(read, y, k - r, ItemBits(book, AcItems(t, x, k, r, rest), tail)) == Got(x, ItemBits(book, rest, tail))
    decreases 64 - k, r
  {
    hide Reads, FilledTo, AcInRange, ParseAc, ItemBits;
    if k == 64 {
      FilledZeros(y, x, 64 - r, 64);
      EndRoundTrip(read, book, t, x, y, r, rest, tail);
    } else if x[k] == 0 {
      AcRoundTrip(read, book, t, x, y, k + 1, r + 1, rest, tail);
    } else if r > 15 {
      ZrlRoundTrip(read, book, t, x, y, k, r, rest, tail);
      FilledZeros(y, x, k - r, k - (r - 16));
      AcRoundTrip(read, book, t, x, y, k, r - 16, rest, tail);
    } else {
      CoefRoundTrip(read, book, t, x, y, k, r, rest, tail);
      FilledNext(y, x, k - r, k);
      AcRoundTrip(read, book, t, x, y[k := x[k]], k + 1, 0, rest, tail);
    }
  }

  lemma FilledDc(x: Block)
    ensures FilledTo(DcOnly(x[0]), x, 1)
  {
  }

  lemma CoveredDc(book: CodeBook, t: TableId, diff: int, rest: Items)
    requires Size(diff) < 256 && Covered(book, DcItems(t, diff, rest))
    ensures Covered(book, rest)
  {
  }

  /** A block decodes from exactly its own bits. */
  lemma BlockRoundTrip(dc: Reader, ac: Reader, book: CodeBook, dcTbl: TableId, acTbl: TableId, x: Block, last: int,
                       rest: Items, tail: seq<bit>)
    requires Reads(dc, book[dcTbl]) && Reads(ac, book[acTbl])
    requires Size(x[0] - last) < 256 && AcInRange(x, 15)
    requires Covered(book, BlockItems(dcTbl, acTbl, x, last, rest))
    ensures ParseBlock(dc, ac, last, ItemBits(book, BlockItems(dcTbl, acTbl, x, last, rest), tail))
         == Got(x, ItemBits(book, rest, tail))
  {
    var diff, items := x[0] - last, AcItems(acTbl, x, 1, 0, rest);
    CoveredDc(book, dcTbl, diff, items);
    DiffRoundTrip(dc, book, dcTbl, diff, items, tail);
    FilledDc(x);
    AcRoundTrip(ac, book, acTbl, x, DcOnly(x[0]), 1, 0, rest, tail);
    Chain(dc, ac, last, diff, x[0], ItemBits(book, DcItems(dcTbl, diff, items), tail), ItemBits(book, items, tail));
  }

  lemma Chain(dc: Reader, ac: Reader, last: int, diff: int, v: int, s: seq<bit>, s': seq<bit>)
    requires ParseDiff(dc, s) == Got(diff, s') && v == last + diff
    ensures ParseBlock(dc, ac, last, s) == ParseAc(ac, DcOnly(v), 1, s')
  {
  }
}
