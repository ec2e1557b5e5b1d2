/**
 * What a Huffman scan is made of before it becomes bits: symbols, each with a table, and raw bits.
 * The same items are counted by a statistics pass and written by an output pass.
 */
module HuffmanItems {
  import opened Bytes
  import opened BitStrings
  import opened Coefficients
  import opened Words
  import opened BitLogs
  import opened HuffmanCodes
  import opened HuffmanDerivation

  /** DC tables have numbers 0 to 3, AC tables 4 to 7. */
  const NUM_TABLES := 8

  type TableId = n: nat | n < NUM_TABLES

  function DcTable(n: nat): TableId
    requires n < 4
  {
    n
  }

  function AcTable(n: nat): TableId
    requires n < 4
  {
    4 + n
  }

  /** DC and AC tables are apart, and so are the tables of different numbers. */
  lemma TablesApart(m: nat, n: nat)
    requires m < 4 && n < 4
    ensures DcTable(m) != AcTable(n) && (m != n ==> DcTable(m) != DcTable(n) && AcTable(m) != AcTable(n))
  {
  }

  datatype Items =
    | Nil
    | Sym(table: TableId, symbol: byte, rest: Items)
    | Raw(value: nat, size: nat, rest: Items)

  /** A derived table: code and size of every symbol. */
  datatype DerivedTable = DerivedTable(co: seq<nat>, si: seq<nat>)

  type Codes = c: DerivedTable | |c.co| == 256 == |c.si| witness NoCodes()

  type CodeBook = b: seq<Codes> | |b| == NUM_TABLES witness seq(NUM_TABLES, _ => NoCodes())

  function NoCodes(): DerivedTable { DerivedTable(seq(256, _ => 0), seq(256, _ => 0)) }

  /** Every code fits its size, and no size is over 16. */
  ghost predicate GoodBook(book: CodeBook) {
    forall t :: 0 <= t < NUM_TABLES ==> GoodCodes(book[t])
  }

  ghost predicate GoodCodes(c: Codes) {
    forall s :: 0 <= s < 256 ==> c.si[s] <= 16 && c.co[s] < Pow2(c.si[s])
  }

  /** Appends the bits of all items. */
  ghost function Emit(book: CodeBook, items: Items, b: Bits): Bits
    decreases items
  {
    match items
    case Nil => b
    case Sym(t, s, rest) => Emit(book, rest, Put(b, book[t].co[s], book[t].si[s]))
    case Raw(v, n, rest) => Emit(book, rest, Put(b, v, n))
  }

  /** The bits of all items, then tail. */
  ghost function ItemBits(book: CodeBook, items: Items, tail: seq<bit>): seq<bit>
    decreases items
  {
    match items
    case Nil => tail
    case Sym(t, s, rest) => ToBits(book[t].co[s], book[t].si[s]) + ItemBits(book, rest, tail)
    case Raw(v, n, rest) => ToBits(v, n) + ItemBits(book, rest, tail)
  }

  lemma {:induction false} EmitBits(book: CodeBook, items: Items, b: Bits, tail: seq<bit>)
    ensures Prepend(Emit(book, items, b), tail) == Prepend(b, ItemBits(book, items, tail))
    decreases items
  {
    match items
    case Nil =>
    case Sym(t, s, rest) =>
      EmitBits(book, rest, Put(b, book[t].co[s], book[t].si[s]), tail);
      PrependPut(b, book[t].co[s], book[t].si[s], ItemBits(book, rest, tail));
    case Raw(v, n, rest) =>
      EmitBits(book, rest, Put(b, v, n), tail);
      PrependPut(b, v, n, ItemBits(book, rest, tail));
  }

  /** How often a symbol of a table occurs. */
  function Uses(items: Items, t: TableId, s: byte): nat {
    match items
    case Nil => 0
    case Sym(t', s', rest) => (if t' == t && s' == s then 1 else 0) + Uses(rest, t, s)
    case Raw(_, _, rest) => Uses(rest, t, s)
  }

  /** Every symbol has a code. */
  predicate Covered(book: CodeBook, items: Items)
    decreases items
  {
    match items
    case Nil => true
    case Sym(t, s, rest) => book[t].si[s] > 0 && Covered(book, rest)
    case Raw(_, _, rest) => Covered(book, rest)
  }

  lemma {:induction false} UsesCovered(book: CodeBook, items: Items)
    requires forall t: TableId, s: byte :: Uses(items, t, s) > 0 ==> book[t].si[s] > 0
    ensures Covered(book, items)
    decreases items
  {
    match items
    case Nil =>
    case Sym(t, s, rest) =>
      assert Uses(items, t, s) > 0;
      forall t: TableId, s: byte | Uses(rest, t, s) > 0
        ensures book[t].si[s] > 0
      {
        assert Uses(items, t, s) > 0;
      }
      UsesCovered(book, rest);
    case Raw(_, _, rest) =>
      forall t: TableId, s: byte | Uses(rest, t, s) > 0
        ensures book[t].si[s] > 0
      {
        assert Uses(items, t, s) > 0;
      }
      UsesCovered(book, rest);
  }

  // Statistics.

  /** Counts of every symbol of every table; entry 256 is for the pseudo-symbol. */
  type Stats = seq<seq<nat>>

  predicate GoodStats(c: Stats) {
    |c| == NUM_TABLES && forall t :: 0 <= t < NUM_TABLES ==> |c[t]| == 257
  }

  function Bump(c: Stats, t: TableId, s: byte): (r: Stats)
    requires GoodStats(c)
    ensures GoodStats(r)
  {
    c[t := c[t][s := c[t][s] + 1]]
  }

  /** The counts after all items. */
  function Tally(items: Items, c: Stats): (r: Stats)
    requires GoodStats(c)
    ensures GoodStats(r)
    decreases items
  {
    match items
    case Nil => c
    case Sym(t, s, rest) => Tally(rest, Bump(c, t, s))
    case Raw(_, _, rest) => Tally(rest, c)
  }

  /** The counts are of exactly the symbols among the items. */
  lemma {:induction false} TallyUses(items: Items, c: Stats, t: TableId, s: byte)
    requires GoodStats(c)
    ensures Tally(items, c)[t][s] == c[t][s] + Uses(items, t, s)
    decreases items
  {
    match items
    case Nil =>
    case Sym(t', s', rest) => TallyUses(rest, Bump(c, t', s'), t, s);
    case Raw(_, _, rest) => TallyUses(rest, c, t, s);
  }

  // Reading symbols and bits.

  /** The tables a decoder has, and the codes derived from each of them. */
  ghost predicate BookOf(tables: seq<Table>, book: CodeBook) {
    && |tables| == NUM_TABLES
    && (forall t :: 0 <= t < NUM_TABLES ==> AcceptedBook(tables[t], book[t]))
  }

  ghost predicate AcceptedBook(t: Table, c: Codes) {
    Accepts(t, 255) && Derived(t, c.co, c.si)
  }

  lemma DerivedFits(t: Table, c: Codes)
    requires AcceptedBook(t, c)
    ensures GoodCodes(c)
  {
    var n := Total(t.bits, Last(t.bits));
    forall s | 0 <= s < 256
      ensures c.si[s] <= 16 && c.co[s] < Pow2(c.si[s])
    {
      if s in t.huffval[..n] {
        var p :| 0 <= p < n && t.huffval[..n][p] == s;
        assert t.huffval[p] == s;
        CodeFits(t, p);
      }
    }
  }

  lemma BookFits(tables: seq<Table>, book: CodeBook)
    requires BookOf(tables, book)
    ensures GoodBook(book)
  {
    forall t | 0 <= t < NUM_TABLES
      ensures GoodCodes(book[t])
    {
      DerivedFits(tables[t], book[t]);
    }
  }

  /** A symbol with a code is read back by the decoder. */
  lemma DecodeSymbol(t: Table, c: Codes, s: byte, rest: seq<bit>)
    requires AcceptedBook(t, c) && c.si[s] > 0
    ensures Decode(t, ToBits(c.co[s], c.si[s]) + rest) == Symbol(s, rest)
  {
    var n := Total(t.bits, Last(t.bits));
    assert s in t.huffval[..n];
    var p :| 0 <= p < n && t.huffval[..n][p] == s;
    assert t.huffval[p] == s;
    DecodeWord(t, p, rest);
  }

  /** What a decoder does to read one symbol. */
  type Reader = seq<bit> -> Decoded

  function DecoderOf(t: Table): Reader {
    s => if Formed(t) && Total(t.bits, Last(t.bits)) <= 256 then Decode(t, s) else Bad
  }

  function DecodersOf(tables: seq<Table>): (r: seq<Reader>)
    ensures |r| == |tables|
    ensures forall t :: 0 <= t < |tables| ==> r[t] == DecoderOf(tables[t])
  {
    seq(|tables|, t requires 0 <= t < |tables| => DecoderOf(tables[t]))
  }

  /** The reader reads every symbol that has a code. */
  ghost predicate Reads(read: Reader, c: Codes) {
    forall s: byte, rest :: c.si[s] > 0 ==> read(ToBits(c.co[s], c.si[s]) + rest) == Symbol(s, rest)
  }

  lemma ReadSymbol(read: Reader, c: Codes, s: byte, rest: seq<bit>)
    requires Reads(read, c) && c.si[s] > 0
    ensures read(ToBits(c.co[s], c.si[s]) + rest) == Symbol(s, rest)
  {
  }

  /** Decoders of accepted tables read the codes derived from them. */
  lemma AcceptedReads(t: Table, c: Codes)
    requires AcceptedBook(t, c)
    ensures Reads(DecoderOf(t), c)
  {
    forall s: byte, rest: seq<bit> | c.si[s] > 0
      ensures DecoderOf(t)(ToBits(c.co[s], c.si[s]) + rest) == Symbol(s, rest)
    {
      DecodeSymbol(t, c, s, rest);
    }
  }

  ghost predicate ReadsBook(read: seq<Reader>, book: CodeBook) {
    |read| == NUM_TABLES && forall t :: 0 <= t < NUM_TABLES ==> Reads(read[t], book[t])
  }

  lemma BookReads(tables: seq<Table>, book: CodeBook)
    requires BookOf(tables, book)
    ensures ReadsBook(DecodersOf(tables), book)
  {
    forall t | 0 <= t < NUM_TABLES
      ensures Reads(DecodersOf(tables)[t], book[t])
    {
      AcceptedReads(tables[t], book[t]);
    }
  }

  datatype Received = Short | Bits(value: nat, rest: seq<bit>)

  /** The next n bits as a number. */
  function Receive(n: nat, s: seq<bit>): Received {
    if |s| < n then Short else Bits(FromBits(s[..n]), s[n..])
  }

  lemma ReceiveBits(v: nat, n: nat, rest: seq<bit>)
    requires v < Pow2(n)
    ensures Receive(n, ToBits(v, n) + rest) == Bits(v, rest)
  {
    var s := ToBits(v, n) + rest;
    FromToBits(v, n);
    assert s[..n] == ToBits(v, n) && s[n..] == rest;
  }

  // Signed values in a given number of bits (Table F.1 and Figure F.12 of T.81).

  /** The low n bits of a two's complement integer. */
  function LowBits(v: int, n: nat): nat
  {
    if v >= 0 then Wrap(v, n)
    else
      WrapBound(0 - v - 1, n);
      Pow2(n) - 1 - Wrap(0 - v - 1, n)
  }

  /** The additional bits of a value: the value itself, or one less if it is negative. */
  function ExtraBits(v: int): nat {
    LowBits(if v < 0 then v - 1 else v, BitLength(Abs(v)))
  }

  function Extend(x: nat, n: nat): int {
    if n == 0 then x else if x < Pow2(n - 1) then x - Pow2(n) + 1 else x
  }

  /** The additional bits determine the value, given how many there are. */
  lemma ExtendExtra(v: int)
    ensures ExtraBits(v) < Pow2(BitLength(Abs(v)))
    ensures Extend(ExtraBits(v), BitLength(Abs(v))) == v
  {
    var n := BitLength(Abs(v));
    BitLengthBounds(Abs(v));
    WrapSmall(Abs(v), n);
  }
}
