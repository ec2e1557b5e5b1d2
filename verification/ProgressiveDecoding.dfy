/** Decoding progressive AC scans, and the round trip of a segment. */
module ProgressiveDecoding {
  import opened Bytes
  import opened BitStrings
  import opened Coefficients
  import opened ZigZag
  import opened HuffmanCodes
  import opened HuffmanItems
  import opened SeqHuffman
  import opened ProgressiveBands

  /** What is known of a coefficient before the scan: all but the last bit, or nothing. */
  function Known(b: Band, v: int): int { if b.refine then Halve(v) else 0 }

  /** The block with the band decoded up to k. */
  function At(b: Band, x: Block, k: nat): (y: Block)
    ensures forall i :: 0 <= i < 64 ==> y[i] == if b.ss <= i <= b.se && i >= k then Known(b, x[i]) else x[i]
  {
    seq(64, i requires 0 <= i < 64 => if b.ss <= i <= b.se && i >= k then Known(b, x[i]) else x[i])
  }

  /** A known coefficient with one more bit of precision. */
  function Refined(v: int, bit: bit): int { Signed(SignBit(v), 2 * Abs(v) + bit) }

  datatype Passed = NoBits | Passed(block: Block, k: nat, rest: seq<bit>)

  /** Passes r zeros, correcting the nonzero coefficients on the way, and stops at the next zero. */
  function Pass(b: Band, y: Block, k: nat, r: nat, s: seq<bit>): (p: Passed)
    requires GoodBand(b)
    ensures p.Passed? ==> p.k >= k
    decreases b.se + 1 - k
  {
    if k > b.se then Passed(y, k, s)
    else if y[k] != 0 then
      if s == [] then NoBits else Pass(b, y[k := Refined(y[k], s[0])], k + 1, r, s[1..])
    else if r == 0 then Passed(y, k, s)
    else Pass(b, y, k + 1, r - 1, s)
  }

  /** Corrects the nonzero coefficients in the rest of the band. */
  function Correct(b: Band, y: Block, k: nat, s: seq<bit>): Passed
    requires GoodBand(b)
    decreases b.se + 1 - k
  {
    if k > b.se then Passed(y, k, s)
    else if y[k] != 0 then
      if s == [] then NoBits else Correct(b, y[k := Refined(y[k], s[0])], k + 1, s[1..])
    else Correct(b, y, k + 1, s)
  }

  /** A block, the blocks left in the end-of-block run, and the bits left. */
  datatype BandResult = Failed | Band(block: Block, left: nat, rest: seq<bit>)

  function ParseBand(read: Reader, b: Band, y: Block, k: nat, s: seq<bit>): BandResult
    requires GoodBand(b)
    decreases b.se + 1 - k
  {
    if k > b.se then BandResult.Band(y, 0, s)
    else
      match read(s)
      case Bad => Failed
      case Symbol(rs, s1) =>
        var r, n := rs / 16, rs % 16;
        if n != 0 then
          if b.refine && n != 1 then Failed
          else
            match Receive(n, s1)
            case Short => Failed
            case Bits(v, s2) =>
              match Pass(b, y, k, r, s2)
              case NoBits => Failed
              case Passed(y', k', s3) =>
                if k' > b.se then Failed else ParseBand(read, b, y'[k' := Extend(v, n)], k' + 1, s3)
        else if r == 15 then
          match Pass(b, y, k, 15, s1)
          case NoBits => Failed
          case Passed(y', k', s2) => ParseBand(read, b, y', k' + 1, s2)
        else
          match Receive(r, s1)
          case Short => Failed
          case Bits(v, s2) =>
            match Correct(b, y, k, s2)
            case NoBits => Failed
            case Passed(y', _, s3) => BandResult.Band(y', Pow2(r) + v - 1, s3)
  }

  /** One block after the other; left blocks belong to a run announced before. */
  function ParseBands(read: Reader, b: Band, ys: seq<Block>, left: nat, s: seq<bit>): Parsed<seq<Block>>
    requires GoodBand(b)
    decreases |ys|
  {
    if ys == [] then Got([], s)
    else if left > 0 then
      match Correct(b, ys[0], b.ss, s)
      case NoBits => Stuck
      case Passed(x, _, s') => Prefix(x, ParseBands(read, b, ys[1..], left - 1, s'))
    else
      match ParseBand(read, b, ys[0], b.ss, s)
      case Failed => Stuck
      case Band(x, left', s') => Prefix(x, ParseBands(read, b, ys[1..], left', s'))
  }

  function Prefix(x: Block, p: Parsed<seq<Block>>): Parsed<seq<Block>> {
    match p
    case Stuck => Stuck
    case Got(xs, s) => Got([x] + xs, s)
  }

  // Bits of items.

  lemma RawOne(book: CodeBook, x: bit, rest: Items, tail: seq<bit>)
    ensures ItemBits(book, Raw(x, 1, rest), tail) == [x] + ItemBits(book, rest, tail)
  {
    assert ToBits(x, 1) == [x];
  }

  lemma AtNext(b: Band, x: Block, k: nat)
    requires GoodBand(b) && b.ss <= k <= b.se
    ensures At(b, x, k)[k := x[k]] == At(b, x, k + 1)
    ensures At(b, x, k)[k] == Known(b, x[k])
    ensures Known(b, x[k]) == x[k] ==> At(b, x, k) == At(b, x, k + 1)
  {
  }

  /** A correction bit restores a known coefficient; a new one is not known, and zero stays zero. */
  lemma Refines(b: Band, v: int)
    ensures IsOld(b, v) ==> Known(b, v) != 0 && Refined(Known(b, v), Correction(v)) == v
    ensures !IsOld(b, v) ==> Known(b, v) == 0
    ensures !IsOld(b, v) && !IsNew(b, v) ==> v == 0
  {
  }

  /** Only old coefficients and zeros from k on: their correction bits complete the block. */
  lemma {:induction false} CorrectRest(book: CodeBook, b: Band, x: Block, k: nat, rest: Items, tail: seq<bit>)
    requires GoodBand(b) && b.ss <= k <= b.se + 1
    requires forall i :: k <= i <= b.se ==> !IsNew(b, x[i])
    ensures Correct(b, At(b, x, k), k, ItemBits(book, RawBits(Corrections(b, x, k), rest), tail))
         == Passed(x, b.se + 1, ItemBits(book, rest, tail))
    decreases b.se + 1 - k
  {
    if k > b.se {
      assert At(b, x, k) == x;
    } else {
      AtNext(b, x, k);
      Refines(b, x[k]);
      CorrectRest(book, b, x, k + 1, rest, tail);
      if IsOld(b, x[k]) {
        var more := Corrections(b, x, k + 1);
        assert ([Correction(x[k])] + more)[1..] == more;
        RawOne(book, Correction(x[k]), RawBits(more, rest), tail);
      }
    }
  }

  // Passing zeros and known coefficients.

  /** From j to k there are r zeros, and known coefficients with the correction bits br, but no new ones. */
  predicate Between(b: Band, x: Block, j: nat, k: nat, r: nat, br: seq<bit>)
    requires k <= 64
    decreases k - j
  {
    if j >= k then j == k && r == 0 && br == []
    else if x[j] == 0 then r > 0 && Between(b, x, j + 1, k, r - 1, br)
    else IsOld(b, x[j]) && br != [] && br[0] == Correction(x[j]) && Between(b, x, j + 1, k, r, br[1..])
  }

  lemma {:induction false} BetweenZero(b: Band, x: Block, j: nat, k: nat, r: nat, br: seq<bit>)
    requires k < 64 && Between(b, x, j, k, r, br) && x[k] == 0
    ensures Between(b, x, j, k + 1, r + 1, br)
    decreases k - j
  {
    if j < k {
      if x[j] == 0 {
        BetweenZero(b, x, j + 1, k, r - 1, br);
      } else {
        BetweenZero(b, x, j + 1, k, r, br[1..]);
      }
    }
  }

  lemma {:induction false} BetweenOld(b: Band, x: Block, j: nat, k: nat, r: nat, br: seq<bit>)
    requires k < 64 && Between(b, x, j, k, r, br) && IsOld(b, x[k])
    ensures Between(b, x, j, k + 1, r, br + [Correction(x[k])])
    decreases k - j
  {
    if j < k {
      if x[j] == 0 {
        BetweenOld(b, x, j + 1, k, r - 1, br);
      } else {
        assert (br + [Correction(x[k])])[1..] == br[1..] + [Correction(x[k])];
        BetweenOld(b, x, j + 1, k, r, br[1..]);
      }
    } else {
      assert [Correction(x[k])][1..] == [];
      assert Between(b, x, k + 1, k + 1, 0, []);
      assert br + [Correction(x[k])] == [Correction(x[k])];
    }
  }

  lemma {:induction false} BetweenZeros(b: Band, x: Block, j: nat, m: nat, k: nat, r: nat, br: seq<bit>)
    requires m <= k <= 64 && Between(b, x, j, m, r, br) && forall i :: m <= i < k ==> x[i] == 0
    ensures Between(b, x, j, k, r + (k - m), br)
    decreases k - m
  {
    if m < k {
      BetweenZero(b, x, j, m, r, br);
      BetweenZeros(b, x, j, m + 1, k, r + 1, br);
    }
  }

  /** The decoder passes from j to a coefficient at k that it takes for zero. */
  lemma {:induction false} PassBetween(book: CodeBook, b: Band, x: Block, j: nat, k: nat, r: nat, br: seq<bit>,
                                       rest: Items, tail: seq<bit>)
    requires GoodBand(b) && b.ss <= j <= k <= b.se
    requires Between(b, x, j, k, r, br) && Known(b, x[k]) == 0
    ensures Pass(b, At(b, x, j), j, r, ItemBits(book, RawBits(br, rest), tail))
         == Passed(At(b, x, k), k, ItemBits(book, rest, tail))
    decreases k - j
  {
    AtNext(b, x, j);
    Refines(b, x[j]);
    if j < k {
      if x[j] == 0 {
        PassBetween(book, b, x, j + 1, k, r - 1, br, rest, tail);
      } else {
        RawOne(book, br[0], RawBits(br[1..], rest), tail);
        PassBetween(book, b, x, j + 1, k, r, br[1..], rest, tail);
      }
    }
  }

  // Symbols.

  lemma ParseNew(read: Reader, b: Band, y: Block, j: nat, s: seq<bit>, r: nat, n: nat, s1: seq<bit>, v: nat, s2: seq<bit>,
                 y': Block, k: nat, s3: seq<bit>)
    requires GoodBand(b) && j <= b.se && r < 16 && 0 < n < 16 && (b.refine ==> n == 1)
    requires read(s) == Symbol(16 * r + n, s1) && Receive(n, s1) == Bits(v, s2)
    requires Pass(b, y, j, r, s2) == Passed(y', k, s3) && k <= b.se
    ensures ParseBand(read, b, y, j, s) == ParseBand(read, b, y'[k := Extend(v, n)], k + 1, s3)
  {
    hide Extend, Pass, Receive;
    assert (16 * r + n) / 16 == r && (16 * r + n) % 16 == n;
  }

  /** A value of n additional bits v. */
  lemma NewBits(read: Reader, c: Codes, r: nat, n: nat, v: nat, s2: seq<bit>)
    requires Reads(read, c) && r <= 15 && n <= 15 && c.si[RunSize(r, n)] > 0 && v < Pow2(n)
    ensures read(ToBits(c.co[RunSize(r, n)], c.si[RunSize(r, n)]) + (ToBits(v, n) + s2)) == Symbol(16 * r + n, ToBits(v, n) + s2)
    ensures Receive(n, ToBits(v, n) + s2) == Bits(v, s2)
  {
    ReadSymbol(read, c, RunSize(r, n), ToBits(v, n) + s2);
    ReceiveBits(v, n, s2);
  }

  /** A new coefficient at k, with the decoder at j. */
  lemma NewRoundTrip(read: Reader, book: CodeBook, t: TableId, b: Band, x: Block, j: nat, k: nat, r: nat, br: seq<bit>,
                     n: nat, v: nat, rest: Items, tail: seq<bit>)
    requires Reads(read, book[t]) && GoodBand(b) && b.ss <= j <= k <= b.se
    requires Between(b, x, j, k, r, br) && Known(b, x[k]) == 0 && r <= 15 && book[t].si[RunSize(r, n)] > 0
    requires 0 < n <= 15 && (b.refine ==> n == 1) && v < Pow2(n) && Extend(v, n) == x[k]
    ensures ParseBand(read, b, At(b, x, j), j, ItemBits(book, Sym(t, RunSize(r, n), Raw(v, n, RawBits(br, rest))), tail))
         == ParseBand(read, b, At(b, x, k + 1), k + 1, ItemBits(book, rest, tail))
  {
    var s2, s3, c := ItemBits(book, RawBits(br, rest), tail), ItemBits(book, rest, tail), book[t];
    NewBits(read, c, r, n, v, s2);
    PassBetween(book, b, x, j, k, r, br, rest, tail);
    AtNext(b, x, k);
    ParseNew(read, b, At(b, x, j), j, ToBits(c.co[RunSize(r, n)], c.si[RunSize(r, n)]) + (ToBits(v, n) + s2),
             r, n, ToBits(v, n) + s2, v, s2, At(b, x, k), k, s3);
  }

  lemma NewValue(b: Band, x: Block, k: nat)
    requires GoodBand(b) && b.ss <= k <= b.se && IsNew(b, x[k]) && Sized(b, x)
    ensures 0 < Size(x[k]) <= 15 && (b.refine ==> Size(x[k]) == 1) && Known(b, x[k]) == 0
    ensures ExtraBits(x[k]) < Pow2(Size(x[k])) && Extend(ExtraBits(x[k]), Size(x[k])) == x[k]
  {
    NewSize(b, x, k);
    ExtendExtra(x[k]);
    Refines(b, x[k]);
  }

  /** Sixteen zeros, the last of them at q, with the decoder at j. */
  lemma ZrlPasses(read: Reader, book: CodeBook, t: TableId, b: Band, x: Block, j: nat, q: nat, br: seq<bit>,
                  rest: Items, tail: seq<bit>)
    requires Reads(read, book[t]) && GoodBand(b) && b.ss <= j <= q <= b.se
    requires Between(b, x, j, q, 15, br) && x[q] == 0 && book[t].si[ZRL] > 0
    ensures ParseBand(read, b, At(b, x, j), j, ItemBits(book, Sym(t, ZRL, RawBits(br, rest)), tail))
         == ParseBand(read, b, At(b, x, q + 1), q + 1, ItemBits(book, rest, tail))
  {
    hide Between;
    ReadSymbol(read, book[t], ZRL, ItemBits(book, RawBits(br, rest), tail));
    PassBetween(book, b, x, j, q, 15, br, rest, tail);
    AtNext(b, x, q);
  }

  lemma {:induction false} CoveredRaw(book: CodeBook, s: seq<bit>, rest: Items)
    ensures Covered(book, RawBits(s, rest)) == Covered(book, rest)
    decreases |s|
  {
    if s != [] {
      CoveredRaw(book, s[1..], rest);
    }
  }

  // The cases of the encoder's loop over a block.

  /** With the decoder at j and the encoder at k, the decoder gets to the end of the symbols, if all are covered. */
  ghost predicate Reaches(read: Reader, book: CodeBook, t: TableId, b: Band, x: Block, eob: nat,
                          j: nat, k: nat, r: nat, br: seq<bit>, rest: Items, tail: seq<bit>)
    requires GoodBand(b) && eob <= 63
  {
    Covered(book, BlockSymbols(t, b, x, k, r, br, eob, rest)) ==>
      Covered(book, rest)
      && ParseBand(read, b, At(b, x, j), j, ItemBits(book, BlockSymbols(t, b, x, k, r, br, eob, rest), tail))
         == ParseBand(read, b, At(b, x, eob + 1), eob + 1, ItemBits(book, rest, tail))
  }

  lemma SymbolZero(read: Reader, book: CodeBook, t: TableId, b: Band, x: Block, eob: nat,
                   j: nat, k: nat, r: nat, br: seq<bit>, rest: Items, tail: seq<bit>)
    requires GoodBand(b) && k <= eob <= 63 && x[k] == 0
    requires Reaches(read, book, t, b, x, eob, j, k + 1, r + 1, br, rest, tail)
    ensures Reaches(read, book, t, b, x, eob, j, k, r, br, rest, tail)
  {
  }

  lemma SymbolOld(read: Reader, book: CodeBook, t: TableId, b: Band, x: Block, eob: nat,
                  j: nat, k: nat, r: nat, br: seq<bit>, rest: Items, tail: seq<bit>)
    requires GoodBand(b) && k <= eob <= 63 && x[k] != 0 && r <= 15 && !IsNew(b, x[k])
    requires Reaches(read, book, t, b, x, eob, j, k + 1, r, br + [Correction(x[k])], rest, tail)
    ensures Reaches(read, book, t, b, x, eob, j, k, r, br, rest, tail)
  {
  }

  lemma SymbolZrl(read: Reader, book: CodeBook, t: TableId, b: Band, x: Block, eob: nat,
                  j: nat, q: nat, k: nat, r: nat, br: seq<bit>, rest: Items, tail: seq<bit>)
    requires Reads(read, book[t]) && GoodBand(b) && b.ss <= j <= q < k <= eob <= b.se
    requires x[k] != 0 && r > 15 && Between(b, x, j, q, 15, br) && x[q] == 0
    requires Reaches(read, book, t, b, x, eob, q + 1, k, r - 16, [], rest, tail)
    ensures Reaches(read, book, t, b, x, eob, j, k, r, br, rest, tail)
  {
    if Covered(book, BlockSymbols(t, b, x, k, r, br, eob, rest)) {
      var more := BlockSymbols(t, b, x, k, r - 16, [], eob, rest);
      CoveredRaw(book, br, more);
      ZrlPasses(read, book, t, b, x, j, q, br, more, tail);
    }
  }

  lemma SymbolNew(read: Reader, book: CodeBook, t: TableId, b: Band, x: Block, eob: nat,
                  j: nat, k: nat, r: nat, br: seq<bit>, rest: Items, tail: seq<bit>)
    requires Reads(read, book[t]) && GoodBand(b) && Sized(b, x) && b.ss <= j <= k <= eob <= b.se
    requires Between(b, x, j, k, r, br) && IsNew(b, x[k]) && r <= 15
    requires Reaches(read, book, t, b, x, eob, k + 1, k + 1, 0, [], rest, tail)
    ensures Reaches(read, book, t, b, x, eob, j, k, r, br, rest, tail)
  {
    var more, n, v := BlockSymbols(t, b, x, k + 1, 0, [], eob, rest), Size(x[k]), ExtraBits(x[k]);
    NewItems(t, b, x, eob, k, r, br, rest, n, v);
    NewValue(b, x, k);
    NewReaches(read, book, t, b, x, j, k, r, br, n, v, more, tail);
  }

  lemma NewItems(t: TableId, b: Band, x: Block, eob: nat, k: nat, r: nat, br: seq<bit>, rest: Items, n: nat, v: nat)
    requires k <= eob <= 63 && IsNew(b, x[k]) && r <= 15 && n == Size(x[k]) && v == ExtraBits(x[k])
    ensures BlockSymbols(t, b, x, k, r, br, eob, rest)
         == Sym(t, RunSize(r, n), Raw(v, n, RawBits(br, BlockSymbols(t, b, x, k + 1, 0, [], eob, rest))))
  {
  }

  lemma CoveredSym(book: CodeBook, t: TableId, s: byte, v: nat, n: nat, rest: Items)
    ensures Covered(book, Sym(t, s, Raw(v, n, rest))) == (book[t].si[s] > 0 && Covered(book, rest))
  {
    assert Covered(book, Raw(v, n, rest)) == Covered(book, rest);
  }

  lemma NewReaches(read: Reader, book: CodeBook, t: TableId, b: Band, x: Block, j: nat, k: nat, r: nat, br: seq<bit>,
                   n: nat, v: nat, more: Items, tail: seq<bit>)
    requires Reads(read, book[t]) && GoodBand(b) && b.ss <= j <= k <= b.se
    requires Between(b, x, j, k, r, br) && Known(b, x[k]) == 0 && r <= 15
    requires 0 < n <= 15 && (b.refine ==> n == 1) && v < Pow2(n) && Extend(v, n) == x[k]
    ensures var items := Sym(t, RunSize(r, n), Raw(v, n, RawBits(br, more)));
            Covered(book, items) ==>
              Covered(book, more)
              && ParseBand(read, b, At(b, x, j), j, ItemBits(book, items, tail))
                 == ParseBand(read, b, At(b, x, k + 1), k + 1, ItemBits(book, more, tail))
  {
    CoveredSym(book, t, RunSize(r, n), v, n, RawBits(br, more));
    CoveredRaw(book, br, more);
    if book[t].si[RunSize(r, n)] > 0 {
      NewRoundTrip(read, book, t, b, x, j, k, r, br, n, v, more, tail);
    }
  }

  lemma SymbolsDone(read: Reader, book: CodeBook, t: TableId, b: Band, x: Block, eob: nat, rest: Items, tail: seq<bit>)
    requires GoodBand(b) && eob <= 63
    ensures Reaches(read, book, t, b, x, eob, eob + 1, eob + 1, 0, [], rest, tail)
  {
  }

  /**
   * The symbols of a block. The decoder is at j; from there to m there are r0 zeros and the correction bits
   * br, and only zeros from m to k, where the encoder is.
   */
  lemma {:induction false} SymbolsRoundTrip(read: Reader, book: CodeBook, t: TableId, b: Band, x: Block, eob: nat,
                                            j: nat, m: nat, k: nat, r0: nat, br: seq<bit>, rest: Items, tail: seq<bit>)
    requires Reads(read, book[t]) && GoodBand(b) && Sized(b, x)
    requires eob <= b.se && (k <= eob ==> IsNew(b, x[eob]))
    requires b.ss <= j <= m <= k <= eob || (j == m == k == eob + 1 && r0 == 0 && br == [])
    requires Between(b, x, j, m, r0, br) && r0 <= 15 && forall i :: m <= i < k ==> x[i] == 0
    ensures Reaches(read, book, t, b, x, eob, j, k, r0 + (k - m), br, rest, tail)
    decreases 64 - k, r0 + (k - m)
  {
    hide Reaches, Reads, Sized;
    var r := r0 + (k - m);
    if k > eob {
      SymbolsDone(read, book, t, b, x, eob, rest, tail);
    } else if x[k] == 0 {
      SymbolsRoundTrip(read, book, t, b, x, eob, j, m, k + 1, r0, br, rest, tail);
      SymbolZero(read, book, t, b, x, eob, j, k, r, br, rest, tail);
    } else if r > 15 {
      var q := m + (15 - r0);
      BetweenZeros(b, x, j, m, q, r0, br);
      SymbolsRoundTrip(read, book, t, b, x, eob, q + 1, q + 1, k, 0, [], rest, tail);
      SymbolZrl(read, book, t, b, x, eob, j, q, k, r, br, rest, tail);
    } else {
      BetweenZeros(b, x, j, m, k, r0, br);
      if IsNew(b, x[k]) {
        SymbolsRoundTrip(read, book, t, b, x, eob, k + 1, k + 1, k + 1, 0, [], rest, tail);
        SymbolNew(read, book, t, b, x, eob, j, k, r, br, rest, tail);
      } else {
        Refines(b, x[k]);
        BetweenOld(b, x, j, k, r, br);
        SymbolsRoundTrip(read, book, t, b, x, eob, j, k + 1, k + 1, r, br + [Correction(x[k])], rest, tail);
        SymbolOld(read, book, t, b, x, eob, j, k, r, br, rest, tail);
      }
    }
  }

  // Blocks and runs of blocks.

  lemma LengthBelow(run: nat, m: nat)
    requires 0 < run < Pow2(m)
    ensures var n := BitLength(run) - 1; 0 <= n < m && Pow2(n) <= run < 2 * Pow2(n)
  {
    BitLengthBounds(run);
    BitLengthMono(run, m);
  }

  lemma MaxRunBits()
    ensures Pow2(15) == MAX_RUN + 1
  {
    ShlConstants(1);
    assert Shl(1, 16) == 2 * Shl(1, 15);
  }

  lemma LengthBits(run: nat)
    requires 0 < run <= MAX_RUN
    ensures var n := BitLength(run) - 1; 0 <= n <= 14 && Pow2(n) <= run < 2 * Pow2(n)
  {
    MaxRunBits();
    LengthBelow(run, 15);
  }

  /** The low n bits of a number of n + 1 bits. */
  lemma LowOfRun(v: nat, n: nat, rest: seq<bit>)
    requires Pow2(n) <= v < 2 * Pow2(n)
    ensures Receive(n, ToBits(v, n) + rest) == Bits(v - Pow2(n), rest)
  {
    ReceiveBits(v - Pow2(n), n, rest);
    LowSame(v - Pow2(n), n);
  }

  lemma {:induction false} LowSame(v: nat, n: nat)
    ensures ToBits(v + Pow2(n), n) == ToBits(v, n)
  {
    if n > 0 {
      LowSame(v / 2, n - 1);
      assert (v + Pow2(n)) / 2 == v / 2 + Pow2(n - 1);
    }
  }

  /** The announcement of a run, and the correction bits of the first block in it, from k on. */
  lemma RunRoundTrip(read: Reader, book: CodeBook, t: TableId, b: Band, x: Block, k: nat, run: nat, rest: Items, tail: seq<bit>)
    requires Reads(read, book[t]) && GoodBand(b) && b.ss <= k <= b.se && 0 < run <= MAX_RUN
    requires forall i :: k <= i <= b.se ==> !IsNew(b, x[i])
    requires Covered(book, EobRun(t, run, Corrections(b, x, k), rest))
    ensures ParseBand(read, b, At(b, x, k), k, ItemBits(book, EobRun(t, run, Corrections(b, x, k), rest), tail))
         == BandResult.Band(x, run - 1, ItemBits(book, rest, tail))
    ensures Covered(book, rest)
  {
    hide ToBits;
    var n: nat := BitLength(run) - 1;
    var be, c := Corrections(b, x, k), book[t];
    var s2 := ItemBits(book, RawBits(be, rest), tail);
    LengthBits(run);
    CoveredSym(book, t, RunSize(n, 0), run, n, RawBits(be, rest));
    CoveredRaw(book, be, rest);
    ReadSymbol(read, c, RunSize(n, 0), ToBits(run, n) + s2);
    LowOfRun(run, n, s2);
    CorrectRest(book, b, x, k, rest, tail);
    ParseRun(read, b, At(b, x, k), k, ToBits(c.co[RunSize(n, 0)], c.si[RunSize(n, 0)]) + (ToBits(run, n) + s2), n,
             ToBits(run, n) + s2, run - Pow2(n), s2, x, b.se + 1, ItemBits(book, rest, tail));
  }

  lemma ParseRun(read: Reader, b: Band, y: Block, k: nat, s: seq<bit>, n: nat, s1: seq<bit>, v: nat, s2: seq<bit>,
                 x: Block, k': nat, s3: seq<bit>)
    requires GoodBand(b) && k <= b.se && n <= 14
    requires read(s) == Symbol(RunSize(n, 0), s1) && Receive(n, s1) == Bits(v, s2) && Correct(b, y, k, s2) == Passed(x, k', s3)
    ensures ParseBand(read, b, y, k, s) == BandResult.Band(x, Pow2(n) + v - 1, s3)
  {
    assert RunSize(n, 0) / 16 == n && RunSize(n, 0) % 16 == 0;
  }

  predicate AllFit(b: Band, xs: seq<Block>)
    requires GoodBand(b)
  {
    forall i :: 0 <= i < |xs| ==> Sized(b, xs[i])
  }

  /** The first left blocks have no new coefficients. */
  predicate InRun(b: Band, xs: seq<Block>, left: nat)
    requires GoodBand(b)
  {
    left <= |xs| && forall i :: 0 <= i < left ==> NoNew(b, xs[i])
  }

  lemma {:induction false} JoiningInRun(b: Band, p: Pending, xs: seq<Block>)
    requires GoodBand(b)
    ensures InRun(b, xs, Joining(b, p, xs))
    decreases |xs|
  {
    if !(Forced(p) || xs == [] || !NoNew(b, xs[0])) {
      JoiningInRun(b, Absorb(b, p, xs[0]), xs[1..]);
    }
  }

  /** What the decoder knows of the blocks before the scan. */
  function KnownBlocks(b: Band, xs: seq<Block>): (ys: seq<Block>)
    ensures |ys| == |xs| && forall i :: 0 <= i < |xs| ==> ys[i] == At(b, xs[i], b.ss)
  {
    seq(|xs|, i requires 0 <= i < |xs| => At(b, xs[i], b.ss))
  }

  /** A block outside a run. */
  lemma FreshBlock(read: Reader, book: CodeBook, t: TableId, b: Band, x: Block, run: nat, rest: Items, tail: seq<bit>)
    requires Reads(read, book[t]) && GoodBand(b) && Sized(b, x) && run <= MAX_RUN
    requires var eob := EobOf(b, x);
             (eob < b.se <==> run > 0)
             && Covered(book, BlockSymbols(t, b, x, b.ss, 0, [], eob, EobRun(t, run, Corrections(b, x, eob + 1), rest)))
    ensures var eob := EobOf(b, x);
            var items := BlockSymbols(t, b, x, b.ss, 0, [], eob, EobRun(t, run, Corrections(b, x, eob + 1), rest));
            ParseBand(read, b, At(b, x, b.ss), b.ss, ItemBits(book, items, tail))
            == BandResult.Band(x, if run > 0 then run - 1 else 0, ItemBits(book, rest, tail))
    ensures Covered(book, rest)
  {
    var eob := EobOf(b, x);
    var end := EobRun(t, run, Corrections(b, x, eob + 1), rest);
    SymbolsRoundTrip(read, book, t, b, x, eob, b.ss, b.ss, b.ss, 0, [], end, tail);
    if run > 0 {
      RunRoundTrip(read, book, t, b, x, eob + 1, run, rest, tail);
    } else {
      assert At(b, x, eob + 1) == x;
    }
  }

  lemma ParseInRun(read: Reader, b: Band, y: Block, ys: seq<Block>, left: nat, s: seq<bit>, x: Block, k: nat, s': seq<bit>)
    requires GoodBand(b) && left > 0 && Correct(b, y, b.ss, s) == Passed(x, k, s')
    ensures ParseBands(read, b, [y] + ys, left, s) == Prefix(x, ParseBands(read, b, ys, left - 1, s'))
  {
    assert ([y] + ys)[1..] == ys;
  }

  lemma ParseFresh(read: Reader, b: Band, y: Block, ys: seq<Block>, s: seq<bit>, x: Block, left: nat, s': seq<bit>)
    requires GoodBand(b) && ParseBand(read, b, y, b.ss, s) == BandResult.Band(x, left, s')
    ensures ParseBands(read, b, [y] + ys, 0, s) == Prefix(x, ParseBands(read, b, ys, left, s'))
  {
    assert ([y] + ys)[1..] == ys;
  }

  /** The rest of a segment decodes. */
  ghost predicate Decodes(read: Reader, book: CodeBook, t: TableId, b: Band, left: nat, xs: seq<Block>, rest: Items, tail: seq<bit>)
    requires GoodBand(b)
  {
    ParseBands(read, b, KnownBlocks(b, xs), left, ItemBits(book, Immediate(t, b, left, xs, rest), tail))
    == Got(xs, ItemBits(book, rest, tail))
  }

  lemma KnownFirst(b: Band, x: Block, more: seq<Block>)
    ensures KnownBlocks(b, [x] + more) == [At(b, x, b.ss)] + KnownBlocks(b, more)
  {
  }

  /** The length of the run that a block starts, zero if it ends with a new coefficient. */
  function RunFrom(b: Band, x: Block, more: seq<Block>): (n: nat)
    requires GoodBand(b)
    ensures n <= MAX_RUN
    ensures n > 0 <==> EobOf(b, x) < b.se
  {
    var eob := EobOf(b, x);
    if eob < b.se then 1 + Joining(b, Pending(1, Corrections(b, x, eob + 1)), more) else 0
  }

  lemma ImmediateFresh(t: TableId, b: Band, x: Block, more: seq<Block>, rest: Items)
    requires GoodBand(b)
    ensures var n, eob := RunFrom(b, x, more), EobOf(b, x);
            Immediate(t, b, 0, [x] + more, rest)
            == BlockSymbols(t, b, x, b.ss, 0, [], eob,
                 EobRun(t, n, Corrections(b, x, eob + 1), Immediate(t, b, if n > 0 then n - 1 else 0, more, rest)))
  {
    assert ([x] + more)[1..] == more;
  }

  lemma RunFromInRun(b: Band, x: Block, more: seq<Block>)
    requires GoodBand(b)
    ensures InRun(b, more, if RunFrom(b, x, more) > 0 then RunFrom(b, x, more) - 1 else 0)
  {
    JoiningInRun(b, Pending(1, Corrections(b, x, EobOf(b, x) + 1)), more);
  }

  lemma InRunBlock(book: CodeBook, t: TableId, b: Band, left: nat, x: Block, more: seq<Block>, rest: Items, tail: seq<bit>)
    requires GoodBand(b) && left > 0 && NoNew(b, x) && Covered(book, Immediate(t, b, left, [x] + more, rest))
    ensures Correct(b, At(b, x, b.ss), b.ss, ItemBits(book, Immediate(t, b, left, [x] + more, rest), tail))
         == Passed(x, b.se + 1, ItemBits(book, Immediate(t, b, left - 1, more, rest), tail))
    ensures Covered(book, Immediate(t, b, left - 1, more, rest))
  {
    assert ([x] + more)[1..] == more;
    var items := Immediate(t, b, left - 1, more, rest);
    CoveredRaw(book, Corrections(b, x, b.ss), items);
    CorrectRest(book, b, x, b.ss, items, tail);
  }

  lemma InRunDecodes(read: Reader, book: CodeBook, t: TableId, b: Band, left: nat, x: Block, more: seq<Block>,
                     rest: Items, tail: seq<bit>)
    requires GoodBand(b) && left > 0 && NoNew(b, x) && Covered(book, Immediate(t, b, left, [x] + more, rest))
    requires Decodes(read, book, t, b, left - 1, more, rest, tail)
    ensures Decodes(read, book, t, b, left, [x] + more, rest, tail)
  {
    InRunBlock(book, t, b, left, x, more, rest, tail);
    KnownFirst(b, x, more);
    ParseInRun(read, b, At(b, x, b.ss), KnownBlocks(b, more), left, ItemBits(book, Immediate(t, b, left, [x] + more, rest), tail),
               x, b.se + 1, ItemBits(book, Immediate(t, b, left - 1, more, rest), tail));
  }

  lemma FreshDecodes(read: Reader, book: CodeBook, t: TableId, b: Band, x: Block, more: seq<Block>, n: nat, left: nat,
                     rest: Items, tail: seq<bit>)
    requires GoodBand(b) && n == RunFrom(b, x, more) && left == if n > 0 then n - 1 else 0
    requires ParseBand(read, b, At(b, x, b.ss), b.ss, ItemBits(book, Immediate(t, b, 0, [x] + more, rest), tail))
          == BandResult.Band(x, left, ItemBits(book, Immediate(t, b, left, more, rest), tail))
    requires Decodes(read, book, t, b, left, more, rest, tail)
    ensures Decodes(read, book, t, b, 0, [x] + more, rest, tail)
  {
    KnownFirst(b, x, more);
    ParseFresh(read, b, At(b, x, b.ss), KnownBlocks(b, more), ItemBits(book, Immediate(t, b, 0, [x] + more, rest), tail),
               x, left, ItemBits(book, Immediate(t, b, left, more, rest), tail));
  }

  lemma FreshParses(read: Reader, book: CodeBook, t: TableId, b: Band, x: Block, more: seq<Block>, n: nat, left: nat,
                    rest: Items, tail: seq<bit>)
    requires Reads(read, book[t]) && GoodBand(b) && Sized(b, x)
    requires n == RunFrom(b, x, more) && left == if n > 0 then n - 1 else 0
    requires Covered(book, Immediate(t, b, 0, [x] + more, rest))
    ensures ParseBand(read, b, At(b, x, b.ss), b.ss, ItemBits(book, Immediate(t, b, 0, [x] + more, rest), tail))
         == BandResult.Band(x, left, ItemBits(book, Immediate(t, b, left, more, rest), tail))
    ensures Covered(book, Immediate(t, b, left, more, rest))
  {
    ImmediateFresh(t, b, x, more, rest);
    FreshBlock(read, book, t, b, x, n, Immediate(t, b, left, more, rest), tail);
  }

  /** Every block of a segment is decoded, runs included. */
  lemma {:induction false} ImmediateRoundTrip(read: Reader, book: CodeBook, t: TableId, b: Band, left: nat, xs: seq<Block>,
                                              rest: Items, tail: seq<bit>)
    requires Reads(read, book[t]) && GoodBand(b) && AllFit(b, xs) && InRun(b, xs, left)
    requires Covered(book, Immediate(t, b, left, xs, rest))
    ensures Decodes(read, book, t, b, left, xs, rest, tail)
    decreases |xs|
  {
    if xs != [] {
      var x, more := xs[0], xs[1..];
      assert xs == [x] + more;
      if left > 0 {
        InRunBlock(book, t, b, left, x, more, rest, tail);
        ImmediateRoundTrip(read, book, t, b, left - 1, more, rest, tail);
        InRunDecodes(read, book, t, b, left, x, more, rest, tail);
      } else {
        var n := RunFrom(b, x, more);
        var left' := if n > 0 then n - 1 else 0;
        RunFromInRun(b, x, more);
        FreshParses(read, book, t, b, x, more, n, left', rest, tail);
        ImmediateRoundTrip(read, book, t, b, left', more, rest, tail);
        FreshDecodes(read, book, t, b, x, more, n, left', rest, tail);
      }
    }
  }

  /** What the encoder writes for the blocks of a segment decodes to those blocks. */
  lemma SegmentRoundTrip(read: Reader, book: CodeBook, t: TableId, b: Band, xs: seq<Block>, tail: seq<bit>)
    requires Reads(read, book[t]) && GoodBand(b) && AllFit(b, xs)
    requires Covered(book, Delayed(t, b, Pending(0, []), xs, Nil))
    ensures ParseBands(read, b, KnownBlocks(b, xs), 0, ItemBits(book, Delayed(t, b, Pending(0, []), xs, Nil), tail))
         == Got(xs, tail)
  {
    DelayedIsImmediate(t, b, Pending(0, []), xs, Nil);
    ImmediateRoundTrip(read, book, t, b, 0, xs, Nil, tail);
  }
}
