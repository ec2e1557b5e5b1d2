/** The progressive Huffman encoder, writing a scan or counting its symbols. */
module ProgressiveEncoder {
  import opened Bytes
  import opened BitStrings
  import opened Coefficients
  import opened Words
  import opened BitMaps
  import opened ZigZag
  import opened BitLogs
  import opened BitWriters
  import opened HuffmanItems
  import opened SeqHuffman
  import opened HuffmanScan
  import opened ProgressiveBands
  import opened ProgressiveDecoding
  import opened ProgressiveScan
  import opened HuffmanEncoder
  import opened EncoderLogs
  import Prediction = ProgressivePrediction
  import RestartIntervals

  /** The low bits of a 16-bit complement. */
  lemma ComplementLow(b: Bits, a: nat, n: nat)
    requires n <= 16 && a < Pow2(n)
    ensures a <= 0xFFFF && Put(b, 0xFFFF - a, n) == Put(b, Pow2(n) - 1 - a, n)
  {
    ShlShl(1, 16 - n, n);
    ShlConstants(1);
    ShlZero(n);
    ShlLess(0, Pow2(16 - n), n);
    var h: nat := Pow2(16 - n) - 1;
    ShlAdd(h, 1, n);
    PutShifted(b, h, Pow2(n) - 1 - a, 0, n);
  }

  lemma {:induction false} NoCorrections(b: Band, x: Block, k: nat)
    requires GoodBand(b) && (forall i :: k <= i <= b.se ==> !IsOld(b, x[i]))
    ensures Corrections(b, x, k) == []
    decreases b.se + 1 - k
  {
    if k <= b.se {
      NoCorrections(b, x, k + 1);
    }
  }

  lemma CoveredEob(book: CodeBook, t: TableId, run: nat, be: seq<bit>, rest: Items)
    ensures Covered(book, EobRun(t, run, be, rest))
        <==> (run == 0 || book[t].si[RunSize(BitLength(run) - 1, 0)] > 0) && Covered(book, rest)
  {
    if run > 0 {
      CoveredSym(book, t, RunSize(BitLength(run) - 1, 0), run, BitLength(run) - 1, RawBits(be, rest));
      CoveredRaw(book, be, rest);
    }
  }

  /** A block as a scan sees it: in scanning order, after the point transform. */
  function Seen(block: Block, order: Order, al: nat): Block {
    Transformed(Reordered(block, order), al)
  }

  lemma SeenAt(block: Block, order: Order, al: nat, k: nat)
    requires k < 64
    ensures Abs(Seen(block, order, al)[k]) == Shr(Abs(block[order[k]]), al)
    ensures Seen(block, order, al)[k] > 0 ==> block[order[k]] > 0
    ensures Seen(block, order, al)[k] < 0 ==> block[order[k]] < 0
  {
  }

  predicate Is16(block: Block) { forall i :: 0 <= i < 64 ==> -0x8000 <= block[i] < 0x8000 }

  /** Which coefficients of the band are nonzero. */
  function Nonzero(x: Block, ss: nat, n: nat): (v: seq<bit>)
    requires ss + n <= 64
    ensures |v| == n && forall i :: 0 <= i < n ==> v[i] == if x[ss + i] != 0 then 1 else 0
  {
    seq(n, i requires 0 <= i < n => if x[ss + i] != 0 then 1 else 0)
  }

  lemma NonzeroNext(x: Block, ss: nat, n: nat)
    requires ss + n < 64
    ensures Nonzero(x, ss, n + 1) == Nonzero(x, ss, n) + [if x[ss + n] != 0 then 1 else 0]
  {
  }

  /** The flags of the coefficients from k to the end of the band. */
  function FlagsLeft(b: Band, x: Block, k: nat): nat
    requires GoodBand(b) && b.ss <= k <= b.se + 1
  {
    Bitmap(Nonzero(x, k, b.se + 1 - k))
  }

  lemma NonzeroTail(x: Block, k: nat, n: nat, p: nat)
    requires k + n <= 64 && p <= n
    ensures Nonzero(x, k, n)[p..] == Nonzero(x, k + p, n - p)
  {
  }

  /** No flags left means only zeros left. */
  lemma NoFlags(b: Band, x: Block, k: nat)
    requires GoodBand(b) && b.ss <= k <= b.se + 1
    ensures FlagsLeft(b, x, k) == 0 <==> forall i :: k <= i <= b.se ==> x[i] == 0
  {
    var v := Nonzero(x, k, b.se + 1 - k);
    BitmapZero(v);
    if FlagsLeft(b, x, k) == 0 {
      forall i | k <= i <= b.se
        ensures x[i] == 0
      {
        assert v[i - k] == 0;
      }
    }
  }

  /** Finds the next nonzero coefficient of a band through the flags. */
  method FindNonzero(zerobits0: nat, k0: nat, ghost b: Band, ghost x: Block) returns (zerobits: nat, idx: nat)
    requires GoodBand(b) && b.ss <= k0 <= b.se + 1 && zerobits0 == FlagsLeft(b, x, k0) != 0
    ensures k0 + idx <= b.se && x[k0 + idx] != 0
    ensures forall i :: k0 <= i < k0 + idx ==> x[i] == 0
    ensures zerobits / 2 == FlagsLeft(b, x, k0 + idx + 1)
  {
    ghost var n := b.se + 1 - k0;
    ghost var v := Nonzero(x, k0, n);
    idx, zerobits := CountZeroes(zerobits0, v);
    forall i | k0 <= i < k0 + idx
      ensures x[i] == 0
    {
      assert v[i - k0] == 0;
    }
    ShiftFlag(v, idx);
    NonzeroTail(x, k0, n, idx + 1);
  }

  /** The low bits of a coefficient: itself, or the 16-bit complement of its magnitude. */
  function Complemented(v: int): nat
    requires Abs(v) <= 0xFFFF
  {
    if v < 0 then 0xFFFF - Abs(v) else Abs(v)
  }

  lemma ComplementedExtra(v: int, n: nat)
    requires Abs(v) <= 0x8000 && n == Size(v) <= 16
    ensures ToBits(Complemented(v), n) == ToBits(ExtraBits(v), n)
  {
    hide Put, ToBits, BitLength, Pow2, Shl;
    BitLengthBounds(Abs(v));
    WrapSmall(Abs(v), n);
    if v < 0 {
      ComplementLow(Empty, Abs(v), n);
      SameBits(0xFFFF - Abs(v), Pow2(n) - 1 - Abs(v), n);
    }
  }

  /** The band of a block, prepared for a first scan. */
  ghost predicate Prepared(x: Block, b: Band, n: nat, values: seq<nat>)
    requires b.ss + n <= 64 && |values| == 128
  {
    forall i :: b.ss <= i < b.ss + n && x[i] != 0 ==>
      Abs(x[i]) <= 0x8000 && values[i - b.ss] == Abs(x[i]) && values[i - b.ss + 64] == Complemented(x[i])
  }

  lemma PreparedNext(x: Block, b: Band, k: nat, values: seq<nat>, temp: nat, temp2: nat)
    requires b.ss + k < 64 && k < 64 && |values| == 128 && Prepared(x, b, k, values)
    requires Abs(x[b.ss + k]) <= 0x8000 && temp == Abs(x[b.ss + k]) && temp2 == Complemented(x[b.ss + k])
    ensures Prepared(x, b, k + 1, values[k := temp][k + 64 := temp2])
  {
  }

  /** One coefficient of the band. */
  method PrepareOne(c: int, al: nat, k: nat, zerobits0: nat, values: array<nat>, ghost b: Band, ghost x: Block)
    returns (zerobits: nat)
    requires b.ss + k < 64 && values.Length == 128 && -0x8000 <= c < 0x8000 && x[b.ss + k] == PointTransform(c, al)
    requires zerobits0 == Bitmap(Nonzero(x, b.ss, k)) && Prepared(x, b, k, values[..])
    modifies values
    ensures zerobits == Bitmap(Nonzero(x, b.ss, k + 1)) && Prepared(x, b, k + 1, values[..])
  {
    ghost var v := x[b.ss + k];
    zerobits := zerobits0;
    NonzeroNext(x, b.ss, k);
    SetFlag(Nonzero(x, b.ss, k), if v != 0 then 1 else 0);
    var temp: nat := Shr(Abs(c), al);
    if temp != 0 {
      ghost var before: seq<nat> := values[..];
      var temp2: nat := if c < 0 then 0xFFFF - temp else temp;
      PreparedNext(x, b, k, before, temp, temp2);
      values[k] := temp;
      values[k + 64] := temp2;
      assert values[..] == before[k := temp][k + 64 := temp2];
      zerobits := Or(zerobits, Shl(1, k));
    }
  }

  /** Magnitudes, complements and nonzero flags of the band. */
  method PrepareFirst(block: Block, order: Order, b: Band, al: nat, values: array<nat>) returns (zerobits: nat)
    requires GoodBand(b) && values.Length == 128 && Is16(block)
    modifies values
    ensures zerobits == Bitmap(Nonzero(Seen(block, order, al), b.ss, b.se - b.ss + 1))
    ensures Prepared(Seen(block, order, al), b, b.se - b.ss + 1, values[..])
  {
    ghost var x := Seen(block, order, al);
    var sl: nat := b.se - b.ss + 1;
    zerobits := 0;
    var k := 0;
    assert Nonzero(x, b.ss, 0) == [];
    while k < sl
      invariant k <= sl
      invariant zerobits == Bitmap(Nonzero(x, b.ss, k))
      invariant Prepared(x, b, k, values[..])
    {
      zerobits := PrepareOne(block[order[b.ss + k]], al, k, zerobits, values, b, x);
      k := k + 1;
    }
  }

  /** The next nonzero coefficient, its magnitude and whether it is positive. */
  predicate FoundNext(b: Band, x: Block, k0: nat, idx: nat, temp: nat, sign: bit) {
    && b.se <= 63 && k0 + idx <= b.se && (forall i :: k0 <= i < k0 + idx ==> x[i] == 0)
    && x[k0 + idx] != 0 && temp == Abs(x[k0 + idx]) && sign == if x[k0 + idx] > 0 then 1 else 0
  }

  /** Codes for sixteen zeros are due at k only up to the last new coefficient. */
  predicate InsideOk(inside: bool, k: nat, eob: nat, r: nat) {
    if inside then k <= eob || r <= 15 else k > eob
  }

  /** Zeros do not change what is left to write. */
  lemma {:induction false} SkipZeros(t: TableId, b: Band, x: Block, k: nat, r: nat, n: nat, br: seq<bit>, eob: nat, rest: Items)
    requires k + n <= eob + 1 <= 64 && forall i :: k <= i < k + n ==> x[i] == 0
    ensures BlockSymbols(t, b, x, k, r, br, eob, rest) == BlockSymbols(t, b, x, k + n, r + n, br, eob, rest)
    decreases n
  {
    if n > 0 {
      SkipZeros(t, b, x, k + 1, r + 1, n - 1, br, eob, rest);
    }
  }

  lemma {:induction false} FitsZeros(x: Block, maxBits: nat, lo: nat, p: nat, q: nat)
    requires p <= q <= 64 && forall i :: p <= i < q ==> x[i] == 0
    ensures FitsTo(x, maxBits, lo, p) ==> FitsTo(x, maxBits, lo, q)
    decreases q
  {
    if p < q {
      FitsZeros(x, maxBits, lo, p, q - 1);
    }
  }

  // Refinement scans.

  /** Which coefficients of the band are positive. */
  function Positive(x: Block, ss: nat, n: nat): (v: seq<bit>)
    requires ss + n <= 64
    ensures |v| == n && forall i :: 0 <= i < n ==> v[i] == if x[ss + i] > 0 then 1 else 0
  {
    seq(n, i requires 0 <= i < n => if x[ss + i] > 0 then 1 else 0)
  }

  lemma PositiveNext(x: Block, ss: nat, n: nat)
    requires ss + n < 64
    ensures Positive(x, ss, n + 1) == Positive(x, ss, n) + [if x[ss + n] > 0 then 1 else 0]
  {
  }

  /** The signs of the coefficients from k to the end of the band. */
  function SignsLeft(b: Band, x: Block, k: nat): nat
    requires GoodBand(b) && b.ss <= k <= b.se + 1
  {
    Bitmap(Positive(x, k, b.se + 1 - k))
  }

  lemma PositiveTail(x: Block, k: nat, n: nat, p: nat)
    requires k + n <= 64 && p <= n
    ensures Positive(x, k, n)[p..] == Positive(x, k + p, n - p)
  {
  }

  lemma SignsSkip(b: Band, x: Block, k: nat, n: nat)
    requires GoodBand(b) && b.ss <= k && k + n <= b.se
    ensures Shr(SignsLeft(b, x, k), n) == SignsLeft(b, x, k + n)
    ensures SignsLeft(b, x, k + n) % 2 == if x[k + n] > 0 then 1 else 0
    ensures SignsLeft(b, x, k + n) / 2 == SignsLeft(b, x, k + n + 1)
  {
    hide Positive, Bitmap, Shr;
    var v := Positive(x, k, b.se + 1 - k);
    assert v[0..] == v;
    ShrFlags(v, 0, n);
    ShiftFlag(v, n);
    PositiveTail(x, k, b.se + 1 - k, n);
    PositiveTail(x, k, b.se + 1 - k, n + 1);
  }

  /** Magnitudes of the first n coefficients of the band. */
  ghost predicate Magnitudes(x: Block, b: Band, n: nat, absvalues: seq<nat>)
    requires b.ss + n <= 64 && |absvalues| == 64
  {
    forall i :: b.ss <= i < b.ss + n ==> absvalues[i - b.ss] == Abs(x[i])
  }

  /** One coefficient of the band of a refinement scan. */
  method PrepareOneRefine(c: int, al: nat, k: nat, zerobits0: nat, signbits0: nat, absvalues: array<nat>,
                          ghost b: Band, ghost x: Block) returns (temp: nat, zerobits: nat, signbits: nat)
    requires b.ss + k < 64 && absvalues.Length == 64 && x[b.ss + k] == PointTransform(c, al)
    requires zerobits0 == Bitmap(Nonzero(x, b.ss, k)) && signbits0 == Bitmap(Positive(x, b.ss, k))
    requires Magnitudes(x, b, k, absvalues[..])
    modifies absvalues
    ensures temp == Abs(x[b.ss + k])
    ensures zerobits == Bitmap(Nonzero(x, b.ss, k + 1)) && signbits == Bitmap(Positive(x, b.ss, k + 1))
    ensures Magnitudes(x, b, k + 1, absvalues[..])
  {
    ghost var v := x[b.ss + k];
    zerobits, signbits := zerobits0, signbits0;
    NonzeroNext(x, b.ss, k);
    PositiveNext(x, b.ss, k);
    SetFlag(Nonzero(x, b.ss, k), if v != 0 then 1 else 0);
    SetFlag(Positive(x, b.ss, k), if v > 0 then 1 else 0);
    temp := Shr(Abs(c), al);
    if temp != 0 {
      zerobits := Or(zerobits, Shl(1, k));
      var sign := if c < 0 then 0 else 1;
      ShlZero(k);
      OrZero(signbits);
      signbits := Or(signbits, Shl(sign, k));
    }
    ghost var before: seq<nat> := absvalues[..];
    absvalues[k] := temp;
    assert absvalues[..] == before[k := temp];
  }

  /** Magnitudes, flags and signs of the band, and the index of the last coefficient that is newly nonzero. */
  method PrepareRefine(block: Block, order: Order, b: Band, al: nat, absvalues: array<nat>)
    returns (eobAt: nat, zerobits: nat, signbits: nat)
    requires GoodBand(b) && b.refine && absvalues.Length == 64
    modifies absvalues
    ensures zerobits == Bitmap(Nonzero(Seen(block, order, al), b.ss, b.se - b.ss + 1))
    ensures signbits == Bitmap(Positive(Seen(block, order, al), b.ss, b.se - b.ss + 1))
    ensures Magnitudes(Seen(block, order, al), b, b.se - b.ss + 1, absvalues[..])
    ensures eobAt == LastNewOrFirst(b, Seen(block, order, al), b.se - b.ss + 1)
  {
    ghost var x := Seen(block, order, al);
    var sl: nat := b.se - b.ss + 1;
    zerobits, signbits, eobAt := 0, 0, b.ss;
    var k := 0;
    assert Nonzero(x, b.ss, 0) == [] && Positive(x, b.ss, 0) == [];
    while k < sl
      invariant k <= sl
      invariant zerobits == Bitmap(Nonzero(x, b.ss, k)) && signbits == Bitmap(Positive(x, b.ss, k))
      invariant Magnitudes(x, b, k, absvalues[..])
      invariant eobAt == LastNewOrFirst(b, x, k)
    {
      var temp;
      temp, zerobits, signbits := PrepareOneRefine(block[order[b.ss + k]], al, k, zerobits, signbits, absvalues, b, x);
      if temp == 1 {
        eobAt := b.ss + k;
      }
      k := k + 1;
    }
  }

  /** The last newly nonzero coefficient among the first n of the band, or the first of the band. */
  function LastNewOrFirst(b: Band, x: Block, n: nat): nat
    requires GoodBand(b) && b.ss + n <= b.se + 1
  {
    var e := LastNew(b, x, b.ss + n - 1);
    if e < b.ss then b.ss else e
  }

  // DC values.

  /** The last bit of an integer, of its two's complement form, or of a remainder. */
  lemma LastBit(v: int)
    ensures ToBits(LowBits(v, 32), 1) == ToBits(v % 2, 1)
  {
    LowBitsSame(v, 32, 1);
    assert Pow2(1) == 2;
    var u: nat := if v >= 0 then v else 0 - v - 1;
    assert Wrap(u, 1) == u % 2;
    assert ToBits(LowBits(v, 1), 1) == [LowBits(v, 1) % 2] && ToBits(v % 2, 1) == [v % 2];
  }

  /** A first scan never has correction bits waiting. */
  lemma NextWithoutCorrections(b: Band, p: Pending, x: Block)
    requires GoodBand(b) && !b.refine && p.be == []
    ensures NextPending(b, p, x).be == []
  {
    NoCorrections(b, x, b.ss);
    NoCorrections(b, x, EobOf(b, x) + 1);
  }

  lemma {:induction false} CorrectionsSkip(b: Band, x: Block, k: nat, n: nat)
    requires GoodBand(b) && k + n <= b.se + 1 && forall i :: k <= i < k + n ==> x[i] == 0
    ensures Corrections(b, x, k) == Corrections(b, x, k + n)
    decreases n
  {
    if n > 0 {
      CorrectionsSkip(b, x, k + 1, n - 1);
    }
  }

  lemma OneMoreCorrection(b: Band, x: Block, k: nat, bits: seq<bit>)
    requires GoodBand(b) && k <= b.se && IsOld(b, x[k])
    ensures (bits + [Correction(x[k])]) + Corrections(b, x, k + 1) == bits + Corrections(b, x, k)
  {
  }

  /** After its last new coefficient, a block only keeps zeros and the correction bits read so far. */
  ghost predicate PastEob(b: Band, x: Block, k: nat, r: nat, bits: seq<bit>, eob: nat)
    requires GoodBand(b)
  {
    k > eob ==> r + |bits| == k - (eob + 1) && bits + Corrections(b, x, k) == Corrections(b, x, eob + 1)
  }

  /** The nonzero coefficient after some zeros is new exactly where the last new one may still come. */
  lemma NextNonzero(b: Band, x: Block, k0: nat, idx: nat, eob: nat)
    requires GoodBand(b) && eob == EobOf(b, x) && b.ss <= k0 && k0 + idx <= b.se && x[k0 + idx] != 0
    requires forall i :: k0 <= i < k0 + idx ==> x[i] == 0
    ensures eob <= 63 && (k0 <= eob ==> x[eob] != 0 && k0 + idx <= eob)
    ensures k0 + idx > eob ==> k0 > eob && !IsNew(b, x[k0 + idx])
    ensures k0 + idx == eob ==> IsNew(b, x[k0 + idx])
  {
  }

  lemma PastNext(b: Band, x: Block, k0: nat, r0: nat, idx: nat, bits: seq<bit>, eob: nat, r: nat, bits': seq<bit>)
    requires GoodBand(b) && b.refine && b.ss <= k0 && k0 + idx <= b.se && (k0 <= eob ==> k0 + idx <= eob)
    requires x[k0 + idx] != 0 && forall i :: k0 <= i < k0 + idx ==> x[i] == 0
    requires PastEob(b, x, k0, r0, bits, eob)
    requires k0 + idx > eob ==> r == r0 + idx && bits' == bits + [Correction(x[k0 + idx])] && !IsNew(b, x[k0 + idx])
    requires k0 + idx == eob ==> r == 0 && bits' == []
    ensures PastEob(b, x, k0 + idx + 1, r, bits', eob)
  {
    if k0 > eob {
      CorrectionsSkip(b, x, k0, idx);
      OneMoreCorrection(b, x, k0 + idx, bits);
    } else {
      assert [] + Corrections(b, x, eob + 1) == Corrections(b, x, eob + 1);
    }
  }

  class Encoder {
    const w: ByteWriter
    const gather: bool
    const order: Order
    const scan: ProgScan
    const book: CodeBook
    const maxBits: nat
    const bitBuffer: array<bit>
    var counts: Stats
    var last: seq<int>
    /** The run of ended blocks that is not written yet, and the number of its correction bits in bitBuffer. */
    var eobrun: nat
    var be: nat
    var togo: nat
    var nextNum: nat

    /** The items of the current segment so far, and the output when the segment started. */
    ghost var log: Log
    ghost var base: Output

    /** What holds between the primitive operations: the output is that of the items so far. */
    ghost predicate Steady()
      reads w, `counts, `log, `base
    {
      w.Valid() && GoodStats(counts) && GoodBook(book) && GoodStats(base.counts) && Out() == Done(gather, book, log, base)
      && (gather || Covers(book, log))
    }

    constructor (w: ByteWriter, gather: bool, order: Order, scan: ProgScan, book: CodeBook, maxBits: nat)
      requires w.Valid() && w.done == [] && w.Contents() == Empty && GoodProgScan(scan) && GoodBook(book) && order[0] == 0
      requires maxBits <= 14
      ensures this.w == w && this.gather == gather && this.order == order && this.scan == scan && this.book == book
      ensures this.maxBits == maxBits && fresh(bitBuffer) && togo == scan.interval && log == Start
      ensures Ready() && Current() == Initial(scan) && base == Output(Empty, NoCounts())
    {
      this.w, this.gather, this.order, this.scan, this.book, this.maxBits := w, gather, order, scan, book, maxBits;
      bitBuffer := new bit[MAX_CORR_BITS](_ => 0);
      counts := NoCounts();
      last := Initial(scan).last;
      eobrun, be, togo, nextNum := 0, 0, scan.interval, 0;
      log := Start;
      base := Output(Empty, NoCounts());
    }

    ghost function Out(): Output
      reads w, `counts
    {
      Output(w.Contents(), counts)
    }

    /** All items of the segment, if these are what is left. */
    ghost function Now(items: Items): Items
      reads `log
    {
      Append(log, items)
    }

    /** Writes bits, unless counting; a size of zero is a missing code, and fails. */
    method EmitBits(code: nat, size: nat, ghost value: nat) returns (ok: bool)
      requires Steady() && size <= 16 && ToBits(code, size) == ToBits(value, size)
      modifies `log, w`putBuffer, w`putBits, w`out, w`raw, w`held
      ensures Steady() && ok == (size != 0)
      ensures log == if ok then AddRaw(old(log), value, size) else old(log)
    {
      if size == 0 {
        return false;
      }
      if !gather {
        PutSame(w.Contents(), code, value, size);
        var sent := w.EmitBits(code, size);
      }
      log := AddRaw(log, value, size);
      return true;
    }

    /** Writes or counts a symbol; fails if it has to be written and has no code. */
    method EmitSymbol(t: TableId, symbol: byte, ghost rest: Items) returns (ok: bool)
      requires Steady()
      modifies `log, `counts, w`putBuffer, w`putBits, w`out, w`raw, w`held
      ensures Steady()
      ensures log == if ok then AddSym(old(log), t, symbol) else old(log)
      ensures !ok ==> !gather && !Covered(book, old(Now(Sym(t, symbol, rest))))
    {
      if gather {
        counts := Bump(counts, t, symbol);
        log := AddSym(log, t, symbol);
        return true;
      }
      assert GoodCodes(book[t]);
      if book[t].si[symbol] == 0 {
        CoversAppend(book, log, Sym(t, symbol, rest));
        return false;
      }
      ok := w.EmitBits(book[t].co[symbol], book[t].si[symbol]);
      log := AddSym(log, t, symbol);
    }

    /** Writes n buffered correction bits. */
    method EmitBufferedBits(start: nat, n: nat, ghost rest: Items)
      requires Steady() && start + n <= bitBuffer.Length
      modifies `log, w`putBuffer, w`putBits, w`out, w`raw, w`held
      ensures Steady() && Now(rest) == old(Now(RawBits(bitBuffer[start..start + n], rest)))
    {
      ghost var s := bitBuffer[start..start + n];
      var i := 0;
      assert s[0..] == s;
      while i < n
        invariant i <= n && Steady()
        invariant Now(RawBits(s[i..], rest)) == old(Now(RawBits(s, rest)))
      {
        assert s[i..][0] == bitBuffer[start + i] && s[i..][1..] == s[i + 1..];
        var ok := EmitBits(bitBuffer[start + i], 1, bitBuffer[start + i]);
        i := i + 1;
      }
      assert s[n..] == [];
    }

    /** The first n buffered correction bits. */
    ghost function Buffered(n: nat): (s: seq<bit>)
      requires n <= bitBuffer.Length
      reads bitBuffer
      ensures |s| == n && forall i :: 0 <= i < n ==> s[i] == bitBuffer[i]
    {
      if n == 0 then [] else bitBuffer[..n]
    }

    /** The run of ended blocks that waits. */
    ghost function Pend(): Pending
      requires be <= bitBuffer.Length
      reads `eobrun, `be, bitBuffer
    {
      Pending(eobrun, Buffered(be))
    }

    /** Writes the waiting run and its correction bits; fails if its symbol has no code. */
    method EmitEobrun(t: TableId, ghost rest: Items) returns (ok: bool)
      requires Steady() && eobrun <= MAX_RUN && be <= bitBuffer.Length && (eobrun == 0 ==> be == 0)
      modifies `log, `counts, `eobrun, `be, w`putBuffer, w`putBits, w`out, w`raw, w`held
      ensures Steady()
      ensures ok ==> eobrun == 0 == be && Now(rest) == old(Now(EobRun(t, eobrun, Buffered(be), rest)))
      ensures !ok ==> eobrun == old(eobrun) && be == old(be)
      ensures !ok ==> !gather && !Covered(book, old(Now(EobRun(t, eobrun, Buffered(be), rest))))
    {
      hide Steady;
      if eobrun > 0 {
        LengthBits(eobrun);
        var nbits: nat := BitLength(eobrun) - 1;
        ghost var bits := RawBits(Buffered(be), rest);
        ok := EmitSymbol(t, RunSize(nbits, 0), Raw(eobrun, nbits, bits));
        if !ok {
          return;
        }
        assert Now(Raw(eobrun, nbits, bits)) == old(Now(EobRun(t, eobrun, Buffered(be), rest)));
        if nbits > 0 {
          ok := EmitBits(eobrun, nbits, eobrun);
        } else {
          LogNothing(eobrun);
        }
        assert Now(bits) == old(Now(EobRun(t, eobrun, Buffered(be), rest)));
        eobrun := 0;
        assert bitBuffer[0..0 + be] == Buffered(be);
        EmitBufferedBits(0, be, rest);
        be := 0;
      }
      return true;
    }

    /** A code without additional bits. */
    ghost method LogNothing(value: nat)
      requires Steady()
      modifies `log
      ensures Steady() && log == AddRaw(old(log), value, 0)
    {
      log := AddRaw(log, value, 0);
    }

    /** Codes for sixteen zeros, while there are more than fifteen. */
    method EmitZeroRuns(t: TableId, r0: nat, ghost b: Band, ghost x: Block, ghost k: nat, ghost eob: nat, ghost rest: Items)
      returns (ok: bool, r: nat)
      requires Steady() && k <= eob <= 63 && x[k] != 0
      modifies `log, `counts, w`putBuffer, w`putBits, w`out, w`raw, w`held
      ensures Steady()
      ensures ok ==> r <= 15
      ensures ok ==> Now(BlockSymbols(t, b, x, k, r, [], eob, rest)) == old(Now(BlockSymbols(t, b, x, k, r0, [], eob, rest)))
      ensures !ok ==> !gather && !Covered(book, old(Now(BlockSymbols(t, b, x, k, r0, [], eob, rest))))
    {
      r := r0;
      while r > 15
        invariant Steady()
        invariant Now(BlockSymbols(t, b, x, k, r, [], eob, rest)) == old(Now(BlockSymbols(t, b, x, k, r0, [], eob, rest)))
      {
        ok := EmitSymbol(t, ZRL, BlockSymbols(t, b, x, k, r - 16, [], eob, rest));
        if !ok {
          return;
        }
        r := r - 16;
      }
      return true, r;
    }

    /** A symbol and its additional bits. */
    method EmitValue(t: TableId, symbol: byte, code: nat, size: nat, ghost value: nat, ghost rest: Items) returns (ok: bool)
      requires Steady() && 0 < size <= 16 && ToBits(code, size) == ToBits(value, size)
      modifies `log, `counts, w`putBuffer, w`putBits, w`out, w`raw, w`held
      ensures Steady()
      ensures ok ==> Now(rest) == old(Now(Sym(t, symbol, Raw(value, size, rest))))
      ensures !ok ==> !gather && !Covered(book, old(Now(Sym(t, symbol, Raw(value, size, rest)))))
    {
      ok := EmitSymbol(t, symbol, Raw(value, size, rest));
      if ok {
        assert Now(Raw(value, size, rest)) == old(Now(Sym(t, symbol, Raw(value, size, rest))));
        ok := EmitBits(code, size, value);
      }
    }

    /** A nonzero coefficient of a first scan after a run of zeros. */
    method EmitFirst(t: TableId, r0: nat, temp: nat, temp2: nat, ghost b: Band, ghost x: Block, ghost k: nat, ghost eob: nat,
                     ghost rest: Items) returns (ok: bool)
      requires Steady() && !b.refine && k <= eob <= 63 && x[k] != 0 && maxBits <= 14
      requires temp == Abs(x[k]) <= 0x8000 && temp2 == Complemented(x[k])
      modifies `log, `counts, w`putBuffer, w`putBits, w`out, w`raw, w`held
      ensures Steady()
      ensures ok ==> Size(x[k]) <= maxBits
      ensures ok ==> Now(BlockSymbols(t, b, x, k + 1, 0, [], eob, rest)) == old(Now(BlockSymbols(t, b, x, k, r0, [], eob, rest)))
      ensures !ok ==> Size(x[k]) > maxBits || (!gather && !Covered(book, old(Now(BlockSymbols(t, b, x, k, r0, [], eob, rest)))))
    {
      var r;
      ok, r := EmitZeroRuns(t, r0, b, x, k, eob, rest);
      if !ok {
        return;
      }
      var nbits := BitLength(temp);
      if nbits > maxBits {
        return false;
      }
      ghost var more, v := BlockSymbols(t, b, x, k + 1, 0, [], eob, rest), ExtraBits(x[k]);
      NewItems(t, b, x, eob, k, r, [], rest, nbits, v);
      assert RawBits([], more) == more;
      ComplementedExtra(x[k], nbits);
      ok := EmitValue(t, RunSize(r, nbits), temp2, nbits, v, more);
    }

    /** A run of zeros and the nonzero coefficient after it. */
    method EncodeRunFirst(t: TableId, r: nat, temp: nat, temp2: nat, ghost b: Band, ghost x: Block, ghost k0: nat,
                           ghost eob: nat, ghost rest: Items) returns (ok: bool)
      requires Steady() && GoodBand(b) && !b.refine && maxBits <= 14 && k0 + r <= eob <= b.se && b.ss <= k0
      requires x[k0 + r] != 0 && forall i :: k0 <= i < k0 + r ==> x[i] == 0
      requires temp == Abs(x[k0 + r]) <= 0x8000 && temp2 == Complemented(x[k0 + r])
      modifies `log, `counts, w`putBuffer, w`putBits, w`out, w`raw, w`held
      ensures Steady()
      ensures ok && FitsTo(x, maxBits, b.ss, k0) ==> FitsTo(x, maxBits, b.ss, k0 + r + 1)
      ensures ok ==>
        Now(BlockSymbols(t, b, x, k0 + r + 1, 0, [], eob, rest)) == old(Now(BlockSymbols(t, b, x, k0, 0, [], eob, rest)))
      ensures !ok && FitsBand(b, x, maxBits) ==> !gather && !Covered(book, old(Now(BlockSymbols(t, b, x, k0, 0, [], eob, rest))))
    {
      SkipZeros(t, b, x, k0, 0, r, [], eob, rest);
      FitsZeros(x, maxBits, b.ss, k0, k0 + r);
      if FitsBand(b, x, maxBits) {
        FitsPart(x, maxBits, b.ss, k0 + r + 1, b.se + 1);
      }
      ok := EmitFirst(t, r, temp, temp2, b, x, k0 + r, eob, rest);
    }

    /** The next nonzero coefficient, and the flags after it; k stands for the pointer to the prepared values. */
    method EncodeNextFirst(t: TableId, zerobits0: nat, k0: nat, values: array<nat>, b: Band, ghost x: Block,
                           ghost eob: nat, ghost rest: Items) returns (ok: bool, zerobits: nat, k: nat)
      requires Steady() && GoodBand(b) && !b.refine && maxBits <= 14 && values.Length == 128
      requires Prepared(x, b, b.se - b.ss + 1, values[..]) && eob == EobOf(b, x)
      requires b.ss <= k0 <= eob + 1 && zerobits0 == FlagsLeft(b, x, k0) != 0
      modifies `log, `counts, w`putBuffer, w`putBits, w`out, w`raw, w`held
      ensures Steady()
      ensures ok ==> k0 < k <= eob + 1 && zerobits == FlagsLeft(b, x, k)
      ensures ok && FitsTo(x, maxBits, b.ss, k0) ==> FitsTo(x, maxBits, b.ss, k)
      ensures ok ==> Now(BlockSymbols(t, b, x, k, 0, [], eob, rest)) == old(Now(BlockSymbols(t, b, x, k0, 0, [], eob, rest)))
      ensures !ok && FitsBand(b, x, maxBits) ==>
        !gather && !Covered(book, old(Now(BlockSymbols(t, b, x, k0, 0, [], eob, rest))))
    {
      hide Covered, BlockSymbols, FitsTo, Steady, Now;
      var r;
      zerobits, r := FindNonzero(zerobits0, k0, b, x);
      k := k0 + r;
      assert IsNew(b, x[k]);
      ghost var seen := values[..];
      assert Abs(x[k]) <= 0x8000 && seen[k - b.ss] == Abs(x[k]) && seen[k - b.ss + 64] == Complemented(x[k]);
      ok := EncodeRunFirst(t, r, values[k - b.ss], values[k - b.ss + 64], b, x, k0, eob, rest);
      k := k + 1;
      zerobits := zerobits / 2;
    }

    /** The nonzero coefficients of a band in a first scan. */
    method EncodeCoefsFirst(t: TableId, zerobits0: nat, values: array<nat>, b: Band, ghost x: Block, ghost rest: Items)
      returns (ok: bool, k: nat)
      requires Steady() && GoodBand(b) && !b.refine && maxBits <= 14 && values.Length == 128
      requires zerobits0 == FlagsLeft(b, x, b.ss) && Prepared(x, b, b.se - b.ss + 1, values[..])
      modifies `log, `counts, w`putBuffer, w`putBits, w`out, w`raw, w`held
      ensures Steady()
      ensures zerobits0 == 0 ==> ok && log == old(log)
      ensures ok ==> k == EobOf(b, x) + 1 && FitsBand(b, x, maxBits)
      ensures ok ==> Now(rest) == old(Now(BlockSymbols(t, b, x, b.ss, 0, [], EobOf(b, x), rest)))
      ensures !ok && FitsBand(b, x, maxBits) ==>
        !gather && !Covered(book, old(Now(BlockSymbols(t, b, x, b.ss, 0, [], EobOf(b, x), rest))))
    {
      hide Covered, FlagsLeft, Now, Prepared;
      ghost var eob := EobOf(b, x);
      ghost var whole := BlockSymbols(t, b, x, b.ss, 0, [], eob, rest);
      var zerobits := zerobits0;
      k := b.ss;
      while zerobits != 0
        invariant Steady() && b.ss <= k <= eob + 1 && zerobits == FlagsLeft(b, x, k)
        invariant zerobits0 == 0 ==> zerobits == 0 && log == old(log)
        invariant FitsTo(x, maxBits, b.ss, k)
        invariant Now(BlockSymbols(t, b, x, k, 0, [], eob, rest)) == old(Now(whole))
        decreases 64 - k
      {
        ok, zerobits, k := EncodeNextFirst(t, zerobits, k, values, b, x, eob, rest);
        if !ok {
          return;
        }
      }
      NoFlags(b, x, k);
      FitsZeros(x, maxBits, b.ss, eob + 1, b.se + 1);
      return true, k;
    }

    lemma FlagsNew(b: Band, x: Block)
      requires GoodBand(b) && !b.refine
      ensures FlagsLeft(b, x, b.ss) == 0 <==> NoNew(b, x)
    {
      NoFlags(b, x, b.ss);
    }

    /** Ends a block without writing anything, unless the run has to be written now. */
    method EndBlock(t: TableId, n: nat, ghost rest: Items) returns (ok: bool)
      requires Steady() && bitBuffer.Length == MAX_CORR_BITS && be + n <= MAX_CORR_BITS && eobrun < MAX_RUN
      modifies `log, `counts, `eobrun, `be, w`putBuffer, w`putBits, w`out, w`raw, w`held
      ensures Steady() && be <= MAX_CORR_BITS
      ensures var q := Pending(old(eobrun) + 1, Buffered(old(be) + n));
              ok ==>
                Pend() == (if Forced(q) then Pending(0, []) else q)
                && Now(rest) == old(Now(if Forced(q) then EobRun(t, q.run, q.be, rest) else rest))
      ensures !ok ==> !gather && Forced(Pending(old(eobrun) + 1, Buffered(old(be) + n)))
      ensures !ok ==> !Covered(book, old(Now(EobRun(t, eobrun + 1, Buffered(be + n), rest))))
    {
      hide Done, Append, EobRun, Covers, Covered, GoodBook, GoodStats, Out;
      eobrun := eobrun + 1;
      be := be + n;
      if eobrun == MAX_RUN || be > MAX_CORR_BITS - 64 + 1 {
        ok := EmitEobrun(t, rest);
      } else {
        ok := true;
      }
    }

    /** A first scan has no correction bits, and its runs wait without any. */
    lemma FirstStep(t: TableId, b: Band, run: nat, x: Block, rest: Items)
      requires GoodBand(b) && !b.refine && run < MAX_RUN
      ensures var p := Pending(run, []);
              var q := Pending(run + 1, []);
              var eob := EobOf(b, x);
              && Corrections(b, x, eob + 1) == []
              && (NoNew(b, x) ==>
                    NextPending(b, p, x) == (if Forced(q) then Pending(0, []) else q)
                    && BlockStep(t, b, p, x, rest) == (if Forced(q) then EobRun(t, q.run, q.be, rest) else rest)
                    && BlockSymbols(t, b, x, b.ss, 0, [], eob, rest) == rest)
              && (!NoNew(b, x) ==>
                    NextPending(b, p, x) == (if eob < b.se then Pending(1, []) else Pending(0, []))
                    && BlockStep(t, b, p, x, rest) == EobRun(t, run, [], BlockSymbols(t, b, x, b.ss, 0, [], eob, rest)))
              && !Forced(Pending(1, []))
    {
      NoCorrections(b, x, b.ss);
      NoCorrections(b, x, EobOf(b, x) + 1);
      assert [] + Corrections(b, x, b.ss) == [];
    }

    /** The waiting run, if the block has something to write. */
    method FlushBeforeBlock(t: TableId, pending: bool, ghost rest: Items) returns (ok: bool)
      requires Steady() && be == 0 && eobrun < MAX_RUN && bitBuffer.Length == MAX_CORR_BITS
      modifies `log, `counts, `eobrun, `be, w`putBuffer, w`putBits, w`out, w`raw, w`held
      ensures Steady()
      ensures ok ==> be == 0 && eobrun == (if pending then 0 else old(eobrun))
      ensures ok && pending ==> Now(rest) == old(Now(EobRun(t, eobrun, [], rest)))
      ensures ok && !pending ==> log == old(log)
      ensures !ok ==> pending && !gather && !Covered(book, old(Now(EobRun(t, eobrun, [], rest)))) && be == 0
    {
      ok := true;
      if pending && eobrun > 0 {
        ok := EmitEobrun(t, rest);
      }
    }

    /** The waiting run and the coefficients of a block of a first scan. */
    method WriteFirst(t: TableId, zerobits: nat, values: array<nat>, b: Band, ghost x: Block, ghost rest: Items)
      returns (ok: bool, k: nat)
      requires Steady() && GoodBand(b) && !b.refine && maxBits <= 14 && values.Length == 128
      requires zerobits == FlagsLeft(b, x, b.ss) && Prepared(x, b, b.se - b.ss + 1, values[..])
      requires be == 0 && eobrun < MAX_RUN && bitBuffer.Length == MAX_CORR_BITS
      modifies `log, `counts, `eobrun, `be, w`putBuffer, w`putBits, w`out, w`raw, w`held
      ensures Steady() && be == 0
      ensures ok ==> FitsBand(b, x, maxBits) && k == EobOf(b, x) + 1
      ensures ok && NoNew(b, x) ==> eobrun == old(eobrun) && log == old(log)
      ensures ok && !NoNew(b, x) ==> eobrun == 0
      ensures ok && !NoNew(b, x) ==>
        Now(rest) == old(Now(EobRun(t, eobrun, [], BlockSymbols(t, b, x, b.ss, 0, [], EobOf(b, x), rest))))
      ensures !ok && FitsBand(b, x, maxBits) ==> !gather && !NoNew(b, x)
      ensures !ok && FitsBand(b, x, maxBits) ==>
        !Covered(book, old(Now(EobRun(t, eobrun, [], BlockSymbols(t, b, x, b.ss, 0, [], EobOf(b, x), rest)))))
    {
      ghost var symbols := BlockSymbols(t, b, x, b.ss, 0, [], EobOf(b, x), rest);
      k := b.ss;
      FlagsNew(b, x);
      ok := FlushBeforeBlock(t, zerobits != 0, symbols);
      if !ok {
        return;
      }
      ok, k := EncodeCoefsFirst(t, zerobits, values, b, x, rest);
      if NoNew(b, x) {
        NoSymbolsFit(t, b, x, rest);
      }
    }

    lemma NoSymbolsFit(t: TableId, b: Band, x: Block, rest: Items)
      requires GoodBand(b) && !b.refine && NoNew(b, x)
      ensures BlockSymbols(t, b, x, b.ss, 0, [], EobOf(b, x), rest) == rest
      ensures FitsBand(b, x, maxBits)
    {
      FitsZeros(x, maxBits, b.ss, b.ss, b.se + 1);
    }

    /** One block of a first scan. */
    method EncodeAcFirst(block: Block, ghost rest: Items) returns (ok: bool)
      requires Steady() && GoodProgScan(scan) && scan.kind.AcBand? && !scan.kind.band.refine
      requires bitBuffer.Length == MAX_CORR_BITS && maxBits <= 14 && be == 0 && eobrun < MAX_RUN && Is16(block)
      modifies `log, `counts, `eobrun, `be, w`putBuffer, w`putBits, w`out, w`raw, w`held
      ensures Steady() && be <= MAX_CORR_BITS
      ensures ok ==> FitsBand(scan.kind.band, Seen(block, order, scan.kind.al), maxBits)
      ensures ok ==> Pend() == NextPending(scan.kind.band, old(Pend()), Seen(block, order, scan.kind.al))
      ensures ok ==> Now(rest) == old(Now(StepItems(block, Pend(), rest)))
      ensures !ok && FitsBand(scan.kind.band, Seen(block, order, scan.kind.al), maxBits) ==>
        !gather && !Covered(book, old(Now(StepItems(block, Pend(), rest))))
    {
      hide Steady, Covered, FitsBand, BlockSymbols, EobRun, Prepared, Nonzero, EobOf, NextPending, BlockStep, Seen, FitsBand;
      var t, b, al := AcTableOf(scan), scan.kind.band, scan.kind.al;
      ghost var x := Seen(block, order, al);
      var values := new nat[2 * 64](_ => 0);
      var zerobits := PrepareFirst(block, order, b, al, values);
      FirstStep(t, b, eobrun, x, rest);
      var k;
      ok, k := WriteFirst(t, zerobits, values, b, x, rest);
      if !ok {
        return;
      }
      if k < b.se + 1 {
        ok := EndBlock(t, 0, rest);
      }
    }

    /** What coding a block of this AC scan writes. */
    ghost function StepItems(block: Block, p: Pending, rest: Items): Items
      requires GoodProgScan(scan) && scan.kind.AcBand?
    {
      BlockStep(AcTableOf(scan), scan.kind.band, p, Seen(block, order, scan.kind.al), rest)
    }
  
    // Refinement scans.

    /** n buffered correction bits from index start on. */
    ghost function Slice(start: nat, n: nat): (s: seq<bit>)
      requires start + n <= bitBuffer.Length
      reads bitBuffer
      ensures |s| == n && forall i :: 0 <= i < n ==> s[i] == bitBuffer[start + i]
    {
      if n == 0 then [] else bitBuffer[start..start + n]
    }

    /** The waiting run, and the symbols of a block from k on. */
    ghost function Left(t: TableId, b: Band, x: Block, k: nat, r: nat, start: nat, br: nat, eob: nat, rest: Items): Items
      requires be <= bitBuffer.Length && start + br <= bitBuffer.Length && eob <= 63
      reads `eobrun, `be, bitBuffer
    {
      EobRun(t, eobrun, Buffered(be), BlockSymbols(t, b, x, k, r, Slice(start, br), eob, rest))
    }

    /** What holds at a nonzero coefficient: the block's correction bits follow those that wait. */
    ghost predicate Buffering(start: nat, br: nat)
      reads w, `counts, `log, `base, `eobrun, `be
    {
      Steady() && bitBuffer.Length == MAX_CORR_BITS && start == be && be + br <= MAX_CORR_BITS
      && eobrun < MAX_RUN && (eobrun == 0 ==> be == 0)
    }

    /** The waiting run and one symbol. */
    method EmitFlushed(t: TableId, symbol: byte, ghost next: Items) returns (ok: bool)
      requires Steady() && bitBuffer.Length == MAX_CORR_BITS && be <= MAX_CORR_BITS && eobrun < MAX_RUN && (eobrun == 0 ==> be == 0)
      modifies `log, `counts, `eobrun, `be, w`putBuffer, w`putBits, w`out, w`raw, w`held
      ensures Steady() && be <= MAX_CORR_BITS
      ensures ok ==> eobrun == 0 == be
      ensures ok ==> Now(next) == old(Now(EobRun(t, eobrun, Buffered(be), Sym(t, symbol, next))))
      ensures !ok ==> !gather && !Covered(book, old(Now(EobRun(t, eobrun, Buffered(be), Sym(t, symbol, next)))))
    {
      ok := EmitEobrun(t, Sym(t, symbol, next));
      if ok {
        ok := EmitSymbol(t, symbol, next);
      }
    }

    /** A code for sixteen zeros and the correction bits before it. */
    method EmitZrl(t: TableId, r: nat, start: nat, br: nat, ghost b: Band, ghost x: Block, ghost k: nat, ghost eob: nat,
                   ghost rest: Items) returns (ok: bool)
      requires Buffering(start, br) && k <= eob <= 63 && x[k] != 0 && r > 15
      modifies `log, `counts, `eobrun, `be, w`putBuffer, w`putBits, w`out, w`raw, w`held
      ensures Steady() && be <= MAX_CORR_BITS
      ensures ok ==> eobrun == 0 == be
      ensures ok ==> Now(Left(t, b, x, k, r - 16, 0, 0, eob, rest)) == old(Now(Left(t, b, x, k, r, start, br, eob, rest)))
      ensures !ok ==> !gather && !Covered(book, old(Now(Left(t, b, x, k, r, start, br, eob, rest))))
    {
      ghost var bits := Slice(start, br);
      ghost var more := BlockSymbols(t, b, x, k, r - 16, [], eob, rest);
      assert BlockSymbols(t, b, x, k, r, bits, eob, rest) == Sym(t, ZRL, RawBits(bits, more));
      ok := EmitFlushed(t, ZRL, RawBits(bits, more));
      if ok {
        assert bitBuffer[start..start + br] == bits;
        EmitBufferedBits(start, br, more);
      }
    }

    /** A newly nonzero coefficient, its sign, and the correction bits before it. */
    method EmitNew(t: TableId, r: nat, sign: bit, start: nat, br: nat, ghost b: Band, ghost x: Block, ghost k: nat,
                   ghost eob: nat, ghost rest: Items) returns (ok: bool)
      requires Buffering(start, br) && b.refine && k <= eob <= 63 && IsNew(b, x[k]) && r <= 15
      requires sign == if x[k] > 0 then 1 else 0
      modifies `log, `counts, `eobrun, `be, w`putBuffer, w`putBits, w`out, w`raw, w`held
      ensures Steady() && be <= MAX_CORR_BITS
      ensures ok ==> eobrun == 0 == be
      ensures ok ==> Now(Left(t, b, x, k + 1, 0, 0, 0, eob, rest)) == old(Now(Left(t, b, x, k, r, start, br, eob, rest)))
      ensures !ok ==> !gather && !Covered(book, old(Now(Left(t, b, x, k, r, start, br, eob, rest))))
    {
      hide BlockSymbols, Steady;
      ghost var bits := Slice(start, br);
      ghost var more := BlockSymbols(t, b, x, k + 1, 0, [], eob, rest);
      NewRefineItems(t, b, x, k, r, bits, eob, rest);
      ok := EmitFlushed(t, RunSize(r, 1), Raw(sign, 1, RawBits(bits, more)));
      if ok {
        var sent := EmitBits(sign, 1, sign);
        assert bitBuffer[start..start + br] == bits;
        EmitBufferedBits(start, br, more);
      }
    }

    lemma NewRefineItems(t: TableId, b: Band, x: Block, k: nat, r: nat, bits: seq<bit>, eob: nat, rest: Items)
      requires b.refine && k <= eob <= 63 && IsNew(b, x[k]) && r <= 15
      ensures BlockSymbols(t, b, x, k, r, bits, eob, rest)
           == Sym(t, RunSize(r, 1), Raw(if x[k] > 0 then 1 else 0, 1, RawBits(bits, BlockSymbols(t, b, x, k + 1, 0, [], eob, rest))))
    {
      assert BitLength(1) == 1;
      assert Pow2(1) == 2;
      assert Wrap(1, 1) == 1;
    }

    /** Codes for sixteen zeros, each with the correction bits before it, up to the last new coefficient. */
    method EmitZrls(t: TableId, r0: nat, start0: nat, br0: nat, inside: bool, ghost b: Band, ghost x: Block, ghost k: nat,
                    ghost eob: nat, ghost rest: Items) returns (ok: bool, r: nat, start: nat, br: nat)
      requires Buffering(start0, br0) && eob <= 63 && k < 64 && x[k] != 0
      requires InsideOk(inside, k, eob, r0)
      modifies `log, `counts, `eobrun, `be, w`putBuffer, w`putBits, w`out, w`raw, w`held
      ensures Steady() && be <= MAX_CORR_BITS
      ensures ok ==> Buffering(start, br) && (k <= eob ==> r <= 15) && be <= old(be) && br <= br0 && r <= r0
      ensures ok && k > eob ==> r == r0 && start == start0 && br == br0
      ensures ok && k > eob ==> log == old(log) && eobrun == old(eobrun) && be == old(be)
      ensures ok ==> Now(Left(t, b, x, k, r, start, br, eob, rest)) == old(Now(Left(t, b, x, k, r0, start0, br0, eob, rest)))
      ensures !ok ==> k <= eob && !gather && !Covered(book, old(Now(Left(t, b, x, k, r0, start0, br0, eob, rest))))
    {
      hide Left;
      ok, r, start, br := true, r0, start0, br0;
      while r > 15 && inside
        invariant Buffering(start, br) && be <= old(be) && br <= br0 && r <= r0
        invariant k > eob ==> r == r0 && start == start0 && br == br0
        invariant k > eob ==> log == old(log) && eobrun == old(eobrun) && be == old(be)
        invariant Now(Left(t, b, x, k, r, start, br, eob, rest)) == old(Now(Left(t, b, x, k, r0, start0, br0, eob, rest)))
      {
        ok := EmitZrl(t, r, start, br, b, x, k, eob, rest);
        if !ok {
          return;
        }
        r := r - 16;
        start, br := 0, 0;
      }
    }
  
    lemma PassOld(t: TableId, b: Band, x: Block, k: nat, r: nat, bits: seq<bit>, eob: nat, rest: Items)
      requires k < 64 && eob <= 63 && x[k] != 0 && !IsNew(b, x[k]) && (k <= eob ==> r <= 15)
      ensures BlockSymbols(t, b, x, k, r, bits, eob, rest)
           == BlockSymbols(t, b, x, k + 1, r, bits + [Correction(x[k])], eob, rest)
    {
    }

    /** Keeps a correction bit behind those that wait. */
    method Buffer(t: TableId, temp: nat, r: nat, start: nat, br: nat, ghost b: Band, ghost x: Block, ghost k: nat,
                  ghost eob: nat, ghost rest: Items)
      requires Buffering(start, br) && be + br < MAX_CORR_BITS && eob <= 63 && k < 64 && x[k] != 0 && !IsNew(b, x[k])
      requires temp == Abs(x[k]) && (k <= eob ==> r <= 15)
      modifies bitBuffer
      ensures Buffering(start, br + 1)
      ensures Left(t, b, x, k + 1, r, start, br + 1, eob, rest) == old(Left(t, b, x, k, r, start, br, eob, rest))
      ensures Buffered(be) == old(Buffered(be)) && Slice(start, br + 1) == old(Slice(start, br)) + [Correction(x[k])]
    {
      PassOld(t, b, x, k, r, Slice(start, br), eob, rest);
      ghost var waiting, bits := Buffered(be), Slice(start, br);
      bitBuffer[start + br] := temp % 2;
      assert Buffered(be) == waiting;
      assert Slice(start, br + 1) == bits + [Correction(x[k])];
    }

    /** A nonzero coefficient of a refinement scan. */
    method RefineCoefficient(t: TableId, r0: nat, start0: nat, br0: nat, inside: bool, temp: nat, sign: bit,
                             ghost b: Band, ghost x: Block, ghost k: nat, ghost eob: nat, ghost rest: Items)
      returns (ok: bool, r: nat, start: nat, br: nat)
      requires Buffering(start0, br0) && be + br0 < MAX_CORR_BITS && b.refine && eob <= 63 && k < 64
      requires x[k] != 0 && temp == Abs(x[k]) && sign == (if x[k] > 0 then 1 else 0)
      requires InsideOk(inside, k, eob, r0)
      requires k > eob ==> !IsNew(b, x[k])
      requires k == eob ==> IsNew(b, x[k])
      modifies `log, `counts, `eobrun, `be, bitBuffer, w`putBuffer, w`putBits, w`out, w`raw, w`held
      ensures Steady() && be <= MAX_CORR_BITS
      ensures ok ==> Buffering(start, br) && be <= old(be) && br <= br0 + 1 && r <= r0
      ensures ok && k == eob ==> r == 0 == br && eobrun == 0
      ensures ok && k > eob ==> r == r0 && start == start0 && br == br0 + 1
      ensures ok && k > eob ==> Slice(start, br) == old(Slice(start0, br0)) + [Correction(x[k])]
      ensures ok && k > eob ==> log == old(log) && eobrun == old(eobrun) && be == old(be) && Buffered(be) == old(Buffered(be))
      ensures ok ==> Now(Left(t, b, x, k + 1, r, start, br, eob, rest)) == old(Now(Left(t, b, x, k, r0, start0, br0, eob, rest)))
      ensures !ok ==> k <= eob && !gather && !Covered(book, old(Now(Left(t, b, x, k, r0, start0, br0, eob, rest))))
    {
      ok, r, start, br := EmitZrls(t, r0, start0, br0, inside, b, x, k, eob, rest);
      if !ok {
        return;
      }
      if temp > 1 {
        Buffer(t, temp, r, start, br, b, x, k, eob, rest);
        br := br + 1;
      } else {
        ok := EmitNew(t, r, sign, start, br, b, x, k, eob, rest);
        r, start, br := 0, 0, 0;
      }
    }
  
    lemma SkipAny(t: TableId, b: Band, x: Block, k: nat, r: nat, n: nat, bits: seq<bit>, eob: nat, rest: Items)
      requires k + n <= 64 && eob <= 63 && (k <= eob ==> x[eob] != 0) && forall i :: k <= i < k + n ==> x[i] == 0
      ensures BlockSymbols(t, b, x, k, r, bits, eob, rest) == BlockSymbols(t, b, x, k + n, r + n, bits, eob, rest)
    {
      if k <= eob {
        SkipZeros(t, b, x, k, r, n, bits, eob, rest);
      }
    }

    /** The waiting run and the correction bits of the block have room for the rest of the band. */
    ghost predicate Room(b: Band, k: nat, r: nat, start: nat, br: nat)
      reads w, `counts, `log, `base, `eobrun, `be
    {
      && b.ss <= k <= b.se + 1 && Buffering(start, br)
      && be <= MAX_CORR_BITS - 64 + 1 && br <= k - b.ss && r <= k - b.ss
    }

    /** After the last new coefficient nothing is written: there is no run left, or the one before the block. */
    ghost predicate RunKept(b: Band, k: nat, eob: nat, l0: Log, p0: Pending)
      reads `log, `eobrun, `be, bitBuffer
    {
      k > eob ==> if eob >= b.ss then eobrun == 0 else log == l0 && be <= bitBuffer.Length && Pend() == p0
    }

    /** Where a refinement scan is in a block. */
    ghost predicate Phase(b: Band, x: Block, k: nat, r: nat, start: nat, br: nat, eob: nat, l0: Log, p0: Pending)
      requires GoodBand(b)
      reads w, `counts, `log, `base, `eobrun, `be, bitBuffer
    {
      Room(b, k, r, start, br) && PastEob(b, x, k, r, Slice(start, br), eob) && RunKept(b, k, eob, l0, p0)
    }

    /** Zeros do not change what is left to write. */
    lemma LeftSkip(t: TableId, b: Band, x: Block, k: nat, r: nat, n: nat, start: nat, br: nat, eob: nat, rest: Items)
      requires be <= bitBuffer.Length && start + br <= bitBuffer.Length
      requires k + n <= 64 && eob <= 63 && (k <= eob ==> x[eob] != 0) && forall i :: k <= i < k + n ==> x[i] == 0
      ensures Left(t, b, x, k, r, start, br, eob, rest) == Left(t, b, x, k + n, r + n, start, br, eob, rest)
    {
      hide Slice, BlockSymbols, EobRun;
      SkipAny(t, b, x, k, r, n, Slice(start, br), eob, rest);
    }

    /** Some zeros and the nonzero coefficient after them. */
    method RefineNext(t: TableId, r0: nat, start0: nat, br0: nat, idx: nat, inside: bool, temp: nat, sign: bit,
                      ghost b: Band, ghost x: Block, ghost k0: nat, ghost eob: nat, ghost rest: Items,
                      ghost l0: Log, ghost p0: Pending)
      returns (ok: bool, r: nat, start: nat, br: nat)
      requires GoodBand(b) && b.refine && eob == EobOf(b, x) && Phase(b, x, k0, r0, start0, br0, eob, l0, p0)
      requires FoundNext(b, x, k0, idx, temp, sign) && InsideOk(inside, k0 + idx, eob, r0 + idx)
      modifies `log, `counts, `eobrun, `be, bitBuffer, w`putBuffer, w`putBits, w`out, w`raw, w`held
      ensures Steady() && be <= MAX_CORR_BITS
      ensures ok ==> Phase(b, x, k0 + idx + 1, r, start, br, eob, l0, p0)
      ensures ok ==>
        Now(Left(t, b, x, k0 + idx + 1, r, start, br, eob, rest)) == old(Now(Left(t, b, x, k0, r0, start0, br0, eob, rest)))
      ensures !ok ==> k0 <= eob && !gather && !Covered(book, old(Now(Left(t, b, x, k0, r0, start0, br0, eob, rest))))
    {
      hide Covered, Now, Left, Slice, PastEob, EobOf, Steady, Buffered, InsideOk, IsNew;
      ghost var k, bits := k0 + idx, Slice(start0, br0);
      NextNonzero(b, x, k0, idx, eob);
      LeftSkip(t, b, x, k0, r0, idx, start0, br0, eob, rest);
      ok, r, start, br := RefineCoefficient(t, r0 + idx, start0, br0, inside, temp, sign, b, x, k, eob, rest);
      if ok {
        PastNext(b, x, k0, r0, idx, bits, eob, r, Slice(start, br));
      }
    }
  
    /** The next nonzero coefficient of a band, and the flags and signs after it. */
    method NextMagnitude(zerobits0: nat, signbits0: nat, k0: nat, absvalues: array<nat>, b: Band, ghost x: Block)
      returns (zerobits: nat, signbits: nat, idx: nat, temp: nat, sign: bit)
      requires GoodBand(b) && absvalues.Length == 64 && Magnitudes(x, b, b.se - b.ss + 1, absvalues[..])
      requires b.ss <= k0 <= b.se + 1 && zerobits0 == FlagsLeft(b, x, k0) != 0 && signbits0 == SignsLeft(b, x, k0)
      ensures FoundNext(b, x, k0, idx, temp, sign) && k0 + idx <= b.se
      ensures zerobits == FlagsLeft(b, x, k0 + idx + 1) && signbits == SignsLeft(b, x, k0 + idx + 1)
    {
      zerobits, idx := FindNonzero(zerobits0, k0, b, x);
      SignsSkip(b, x, k0, idx);
      signbits := Shr(signbits0, idx);
      ghost var seen := absvalues[..];
      assert seen[k0 + idx - b.ss] == Abs(x[k0 + idx]);
      temp, sign := absvalues[k0 + idx - b.ss], signbits % 2;
      signbits := signbits / 2;
      zerobits := zerobits / 2;
    }

    /** The next nonzero coefficient of a band, found through the flags; k stands for the pointer to the magnitudes. */
    method RefineStep(t: TableId, zerobits0: nat, signbits0: nat, k0: nat, r0: nat, start0: nat, br0: nat, eobAt: nat,
                      absvalues: array<nat>, b: Band, ghost x: Block, ghost eob: nat, ghost rest: Items,
                      ghost l0: Log, ghost p0: Pending)
      returns (ok: bool, zerobits: nat, signbits: nat, k: nat, r: nat, start: nat, br: nat)
      requires GoodBand(b) && b.refine && eob == EobOf(b, x) && eobAt == (if eob < b.ss then b.ss else eob)
      requires absvalues.Length == 64 && Magnitudes(x, b, b.se - b.ss + 1, absvalues[..])
      requires b.ss <= k0 <= b.se + 1 && zerobits0 == FlagsLeft(b, x, k0) != 0 && signbits0 == SignsLeft(b, x, k0)
      requires Phase(b, x, k0, r0, start0, br0, eob, l0, p0)
      modifies `log, `counts, `eobrun, `be, bitBuffer, w`putBuffer, w`putBits, w`out, w`raw, w`held
      ensures Steady() && be <= MAX_CORR_BITS
      ensures ok ==> k0 < k <= b.se + 1 && zerobits == FlagsLeft(b, x, k) && signbits == SignsLeft(b, x, k)
      ensures ok ==> Phase(b, x, k, r, start, br, eob, l0, p0)
      ensures ok ==> Now(Left(t, b, x, k, r, start, br, eob, rest)) == old(Now(Left(t, b, x, k0, r0, start0, br0, eob, rest)))
      ensures !ok ==> k0 <= eob && !gather && !Covered(book, old(Now(Left(t, b, x, k0, r0, start0, br0, eob, rest))))
    {
      hide Phase, FoundNext, Left, Now, Covered, FlagsLeft, SignsLeft, Magnitudes, InsideOk, Steady;
      var idx, temp, sign;
      zerobits, signbits, idx, temp, sign := NextMagnitude(zerobits0, signbits0, k0, absvalues, b, x);
      var inside := k0 + idx <= eobAt;
      InsideBand(b, x, k0, idx, r0, start0, br0, eob, eobAt, l0, p0);
      ok, r, start, br := RefineNext(t, r0, start0, br0, idx, inside, temp, sign, b, x, k0, eob, rest, l0, p0);
      k := k0 + idx + 1;
    }

    lemma InsideBand(b: Band, x: Block, k0: nat, idx: nat, r0: nat, start0: nat, br0: nat, eob: nat, eobAt: nat, l0: Log, p0: Pending)
      requires GoodBand(b) && Phase(b, x, k0, r0, start0, br0, eob, l0, p0) && b.ss - 1 <= eob
      requires eobAt == if eob < b.ss then b.ss else eob
      ensures InsideOk(k0 + idx <= eobAt, k0 + idx, eob, r0 + idx)
    {
      hide PastEob, RunKept, Buffering;
    }

    lemma PhaseStart(b: Band, x: Block)
      requires GoodBand(b) && Steady() && bitBuffer.Length == MAX_CORR_BITS && be <= MAX_CORR_BITS - 64 + 1
      requires eobrun < MAX_RUN && (eobrun == 0 ==> be == 0)
      ensures Phase(b, x, b.ss, 0, be, 0, EobOf(b, x), log, Pend())
    {
      hide Steady;
      assert [] + Corrections(b, x, b.ss) == Corrections(b, x, b.ss);
    }

    /** The coefficients of a band in a refinement scan. */
    method EncodeCoefsRefine(t: TableId, zerobits0: nat, signbits0: nat, eobAt: nat, absvalues: array<nat>,
                             b: Band, ghost x: Block, ghost rest: Items)
      returns (ok: bool, r: nat, br: nat, k: nat)
      requires GoodBand(b) && b.refine && absvalues.Length == 64 && bitBuffer as object != absvalues
      requires zerobits0 == FlagsLeft(b, x, b.ss) && signbits0 == SignsLeft(b, x, b.ss)
      requires Magnitudes(x, b, b.se - b.ss + 1, absvalues[..]) && eobAt == LastNewOrFirst(b, x, b.se - b.ss + 1)
      requires Steady() && bitBuffer.Length == MAX_CORR_BITS && be <= MAX_CORR_BITS - 64 + 1
      requires eobrun < MAX_RUN && (eobrun == 0 ==> be == 0)
      modifies `log, `counts, `eobrun, `be, bitBuffer, w`putBuffer, w`putBits, w`out, w`raw, w`held
      ensures Steady() && be <= MAX_CORR_BITS
      ensures ok ==> EobOf(b, x) < k <= b.se + 1 && forall i :: k <= i <= b.se ==> x[i] == 0
      ensures ok ==> Phase(b, x, k, r, be, br, EobOf(b, x), old(log), old(Pend()))
      ensures ok ==>
        Now(Left(t, b, x, k, r, be, br, EobOf(b, x), rest)) == old(Now(Left(t, b, x, b.ss, 0, be, 0, EobOf(b, x), rest)))
      ensures !ok ==> !NoNew(b, x)
      ensures !ok ==> !gather && !Covered(book, old(Now(Left(t, b, x, b.ss, 0, be, 0, EobOf(b, x), rest))))
    {
      hide PastEob, RunKept, Left, Now, Covered, FlagsLeft, SignsLeft, Magnitudes, Steady, Pend;
      ghost var eob, l0, p0 := EobOf(b, x), log, Pend();
      ghost var abs := absvalues[..];
      PhaseStart(b, x);
      var start := be;
      var zerobits, signbits := zerobits0, signbits0;
      ok, r, br, k := true, 0, 0, b.ss;
      while zerobits != 0
        invariant absvalues[..] == abs
        invariant b.ss <= k <= b.se + 1 && start == be
        invariant zerobits == FlagsLeft(b, x, k) && signbits == SignsLeft(b, x, k)
        invariant Phase(b, x, k, r, start, br, eob, l0, p0)
        invariant Now(Left(t, b, x, k, r, start, br, eob, rest)) == old(Now(Left(t, b, x, b.ss, 0, be, 0, eob, rest)))
        decreases 64 - k
      {
        ok, zerobits, signbits, k, r, start, br :=
          RefineStep(t, zerobits, signbits, k, r, start, br, eobAt, absvalues, b, x, eob, rest, l0, p0);
        if !ok {
          return;
        }
      }
      NoFlags(b, x, k);
    }
  
    lemma OrPositive(a: nat, n: nat)
      ensures Or(a, n) > 0 <==> a > 0 || n > 0
      decreases a + n
    {
      if a > 0 || n > 0 {
        OrPositive(a / 2, n / 2);
      }
    }

    /** The block's correction bits, kept behind those that wait, join them. */
    lemma JoinBuffered(br: nat)
      requires be + br <= bitBuffer.Length
      ensures Buffered(be + br) == Buffered(be) + Slice(be, br)
    {
    }

    /** What a block of a refinement scan writes, and what waits after it. */
    lemma RefinedStep(t: TableId, b: Band, p: Pending, x: Block, br: seq<bit>, rest: Items)
      requires GoodBand(b) && br == Corrections(b, x, EobOf(b, x) + 1)
      ensures NoNew(b, x) ==>
        var q := Pending(p.run + 1, p.be + br);
        && NextPending(b, p, x) == (if Forced(q) then Pending(0, []) else q)
        && BlockStep(t, b, p, x, rest) == (if Forced(q) then EobRun(t, q.run, q.be, rest) else rest)
      ensures !NoNew(b, x) ==>
        && BlockStep(t, b, p, x, rest) == EobRun(t, p.run, p.be, BlockSymbols(t, b, x, b.ss, 0, [], EobOf(b, x), rest))
        && NextPending(b, p, x) == (if EobOf(b, x) < b.se then Pending(1, br) else Pending(0, []))
        && !Forced(Pending(1, [] + br))
        && [] + br == br
    {
      hide EobRun, BlockSymbols;
    }

    /** After the last nonzero coefficient: what waits in the buffer, and whether the block needs an end. */
    lemma PhaseEnd(b: Band, x: Block, k: nat, r: nat, br: nat, l0: Log, p: Pending)
      requires GoodBand(b) && EobOf(b, x) < k <= b.se + 1 && forall i :: k <= i <= b.se ==> x[i] == 0
      requires Phase(b, x, k, r, be, br, EobOf(b, x), l0, p)
      ensures Steady() && bitBuffer.Length == MAX_CORR_BITS && be + br <= MAX_CORR_BITS && eobrun < MAX_RUN
      ensures (r > 0 || br > 0 || k <= b.se) <==> EobOf(b, x) < b.se
      ensures Buffered(be + br) == Buffered(be) + Corrections(b, x, EobOf(b, x) + 1)
      ensures if NoNew(b, x) then log == l0 && Pend() == p else Pend() == Pending(0, [])
    {
      hide Steady;
      var bits := Slice(be, br);
      CorrectionsSkip(b, x, k, b.se + 1 - k);
      assert bits + [] == bits;
      JoinBuffered(br);
    }

    /** The end of a block of a refinement scan. */
    method FinishRefine(t: TableId, r0: nat, br: nat, k: nat, b: Band, ghost x: Block, ghost p: Pending, ghost l0: Log, ghost rest: Items)
      returns (ok: bool)
      requires GoodBand(b) && EobOf(b, x) < k <= b.se + 1 && forall i :: k <= i <= b.se ==> x[i] == 0
      requires Phase(b, x, k, r0, be, br, EobOf(b, x), l0, p)
      modifies `log, `counts, `eobrun, `be, w`putBuffer, w`putBits, w`out, w`raw, w`held
      ensures Steady() && be <= MAX_CORR_BITS
      ensures ok ==> Pend() == NextPending(b, p, x)
      ensures ok ==> Now(rest) == old(Now(if NoNew(b, x) then BlockStep(t, b, p, x, rest) else rest))
      ensures !ok ==> NoNew(b, x) && !gather && !Covered(book, old(Now(BlockStep(t, b, p, x, rest))))
    {
      hide Phase, Steady, EobRun, NextPending, BlockStep, Covered, Corrections, EobOf, Buffered, Or, Now;
      PhaseEnd(b, x, k, r0, br, l0, p);
      RefinedStep(t, b, p, x, Corrections(b, x, EobOf(b, x) + 1), rest);
      OrPositive(r0, b.se + 1 - k);
      var r := Or(r0, b.se + 1 - k);
      ok := true;
      if r > 0 || br > 0 {
        ok := EndBlock(t, br, rest);
      }
    }

    /** A block with new coefficients writes the waiting run and its symbols. */
    lemma LeftAtStart(t: TableId, b: Band, x: Block, rest: Items)
      requires GoodBand(b) && be <= bitBuffer.Length && !NoNew(b, x)
      ensures Left(t, b, x, b.ss, 0, be, 0, EobOf(b, x), rest) == BlockStep(t, b, Pend(), x, rest)
    {
      hide BlockSymbols, EobRun;
    }

    /** Once these are written, nothing is left; without new coefficients, nothing has been written at all. */
    lemma LeftAtEnd(t: TableId, b: Band, x: Block, k: nat, r: nat, br: nat, l0: Log, p: Pending, rest: Items)
      requires GoodBand(b) && EobOf(b, x) < k && Phase(b, x, k, r, be, br, EobOf(b, x), l0, p)
      ensures if NoNew(b, x) then log == l0 && Pend() == p else Left(t, b, x, k, r, be, br, EobOf(b, x), rest) == rest
    {
      hide Steady, PastEob;
    }

    /** One block of a refinement scan. */
    method EncodeAcRefine(block: Block, ghost rest: Items) returns (ok: bool)
      requires Steady() && GoodProgScan(scan) && scan.kind.AcBand? && scan.kind.band.refine
      requires bitBuffer.Length == MAX_CORR_BITS && be <= MAX_CORR_BITS - 64 + 1
      requires eobrun < MAX_RUN && (eobrun == 0 ==> be == 0)
      modifies `log, `counts, `eobrun, `be, bitBuffer, w`putBuffer, w`putBits, w`out, w`raw, w`held
      ensures Steady() && be <= MAX_CORR_BITS
      ensures ok ==> Pend() == NextPending(scan.kind.band, old(Pend()), Seen(block, order, scan.kind.al))
      ensures ok ==> Now(rest) == old(Now(StepItems(block, Pend(), rest)))
      ensures !ok ==> !gather && !Covered(book, old(Now(StepItems(block, Pend(), rest))))
    {
      hide NextPending, BlockStep, Left, Covered, Phase, Steady, Magnitudes, Nonzero, Positive, Seen, EobOf, LastNewOrFirst, Pend;
      var t, b, al := AcTableOf(scan), scan.kind.band, scan.kind.al;
      ghost var x, p, l0 := Seen(block, order, al), Pend(), log;
      var absvalues := new nat[64](_ => 0);
      var eobAt, zerobits, signbits := PrepareRefine(block, order, b, al, absvalues);
      if !NoNew(b, x) {
        LeftAtStart(t, b, x, rest);
      }
      var r, br, k;
      ok, r, br, k := EncodeCoefsRefine(t, zerobits, signbits, eobAt, absvalues, b, x, rest);
      if ok {
        LeftAtEnd(t, b, x, k, r, br, l0, p, rest);
        ok := FinishRefine(t, r, br, k, b, x, p, l0, rest);
      }
    }

    // DC scans.

    /** A DC difference; fails if it has too many bits or its symbol has no code. */
    method EncodeDifference(t: TableId, diff: int, ghost rest: Items) returns (ok: bool)
      requires Steady() && maxBits <= 14
      modifies `log, `counts, w`putBuffer, w`putBits, w`out, w`raw, w`held
      ensures Steady()
      ensures ok ==> Size(diff) <= maxBits + 1 && Now(rest) == old(Now(DiffItems(t, diff, rest)))
      ensures !ok ==> Size(diff) > maxBits + 1 || (!gather && !Covered(book, old(Now(DiffItems(t, diff, rest)))))
    {
      var nbits := Size(diff);
      if nbits > maxBits + 1 {
        return false;
      }
      ok := EmitSymbol(t, nbits, Raw(ExtraBits(diff), nbits, rest));
      if !ok {
        return;
      }
      assert Now(Raw(ExtraBits(diff), nbits, rest)) == old(Now(DiffItems(t, diff, rest)));
      if nbits > 0 {
        LowBitsSame(OnesComplement(diff), 32, nbits);
        ok := EmitBits(LowBits(OnesComplement(diff), 32), nbits, ExtraBits(diff));
      } else {
        LogNothing(ExtraBits(diff));
      }
    }

    /** The DC differences of an MCU of a first scan. */
    method EncodeDcFirst(blocks: seq<Block>, ghost rest: Items) returns (ok: bool)
      requires Steady() && GoodProgScan(scan) && scan.kind.DcFirst? && |last| == |scan.comps| && maxBits <= 14 && order[0] == 0
      requires |blocks| == |scan.membership|
      modifies `log, `counts, `last, w`putBuffer, w`putBits, w`out, w`raw, w`held
      ensures Steady() && |last| == |scan.comps|
      ensures ok ==> DcFirstFits(scan, old(last), ReorderedMcu(blocks, order), 0, maxBits + 1)
      ensures ok ==> last == DcFirstLast(scan, old(last), ReorderedMcu(blocks, order), 0)
      ensures ok ==> Now(rest) == old(Now(DcFirstItems(scan, last, ReorderedMcu(blocks, order), 0, rest)))
      ensures !ok && DcFirstFits(scan, old(last), ReorderedMcu(blocks, order), 0, maxBits + 1) ==>
        !gather && !Covered(book, old(Now(DcFirstItems(scan, last, ReorderedMcu(blocks, order), 0, rest))))
    {
      hide Steady, Covered, DiffItems, ReorderedMcu, Now, Size;
      ghost var xs := ReorderedMcu(blocks, order);
      var b := 0;
      while b < |blocks|
        invariant b <= |blocks| && Steady() && |last| == |scan.comps|
        invariant DcFirstLast(scan, last, xs, b) == old(DcFirstLast(scan, last, xs, 0))
        invariant DcFirstFits(scan, last, xs, b, maxBits + 1) == old(DcFirstFits(scan, last, xs, 0, maxBits + 1))
        invariant Now(DcFirstItems(scan, last, xs, b, rest)) == old(Now(DcFirstItems(scan, last, xs, 0, rest)))
      {
        var ci := scan.membership[b];
        var temp2 := ShiftRight(blocks[b][0], scan.kind.al);
        var temp := temp2 - last[ci];
        ghost var more := DcFirstItems(scan, last[ci := temp2], xs, b + 1, rest);
        assert xs[b][0] == blocks[b][0];
        last := last[ci := temp2];
        ok := EncodeDifference(DcTable(scan.comps[ci].dcTbl), temp, more);
        if !ok {
          return;
        }
        b := b + 1;
      }
      return true;
    }

    /** One bit of the DC value of every block of an MCU. */
    method EncodeDcRefine(blocks: seq<Block>, ghost rest: Items)
      requires Steady() && scan.kind.DcRefine? && order[0] == 0
      modifies `log, w`putBuffer, w`putBits, w`out, w`raw, w`held
      ensures Steady() && Now(rest) == old(Now(DcRefineItems(ReorderedMcu(blocks, order), scan.kind.al, 0, rest)))
    {
      hide ReorderedMcu;
      ghost var xs := ReorderedMcu(blocks, order);
      var b := 0;
      while b < |blocks|
        invariant b <= |blocks| && Steady()
        invariant Now(DcRefineItems(xs, scan.kind.al, b, rest)) == old(Now(DcRefineItems(xs, scan.kind.al, 0, rest)))
      {
        var temp := blocks[b][0];
        assert xs[b][0] == temp;
        LastBit(ShiftRight(temp, scan.kind.al));
        var ok := EmitBits(LowBits(ShiftRight(temp, scan.kind.al), 32), 1, DcBit(temp, scan.kind.al));
        b := b + 1;
      }
    }

    // Whole scans.

    /** The parameters of the scan, the predictions, and the run that waits. */
    ghost predicate Scanning()
      reads `last, `eobrun, `be, bitBuffer
      ensures Scanning() ==> GoodProgScan(scan)
    {
      && GoodProgScan(scan) && maxBits <= 14 && order[0] == 0
      && |last| == |scan.comps| && bitBuffer.Length == MAX_CORR_BITS && be <= MAX_CORR_BITS && Waiting(Pend())
      && (scan.kind.AcBand? ==> last == Initial(scan).last && (scan.kind.band.refine || be == 0))
      && (!scan.kind.AcBand? ==> eobrun == 0 == be)
    }

    /** What holds while the blocks of an MCU are coded. */
    ghost predicate Coding()
      reads this, w, bitBuffer
    {
      Steady() && Scanning() && (!gather ==> base.bits == Empty)
    }

    /** What holds between MCUs. */
    ghost predicate Ready()
      reads this, w, bitBuffer
    {
      Coding() && (!gather ==> nextNum == |w.done| % 8)
    }

    ghost function Current(): (st: State)
      requires Scanning()
      reads this, w, bitBuffer
      ensures GoodState(scan, st)
    {
      State(last, Pend())
    }

    /** What is left of the scan, with the current segment completed. */
    ghost function Whole(rest: Segs): Segs
      reads `log
    {
      First(rest, Append(log, rest.items))
    }

    ghost function Total(rest: Segs): Outcome
      requires Steady()
      reads w, `counts, `log, `base
    {
      TotalOf(gather, book, DataBits(w.done), base, Whole(rest))
    }

    /** Pads the segment and writes the restart marker, or, when counting, only starts a new segment. */
    method NewSegment(ghost segs: Segs)
      requires Steady() && (!gather ==> nextNum == |w.done| % 8 && base.bits == Empty)
      modifies `log, `base, w`putBuffer, w`putBits, w`out, w`raw, w`held, w`before, w`done
      ensures Steady() && log == Start && (!gather ==> base.bits == Empty)
      ensures |w.done| == old(|w.done|) + if gather then 0 else 1
      ensures Total(segs) == old(Total(More(Nil, segs)))
      ensures !gather ==> Covered(book, old(Append(log, Nil)))
    {
      ghost var o, d := Out(), DataBits(w.done);
      EndSegment(gather, book, d, base, log, segs, o, if gather then o else Output(Empty, o.counts));
      if !gather {
        w.FlushBits();
        DataBitsNext(w.done, w.raw);
        w.EmitMarker(nextNum);
      }
      log, base := Start, Out();
    }

    /** Ends the segment with the waiting run, and writes the restart marker. */
    method EmitRestart(ghost segs: Segs) returns (ok: bool)
      requires Ready()
      modifies `log, `base, `counts, `last, `eobrun, `be, w`putBuffer, w`putBits, w`out, w`raw, w`held, w`before, w`done
      ensures ok ==> Coding() && Current() == Initial(scan) && log == Start
      ensures ok ==> |w.done| == old(|w.done|) + if gather then 0 else 1
      ensures ok ==> Total(segs) == old(Total(More(EndItems(scan, Current(), Nil), segs)))
      ensures ok && !gather ==> Covered(book, old(Append(log, EndItems(scan, Current(), Nil))))
      ensures !ok ==> !gather && !Covered(book, old(Append(log, EndItems(scan, Current(), Nil))))
    {
      hide Steady, EobRun, Covered, TotalOf;
      ok := true;
      if scan.kind.AcBand? {
        ok := EmitEobrun(AcTableOf(scan), Nil);
        if !ok {
          return;
        }
      }
      assert Append(log, Nil) == old(Append(log, EndItems(scan, Current(), Nil)));
      NewSegment(segs);
      if !scan.kind.AcBand? {
        last := seq(|scan.comps|, _ => 0);
      } else {
        eobrun, be := 0, 0;
      }
    }

    /** The blocks of an MCU, in the way of the scan's kind. */
    method EncodeBlocks(blocks: seq<Block>, ghost rest: Items) returns (ok: bool)
      requires Coding() && |blocks| == |scan.membership| && forall i :: 0 <= i < |blocks| ==> Is16(blocks[i])
      modifies `log, `counts, `last, `eobrun, `be, bitBuffer, w`putBuffer, w`putBits, w`out, w`raw, w`held
      ensures ok ==> Coding() && Current() == ProgAfterMcu(scan, old(Current()), ReorderedMcu(blocks, order))
      ensures ok ==> ProgMcuFits(scan, old(Current()), ReorderedMcu(blocks, order), maxBits)
      ensures ok ==> Now(rest) == old(Now(ProgMcuItems(scan, Current(), ReorderedMcu(blocks, order), rest)))
      ensures !ok && ProgMcuFits(scan, old(Current()), ReorderedMcu(blocks, order), maxBits) ==>
        !gather && !Covered(book, old(Now(ProgMcuItems(scan, Current(), ReorderedMcu(blocks, order), rest))))
    {
      hide Steady, Covered, NextPending, BlockStep, DcFirstItems, DcRefineItems, DcFirstFits, FitsBand, DcFirstLast;
      ghost var xs, st := ReorderedMcu(blocks, order), Current();
      match scan.kind {
        case DcFirst(_) =>
          ok := EncodeDcFirst(blocks, rest);
        case DcRefine(_) =>
          EncodeDcRefine(blocks, rest);
          ok := true;
        case AcBand(b, al) =>
          assert Transformed(xs[0], al) == Seen(blocks[0], order, al);
          NextWaits(b, st.pending, Transformed(xs[0], al));
          if b.refine {
            ok := EncodeAcRefine(blocks[0], rest);
          } else {
            NextWithoutCorrections(b, st.pending, Transformed(xs[0], al));
            ok := EncodeAcFirst(blocks[0], rest);
          }
      }
    }

    method CountMcu()
      requires !gather ==> nextNum == (|w.done| + if scan.interval > 0 && togo == 0 then 7 else 0) % 8
      modifies `togo, `nextNum
      ensures togo == ToGoNext(scan, old(togo)) && (!gather ==> nextNum == |w.done| % 8)
    {
      if scan.interval > 0 {
        if togo == 0 {
          togo := scan.interval;
          nextNum := (nextNum + 1) % 8;
        }
        togo := togo - 1;
      }
    }

    /** What is left of the scan, when segs starts where the next MCU does. */
    ghost function Restarted(segs: Segs): Segs
      requires Coding()
      reads this, w, bitBuffer
    {
      if scan.interval > 0 && togo == 0 then More(EndItems(scan, Current(), Nil), segs) else segs
    }

    /** A restart marker, if the interval is used up. */
    method RestartIfDue(ghost segs: Segs) returns (ok: bool)
      requires Ready()
      modifies `log, `base, `counts, `last, `eobrun, `be, w`putBuffer, w`putBits, w`out, w`raw, w`held, w`before, w`done
      ensures ok ==> Coding() && Current() == StartState(scan, old(Current()), togo)
      ensures ok ==> |w.done| == old(|w.done|) + if !gather && scan.interval > 0 && togo == 0 then 1 else 0
      ensures ok ==> Total(segs) == old(Total(Restarted(segs)))
      ensures ok && !gather ==> (CoveredSegs(book, Whole(segs)) <==> CoveredSegs(book, old(Whole(Restarted(segs)))))
      ensures !ok ==> !gather && !CoveredSegs(book, old(Whole(Restarted(segs))))
    {
      hide Steady, Scanning, Covered, TotalOf, EndItems, Initial;
      ghost var end := Append(log, EndItems(scan, Current(), Nil));
      assert scan.interval > 0 && togo == 0 ==> Whole(Restarted(segs)) == More(end, segs);
      ok := true;
      if scan.interval > 0 && togo == 0 {
        ok := EmitRestart(segs);
      }
    }

    /** Codes one MCU, after a restart marker if the interval is used up. */
    method EncodeMcu(blocks: seq<Block>, ghost rest: Segs) returns (ok: bool)
      requires Ready() && |blocks| == |scan.membership| && forall i :: 0 <= i < |blocks| ==> Is16(blocks[i])
      modifies this, bitBuffer, w
      ensures ok ==> Ready() && togo == ToGoNext(scan, old(togo))
      ensures ok ==>
        Current() == ProgAfterMcu(scan, StartState(scan, old(Current()), old(togo)), ReorderedMcu(blocks, order))
      ensures ok ==> ProgMcuFits(scan, StartState(scan, old(Current()), old(togo)), ReorderedMcu(blocks, order), maxBits)
      ensures ok ==> Total(rest) == old(Total(ProgMcuSegs(scan, Current(), togo, ReorderedMcu(blocks, order), rest)))
      ensures ok && !gather ==>
        (CoveredSegs(book, Whole(rest))
         <==> CoveredSegs(book, old(Whole(ProgMcuSegs(scan, Current(), togo, ReorderedMcu(blocks, order), rest)))))
      ensures !ok && ProgMcuFits(scan, StartState(scan, old(Current()), old(togo)), ReorderedMcu(blocks, order), maxBits) ==>
        !gather && !CoveredSegs(book, old(Whole(ProgMcuSegs(scan, Current(), togo, ReorderedMcu(blocks, order), rest))))
    {
      hide Steady, Scanning, Append, Covered, TotalOf, EndItems, StartState, ProgMcuItems, ProgAfterMcu, ProgMcuFits, ReorderedMcu;
      ghost var xs, st := ReorderedMcu(blocks, order), StartState(scan, Current(), togo);
      ghost var segs := First(rest, ProgMcuItems(scan, st, xs, rest.items));
      assert ProgMcuSegs(scan, Current(), togo, xs, rest) == Restarted(segs);
      ok := RestartIfDue(segs);
      if !ok {
        return;
      }
      ok := EncodeBlocks(blocks, rest.items);
      if ok {
        CountMcu();
      }
    }

    /** Writes the waiting run and pads the last segment. */
    method FinishPass() returns (ok: bool)
      requires Ready()
      modifies `log, `counts, `eobrun, `be, w`putBuffer, w`putBits, w`out, w`raw, w`held
      ensures ok && !gather ==> w.Valid() && Written(DataBits(w.done + [w.raw])) == old(Total(Last(EndItems(scan, Current(), Nil))))
      ensures ok && gather ==> Counted(counts) == old(Total(Last(EndItems(scan, Current(), Nil))))
      ensures ok && !gather ==> CoveredSegs(book, old(Whole(Last(EndItems(scan, Current(), Nil)))))
      ensures !ok ==> !gather && !CoveredSegs(book, old(Whole(Last(EndItems(scan, Current(), Nil)))))
    {
      ok := true;
      if scan.kind.AcBand? {
        ok := EmitEobrun(AcTableOf(scan), Nil);
        if !ok {
          return;
        }
      }
      assert Append(log, Nil) == old(Append(log, EndItems(scan, Current(), Nil)));
      LastSegmentDone(gather, book, DataBits(w.done), base, log, Out());
      if !gather {
        w.FlushBits();
        DataBitsNext(w.done, w.raw);
      }
    }

    /**
     * Codes a whole scan. Counting, it succeeds if all values are in range, and counts the symbols of the scan's
     * items; writing, it also needs a code for each of those symbols, and writes exactly those items.
     */
    method EncodeScan(mcus: seq<seq<Block>>) returns (ok: bool)
      requires Ready() && Current() == Initial(scan) && togo == scan.interval && log == Start && w.done == []
      requires forall i :: 0 <= i < |mcus| ==> |mcus[i]| == |scan.membership|
      requires forall i, j :: 0 <= i < |mcus| && 0 <= j < |mcus[i]| ==> Is16(mcus[i][j])
      modifies this, bitBuffer, w
      ensures GoodProgMcus(scan, ReorderedMcus(mcus, order))
      ensures ok <==>
        && ProgScanFits(scan, Initial(scan), scan.interval, ReorderedMcus(mcus, order), maxBits)
        && (gather || CoveredSegs(book, ProgScanItems(scan, Initial(scan), scan.interval, ReorderedMcus(mcus, order))))
      ensures ok && !gather ==>
        w.Valid() && DataBits(w.done + [w.raw])
                     == EmitSegs(book, ProgScanItems(scan, Initial(scan), scan.interval, ReorderedMcus(mcus, order)), Empty)
      ensures ok && gather ==>
        counts == TallySegs(ProgScanItems(scan, Initial(scan), scan.interval, ReorderedMcus(mcus, order)), old(base.counts))
      ensures scan.kind.DcFirst? ==>
        Prediction.Sends(scan, [], ProgScanItems(scan, Initial(scan), scan.interval, ReorderedMcus(mcus, order)),
                         RestartIntervals.Intervals(scan.interval, scan.interval, ReorderedMcus(mcus, order)))
    {
      hide Prediction.Sends, RestartIntervals.Intervals, ProgScanFits, ProgScanItems, ProgMcuSegs, CoveredSegs, ProgAfterMcu, ProgMcuFits, StartState, TotalOf;
      ghost var xs := ReorderedMcus(mcus, order);
      ghost var all := ProgScanItems(scan, Initial(scan), scan.interval, xs);
      ghost var fits := ProgScanFits(scan, Initial(scan), scan.interval, xs, maxBits);
      ghost var total := Total(all);
      if scan.kind.DcFirst? {
        Prediction.DifferencesLookBack(scan, xs);
      }
      NothingYet(all);
      assert xs[0..] == xs;
      var i := 0;
      while i < |mcus|
        invariant i <= |mcus| && Ready()
        invariant ProgScanFits(scan, Current(), togo, xs[i..], maxBits) == fits
        invariant Total(ProgScanItems(scan, Current(), togo, xs[i..])) == total
        invariant !gather ==> (CoveredSegs(book, Whole(ProgScanItems(scan, Current(), togo, xs[i..]))) <==> CoveredSegs(book, all))
      {
        ghost var left, st := xs[i..], Current();
        assert left[0] == xs[i] == ReorderedMcu(mcus[i], order) && left[1..] == xs[i + 1..];
        ProgScanIsMcu(scan, st, togo, left, maxBits);
        ghost var st' := ProgAfterMcu(scan, StartState(scan, st, togo), left[0]);
        ok := EncodeMcu(mcus[i], ProgScanItems(scan, st', ToGoNext(scan, togo), left[1..]));
        if !ok {
          return;
        }
        i := i + 1;
      }
      assert xs[i..] == [];
      NothingLeft(scan, Current(), togo, maxBits);
      ok := FinishPass();
    }

    lemma NothingYet(all: Segs)
      requires Ready() && log == Start && w.done == []
      ensures Whole(all) == all
      ensures Total(all) == if gather then Counted(TallySegs(all, base.counts)) else Written(EmitSegs(book, all, Empty))
    {
      assert DataBits([]) + EmitSegs(book, all, Empty) == EmitSegs(book, all, Empty);
    }
  }

  lemma NothingLeft(s: ProgScan, st: State, togo: nat, m: nat)
    requires GoodProgScan(s) && GoodState(s, st)
    ensures ProgScanItems(s, st, togo, []) == Last(EndItems(s, st, Nil)) && ProgScanFits(s, st, togo, [], m)
  {
  }
}
