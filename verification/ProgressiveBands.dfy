/**
 * Progressive AC scans (sections G.1.2.2 and G.1.2.3 of T.81): end-of-block runs that span blocks, and
 * correction bits that wait for the symbol they belong to.
 */
module ProgressiveBands {
  import opened Bytes
  import opened BitStrings
  import opened Coefficients
  import opened ZigZag
  import opened HuffmanCodes
  import opened HuffmanItems
  import opened SeqHuffman

  /** The band of an AC scan, and whether the scan refines it by one bit. */
  datatype Band = Band(refine: bool, ss: nat, se: nat)

  predicate GoodBand(b: Band) { 1 <= b.ss <= b.se <= 63 }

  /** A coefficient that gets a symbol of its own: nonzero, and in a refinement scan for the first time. */
  predicate IsNew(b: Band, v: int) { if b.refine then Abs(v) == 1 else v != 0 }

  /** A coefficient that is known to be nonzero, and only gets a correction bit. */
  predicate IsOld(b: Band, v: int) { b.refine && Abs(v) > 1 }

  function Correction(v: int): bit { Abs(v) % 2 }

  /** The correction bits from k to the end of the band. */
  function Corrections(b: Band, x: Block, k: nat): (s: seq<bit>)
    requires GoodBand(b)
    ensures k <= b.se ==> |s| <= b.se + 1 - k
    decreases b.se + 1 - k
  {
    if k > b.se then []
    else if IsOld(b, x[k]) then [Correction(x[k])] + Corrections(b, x, k + 1)
    else Corrections(b, x, k + 1)
  }

  /** The last new coefficient at or before k, or the index before the band. */
  function LastNew(b: Band, x: Block, k: nat): (e: nat)
    requires GoodBand(b) && b.ss - 1 <= k <= b.se
    ensures b.ss - 1 <= e <= k
    ensures e >= b.ss ==> IsNew(b, x[e])
    ensures forall i :: e < i <= k ==> !IsNew(b, x[i])
    decreases k
  {
    if k < b.ss then b.ss - 1 else if IsNew(b, x[k]) then k else LastNew(b, x, k - 1)
  }

  function EobOf(b: Band, x: Block): nat
    requires GoodBand(b)
  {
    LastNew(b, x, b.se)
  }

  predicate NoNew(b: Band, x: Block)
    requires GoodBand(b)
  {
    EobOf(b, x) < b.ss
  }

  /** Coefficients lo to hi - 1 have at most maxBits bits. */
  predicate FitsTo(x: Block, maxBits: nat, lo: nat, hi: nat)
    requires hi <= 64
  {
    hi <= lo || (Size(x[hi - 1]) <= maxBits && FitsTo(x, maxBits, lo, hi - 1))
  }

  predicate FitsBand(b: Band, x: Block, maxBits: nat)
    requires GoodBand(b)
  {
    FitsTo(x, maxBits, b.ss, b.se + 1)
  }

  lemma {:induction false} FitsPart(x: Block, maxBits: nat, lo: nat, p: nat, q: nat)
    requires p <= q <= 64 && FitsTo(x, maxBits, lo, q)
    ensures FitsTo(x, maxBits, lo, p)
    decreases q
  {
    if p < q && lo < q {
      FitsPart(x, maxBits, lo, p, q - 1);
    }
  }

  /** The symbols of new coefficients leave four bits for their sizes. */
  predicate Sized(b: Band, x: Block)
    requires GoodBand(b)
  {
    b.refine || FitsBand(b, x, 15)
  }

  lemma NewSize(b: Band, x: Block, k: nat)
    requires GoodBand(b) && b.ss <= k <= b.se && IsNew(b, x[k]) && Sized(b, x)
    ensures Size(x[k]) < 16
  {
    if b.refine {
      assert BitLength(1) == 1;
    } else {
      FitsPart(x, 15, b.ss, k + 1, b.se + 1);
    }
  }

  lemma {:induction false} FitsWeaken(x: Block, m: nat, n: nat, lo: nat, hi: nat)
    requires hi <= 64 && m <= n && FitsTo(x, m, lo, hi)
    ensures FitsTo(x, n, lo, hi)
    decreases hi
  {
    if lo < hi {
      FitsWeaken(x, m, n, lo, hi - 1);
    }
  }

  function RawBits(s: seq<bit>, rest: Items): Items
    decreases |s|
  {
    if s == [] then rest else Raw(s[0], 1, RawBits(s[1..], rest))
  }

  lemma {:induction false} RawBitsConcat(s: seq<bit>, t: seq<bit>, rest: Items)
    ensures RawBits(s + t, rest) == RawBits(s, RawBits(t, rest))
    decreases |s|
  {
    if s == [] {
      assert s + t == t;
    } else {
      assert (s + t)[1..] == s[1..] + t;
      RawBitsConcat(s[1..], t, rest);
    }
  }

  /** Run and size of a symbol; sizes stay below sixteen for coefficients in range. */
  function RunSize(r: nat, n: nat): byte { (16 * r + n) % 256 }

  /** The symbol and bits of a run of blocks, followed by their correction bits. */
  function EobRun(t: TableId, run: nat, be: seq<bit>, rest: Items): Items {
    if run == 0 then rest
    else
      var n: nat := BitLength(run) - 1;
      Sym(t, RunSize(n, 0), Raw(run, n, RawBits(be, rest)))
  }

  /**
   * The symbols of a block from k on, up to its last new coefficient; r zeros and the correction bits br
   * have been passed since the last symbol.
   */
  function BlockSymbols(t: TableId, b: Band, x: Block, k: nat, r: nat, br: seq<bit>, eob: nat, rest: Items): Items
    requires eob <= 63
    decreases if k <= eob then eob + 1 - k else 0, r
  {
    if k > eob then rest
    else if x[k] == 0 then BlockSymbols(t, b, x, k + 1, r + 1, br, eob, rest)
    else if r > 15 then Sym(t, ZRL, RawBits(br, BlockSymbols(t, b, x, k, r - 16, [], eob, rest)))
    else if IsNew(b, x[k]) then
      Sym(t, RunSize(r, Size(x[k])), Raw(ExtraBits(x[k]), Size(x[k]),
        RawBits(br, BlockSymbols(t, b, x, k + 1, 0, [], eob, rest))))
    else BlockSymbols(t, b, x, k + 1, r, br + [Correction(x[k])], eob, rest)
  }

  // The delayed form, as the encoder produces it block by block.

  const MAX_RUN := 0x7FFF
  const MAX_CORR_BITS := 1000

  /** Blocks ended but not yet coded, and their correction bits. */
  datatype Pending = Pending(run: nat, be: seq<bit>)

  /** The run has to be written now, lest it or the buffer of correction bits overflow. */
  predicate Forced(p: Pending) { p.run == MAX_RUN || |p.be| > MAX_CORR_BITS - 64 + 1 }

  /** What holds between blocks. */
  predicate Waiting(p: Pending) {
    && p.run < MAX_RUN && |p.be| <= MAX_CORR_BITS - 64 + 1
    && (p.run == 0 ==> p.be == [])
  }

  function Absorb(b: Band, p: Pending, x: Block): Pending
    requires GoodBand(b)
  {
    Pending(p.run + 1, p.be + Corrections(b, x, b.ss))
  }

  function NextPending(b: Band, p: Pending, x: Block): Pending
    requires GoodBand(b)
  {
    var eob := EobOf(b, x);
    if NoNew(b, x) then if Forced(Absorb(b, p, x)) then Pending(0, []) else Absorb(b, p, x)
    else if eob < b.se then Pending(1, Corrections(b, x, eob + 1))
    else Pending(0, [])
  }

  lemma NextWaits(b: Band, p: Pending, x: Block)
    requires GoodBand(b) && Waiting(p)
    ensures Waiting(NextPending(b, p, x))
  {
  }

  /** What coding a block writes. */
  function BlockStep(t: TableId, b: Band, p: Pending, x: Block, rest: Items): Items
    requires GoodBand(b)
  {
    if NoNew(b, x) then
      var q := Absorb(b, p, x);
      if Forced(q) then EobRun(t, q.run, q.be, rest) else rest
    else EobRun(t, p.run, p.be, BlockSymbols(t, b, x, b.ss, 0, [], EobOf(b, x), rest))
  }

  /** All blocks of a segment, and the run that is left at its end. */
  function Delayed(t: TableId, b: Band, p: Pending, xs: seq<Block>, rest: Items): Items
    requires GoodBand(b)
    decreases |xs|
  {
    if xs == [] then EobRun(t, p.run, p.be, rest)
    else BlockStep(t, b, p, xs[0], Delayed(t, b, NextPending(b, p, xs[0]), xs[1..], rest))
  }

  // The immediate form, as the decoder reads it: every run is announced where it starts.

  /** How many of the blocks join a run. */
  function Joining(b: Band, p: Pending, xs: seq<Block>): (n: nat)
    requires GoodBand(b)
    ensures n <= |xs| && (p.run <= MAX_RUN ==> p.run + n <= MAX_RUN)
    decreases |xs|
  {
    if Forced(p) || xs == [] || !NoNew(b, xs[0]) then 0
    else 1 + Joining(b, Absorb(b, p, xs[0]), xs[1..])
  }

  /** left blocks belong to a run that was announced before. */
  function Immediate(t: TableId, b: Band, left: nat, xs: seq<Block>, rest: Items): Items
    requires GoodBand(b)
    decreases |xs|
  {
    if xs == [] then rest
    else if left > 0 then RawBits(Corrections(b, xs[0], b.ss), Immediate(t, b, left - 1, xs[1..], rest))
    else
      var eob := EobOf(b, xs[0]);
      if eob < b.se then
        var be := Corrections(b, xs[0], eob + 1);
        var n := Joining(b, Pending(1, be), xs[1..]);
        BlockSymbols(t, b, xs[0], b.ss, 0, [], eob, EobRun(t, 1 + n, be, Immediate(t, b, n, xs[1..], rest)))
      else BlockSymbols(t, b, xs[0], b.ss, 0, [], eob, Immediate(t, b, 0, xs[1..], rest))
  }

  /** Delaying the runs and the correction bits does not change what is written. */
  lemma {:induction false} DelayedIsImmediate(t: TableId, b: Band, p: Pending, xs: seq<Block>, rest: Items)
    requires GoodBand(b) && Waiting(p)
    ensures p.run == 0 ==> Delayed(t, b, p, xs, rest) == Immediate(t, b, 0, xs, rest)
    ensures p.run > 0 ==>
      Delayed(t, b, p, xs, rest)
      == EobRun(t, p.run + Joining(b, p, xs), p.be, Immediate(t, b, Joining(b, p, xs), xs, rest))
    decreases |xs|
  {
    hide BlockSymbols, Corrections, RawBits, BitLength, EobOf;
    if xs != [] {
      var x, more := xs[0], xs[1..];
      NextWaits(b, p, x);
      DelayedIsImmediate(t, b, NextPending(b, p, x), more, rest);
      assert xs == [x] + more;
      if NoNew(b, x) {
        JoinRun(t, b, p, x, more, rest);
      } else {
        StartRun(t, b, p, x, more, rest);
      }
    }
  }

  /** A block with new coefficients ends the waiting run, and may start another. */
  lemma StartRun(t: TableId, b: Band, p: Pending, x: Block, more: seq<Block>, rest: Items)
    requires GoodBand(b) && Waiting(p) && !NoNew(b, x)
    requires var q := NextPending(b, p, x);
             && (q.run == 0 ==> Delayed(t, b, q, more, rest) == Immediate(t, b, 0, more, rest))
             && (q.run > 0 ==>
                   Delayed(t, b, q, more, rest)
                   == EobRun(t, q.run + Joining(b, q, more), q.be, Immediate(t, b, Joining(b, q, more), more, rest)))
    ensures p.run == 0 ==> Delayed(t, b, p, [x] + more, rest) == Immediate(t, b, 0, [x] + more, rest)
    ensures Joining(b, p, [x] + more) == 0
    ensures p.run > 0 ==>
      Delayed(t, b, p, [x] + more, rest) == EobRun(t, p.run, p.be, Immediate(t, b, 0, [x] + more, rest))
  {
    hide BlockSymbols, Corrections, BitLength, RawBits, EobOf, GoodBand;
    assert ([x] + more)[1..] == more;
  }

  /** The correction bits of a run may as well be written after it. */
  lemma LongerRun(t: TableId, run: nat, be: seq<bit>, corr: seq<bit>, rest: Items)
    requires run > 0
    ensures EobRun(t, run, be + corr, rest) == EobRun(t, run, be, RawBits(corr, rest))
  {
    hide RawBits;
    RawBitsConcat(be, corr, rest);
  }

  lemma JoinDelayed(t: TableId, b: Band, p: Pending, x: Block, more: seq<Block>, rest: Items)
    requires GoodBand(b) && Waiting(p) && NoNew(b, x)
    requires var q := NextPending(b, p, x);
             && (q.run == 0 ==> Delayed(t, b, q, more, rest) == Immediate(t, b, 0, more, rest))
             && (q.run > 0 ==>
                   Delayed(t, b, q, more, rest)
                   == EobRun(t, q.run + Joining(b, q, more), q.be, Immediate(t, b, Joining(b, q, more), more, rest)))
    ensures var q := Absorb(b, p, x);
            var n := Joining(b, q, more);
            Delayed(t, b, p, [x] + more, rest) == EobRun(t, q.run + n, q.be, Immediate(t, b, n, more, rest))
            && Joining(b, p, [x] + more) == 1 + n
  {
    hide EobRun, Immediate, EobOf, Corrections;
    assert ([x] + more)[1..] == more;
  }

  /** A block without new coefficients joins the run. */
  lemma JoinRun(t: TableId, b: Band, p: Pending, x: Block, more: seq<Block>, rest: Items)
    requires GoodBand(b) && Waiting(p) && NoNew(b, x)
    requires var q := NextPending(b, p, x);
             && (q.run == 0 ==> Delayed(t, b, q, more, rest) == Immediate(t, b, 0, more, rest))
             && (q.run > 0 ==>
                   Delayed(t, b, q, more, rest)
                   == EobRun(t, q.run + Joining(b, q, more), q.be, Immediate(t, b, Joining(b, q, more), more, rest)))
    ensures p.run == 0 ==> Delayed(t, b, p, [x] + more, rest) == Immediate(t, b, 0, [x] + more, rest)
    ensures var n := Joining(b, p, [x] + more);
            p.run > 0 ==>
              Delayed(t, b, p, [x] + more, rest) == EobRun(t, p.run + n, p.be, Immediate(t, b, n, [x] + more, rest))
  {
    hide Corrections, EobRun, Delayed, RawBits;
    var q, corr, xs := Absorb(b, p, x), Corrections(b, x, b.ss), [x] + more;
    var n := Joining(b, q, more);
    assert xs[1..] == more && [] + corr == corr;
    JoinDelayed(t, b, p, x, more, rest);
    LongerRun(t, p.run + 1 + n, p.be, corr, Immediate(t, b, n, more, rest));
    assert Immediate(t, b, 1 + n, xs, rest) == RawBits(corr, Immediate(t, b, n, more, rest));
  }
}
