/** The statistical model of the arithmetic coder: which binary decisions a coefficient block is
    turned into, and in which bins.  Every trace function puts its decisions in front of the trace
    `rest`.  The parsers follow the decoding procedures of section F.2.4 of ITU-T T.81; they get
    stuck when a decision is not asked for in the bin it was coded in. */
module ArithModel {
  import opened Bytes
  import opened BitStrings
  import opened Coefficients
  import opened IntervalCoder

  const DC_STAT_BINS := 64
  const AC_STAT_BINS := 256
  const NUM_ARITH_TBLS := 16
  const FIXED_BIN := 16 * 64 + 16 * 256
  const NUM_BINS := FIXED_BIN + 1

  /** Where the statistics area of a DC or an AC table begins. */
  function DcArea(tbl: nat): nat { DC_STAT_BINS * tbl }
  function AcArea(tbl: nat): nat { DC_STAT_BINS * NUM_ARITH_TBLS + AC_STAT_BINS * tbl }

  /** A parsed value and what is left, or a decision that does not fit. */
  datatype Parsed<T> = Got(value: T, rest: Trace) | Stuck

  function Read(t: Trace, bin: nat): Parsed<bit> {
    if t.Then? && t.head.bin == bin then Got(t.head.val, t.tail) else Stuck
  }

  function Put(bin: nat, val: bit, rest: Trace): Trace { Then(Decision(bin, val), rest) }

  // ----- magnitudes -----

  /** n ones in successive bins, then a zero. */
  function UnaryTrace(n: nat, st: nat, rest: Trace): Trace {
    if n == 0 then Put(st, 0, rest) else Put(st, 1, UnaryTrace(n - 1, st + 1, rest))
  }

  /** The low n bits of v, coded one after the other in the same bin. */
  function PatternTrace(v: nat, n: nat, bin: nat, rest: Trace): Trace {
    if n == 0 then rest else Put(bin, BitAt(v, n - 1), PatternTrace(v, n - 1, bin, rest))
  }

  /** Figures F.8 and F.9 for v >= 2^n0, the first n0 bits of its length being known: the rest of
      the length in unary from bin st on, then the bits below the highest one in one bin. */
  function LengthAndBits(v: nat, st: nat, n0: nat, p0: nat, rest: Trace): Trace
    requires n0 < BitLength(v)
  {
    var n := BitLength(v) - 1;
    UnaryTrace(n - n0, st, PatternTrace(v, n, p0 + n, rest))
  }

  /** A DC difference of magnitude v + 1. */
  function DcMagnitude(area: nat, st: nat, v: nat, rest: Trace): Trace {
    if v == 0 then Put(st, 0, rest) else Put(st, 1, LengthAndBits(v, area + 20, 0, area + 34, rest))
  }

  /** An AC coefficient of magnitude v + 1. */
  function AcMagnitude(st: nat, x1: nat, v: nat, rest: Trace): Trace {
    if v == 0 then Put(st, 0, rest)
    else if v == 1 then Put(st, 1, Put(st, 0, rest))
    else Put(st, 1, Put(st, 1, LengthAndBits(v, x1, 1, x1 + 13, rest)))
  }

  /** Counts ones on top of n; a magnitude of 15 bits or more is an error. */
  function ParseUnary(t: Trace, st: nat, n: nat): Parsed<nat>
    decreases 15 - n
  {
    match Read(t, st)
    case Stuck => Stuck
    case Got(b, rest) =>
      if b == 0 then Got(n, rest) else if n + 1 >= 15 then Stuck else ParseUnary(rest, st + 1, n + 1)
  }

  function ParsePattern(t: Trace, bin: nat, n: nat, v: nat): Parsed<nat> {
    if n == 0 then Got(v, t)
    else
      match Read(t, bin)
      case Stuck => Stuck
      case Got(b, rest) => ParsePattern(rest, bin, n - 1, 2 * v + b)
  }

  function ParseLengthAndBits(t: Trace, st: nat, n0: nat, p0: nat): Parsed<nat> {
    match ParseUnary(t, st, n0)
    case Stuck => Stuck
    case Got(n, rest) => ParsePattern(rest, p0 + n, n, 1)
  }

  function ParseDcMagnitude(t: Trace, area: nat, st: nat): Parsed<nat> {
    match Read(t, st)
    case Stuck => Stuck
    case Got(b, rest) => if b == 0 then Got(0, rest) else ParseLengthAndBits(rest, area + 20, 0, area + 34)
  }

  function ParseAcMagnitude(t: Trace, st: nat, x1: nat): Parsed<nat> {
    match Read(t, st)
    case Stuck => Stuck
    case Got(b, rest) =>
      if b == 0 then Got(0, rest)
      else
        match Read(rest, st)
        case Stuck => Stuck
        case Got(b, rest) => if b == 0 then Got(1, rest) else ParseLengthAndBits(rest, x1, 1, x1 + 13)
  }

  lemma {:induction false} UnaryRoundTrip(n: nat, st: nat, n0: nat, rest: Trace)
    ensures ParseUnary(UnaryTrace(n, st, rest), st, n0) == if n0 + n < 15 || n == 0 then Got(n0 + n, rest) else Stuck
    decreases n
  {
    if n > 0 && n0 + 1 < 15 {
      UnaryRoundTrip(n - 1, st + 1, n0 + 1, rest);
    }
  }

  lemma {:induction false} PatternRoundTrip(v: nat, n: nat, bin: nat, acc: nat, rest: Trace)
    ensures ParsePattern(PatternTrace(v, n, bin, rest), bin, n, acc) == Got(Shl(acc, n) + FromBits(ToBits(v, n)), rest)
    decreases n
  {
    hide ToBits, FromBits, BitAt, Shl;
    NoBits(v, acc);
    if n > 0 {
      var b := BitAt(v, n - 1);
      PatternRoundTrip(v, n - 1, bin, 2 * acc + b, rest);
      LowValueTop(v, n - 1);
      HeadShift(acc, b, n - 1);
    }
  }

  lemma NoBits(v: nat, acc: nat)
    ensures Shl(acc, 0) + FromBits(ToBits(v, 0)) == acc
  {
  }

  lemma HeadShift(v: nat, b: bit, n: nat)
    ensures Shl(v, n + 1) + Shl(b, n) == Shl(2 * v + b, n)
  {
    ShlEven(v, n);
    ShlAdd(2 * v, b, n);
  }

  /** A number is its highest one bit and the bits below. */
  lemma TailValue(v: nat)
    requires v > 0
    ensures Pow2(BitLength(v) - 1) + FromBits(ToBits(v, BitLength(v) - 1)) == v
  {
    hide Pow2, FromBits, ToBits, BitAt;
    var n := BitLength(v) - 1;
    BitLengthBounds(v);
    FromToBits(v, n + 1);
    LowValueTop(v, n);
    TopBitOne(v, n);
  }

  lemma TopBitOne(v: nat, n: nat)
    requires Pow2(n) <= v < Pow2(n + 1)
    ensures BitAt(v, n) == 1 && Shl(1, n) == Pow2(n)
  {
    BitAtDiv(v, n);
    DivUnique(v, Pow2(n), 1, v - Pow2(n));
  }

  lemma Pow15()
    ensures Pow2(15) == 0x8000
  {
    ShlConstants(1);
    assert Shl(1, 16) == 2 * Shl(1, 15);
  }

  lemma {:induction false} PowMono(m: nat, n: nat)
    requires m <= n
    ensures Pow2(m) <= Pow2(n)
  {
    if m < n {
      PowMono(m, n - 1);
    }
  }

  lemma FifteenBits(v: nat)
    requires v > 0
    ensures v < 0x8000 <==> BitLength(v) <= 15
  {
    hide BitLength, Shl;
    BitLengthBounds(v);
    Pow15();
    if v < 0x8000 {
      BitLengthMono(v, 15);
    } else if BitLength(v) <= 15 {
      PowMono(BitLength(v), 15);
    }
  }

  /** A magnitude is decoded exactly when it is below the limit the decoder checks. */
  lemma LengthAndBitsRoundTrip(v: nat, st: nat, n0: nat, p0: nat, rest: Trace)
    requires n0 < BitLength(v) && n0 < 15
    ensures ParseLengthAndBits(LengthAndBits(v, st, n0, p0, rest), st, n0, p0) == if v < 0x8000 then Got(v, rest) else Stuck
  {
    hide UnaryTrace, PatternTrace, ParseUnary, ParsePattern, Shl, ToBits, FromBits;
    var n := BitLength(v) - 1;
    UnaryRoundTrip(n - n0, st, n0, PatternTrace(v, n, p0 + n, rest));
    PatternRoundTrip(v, n, p0 + n, 1, rest);
    TailValue(v);
    FifteenBits(v);
  }

  // ----- DC differences -----

  /** Section F.1.4.4.1.2: the conditioning category left behind by a difference. */
  function DcContext(v: int, lower: nat, upper: nat): (ctx: nat)
    ensures ctx <= 16
  {
    if v == 0 then 0
    else
      var m := if Abs(v) == 1 then 0 else Pow2(BitLength(Abs(v) - 1) - 1);
      if m < Pow2(lower) / 2 then 0
      else if m > Pow2(upper) / 2 then 12 + 4 * SignBit(v)
      else 4 + 4 * SignBit(v)
  }

  /**
   * What the category says, by table F.4: with the bounds L and U, nothing for differences up to 2^(L - 1) in
   * magnitude, small for those up to 2^U, large for the others, and the sign of the small and the large ones.
   */
  lemma DcContextMeans(v: int, lower: nat, upper: nat)
    requires lower <= upper
    ensures DcContext(v, lower, upper) ==
      if 2 * Abs(v) <= Pow2(lower) || v == 0 then 0
      else if Abs(v) <= Pow2(upper) then if v > 0 then 4 else 8
      else if v > 0 then 12 else 16
  {
    hide Pow2;
    PowZero();
    HighestBit(0, 2, lower);
    HighestBit(0, 2, upper);
    PowMono(lower, upper);
    if Abs(v) > 1 {
      var m: nat := Abs(v) - 1;
      var n: nat := BitLength(m) - 1;
      BitLengthBounds(m);
      PowNext(n);
      HighestBit(n, Abs(v), lower);
      HighestBit(n, Abs(v), upper);
    }
  }

  lemma PowNext(n: nat)
    ensures Pow2(n + 1) == 2 * Pow2(n)
  {
  }

  /** Comparing the highest bit of a - 1 with half a power of two compares a with the power. */
  lemma HighestBit(n: nat, a: nat, k: nat)
    requires Pow2(n) < a <= 2 * Pow2(n)
    ensures Pow2(n) < Pow2(k) / 2 <==> 2 * a <= Pow2(k)
    ensures Pow2(n) > Pow2(k) / 2 <==> a > Pow2(k)
    ensures if k == 0 then Pow2(k) == 1 else Pow2(k) >= 2
  {
    hide Pow2;
    assert Pow2(0) == 1 by {
      PowZero();
    }
    if k > 0 {
      PowNext(k - 1);
      PowMono(0, k - 1);
      if n + 1 < k {
        PowNext(n);
        PowMono(n + 1, k - 1);
      } else if n >= k {
        PowMono(k, n);
      }
    } else {
      PowMono(0, n);
    }
  }

  lemma PowZero()
    ensures Pow2(0) == 1
  {
  }

  /** Figures F.4, F.6 and F.7. */
  function DcTrace(area: nat, ctx: nat, v: int, rest: Trace): Trace {
    var s0 := area + ctx;
    if v == 0 then Put(s0, 0, rest)
    else Put(s0, 1, Put(s0 + 1, SignBit(v), DcMagnitude(area, s0 + 2 + SignBit(v), Abs(v) - 1, rest)))
  }

  function ParseDc(t: Trace, area: nat, ctx: nat): Parsed<int> {
    var s0 := area + ctx;
    match Read(t, s0)
    case Stuck => Stuck
    case Got(b, rest) =>
      if b == 0 then Got(0, rest)
      else
        match Read(rest, s0 + 1)
        case Stuck => Stuck
        case Got(sign, rest) =>
          match ParseDcMagnitude(rest, area, s0 + 2 + sign)
          case Stuck => Stuck
          case Got(v, rest) => Got(Signed(sign, v + 1), rest)
  }

  /** A DC difference is recovered if and only if its magnitude is at most 32768; a larger one,
      which the encoder does not reject, stops the decoder. */
  lemma DcRoundTrip(area: nat, ctx: nat, v: int, rest: Trace)
    ensures ParseDc(DcTrace(area, ctx, v, rest), area, ctx) == if Abs(v) <= 0x8000 then Got(v, rest) else Stuck
  {
    if Abs(v) > 1 {
      LengthAndBitsRoundTrip(Abs(v) - 1, area + 20, 0, area + 34, rest);
    }
  }

  // ----- AC coefficients -----

  ghost predicate AllZero(x: seq<int>, k: nat, se: nat)
    requires se < |x|
  {
    forall i :: k <= i <= se ==> x[i] == 0
  }

  function X1(area: nat, k: nat, kx: nat): nat { area + if k <= kx then 189 else 217 }

  /** The sign, with fixed probability, and the magnitude of a nonzero coefficient. */
  function Coefficient(st: nat, x1: nat, v: int, rest: Trace): Trace
    requires v != 0
  {
    Put(FIXED_BIN, SignBit(v), AcMagnitude(st, x1, Abs(v) - 1, rest))
  }

  function ParseCoefficient(t: Trace, st: nat, x1: nat): Parsed<int> {
    match Read(t, FIXED_BIN)
    case Stuck => Stuck
    case Got(sign, rest) =>
      match ParseAcMagnitude(rest, st, x1)
      case Stuck => Stuck
      case Got(v, rest) => Got(Signed(sign, v + 1), rest)
  }

  lemma CoefficientRoundTrip(st: nat, x1: nat, v: int, rest: Trace)
    requires 0 < Abs(v) <= 0x8000
    ensures ParseCoefficient(Coefficient(st, x1, v, rest), st, x1) == Got(v, rest)
  {
    if Abs(v) > 2 {
      LengthAndBitsRoundTrip(Abs(v) - 1, x1, 1, x1 + 13, rest);
    }
  }

  /** Figure F.5 from coefficient k on, at a point where an end-of-block decision is due.  The
      coefficients are in zigzag order, after the point transform. */
  ghost function AcTrace(x: seq<int>, k: nat, se: nat, area: nat, kx: nat, rest: Trace): Trace
    requires 1 <= k <= se + 1 <= |x|
    decreases se + 1 - k, 1
  {
    if k > se then rest
    else if AllZero(x, k, se) then Put(area + 3 * (k - 1), 1, rest)
    else Put(area + 3 * (k - 1), 0, AcRun(x, k, se, area, kx, rest))
  }

  /** The zero run and the coefficient after a negative end-of-block decision. */
  ghost function AcRun(x: seq<int>, k: nat, se: nat, area: nat, kx: nat, rest: Trace): Trace
    requires 1 <= k <= se < |x| && !AllZero(x, k, se)
    decreases se + 1 - k, 0
  {
    var st := area + 3 * (k - 1);
    if x[k] == 0 then
      assert !AllZero(x, k + 1, se);
      Put(st + 1, 0, AcRun(x, k + 1, se, area, kx, rest))
    else
      Put(st + 1, 1, Coefficient(st + 2, X1(area, k, kx), x[k], AcTrace(x, k + 1, se, area, kx, rest)))
  }

  function Zeros(n: nat): seq<int> { seq(n, _ => 0) }

  function Prepend(v: int, p: Parsed<seq<int>>): Parsed<seq<int>> {
    match p
    case Stuck => Stuck
    case Got(s, rest) => Got([v] + s, rest)
  }

  function ParseAc(t: Trace, k: nat, se: nat, area: nat, kx: nat): Parsed<seq<int>>
    requires 1 <= k <= se + 1
    decreases se + 1 - k, 1
  {
    if k > se then Got([], t)
    else
      match Read(t, area + 3 * (k - 1))
      case Stuck => Stuck
      case Got(b, rest) => if b == 1 then Got(Zeros(se + 1 - k), rest) else ParseAcRun(rest, k, se, area, kx)
  }

  function ParseAcRun(t: Trace, k: nat, se: nat, area: nat, kx: nat): Parsed<seq<int>>
    requires 1 <= k <= se
    decreases se + 1 - k, 0
  {
    var st := area + 3 * (k - 1);
    match Read(t, st + 1)
    case Stuck => Stuck
    case Got(b, rest) =>
      if b == 0 then
        if k == se then Stuck else Prepend(0, ParseAcRun(rest, k + 1, se, area, kx))
      else
        match ParseCoefficient(rest, st + 2, X1(area, k, kx))
        case Stuck => Stuck
        case Got(v, rest) => Prepend(v, ParseAc(rest, k + 1, se, area, kx))
  }

  predicate InRange16(x: seq<int>) { forall i :: 0 <= i < |x| ==> Abs(x[i]) <= 0x8000 }

  lemma InRangeAt(x: seq<int>, k: nat)
    requires InRange16(x) && k < |x|
    ensures Abs(x[k]) <= 0x8000
  {
  }

  lemma SliceHead(x: seq<int>, k: nat, se: nat)
    requires k <= se < |x|
    ensures x[k..se + 1] == [x[k]] + x[k + 1..se + 1]
    ensures k == se && x[k] == 0 ==> AllZero(x, k, se)
    ensures k < se && x[k] == 0 && !AllZero(x, k, se) ==> !AllZero(x, k + 1, se)
  {
  }

  /** Any run of coefficients is recovered, and the decoder stops exactly at its end. */
  lemma {:induction false} AcRoundTrip(x: seq<int>, k: nat, se: nat, area: nat, kx: nat, rest: Trace)
    requires 1 <= k <= se + 1 <= |x| && InRange16(x)
    ensures ParseAc(AcTrace(x, k, se, area, kx, rest), k, se, area, kx) == Got(x[k..se + 1], rest)
    decreases se + 1 - k, 1
  {
    if k == se + 1 {
      assert x[k..se + 1] == [];
    } else {
      if AllZero(x, k, se) {
        assert Zeros(se + 1 - k) == x[k..se + 1];
      } else {
        AcRunRoundTrip(x, k, se, area, kx, rest);
      }
    }
  }

  lemma {:induction false} AcRunRoundTrip(x: seq<int>, k: nat, se: nat, area: nat, kx: nat, rest: Trace)
    requires 1 <= k <= se < |x| && !AllZero(x, k, se) && InRange16(x)
    ensures ParseAcRun(AcRun(x, k, se, area, kx, rest), k, se, area, kx) == Got(x[k..se + 1], rest)
    decreases se + 1 - k, 0
  {
    hide InRange16, AllZero, X1, ParseCoefficient;
    SliceHead(x, k, se);
    if x[k] == 0 {
      AcRunRoundTrip(x, k + 1, se, area, kx, rest);
    } else {
      var st, tail := area + 3 * (k - 1), AcTrace(x, k + 1, se, area, kx, rest);
      InRangeAt(x, k);
      CoefficientRoundTrip(st + 2, X1(area, k, kx), x[k], tail);
      AcRoundTrip(x, k + 1, se, area, kx, rest);
    }
  }

  // ----- refinement of AC coefficients -----

  /** No coefficient from k on was nonzero at the previous, one bit coarser, stage. */
  ghost predicate AllNew(x: seq<int>, k: nat, se: nat)
    requires se < |x|
  {
    forall i :: k <= i <= se ==> Abs(x[i]) < 2
  }

  /** Figure G.10 from coefficient k on: an end-of-block decision is coded only beyond the previous
      stage's end of block. */
  ghost function RefineTrace(x: seq<int>, k: nat, se: nat, area: nat, rest: Trace): Trace
    requires 1 <= k <= se + 1 <= |x|
    decreases se + 1 - k, 1
  {
    var st := area + 3 * (k - 1);
    if k > se then rest
    else if AllZero(x, k, se) then Put(st, 1, rest)
    else if AllNew(x, k, se) then Put(st, 0, RefineRun(x, k, se, area, rest))
    else RefineRun(x, k, se, area, rest)
  }

  /** A correction bit, a newly nonzero coefficient with its sign, or one more zero. */
  ghost function RefineRun(x: seq<int>, k: nat, se: nat, area: nat, rest: Trace): Trace
    requires 1 <= k <= se < |x| && !AllZero(x, k, se)
    decreases se + 1 - k, 0
  {
    var st := area + 3 * (k - 1);
    if x[k] == 0 then
      assert !AllZero(x, k + 1, se);
      Put(st + 1, 0, RefineRun(x, k + 1, se, area, rest))
    else if Abs(x[k]) >= 2 then Put(st + 2, Abs(x[k]) % 2, RefineTrace(x, k + 1, se, area, rest))
    else Put(st + 1, 1, Put(FIXED_BIN, SignBit(x[k]), RefineTrace(x, k + 1, se, area, rest)))
  }

  /** The decoder knows the coefficients of the previous stage. */
  function ParseRefine(t: Trace, prev: seq<int>, k: nat, se: nat, area: nat): Parsed<seq<int>>
    requires 1 <= k <= se + 1 <= |prev|
    decreases se + 1 - k, 1
  {
    if k > se then Got([], t)
    else if forall i :: k <= i <= se ==> prev[i] == 0 then
      match Read(t, area + 3 * (k - 1))
      case Stuck => Stuck
      case Got(b, rest) => if b == 1 then Got(Zeros(se + 1 - k), rest) else ParseRefineRun(rest, prev, k, se, area)
    else ParseRefineRun(t, prev, k, se, area)
  }

  function ParseRefineRun(t: Trace, prev: seq<int>, k: nat, se: nat, area: nat): Parsed<seq<int>>
    requires 1 <= k <= se < |prev|
    decreases se + 1 - k, 0
  {
    var st := area + 3 * (k - 1);
    if prev[k] != 0 then
      match Read(t, st + 2)
      case Stuck => Stuck
      case Got(b, rest) =>
        var v := if prev[k] < 0 then 2 * prev[k] - b else 2 * prev[k] + b;
        Prepend(v, ParseRefine(rest, prev, k + 1, se, area))
    else
      match Read(t, st + 1)
      case Stuck => Stuck
      case Got(b, rest) =>
        if b == 1 then
          match Read(rest, FIXED_BIN)
          case Stuck => Stuck
          case Got(sign, rest) => Prepend(Signed(sign, 1), ParseRefine(rest, prev, k + 1, se, area))
        else if k == se then Stuck
        else Prepend(0, ParseRefineRun(rest, prev, k + 1, se, area))
  }

  ghost predicate Coarser(prev: seq<int>, x: seq<int>) {
    |prev| == |x| && forall i :: 0 <= i < |x| ==> prev[i] == Halve(x[i])
  }

  lemma CoarserAt(prev: seq<int>, x: seq<int>, k: nat)
    requires Coarser(prev, x) && k < |x|
    ensures |prev| == |x| && prev[k] == Halve(x[k])
  {
  }

  /** A refinement scan adds exactly one bit to every coefficient of the band. */
  lemma {:induction false} RefineRoundTrip(prev: seq<int>, x: seq<int>, k: nat, se: nat, area: nat, rest: Trace)
    requires 1 <= k <= se + 1 <= |x| && Coarser(prev, x)
    ensures ParseRefine(RefineTrace(x, k, se, area, rest), prev, k, se, area) == Got(x[k..se + 1], rest)
    decreases se + 1 - k, 1
  {
    if k <= se {
      assert AllNew(x, k, se) <==> forall i :: k <= i <= se ==> prev[i] == 0;
      if AllZero(x, k, se) {
        assert Zeros(se + 1 - k) == x[k..se + 1];
      } else {
        RefineRunRoundTrip(prev, x, k, se, area, rest);
      }
    }
  }

  lemma {:induction false} RefineRunRoundTrip(prev: seq<int>, x: seq<int>, k: nat, se: nat, area: nat, rest: Trace)
    requires 1 <= k <= se < |x| && !AllZero(x, k, se) && Coarser(prev, x)
    ensures ParseRefineRun(RefineRun(x, k, se, area, rest), prev, k, se, area) == Got(x[k..se + 1], rest)
    decreases se + 1 - k, 0
  {
    hide Coarser, AllZero;
    SliceHead(x, k, se);
    CoarserAt(prev, x, k);
    if x[k] == 0 {
      RefineRunRoundTrip(prev, x, k + 1, se, area, rest);
    } else {
      RefineRoundTrip(prev, x, k + 1, se, area, rest);
    }
  }

  // ----- bins -----

  /** No two statistics areas share a bin, and none has the fixed bin. */
  lemma AreasApart(i: nat, j: nat)
    requires i < NUM_ARITH_TBLS && j < NUM_ARITH_TBLS
    ensures i < j ==> DcArea(i) + DC_STAT_BINS <= DcArea(j) && AcArea(i) + AC_STAT_BINS <= AcArea(j)
    ensures DcArea(i) + DC_STAT_BINS <= AcArea(j) && AcArea(j) + AC_STAT_BINS <= FIXED_BIN
  {
  }

  /** Table F.5: inside an AC area, the bins of the coefficients and of their magnitudes below and above Kx are apart. */
  lemma MagnitudesApart(area: nat, k: nat, kx: nat, v: nat, rest: Trace)
    requires 1 <= k <= 63 && 2 <= v < 0x8000
    ensures 3 * (k - 1) + 2 < 189
    ensures Within(LengthAndBits(v, X1(area, k, kx), 1, X1(area, k, kx) + 13, rest), area + if k <= kx then 189 else 217, 28, rest)
  {
    FifteenBits(v);
    var x1 := X1(area, k, kx);
    LengthAndBitsWithin(v, x1, 1, x1 + 13, area + if k <= kx then 189 else 217, 28, rest, rest);
  }

  /** Every decision before the trace `end` uses a bin of the given area or the fixed bin. */
  predicate Within(t: Trace, area: nat, size: nat, end: Trace) {
    t == end || (t.Then? && (area <= t.head.bin < area + size || t.head.bin == FIXED_BIN) && Within(t.tail, area, size, end))
  }

  lemma {:induction false} WithinBins(t: Trace, area: nat, size: nat, end: Trace)
    requires Within(t, area, size, end) && area + size <= FIXED_BIN && InBins(end, NUM_BINS)
    ensures InBins(t, NUM_BINS)
    decreases t
  {
    if t != end {
      WithinBins(t.tail, area, size, end);
    }
  }

  lemma {:induction false} UnaryWithin(n: nat, st: nat, area: nat, size: nat, rest: Trace, end: Trace)
    requires area <= st && st + n < area + size && Within(rest, area, size, end)
    ensures Within(UnaryTrace(n, st, rest), area, size, end)
  {
    if n > 0 {
      UnaryWithin(n - 1, st + 1, area, size, rest, end);
    }
  }

  lemma {:induction false} PatternWithin(v: nat, n: nat, bin: nat, area: nat, size: nat, rest: Trace, end: Trace)
    requires area <= bin < area + size && Within(rest, area, size, end)
    ensures Within(PatternTrace(v, n, bin, rest), area, size, end)
  {
    if n > 0 {
      PatternWithin(v, n - 1, bin, area, size, rest, end);
    }
  }

  lemma LengthAndBitsWithin(v: nat, st: nat, n0: nat, p0: nat, area: nat, size: nat, rest: Trace, end: Trace)
    requires n0 < BitLength(v) && area <= st && area <= p0 && Within(rest, area, size, end)
    requires st + BitLength(v) - 1 - n0 < area + size && p0 + BitLength(v) - 1 < area + size
    ensures Within(LengthAndBits(v, st, n0, p0, rest), area, size, end)
  {
    var n := BitLength(v) - 1;
    PatternWithin(v, n, p0 + n, area, size, rest, end);
    UnaryWithin(n - n0, st, area, size, PatternTrace(v, n, p0 + n, rest), end);
  }

  /** The decisions for any difference of two 16-bit values stay inside a DC area. */
  lemma DcWithin(area: nat, ctx: nat, v: int, rest: Trace, end: Trace)
    requires ctx <= 16 && Abs(v) <= 0xFFFF && Within(rest, area, DC_STAT_BINS, end)
    ensures Within(DcTrace(area, ctx, v, rest), area, DC_STAT_BINS, end)
  {
    if Abs(v) > 1 {
      var m := Abs(v) - 1;
      assert Pow2(16) == 0x10000 by {
        ShlConstants(1);
      }
      BitLengthMono(m, 16);
      LengthAndBitsWithin(m, area + 20, 0, area + 34, area, DC_STAT_BINS, rest, end);
    }
  }

  lemma CoefficientWithin(area: nat, k: nat, kx: nat, v: int, rest: Trace, end: Trace)
    requires 1 <= k <= 63 && 0 < Abs(v) <= 0x8000 && Within(rest, area, AC_STAT_BINS, end)
    ensures Within(Coefficient(area + 3 * (k - 1) + 2, X1(area, k, kx), v, rest), area, AC_STAT_BINS, end)
  {
    var m := Abs(v) - 1;
    if m >= 2 {
      FifteenBits(m);
      var x1 := X1(area, k, kx);
      LengthAndBitsWithin(m, x1, 1, x1 + 13, area, AC_STAT_BINS, rest, end);
    }
  }

  /** The decisions for a band of 16-bit coefficients stay inside an AC area. */
  lemma {:induction false} AcWithin(x: seq<int>, k: nat, se: nat, area: nat, kx: nat, rest: Trace, end: Trace)
    requires 1 <= k <= se + 1 <= |x| <= 64 && InRange16(x) && Within(rest, area, AC_STAT_BINS, end)
    ensures Within(AcTrace(x, k, se, area, kx, rest), area, AC_STAT_BINS, end)
    decreases se + 1 - k, 1
  {
    if k <= se && !AllZero(x, k, se) {
      AcRunWithin(x, k, se, area, kx, rest, end);
    }
  }

  lemma {:induction false} AcRunWithin(x: seq<int>, k: nat, se: nat, area: nat, kx: nat, rest: Trace, end: Trace)
    requires 1 <= k <= se < |x| <= 64 && InRange16(x) && !AllZero(x, k, se) && Within(rest, area, AC_STAT_BINS, end)
    ensures Within(AcRun(x, k, se, area, kx, rest), area, AC_STAT_BINS, end)
    decreases se + 1 - k, 0
  {
    if x[k] == 0 {
      assert !AllZero(x, k + 1, se);
      AcRunWithin(x, k + 1, se, area, kx, rest, end);
    } else {
      AcWithin(x, k + 1, se, area, kx, rest, end);
      CoefficientWithin(area, k, kx, x[k], AcTrace(x, k + 1, se, area, kx, rest), end);
    }
  }

  lemma {:induction false} RefineWithin(x: seq<int>, k: nat, se: nat, area: nat, rest: Trace, end: Trace)
    requires 1 <= k <= se + 1 <= |x| <= 64 && Within(rest, area, AC_STAT_BINS, end)
    ensures Within(RefineTrace(x, k, se, area, rest), area, AC_STAT_BINS, end)
    decreases se + 1 - k, 1
  {
    if k <= se && !AllZero(x, k, se) {
      RefineRunWithin(x, k, se, area, rest, end);
    }
  }

  lemma {:induction false} RefineRunWithin(x: seq<int>, k: nat, se: nat, area: nat, rest: Trace, end: Trace)
    requires 1 <= k <= se < |x| <= 64 && !AllZero(x, k, se) && Within(rest, area, AC_STAT_BINS, end)
    ensures Within(RefineRun(x, k, se, area, rest), area, AC_STAT_BINS, end)
    decreases se + 1 - k, 0
  {
    if x[k] == 0 {
      assert !AllZero(x, k + 1, se);
      RefineRunWithin(x, k + 1, se, area, rest, end);
    } else {
      RefineWithin(x, k + 1, se, area, rest, end);
    }
  }
}
