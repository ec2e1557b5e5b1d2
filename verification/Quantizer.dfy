/**
 * Quantisation by multiplication with a reciprocal: for every 16-bit divisor and every coefficient of the word
 * size it is the division, rounded to the nearest integer away from zero at ties, that the 12-bit code does.
 */
module Quantizer {
  import opened Bytes
  import opened BitStrings
  import opened Coefficients

  const DCTSIZE2 := 64

  /** Division rounded to the nearest integer, the same for both signs. */
  function RoundedDivide(t: int, d: nat): int
    requires d > 0
  {
    if t < 0 then 0 - (Abs(t) + d / 2) / d else (t + d / 2) / d
  }

  /** The multiple q * d is as close to t as multiples of d get, and of two equally close ones the larger in magnitude. */
  predicate Nearest(q: int, t: int, d: nat) {
    2 * Abs(q * d - t) <= d && (2 * Abs(q * d - t) == d ==> Abs(t) <= Abs(q * d))
  }

  lemma RoundedIsNearest(t: int, d: nat)
    requires d > 0
    ensures Nearest(RoundedDivide(t, d), t, d)
  {
    var a := Abs(t);
    var q, r := (a + d / 2) / d, (a + d / 2) % d;
    assert a + d / 2 == q * d + r;
    assert (0 - q) * d == 0 - q * d;
  }

  /** At most one quotient is nearest, so that the condition determines it. */
  lemma OneIsNearest(p: int, q: int, t: int, d: nat)
    requires d > 0 && Nearest(p, t, d) && Nearest(q, t, d)
    ensures p == q
  {
    if p < q {
      NearestOrdered(p, q, t, d);
    } else if q < p {
      NearestOrdered(q, p, t, d);
    }
  }

  lemma NearestOrdered(p: int, q: int, t: int, d: nat)
    requires d > 0 && p < q && Nearest(p, t, d)
    ensures !Nearest(q, t, d)
  {
    assert (q - p) * d == q * d - p * d;
    Mono(1, q - p, d);
    if p >= 0 {
      Mono(0, p, d);
    } else if Nearest(q, t, d) {
      Mono(q, 0, d);
    }
  }

  // Powers of two.

  lemma {:induction false} ShlTimes(v: nat, n: nat)
    ensures Shl(v, n) == v * Pow2(n)
  {
    if n > 0 {
      ShlTimes(v, n - 1);
    }
  }

  lemma ShrBounds(v: nat, n: nat, q: nat)
    requires q * Pow2(n) <= v < (q + 1) * Pow2(n)
    ensures Shr(v, n) == q
  {
    ShrShl(v, n);
    ShlTimes(Shr(v, n), n);
    ShlTimes(Shr(v, n) + 1, n);
    var s := Shr(v, n);
    if s < q {
      Mono(s + 1, q, Pow2(n));
    }
    if q < s {
      Mono(q + 1, s, Pow2(n));
    }
  }

  lemma Mono(x: int, y: int, k: nat)
    requires x <= y
    ensures x * k <= y * k
  {
  }

  lemma PowAdd(m: nat, n: nat)
    ensures Pow2(m + n) == Pow2(m) * Pow2(n)
  {
    ShlShl(1, m, n);
    ShlTimes(Pow2(m), n);
  }

  lemma {:induction false} PowMono(m: nat, n: nat)
    requires m <= n
    ensures Pow2(m) <= Pow2(n)
  {
    if m < n {
      PowMono(m, n - 1);
    }
  }

  lemma Pow16()
    ensures Pow2(15) == 0x8000 && Pow2(16) == 0x10000
  {
    ShlConstants(1);
    assert Shl(1, 16) == 2 * Shl(1, 15);
  }

  // Exact quotients from rounded reciprocals. Products are named, so that each step is linear in them.

  function Mul(a: nat, b: nat): nat { a * b }

  lemma MulMono(a: nat, b: nat, c: nat)
    requires a <= b
    ensures Mul(a, c) <= Mul(b, c) && Mul(c, a) <= Mul(c, b)
  {
    Mono(a, b, c);
  }

  lemma MulNext(a: nat, b: nat)
    ensures Mul(a + 1, b) == Mul(a, b) + b
  {
  }

  lemma CancelLe(a: nat, b: nat, d: nat)
    requires Mul(a, d) <= Mul(b, d) && d > 0
    ensures a <= b
  {
    if b < a {
      Mono(b + 1, a, d);
      MulNext(b, d);
    }
  }

  lemma CancelLess(a: nat, b: nat, d: nat)
    requires Mul(a, d) < Mul(b, d)
    ensures a < b
  {
    if b <= a {
      Mono(b, a, d);
    }
  }

  lemma Swap(q: nat, n: nat, d: nat)
    ensures Mul(Mul(q, d), n) == Mul(Mul(q, n), d)
  {
    assert (q * d) * n == (q * n) * d;
  }

  lemma Spread(a: nat, b: nat, c: nat)
    ensures Mul(a + b, c) == Mul(a, c) + Mul(b, c) && Mul(c, a + b) == Mul(c, a) + Mul(c, b)
  {
  }

  lemma Regroup(x: nat, f: nat, d: nat)
    ensures Mul(Mul(x, f), d) == Mul(x, Mul(f, d))
  {
    assert (x * f) * d == x * (f * d);
  }

  /** A dividend in units of d n. */
  lemma Scaled(x: nat, d: nat, q: nat, s: nat, n: nat)
    requires x == Mul(q, d) + s
    ensures Mul(x, n) == Mul(Mul(q, n), d) + Mul(s, n)
    ensures Mul(Mul(q + 1, n), d) == Mul(Mul(q, n), d) + Mul(n, d)
  {
    hide Mul;
    Spread(Mul(q, d), s, n);
    Swap(q, n, d);
    MulNext(q, n);
    Spread(Mul(q, n), n, d);
  }

  function Quot(x: nat, d: nat): nat
    requires d > 0
  {
    x / d
  }

  lemma Division(x: nat, d: nat)
    requires d > 0
    ensures x == Mul(x / d, d) + x % d && Quot(x, d) == x / d
  {
  }

  /** The quotient of a division is determined by its bounds. */
  lemma QuotientIs(x: nat, d: nat, q: nat)
    requires d > 0 && Mul(q, d) <= x < Mul(q + 1, d)
    ensures x / d == q
  {
    hide Mul;
    Division(x, d);
    var p := x / d;
    MulNext(p, d);
    if p < q {
      MulMono(p + 1, q, d);
    }
    if q < p {
      MulMono(q + 1, p, d);
    }
  }

  lemma Remainder(x: nat, d: nat)
    requires d > 0
    ensures 0 <= x - Mul(Quot(x, d), d) < d
  {
    Division(x, d);
  }

  /** A reciprocal rounded down, with one added to the dividend. */
  lemma RoundedDown(x: nat, d: nat, n: nat, f: nat, e: nat)
    requires d > 0 && n == Mul(f, d) + e && e > 0 && Mul(x + 1, e) <= n
    ensures Mul(Quot(x, d), n) <= Mul(x + 1, f) < Mul(Quot(x, d) + 1, n)
  {
    hide Mul, Quot;
    Remainder(x, d);
    var q, s := Quot(x, d), x - Mul(Quot(x, d), d);
    Scaled(x + 1, d, q, s + 1, n);
    Regroup(x + 1, f, d);
    Spread(Mul(f, d), e, x + 1);
    MulMono(1, s + 1, n);
    MulOne(n);
    CancelLe(Mul(q, n), Mul(x + 1, f), d);
    MulMono(s + 1, d, n);
    Commutes(n, d);
    MulMono(1, x + 1, e);
    MulOne(e);
    CancelLess(Mul(x + 1, f), Mul(q + 1, n), d);
  }

  lemma MulOne(n: nat)
    ensures Mul(1, n) == n
  {
  }

  lemma Commutes(a: nat, b: nat)
    ensures Mul(a, b) == Mul(b, a)
  {
  }

  /** A reciprocal rounded up. */
  lemma RoundedUp(x: nat, d: nat, n: nat, f: nat, e: nat)
    requires d > 0 && Mul(f, d) == n + e && Mul(x, e) < n
    ensures Mul(Quot(x, d), n) <= Mul(x, f) < Mul(Quot(x, d) + 1, n)
  {
    hide Mul, Quot;
    Remainder(x, d);
    var q, s := Quot(x, d), x - Mul(Quot(x, d), d);
    Scaled(x, d, q, s, n);
    Regroup(x, f, d);
    Spread(n, e, x);
    CancelLe(Mul(q, n), Mul(x, f), d);
    MulMono(s + 1, d, n);
    MulNext(s, n);
    Commutes(n, d);
    CancelLess(Mul(x, f), Mul(q + 1, n), d);
  }

  /** A shift by the bits of n is a division by n. */
  lemma ShiftIs(y: nat, r: nat, q: nat)
    requires Mul(q, Pow2(r)) <= y < Mul(q + 1, Pow2(r))
    ensures Shr(y, r) == q
  {
    ShrBounds(y, r, q);
  }

  // What a reciprocal has to do.

  /** Multiplying and shifting divides a magnitude, and stays within twice the width of a word. */
  ghost predicate DividesOne(recip: nat, corr: nat, shift: int, w: nat, d: nat, x: nat)
    requires w >= 16 && d > 0 && shift + w >= 0
  {
    x + corr < Pow2(w) && Mul(x + corr, recip) < Pow2(2 * w) && Shr(Mul(x + corr, recip), shift + w) == (x + d / 2) / d
  }

  /** It does so for every magnitude of a signed w-bit word. */
  ghost predicate Divides(recip: nat, corr: nat, shift: int, w: nat, d: nat) {
    && w >= 16 && d > 0 && shift + w >= 0 && recip < Pow2(w) && corr < Pow2(w)
    && forall x: nat :: x < Pow2(w - 1) ==> DividesOne(recip, corr, shift, w, d, x)
  }

  lemma WordBounds(w: nat)
    requires w >= 16
    ensures 0x8000 <= Pow2(w - 1) && Pow2(w) == 2 * Pow2(w - 1)
  {
    Pow16();
    PowMono(15, w - 1);
  }

  lemma PowMul(m: nat, n: nat)
    ensures Pow2(m + n) == Mul(Pow2(m), Pow2(n))
  {
    PowAdd(m, n);
  }

  lemma ProductFits(x: nat, corr: nat, recip: nat, w: nat)
    requires w >= 16 && x < Pow2(w - 1) && corr <= 0x8000 && recip < Pow2(w)
    ensures x + corr < Pow2(w) && Mul(x + corr, recip) < Pow2(2 * w)
  {
    hide Mul, Pow2;
    WordBounds(w);
    var m := Pow2(w);
    assert m > 0 by {
      WordBounds(w);
    }
    MulMono(x + corr, m - 1, recip);
    MulMono(recip, m, m - 1);
    MulNext(m - 1, m);
    PowMul(w, w);
    Commutes(m - 1, m);
  }

  /** The identity. */
  lemma DividesByOne(w: nat)
    requires w >= 16
    ensures Divides(1, 0, 0 - w, w, 1)
  {
    WordBounds(w);
    var shift := 0 - w;
    forall x: nat | x < Pow2(w - 1)
      ensures DividesOne(1, 0, shift, w, 1, x)
    {
      ProductFits(x, 0, 1, w);
    }
  }

  lemma PowPositive(n: nat)
    ensures Pow2(n) >= 1
  {
  }

  /** The only odd divisor of a power of two is one. */
  lemma {:induction false} OddDivisor(d: nat, f: nat, n: nat)
    requires Mul(f, d) == Pow2(n) && f % 2 == 1
    ensures f == 1
    decreases n
  {
    if n == 0 {
      ProductOne(f, d);
    } else {
      assert Mul(f, d) == 2 * Pow2(n - 1);
      EvenProduct(f, d);
      OddDivisor(d / 2, f, n - 1);
    }
  }

  lemma ProductOne(f: nat, d: nat)
    requires Mul(f, d) == 1
    ensures f == 1
  {
    if d > 1 && f > 0 {
      MulMono(1, f, d);
    }
  }

  lemma EvenProduct(f: nat, d: nat)
    requires f % 2 == 1 && Mul(f, d) % 2 == 0
    ensures d % 2 == 0 && Mul(f, d) == 2 * Mul(f, d / 2)
  {
    var g := f / 2;
    assert f == 2 * g + 1;
    assert f * d == 2 * (g * d) + d;
    assert d == 2 * (d / 2);
    assert f * d == 2 * (f * (d / 2));
  }

  /** A divisor, its bits, and the dividend that its reciprocal comes from. */
  ghost predicate Scaling(w: nat, b: nat, d: nat, n: nat) {
    w >= 16 && b <= 15 && Pow2(b) <= d < 2 * Pow2(b) && n == Pow2(w + b)
  }

  lemma ScalingBounds(w: nat, b: nat, d: nat, n: nat, x: nat)
    requires Scaling(w, b, d, n) && (x < Pow2(w - 1) || x == 0)
    ensures 0 < d < 0x10000 && d / 2 <= Pow2(b) && x + d / 2 < Pow2(w) && n == Mul(Pow2(w), Pow2(b)) && d < Pow2(w) <= n
  {
    WordBounds(w);
    Pow16();
    PowMono(b, 15);
    PowMul(w, b);
    PowPositive(b);
    PowMono(w, w + b);
  }

  /** The rounded reciprocal fits the word. */
  lemma DownFits(w: nat, b: nat, d: nat, n: nat, fq: nat, fr: nat)
    requires Scaling(w, b, d, n) && n == Mul(fq, d) + fr && 0 < fr
    ensures fq < Pow2(w)
  {
    hide Mul, Pow2;
    PowMul(w, b);
    if fq >= Pow2(w) {
      MulMono(Pow2(w), fq, Pow2(b));
      MulMono(Pow2(b), d, fq);
    }
  }

  lemma UpFits(w: nat, b: nat, d: nat, n: nat, fq: nat, fr: nat)
    requires Scaling(w, b, d, n) && n == Mul(fq, d) + fr && 0 < fr < d
    ensures fq + 1 < Pow2(w)
  {
    hide Mul, Pow2;
    ScalingBounds(w, b, d, n, 0);
    MulNext(fq, d);
    if fq + 1 >= Pow2(w) {
      MulMono(Pow2(w), fq + 1, d);
      NotPower(w, b, d, n, fq, fr);
      MulMono(Pow2(b) + 1, d, Pow2(w));
      MulNext(Pow2(b), Pow2(w));
      Commutes(Pow2(b), Pow2(w));
      Commutes(Pow2(b) + 1, Pow2(w));
    }
  }

  /** The error of the reciprocal stays below one. */
  lemma ErrorFits(y: nat, e: nat, w: nat, b: nat)
    requires y <= Pow2(w) && e <= Pow2(b)
    ensures Mul(y, e) <= Pow2(w + b)
    ensures y < Pow2(w) ==> Mul(y, e) < Pow2(w + b)
  {
    hide Mul, Pow2;
    PowMul(w, b);
    MulMono(y, Pow2(w), e);
    MulMono(e, Pow2(b), Pow2(w));
    if y < Pow2(w) {
      MulMono(e, Pow2(b), y);
      MulMono(y + 1, Pow2(w), Pow2(b));
      MulNext(y, Pow2(b));
      PowPositive(b);
    }
  }

  lemma QuotientFound(recip: nat, corr: nat, shift: int, w: nat, d: nat, x: nat)
    requires w >= 16 && d > 0 && shift + w >= 0 && x + corr < Pow2(w) && Mul(x + corr, recip) < Pow2(2 * w)
    requires Shr(Mul(x + corr, recip), shift + w) == Quot(x + d / 2, d)
    ensures DividesOne(recip, corr, shift, w, d, x)
  {
  }

  /** The fraction is below one half: rounded down. */
  lemma DividesDown(w: nat, b: nat, d: nat, n: nat, fq: nat, fr: nat, x: nat)
    requires Scaling(w, b, d, n) && n == Mul(fq, d) + fr && 0 < fr <= d / 2 && x < Pow2(w - 1)
    ensures fq < Pow2(w) && DividesOne(fq, d / 2 + 1, b, w, d, x)
  {
    hide Mul, Pow2, Quot, DividesOne, Shr;
    ScalingBounds(w, b, d, n, x);
    DownFits(w, b, d, n, fq, fr);
    var c := d / 2;
    var y := x + c;
    ErrorFits(y + 1, fr, w, b);
    RoundedDown(y, d, n, fq, fr);
    ProductFits(x, c + 1, fq, w);
    ShiftIs(Mul(y + 1, fq), w + b, Quot(y, d));
    QuotientFound(fq, c + 1, b, w, d, x);
  }

  /** The fraction is above one half: rounded up. */
  lemma DividesUp(w: nat, b: nat, d: nat, n: nat, fq: nat, fr: nat, x: nat)
    requires Scaling(w, b, d, n) && n == Mul(fq, d) + fr && d / 2 < fr < d && x < Pow2(w - 1)
    ensures fq + 1 < Pow2(w) && DividesOne(fq + 1, d / 2, b, w, d, x)
  {
    hide Mul, Pow2, Quot, DividesOne, Shr;
    ScalingBounds(w, b, d, n, x);
    UpFits(w, b, d, n, fq, fr);
    MulNext(fq, d);
    var c, e := d / 2, d - fr;
    var y := x + c;
    ErrorFits(y, e, w, b);
    RoundedUp(y, d, n, fq + 1, e);
    ProductFits(x, c, fq + 1, w);
    ShiftIs(Mul(y, fq + 1), w + b, Quot(y, d));
    QuotientFound(fq + 1, c, b, w, d, x);
  }

  /** With a remainder, the divisor is not a power of two. */
  lemma NotPower(w: nat, b: nat, d: nat, n: nat, fq: nat, fr: nat)
    requires Scaling(w, b, d, n) && n == Mul(fq, d) + fr && 0 < fr < d
    ensures d > Pow2(b)
  {
    hide Mul, Pow2;
    PowMul(w, b);
    if d == Pow2(b) {
      if fq >= Pow2(w) {
        MulMono(Pow2(w), fq, d);
      } else {
        MulMono(fq + 1, Pow2(w), d);
        MulNext(fq, d);
      }
    }
  }

  /** No fraction: the reciprocal is halved to fit the word. */
  lemma DividesExact(w: nat, b: nat, d: nat, n: nat, fq: nat, x: nat)
    requires Scaling(w, b, d, n) && n == Mul(fq, d) && b >= 1 && x < Pow2(w - 1)
    ensures fq / 2 < Pow2(w) && DividesOne(fq / 2, d / 2, b - 1, w, d, x)
  {
    hide Mul, Pow2, Quot, DividesOne, Shr;
    ScalingBounds(w, b, d, n, x);
    ExactFits(w, b, d, n, fq);
    var c, half, m := d / 2, fq / 2, w + b - 1;
    PowHalf(w + b);
    PowPositive(m);
    var y := x + c;
    NoError(y, Pow2(m));
    RoundedUp(y, d, Pow2(m), half, 0);
    ProductFits(x, c, half, w);
    ShiftIs(Mul(y, half), m, Quot(y, d));
    QuotientFound(half, c, b - 1, w, d, x);
  }

  /** An exact reciprocal is even, and its half fits the word. */
  lemma ExactFits(w: nat, b: nat, d: nat, n: nat, fq: nat)
    requires Scaling(w, b, d, n) && n == Mul(fq, d)
    ensures fq / 2 < Pow2(w) && n == 2 * Mul(fq / 2, d)
  {
    hide Mul, Pow2;
    ScalingBounds(w, b, d, n, 0);
    if fq % 2 == 1 {
      OddDivisor(d, fq, w + b);
      MulOne(d);
    }
    if fq > Pow2(w) {
      MulMono(Pow2(w) + 1, fq, d);
      MulMono(Pow2(b), d, Pow2(w) + 1);
      MulNext(Pow2(w), Pow2(b));
      PowPositive(b);
    }
    HalfProduct(fq, d);
  }

  lemma HalfProduct(f: nat, d: nat)
    requires f % 2 == 0
    ensures Mul(f, d) == 2 * Mul(f / 2, d)
  {
    assert f == 2 * (f / 2);
    assert f * d == 2 * ((f / 2) * d);
  }

  lemma PowHalf(n: nat)
    requires n > 0
    ensures Pow2(n) == 2 * Pow2(n - 1)
  {
  }

  lemma NoError(y: nat, n: nat)
    requires n > 0
    ensures Mul(y, 0) < n
  {
  }

  // The quantiser.

  lemma {:induction false} LengthShl(v: nat, k: nat)
    requires v > 0
    ensures BitLength(Shl(v, k)) == BitLength(v) + k && Shl(v, k) > 0
  {
    if k > 0 {
      LengthShl(v, k - 1);
    }
  }

  /** The number of significant bits, by binary search. */
  method Flss(val0: nat) returns (b: nat)
    requires val0 < 0x10000
    ensures b == BitLength(val0)
  {
    hide BitLength, Shl;
    var val := val0;
    b := 16;
    if val == 0 {
      ZeroBits();
      return 0;
    }
    if val / 0x100 == 0 {
      LengthShl(val, 8);
      ShlConstants(val);
      b := b - 8;
      val := val * 0x100;
    }
    if val / 0x1000 == 0 {
      LengthShl(val, 4);
      ShlFour(val);
      b := b - 4;
      val := val * 0x10;
    }
    if val / 0x4000 == 0 {
      LengthShl(val, 2);
      ShlFour(val);
      b := b - 2;
      val := val * 4;
    }
    if val / 0x8000 == 0 {
      LengthShl(val, 1);
      ShlFour(val);
      b := b - 1;
      val := val * 2;
    }
    SixteenBits(val);
  }

  lemma ZeroBits()
    ensures BitLength(0) == 0
  {
  }

  lemma ShlFour(v: nat)
    ensures Shl(v, 1) == v * 2 && Shl(v, 2) == v * 4 && Shl(v, 4) == v * 0x10
  {
    assert Shl(v, 1) == v * 2;
    assert Shl(v, 2) == v * 4;
    assert Shl(v, 3) == v * 8;
  }

  lemma SixteenBits(v: nat)
    requires 0x8000 <= v < 0x10000
    ensures BitLength(v) == 16
  {
    Pow16();
    BitLengthBounds(v);
    BitLengthMono(v, 16);
    if BitLength(v) <= 15 {
      PowMono(BitLength(v), 15);
    }
  }

  lemma DivisorBits(d: nat)
    requires 2 <= d < 0x10000
    ensures var b := BitLength(d) - 1; 1 <= b <= 15 && Pow2(b) <= d < 2 * Pow2(b)
  {
    Pow16();
    BitLengthBounds(d);
    BitLengthMono(d, 16);
  }

  /** The divisor that is used; zero counts as one. */
  function Clamped(divisor: nat): nat { if divisor <= 1 then 1 else divisor }

  /** Reciprocal, correction and shift of a divisor, as multiplication and shift need them. */
  method ComputeReciprocal(divisor: nat, w: nat) returns (recip: nat, corr: nat, shift: int)
    requires divisor < 0x10000 && w >= 16
    ensures Divides(recip, corr, shift, w, Clamped(divisor))
  {
    hide Divides, Pow2, BitLength;
    if divisor <= 1 {
      DividesByOne(w);
      return 1, 0, 0 - w;
    }
    var bits := Flss(divisor);
    DivisorBits(divisor);
    var b: nat := bits - 1;
    var r := w + b;
    var n := Pow2(r);
    var fq, fr := n / divisor, n % divisor;
    var c := divisor / 2;
    Division(n, divisor);
    ReciprocalFits(w, b, divisor, n, fq, fr);
    if fr == 0 {
      fq := fq / 2;
      r := r - 1;
    } else if fr <= divisor / 2 {
      c := c + 1;
    } else {
      fq := fq + 1;
    }
    return fq, c, r - w;
  }

  lemma ReciprocalFits(w: nat, b: nat, d: nat, n: nat, fq: nat, fr: nat)
    requires Scaling(w, b, d, n) && b >= 1 && n == Mul(fq, d) + fr && fr < d
    ensures fr == 0 ==> Divides(fq / 2, d / 2, b - 1, w, d)
    ensures 0 < fr <= d / 2 ==> Divides(fq, d / 2 + 1, b, w, d)
    ensures fr > d / 2 ==> Divides(fq + 1, d / 2, b, w, d)
  {
    hide Mul, Pow2, DividesOne;
    WordBounds(w);
    ScalingBounds(w, b, d, n, 0);
    var half, s := fq / 2, b - 1;
    if fr == 0 {
      DividesExact(w, b, d, n, fq, 0);
      forall x: nat | x < Pow2(w - 1)
        ensures DividesOne(half, d / 2, s, w, d, x)
      {
        DividesExact(w, b, d, n, fq, x);
      }
    } else if fr <= d / 2 {
      var c := d / 2 + 1;
      DividesDown(w, b, d, n, fq, fr, 0);
      forall x: nat | x < Pow2(w - 1)
        ensures DividesOne(fq, c, b, w, d, x)
      {
        DividesDown(w, b, d, n, fq, fr, x);
      }
    } else {
      var f := fq + 1;
      DividesUp(w, b, d, n, fq, fr, 0);
      forall x: nat | x < Pow2(w - 1)
        ensures DividesOne(f, d / 2, b, w, d, x)
      {
        DividesUp(w, b, d, n, fq, fr, x);
      }
    }
  }

  /** A signed integer cut to the 16 bits of a coefficient. */
  function ToCoefficient(t: int): int { (t + 0x8000) % 0x10000 - 0x8000 }

  /** A 16-bit coefficient c for the value t and the divisor d: the nearest quotient, wherever that fits. */
  predicate Quantized(c: int, t: int, d: nat) {
    -0x8000 <= c <= 0x7FFF && (Abs(t) <= 0x7FFF * d ==> Nearest(c, t, d))
  }

  /** Cutting to 16 bits changes a quotient by multiples of 2^16 only, and one that fits not at all. */
  lemma CoefficientStored(t: int, d: nat)
    requires d > 0
    ensures Quantized(ToCoefficient(RoundedDivide(t, d)), t, d)
    ensures (ToCoefficient(RoundedDivide(t, d)) - RoundedDivide(t, d)) % 0x10000 == 0
    ensures forall q :: Nearest(q, t, d) && -0x8000 <= q <= 0x7FFF ==> ToCoefficient(RoundedDivide(t, d)) == q
  {
    hide Nearest, RoundedDivide;
    var q := RoundedDivide(t, d);
    RoundedIsNearest(t, d);
    Cut(q);
    if Abs(t) <= 0x7FFF * d {
      NearestFits(q, t, d);
    }
    forall p | Nearest(p, t, d)
      ensures p == q
    {
      OneIsNearest(p, q, t, d);
    }
  }

  lemma Cut(t: int)
    ensures -0x8000 <= ToCoefficient(t) <= 0x7FFF && (ToCoefficient(t) - t) % 0x10000 == 0
    ensures -0x8000 <= t <= 0x7FFF ==> ToCoefficient(t) == t
  {
    var q := (t + 0x8000) / 0x10000;
    assert ToCoefficient(t) - t == 0 - q * 0x10000;
  }

  lemma NearestFits(q: int, t: int, d: nat)
    requires d > 0 && Nearest(q, t, d) && Abs(t) <= 0x7FFF * d
    ensures Abs(q) <= 0x7FFF
  {
    if q > 0x7FFF {
      Mono(0x8000, q, d);
    } else if q < -0x7FFF {
      Mono(q, -0x8000, d);
    }
  }

  /** The magnitudes that a signed word of w bits can be negated to. */
  predicate Negatable(t: int, w: nat)
    requires w > 0
  {
    Abs(t) < Pow2(w - 1)
  }

  predicate InWord(t: int, w: nat)
    requires w > 0
  {
    0 - Pow2(w - 1) <= t < Pow2(w - 1)
  }

  /** Negation leaves the word for its smallest value, and for no other: quantising that one is undefined in C. */
  lemma NegationBoundary(t: int, w: nat)
    requires w > 0 && InWord(t, w)
    ensures Negatable(t, w) <==> InWord(0 - t, w)
    ensures Negatable(t, w) <==> t != 0 - Pow2(w - 1)
  {
  }

  /** Entry i of a table of divisors is good for divisor d. */
  ghost predicate GoodEntry(divisors: seq<int>, i: nat, w: nat, d: nat)
    requires |divisors| == 4 * DCTSIZE2 && i < DCTSIZE2
  {
    divisors[i] >= 0 && divisors[i + DCTSIZE2] >= 0 && Divides(divisors[i], divisors[i + DCTSIZE2], divisors[i + 3 * DCTSIZE2], w, d)
  }

  /** One magnitude, multiplied and shifted. */
  method Reciprocate(temp: nat, recip: nat, corr: nat, shift: int, w: nat, ghost d: nat) returns (q: nat)
    requires Divides(recip, corr, shift, w, d) && temp < Pow2(w - 1)
    ensures q == (temp + d / 2) / d
  {
    assert DividesOne(recip, corr, shift, w, d, temp);
    var product := (temp + corr) * recip;
    q := Shr(product, shift + w);
  }

  /** One value, with its sign. */
  method QuantizeOne(t: int, recip: nat, corr: nat, shift: int, w: nat, ghost d: nat) returns (coef: int)
    requires Divides(recip, corr, shift, w, d) && Negatable(t, w)
    ensures coef == ToCoefficient(RoundedDivide(t, d)) && Quantized(coef, t, d)
  {
    hide Pow2, ToCoefficient, Quantized;
    var temp := t;
    if temp < 0 {
      temp := Reciprocate(0 - temp, recip, corr, shift, w, d);
      temp := 0 - temp;
    } else {
      temp := Reciprocate(temp, recip, corr, shift, w, d);
    }
    CoefficientStored(t, d);
    coef := ToCoefficient(temp);
  }

  /** Quantises a block by multiplication. */
  method Quantize(divisors: array<int>, workspace: array<int>, w: nat, ghost ds: seq<nat>) returns (coefs: array<int>)
    requires divisors.Length == 4 * DCTSIZE2 && workspace.Length == DCTSIZE2 == |ds| && w >= 16
    requires forall i :: 0 <= i < DCTSIZE2 ==> Negatable(workspace[i], w)
    requires forall i :: 0 <= i < DCTSIZE2 ==> ds[i] > 0 && GoodEntry(divisors[..], i, w, ds[i])
    ensures fresh(coefs) && coefs.Length == DCTSIZE2
    ensures forall i :: 0 <= i < DCTSIZE2 ==> coefs[i] == ToCoefficient(RoundedDivide(workspace[i], ds[i]))
    ensures forall i :: 0 <= i < DCTSIZE2 ==> Quantized(coefs[i], workspace[i], ds[i])
  {
    hide Divides, Pow2, ToCoefficient, Quantized;
    coefs := new int[DCTSIZE2](_ => 0);
    var i := 0;
    while i < DCTSIZE2
      invariant i <= DCTSIZE2
      invariant forall k :: 0 <= k < i ==> coefs[k] == ToCoefficient(RoundedDivide(workspace[k], ds[k]))
      invariant forall k :: 0 <= k < i ==> Quantized(coefs[k], workspace[k], ds[k])
    {
      assert GoodEntry(divisors[..], i, w, ds[i]);
      coefs[i] := QuantizeOne(workspace[i], divisors[i], divisors[i + DCTSIZE2], divisors[i + 3 * DCTSIZE2], w, ds[i]);
      i := i + 1;
    }
  }

  /** Quantises a block by division, as for 12-bit samples. */
  method QuantizeByDivision(divisors: array<int>, workspace: array<int>) returns (coefs: array<int>)
    requires divisors.Length == DCTSIZE2 == workspace.Length && forall i :: 0 <= i < DCTSIZE2 ==> divisors[i] > 0
    ensures fresh(coefs) && coefs.Length == DCTSIZE2
    ensures forall i :: 0 <= i < DCTSIZE2 ==> coefs[i] == ToCoefficient(RoundedDivide(workspace[i], divisors[i]))
    ensures forall i :: 0 <= i < DCTSIZE2 ==> Quantized(coefs[i], workspace[i], divisors[i])
  {
    hide ToCoefficient, Quantized;
    coefs := new int[DCTSIZE2](_ => 0);
    var i := 0;
    while i < DCTSIZE2
      invariant i <= DCTSIZE2
      invariant forall k :: 0 <= k < i ==> coefs[k] == ToCoefficient(RoundedDivide(workspace[k], divisors[k]))
      invariant forall k :: 0 <= k < i ==> Quantized(coefs[k], workspace[k], divisors[k])
    {
      var qval, temp := divisors[i], workspace[i];
      if temp < 0 {
        temp := 0 - temp + qval / 2;
        SmallQuotient(temp, qval);
        temp := 0 - if temp >= qval then temp / qval else 0;
      } else {
        temp := temp + qval / 2;
        SmallQuotient(temp, qval);
        temp := if temp >= qval then temp / qval else 0;
      }
      CoefficientStored(workspace[i], qval);
      coefs[i] := ToCoefficient(temp);
      i := i + 1;
    }
  }

  lemma SmallQuotient(x: nat, d: nat)
    requires d > 0
    ensures x < d ==> x / d == 0
  {
    if x < d {
      QuotientIs(x, d, 0);
    }
  }

  // Divisors from quantisation tables.

  /** The divisor of the accurate DCT at 8 bits: eight times the table entry, in 16 bits. */
  function Divisor8(quantval: nat): nat { Clamped(quantval * 8 % 0x10000) }

  /** The table of divisors for the accurate DCT. */
  method StartPass(quantval: seq<nat>, w: nat) returns (divisors: array<int>)
    requires |quantval| == DCTSIZE2 && w >= 16
    ensures fresh(divisors) && divisors.Length == 4 * DCTSIZE2
    ensures forall i :: 0 <= i < DCTSIZE2 ==> GoodEntry(divisors[..], i, w, Divisor8(quantval[i]))
  {
    hide Divides;
    divisors := new int[4 * DCTSIZE2](_ => 0);
    var i := 0;
    while i < DCTSIZE2
      invariant i <= DCTSIZE2
      invariant forall k :: 0 <= k < i ==> GoodEntry(divisors[..], k, w, Divisor8(quantval[k]))
    {
      var recip, corr, shift := ComputeReciprocal(quantval[i] * 8 % 0x10000, w);
      ghost var before := divisors[..];
      divisors[i], divisors[i + DCTSIZE2], divisors[i + 2 * DCTSIZE2], divisors[i + 3 * DCTSIZE2] := recip, corr, 1, shift;
      assert divisors[..] == before[i := recip][i + DCTSIZE2 := corr][i + 2 * DCTSIZE2 := 1][i + 3 * DCTSIZE2 := shift];
      i := i + 1;
    }
  }

  /** Both forms quantise alike, for every coefficient of a word, exactly if the divisor fits 16 bits. */
  lemma FormsAgree(quantval: nat, w: nat)
    requires 1 <= quantval < 0x10000 && w >= 16
    ensures (forall t :: Negatable(t, w) ==> RoundedDivide(t, Divisor8(quantval)) == RoundedDivide(t, quantval * 8))
       <==> quantval <= 8191
  {
    if quantval > 8191 {
      WordBounds(w);
      assert Negatable(0x7FFF, w);
      TooLarge(quantval);
    }
  }

  lemma TooLarge(quantval: nat)
    requires 8191 < quantval < 0x10000
    ensures RoundedDivide(0x7FFF, quantval * 8) == 0 < RoundedDivide(0x7FFF, Divisor8(quantval))
  {
    var d := Divisor8(quantval);
    QuotientIs(0x7FFF + quantval * 4, quantval * 8, 0);
    assert d == 1 || (d % 8 == 0 && d < 0x10000);
    if 0x7FFF + d / 2 < 1 * d {
      assert false;
    }
    AtLeastOne(0x7FFF + d / 2, d);
  }

  lemma AtLeastOne(x: nat, d: nat)
    requires 0 < d <= x
    ensures x / d >= 1
  {
  }
}
