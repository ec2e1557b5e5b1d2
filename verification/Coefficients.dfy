/** Signs, magnitudes and the point transform of successive approximation. */
module Coefficients {
  import opened Bytes
  import opened BitStrings
  import opened ZigZag

  function Abs(v: int): nat { if v < 0 then 0 - v else v }
  function SignBit(v: int): bit { if v < 0 then 1 else 0 }
  function Signed(sign: bit, v: nat): int { if sign == 1 then 0 - v else v }

  /** v shifted right by n bits. */
  function Shr(v: nat, n: nat): (r: nat)
    ensures r <= v
  {
    if n == 0 then v else Shr(v, n - 1) / 2
  }

  lemma {:induction false} ShrShl(v: nat, n: nat)
    ensures Shl(Shr(v, n), n) <= v < Shl(Shr(v, n) + 1, n)
  {
    if n > 0 {
      ShrShl(v, n - 1);
      var h := Shr(v, n - 1);
      ShlEven(h / 2, n - 1);
      ShlEven(h / 2 + 1, n - 1);
      ShlLess(h, 2 * (h / 2), n - 1);
      ShlLess(2 * (h / 2 + 1), h + 1, n - 1);
    }
  }

  /** The point transform of AC coefficients: division by 2^al, rounding towards zero. */
  function PointTransform(c: int, al: nat): int { Signed(SignBit(c), Shr(Abs(c), al)) }

  /** The point transform of AC coefficients, of a whole block. */
  function Transformed(x: Block, al: nat): (y: Block)
    ensures forall k :: 0 <= k < 64 ==> y[k] == PointTransform(x[k], al)
  {
    seq(64, k requires 0 <= k < 64 => PointTransform(x[k], al))
  }

  /** One bit less of precision. */
  function Halve(v: int): int { Signed(SignBit(v), Abs(v) / 2) }

  lemma PointTransformHalve(c: int, al: nat)
    ensures Halve(PointTransform(c, al)) == PointTransform(c, al + 1)
  {
  }

  /** An arithmetic right shift by al bits, the point transform of DC coefficients. */
  function ShiftRight(c: int, al: nat): int {
    if al == 0 then c else ShiftRight(c, al - 1) / 2
  }

  /** The point transform of an AC coefficient drops al bits of its magnitude and keeps its sign. */
  lemma PointTransformTruncates(c: int, al: nat)
    ensures Shl(Abs(PointTransform(c, al)), al) <= Abs(c) < Shl(Abs(PointTransform(c, al)) + 1, al)
    ensures PointTransform(c, al) != 0 ==> (PointTransform(c, al) < 0 <==> c < 0)
  {
    ShrShl(Abs(c), al);
  }

  /** That of a DC coefficient is the quotient by 2^al, rounded down. */
  lemma {:induction false} ShiftRightFloors(c: int, al: nat)
    ensures ShiftRight(c, al) * Pow2(al) <= c < (ShiftRight(c, al) + 1) * Pow2(al)
  {
    if al > 0 {
      ShiftRightFloors(c, al - 1);
      var q, p := ShiftRight(c, al - 1), Pow2(al - 1);
      HalfFloors(q, q / 2, p);
      Below(q + 1, 2 * (q / 2) + 2, p);
      Below(2 * (q / 2), q, p);
    }
  }

  lemma HalfFloors(q: int, h: int, p: nat)
    ensures (2 * h) * p == h * (2 * p) && (2 * h + 2) * p == (h + 1) * (2 * p)
  {
  }

  lemma Below(x: int, y: int, p: nat)
    requires x <= y
    ensures x * p <= y * p
  {
  }
}
