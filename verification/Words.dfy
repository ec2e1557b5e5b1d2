/** Unsigned machine words as numbers: shifts, masks, or, and the bytes they hold. */
module Words {
  import opened Bytes
  import opened BitStrings
  import opened Coefficients

  /** The low w bits of v, as a number: what a w-bit word keeps. */
  function Wrap(v: nat, w: nat): nat
  {
    if w == 0 then 0 else 2 * Wrap(v / 2, w - 1) + v % 2
  }

  function Or(a: nat, b: nat): nat
    decreases a + b
  {
    if a == 0 && b == 0 then 0
    else 2 * Or(a / 2, b / 2) + if a % 2 == 1 || b % 2 == 1 then 1 else 0
  }

  lemma {:induction false} WrapBound(v: nat, w: nat)
    ensures Wrap(v, w) < Pow2(w)
    decreases w
  {
    if w > 0 {
      WrapBound(v / 2, w - 1);
    }
  }

  lemma {:induction false} WrapSmall(v: nat, w: nat)
    requires v < Pow2(w)
    ensures Wrap(v, w) == v
    decreases w
  {
    if w > 0 {
      WrapSmall(v / 2, w - 1);
    }
  }

  lemma {:induction false} WrapShl(v: nat, k: nat, w: nat)
    requires k <= w
    ensures Wrap(Shl(v, k), w) == Shl(Wrap(v, w - k), k)
    decreases k
  {
    if k > 0 {
      WrapShl(v, k - 1, w - 1);
    }
  }

  lemma {:induction false} OrZero(a: nat)
    ensures Or(a, 0) == a
  {
    if a > 0 {
      OrZero(a / 2);
    }
  }

  lemma {:induction false} OrCommutes(a: nat, b: nat)
    ensures Or(a, b) == Or(b, a)
    decreases a + b
  {
    if a > 0 || b > 0 {
      OrCommutes(a / 2, b / 2);
    }
  }

  /** Or adds when the right operand fits below the lowest one bit of the left. */
  lemma {:induction false} OrDisjoint(h: nat, k: nat, y: nat)
    requires y < Pow2(k)
    ensures Or(Shl(h, k), y) == Shl(h, k) + y
    decreases k
  {
    if k == 0 {
      OrZero(h);
    } else if Shl(h, k) > 0 || y > 0 {
      OrDisjoint(h, k - 1, y / 2);
    }
  }

  lemma {:induction false} ShrHalf(v: nat, k: nat)
    ensures Shr(v / 2, k) == Shr(v, k + 1)
  {
    if k > 0 {
      ShrHalf(v, k - 1);
    }
  }

  lemma {:induction false} ShrFits(v: nat, n: nat, k: nat)
    requires k <= n && v < Pow2(n)
    ensures Shr(v, k) < Pow2(n - k)
  {
    if k > 0 {
      ShrFits(v, n, k - 1);
    }
  }

  // The bytes of a word.

  /** The k-th byte, counted from the least significant. */
  function ByteOf(v: nat, k: nat): byte
  {
    if k == 0 then v % 256 else ByteOf(v / 256, k - 1)
  }

  /** The n bytes of a word, most significant first. */
  function WordBytes(v: nat, n: nat): (s: seq<byte>)
    ensures |s| == n
  {
    if n == 0 then [] else WordBytes(v / 256, n - 1) + [v % 256]
  }

  lemma {:induction false} WordBytesAt(v: nat, n: nat, i: nat)
    requires i < n
    ensures WordBytes(v, n)[i] == ByteOf(v, n - 1 - i)
    decreases n
  {
    if i < n - 1 {
      WordBytesAt(v / 256, n - 1, i);
    }
  }

  /** A byte shifted down to the bottom. */
  lemma {:induction false} ByteShr(v: nat, k: nat)
    ensures ByteOf(v, k) == Shr(v, 8 * k) % 256
    decreases k
  {
    if k > 0 {
      ByteShr(v / 256, k - 1);
      assert v / 256 == v / 2 / 2 / 2 / 2 / 2 / 2 / 2 / 2;
      var j := 8 * (k - 1);
      ShrHalf(v, j + 7);
      ShrHalf(v / 2, j + 6);
      ShrHalf(v / 2 / 2, j + 5);
      ShrHalf(v / 2 / 2 / 2, j + 4);
      ShrHalf(v / 2 / 2 / 2 / 2, j + 3);
      ShrHalf(v / 2 / 2 / 2 / 2 / 2, j + 2);
      ShrHalf(v / 2 / 2 / 2 / 2 / 2 / 2, j + 1);
      ShrHalf(v / 2 / 2 / 2 / 2 / 2 / 2 / 2, j);
    }
  }

  /** A word of n bytes, each of them one: the constant of the 0xFF test. */
  function OneInEach(n: nat): nat {
    if n == 0 then 0 else 256 * OneInEach(n - 1) + 1
  }

  predicate TopBit(b: byte) {
    b >= 0x80
  }

  /** The k-th byte has its top bit set in v, and clear in sum. */
  predicate Flagged(v: nat, sum: nat, k: nat) {
    TopBit(ByteOf(v, k)) && !TopBit(ByteOf(sum, k))
  }

  /** Some byte has its top bit set in v, and clear in v plus one in every byte. */
  predicate WordTest(v: nat, n: nat) {
    var sum := v + OneInEach(n);
    exists k: nat :: k < n && Flagged(v, sum, k)
  }

  predicate TestFrom(v: nat, sum: nat, n: nat)
  {
    n > 0 && (Flagged(v, sum, 0) || TestFrom(v / 256, sum / 256, n - 1))
  }

  lemma {:induction false} TestFromBytes(v: nat, sum: nat, n: nat)
    ensures TestFrom(v, sum, n) <==> exists k: nat :: k < n && Flagged(v, sum, k)
    decreases n
  {
    if n > 0 {
      TestFromBytes(v / 256, sum / 256, n - 1);
      if k: nat :| k < n && Flagged(v, sum, k) {
        assert k == 0 || Flagged(v / 256, sum / 256, k - 1);
      }
      if k: nat :| k < n - 1 && Flagged(v / 256, sum / 256, k) {
        assert Flagged(v, sum, k + 1);
      }
    }
  }

  /** No byte below the first 0xFF carries, so the test finds that byte, and finds nothing if there is none. */
  lemma {:induction false} TestFromFinds(v: nat, n: nat)
    ensures TestFrom(v, v + OneInEach(n), n) <==> 0xFF in WordBytes(v, n)
    decreases n
  {
    if n > 0 {
      var s := v + OneInEach(n);
      if v % 256 != 0xFF {
        assert s / 256 == v / 256 + OneInEach(n - 1) && s % 256 == v % 256 + 1;
        TestFromFinds(v / 256, n - 1);
      } else {
        assert s % 256 == 0;
        assert WordBytes(v, n)[n - 1] == 0xFF;
      }
    }
  }

  /** The word-wide test holds exactly when some byte is 0xFF. */
  lemma WordTestFinds(v: nat, n: nat)
    ensures WordTest(v, n) <==> 0xFF in WordBytes(v, n)
  {
    TestFromBytes(v, v + OneInEach(n), n);
    TestFromFinds(v, n);
  }

  /** A byte's worth of low bits. */
  lemma LowByte(v: nat)
    ensures Shr(v, 8) == v / 256
  {
    ShrShl(v, 8);
    ShlConstants(Shr(v, 8));
    ShlConstants(Shr(v, 8) + 1);
  }

  /** Bytes without a 0xFF need no stuffing. */
  lemma {:induction false} StuffNothing(s: seq<byte>)
    requires 0xFF !in s
    ensures Stuff(s) == s
  {
    if s != [] {
      StuffNothing(s[..|s| - 1]);
    }
  }
}
