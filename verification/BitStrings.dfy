/** Bit strings, most significant bit first. */
module BitStrings {
  import opened Bytes

  /** The low n bits of v. */
  function ToBits(v: nat, n: nat): (r: seq<bit>)
    ensures |r| == n
  {
    if n == 0 then [] else ToBits(v / 2, n - 1) + [v % 2]
  }

  function FromBits(s: seq<bit>): nat {
    if s == [] then 0 else 2 * FromBits(s[..|s| - 1]) + s[|s| - 1]
  }

  lemma FromBitsAppend(s: seq<bit>, b: bit)
    ensures FromBits(s + [b]) == 2 * FromBits(s) + b
  {
    assert (s + [b])[..|s|] == s;
  }

  lemma {:induction false} FromToBits(v: nat, n: nat)
    ensures v < Pow2(n) ==> FromBits(ToBits(v, n)) == v
  {
    if n > 0 {
      FromToBits(v / 2, n - 1);
      FromBitsAppend(ToBits(v / 2, n - 1), v % 2);
    }
  }

  lemma {:induction false} FromBitsConcat(s: seq<bit>, t: seq<bit>)
    ensures FromBits(s + t) == Shl(FromBits(s), |t|) + FromBits(t)
  {
    if t == [] {
      assert s + t == s;
    } else {
      var t' := t[..|t| - 1];
      FromBitsConcat(s, t');
      assert s + t == (s + t') + [t[|t| - 1]];
      FromBitsAppend(s + t', t[|t| - 1]);
    }
  }

  lemma FromBitsOne(b: bit)
    ensures FromBits([b]) == b
  {
    assert [] + [b] == [b];
    FromBitsAppend([], b);
  }

  lemma FromBitsHead(s: seq<bit>)
    requires s != []
    ensures FromBits(s) == Shl(s[0], |s| - 1) + FromBits(s[1..])
  {
    var h, t := [s[0]], s[1..];
    assert s == h + t;
    FromBitsConcat(h, t);
    FromBitsOne(s[0]);
  }

  lemma {:induction false} FromBitsBound(s: seq<bit>)
    ensures FromBits(s) < Pow2(|s|)
  {
    if s != [] {
      FromBitsBound(s[..|s| - 1]);
    }
  }

  lemma {:induction false} ToFromBits(s: seq<bit>)
    ensures ToBits(FromBits(s), |s|) == s
  {
    if s != [] {
      ToFromBits(s[..|s| - 1]);
    }
  }

  /** The position of the highest one bit, plus one. */
  function BitLength(v: nat): (n: nat)
    ensures n == 0 <==> v == 0
  {
    if v == 0 then 0 else 1 + BitLength(v / 2)
  }

  lemma {:induction false} BitLengthBounds(v: nat)
    ensures v < Pow2(BitLength(v))
    ensures v > 0 ==> Pow2(BitLength(v) - 1) <= v
  {
    if v > 0 {
      BitLengthBounds(v / 2);
    }
  }

  lemma {:induction false} BitLengthMono(v: nat, n: nat)
    requires v < Pow2(n)
    ensures BitLength(v) <= n
  {
    if v > 0 && n > 0 {
      BitLengthMono(v / 2, n - 1);
    }
  }

  /** The bit of weight 2^n. */
  function BitAt(v: nat, n: nat): bit {
    if n == 0 then v % 2 else BitAt(v / 2, n - 1)
  }

  lemma {:induction false} BitAtDiv(v: nat, n: nat)
    ensures BitAt(v, n) == v / Pow2(n) % 2
  {
    if n > 0 {
      BitAtDiv(v / 2, n - 1);
      DivHalf(v, Pow2(n - 1));
    }
  }

  /** The bit of weight 2^n splits off the next n bits. */
  lemma {:induction false} ToBitsTop(v: nat, n: nat)
    ensures ToBits(v, n + 1) == [BitAt(v, n)] + ToBits(v, n)
  {
    if n > 0 {
      ToBitsTop(v / 2, n - 1);
    }
  }

  lemma LowValueTop(v: nat, n: nat)
    ensures FromBits(ToBits(v, n + 1)) == Shl(BitAt(v, n), n) + FromBits(ToBits(v, n))
  {
    ToBitsTop(v, n);
    FromBitsHead(ToBits(v, n + 1));
  }

  lemma DivHalf(v: nat, m: nat)
    requires 0 < m
    ensures v / (2 * m) == v / 2 / m
  {
    var h := v / 2;
    var q, r := h / m, h % m;
    assert h == q * m + r;
    assert v == 2 * h + v % 2;
    assert v == q * (2 * m) + (2 * r + v % 2);
    assert 0 <= 2 * r + v % 2 < 2 * m;
    DivUnique(v, 2 * m, q, 2 * r + v % 2);
  }

  lemma DivUnique(v: int, d: int, q: int, r: int)
    requires 0 < d && v == q * d + r && 0 <= r < d
    ensures v / d == q && v % d == r
  {
    var q', r' := v / d, v % d;
    assert v == q' * d + r';
    assert (q - q') * d == r' - r;
    AtLeastOnce(q - q', d);
    AtLeastOnce(q' - q, d);
  }

  lemma AtLeastOnce(k: int, d: int)
    ensures 1 <= k && 0 < d ==> d <= k * d
  {
  }
}
