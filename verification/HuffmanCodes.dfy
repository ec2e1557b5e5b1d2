/** Canonical code assignment from a table (Annex C of T.81), and decoding one symbol (section F.2.2.3). */
module HuffmanCodes {
  import opened Bytes
  import opened BitStrings
  import opened Coefficients
  import opened Words

  /** A table as a DHT marker carries it: counts of code lengths 1 to 16, and symbols in code order. */
  datatype Table = Table(bits: seq<byte>, huffval: seq<byte>)

  predicate Formed(t: Table) {
    |t.bits| == 17 && |t.huffval| == 256
  }

  /** The number of codes of length at most l. */
  function Total(bits: seq<nat>, l: nat): nat
    requires l < |bits|
  {
    if l == 0 then 0 else Total(bits, l - 1) + bits[l]
  }

  /** The number of prefixes of length l taken by codes of length at most l. */
  function Taken(bits: seq<nat>, l: nat): nat
    requires l < |bits|
  {
    if l == 0 then 0 else 2 * Taken(bits, l - 1) + bits[l]
  }

  /** The length of the p-th code, given that it is at most k. */
  function ClassOf(bits: seq<nat>, p: nat, k: nat): (l: nat)
    requires k < |bits| && p < Total(bits, k)
    ensures 1 <= l <= k && Total(bits, l - 1) <= p < Total(bits, l)
  {
    if p < Total(bits, k - 1) then ClassOf(bits, p, k - 1) else k
  }

  /** The p-th code among those of length l. */
  function CodeIn(bits: seq<nat>, p: nat, l: nat): nat
    requires 1 <= l < |bits| && Total(bits, l - 1) <= p
  {
    2 * Taken(bits, l - 1) + (p - Total(bits, l - 1))
  }

  function Last(bits: seq<nat>): nat
    requires bits != []
  {
    |bits| - 1
  }

  function SizeOf(t: Table, p: nat): nat
    requires Formed(t) && p < Total(t.bits, Last(t.bits))
  {
    ClassOf(t.bits, p, Last(t.bits))
  }

  function CodeOf(t: Table, p: nat): nat
    requires Formed(t) && p < Total(t.bits, Last(t.bits))
  {
    CodeIn(t.bits, p, SizeOf(t, p))
  }

  /** The p-th code word. */
  function Word(t: Table, p: nat): seq<bit>
    requires Formed(t) && p < Total(t.bits, Last(t.bits))
  {
    ToBits(CodeOf(t, p), SizeOf(t, p))
  }

  predicate Roomy(bits: seq<nat>) {
    forall l :: 1 <= l < |bits| ==> Taken(bits, l) < Shl(1, l)
  }

  predicate Distinct(s: seq<nat>) {
    forall p, q :: 0 <= p < q < |s| ==> s[p] != s[q]
  }

  /**
   * A table that the derivation accepts: at most 256 codes, room at every length for one more, and every
   * symbol in range and listed once.
   */
  predicate Accepts(t: Table, maxSymbol: nat) {
    && Formed(t)
    && Roomy(t.bits)
    && Total(t.bits, Last(t.bits)) <= 256
    && Distinct(t.huffval[..Total(t.bits, Last(t.bits))])
    && (forall p :: 0 <= p < Total(t.bits, Last(t.bits)) ==> t.huffval[p] <= maxSymbol)
  }

  lemma {:induction false} TotalMonotone(bits: seq<nat>, l: nat, m: nat)
    requires l <= m < |bits|
    ensures Total(bits, l) <= Total(bits, m)
    decreases m
  {
    if l < m {
      TotalMonotone(bits, l, m - 1);
    }
  }

  lemma ClassUnique(bits: seq<nat>, p: nat, l: nat, k: nat)
    requires 1 <= l <= k < |bits| && Total(bits, l - 1) <= p < Total(bits, l)
    ensures p < Total(bits, k) && ClassOf(bits, p, k) == l
  {
    TotalMonotone(bits, l, k);
    var c := ClassOf(bits, p, k);
    if c < l {
      TotalMonotone(bits, c, l - 1);
    } else if l < c {
      TotalMonotone(bits, l, c - 1);
    }
  }

  /** The prefixes of length l that are taken stay taken at greater lengths. */
  lemma {:induction false} TakenExtends(bits: seq<nat>, l: nat, m: nat)
    requires l <= m < |bits|
    ensures Shl(Taken(bits, l), m - l) <= Taken(bits, m)
    decreases m
  {
    if l < m {
      TakenExtends(bits, l, m - 1);
    }
  }

  /** Every code fits its length and is not all ones. */
  lemma CodeFits(t: Table, p: nat)
    requires Formed(t) && Roomy(t.bits) && p < Total(t.bits, Last(t.bits))
    ensures CodeOf(t, p) + 1 < Shl(1, SizeOf(t, p))
  {
    var l := SizeOf(t, p);
    assert Taken(t.bits, l) < Shl(1, l);
  }

  /** Later codes are no shorter, and come after every extension of the earlier code. */
  lemma CodesIncrease(t: Table, p: nat, q: nat)
    requires Formed(t) && p < q < Total(t.bits, Last(t.bits))
    ensures SizeOf(t, p) <= SizeOf(t, q)
    ensures Shl(CodeOf(t, p) + 1, SizeOf(t, q) - SizeOf(t, p)) <= CodeOf(t, q)
  {
    var l, m := SizeOf(t, p), SizeOf(t, q);
    if m < l {
      TotalMonotone(t.bits, m, l - 1);
    } else if l < m {
      TakenExtends(t.bits, l, m - 1);
      ShlLess(Taken(t.bits, l), CodeOf(t, p) + 1, m - l);
    }
  }

  lemma {:induction false} ToBitsShr(v: nat, n: nat, k: nat)
    requires k <= n
    ensures ToBits(v, n)[..n - k] == ToBits(Shr(v, k), n - k)
  {
    if k > 0 {
      ToBitsShr(v, n, k - 1);
      var h := Shr(v, k - 1);
      assert ToBits(h, n - k + 1) == ToBits(h / 2, n - k) + [h % 2];
      assert ToBits(v, n)[..n - k] == ToBits(v, n)[..n - k + 1][..n - k];
    }
  }

  /** No code word is a prefix of another. */
  lemma PrefixFree(t: Table, p: nat, q: nat)
    requires Formed(t) && Roomy(t.bits) && p < Total(t.bits, Last(t.bits)) && q < Total(t.bits, Last(t.bits))
    requires p != q
    ensures !(Word(t, p) <= Word(t, q))
  {
    hide ToBits, Shr, Taken;
    var l, m := SizeOf(t, p), SizeOf(t, q);
    var c, d := CodeOf(t, p), CodeOf(t, q);
    CodeFits(t, p);
    CodeFits(t, q);
    if l <= m && Word(t, p) <= Word(t, q) {
      var k := m - l;
      ToBitsShr(d, m, k);
      ShrFits(d, m, k);
      FromToBits(c, l);
      FromToBits(Shr(d, k), l);
      ShrShl(d, k);
      assert Word(t, p) == Word(t, q)[..l];
      assert c == Shr(d, k);
      if p < q {
        CodesIncrease(t, p, q);
      } else {
        CodesIncrease(t, q, p);
      }
      assert false;
    }
  }

  // Decoding one symbol, as in Figure F.16.

  /** The largest code of length l, or -1. */
  function MaxCode(t: Table, l: nat): int
    requires Formed(t) && 1 <= l < |t.bits|
  {
    if t.bits[l] == 0 then -1 else Taken(t.bits, l) - 1
  }

  /** What to add to a code of length l to get its place in the list of symbols. */
  function ValOffset(t: Table, l: nat): int
    requires Formed(t) && 1 <= l < |t.bits|
  {
    Total(t.bits, l - 1) - 2 * Taken(t.bits, l - 1)
  }

  datatype Decoded = Bad | Symbol(symbol: byte, rest: seq<bit>)

  /** Collects bits until the code is at most the largest of its length. */
  function DecodeFrom(t: Table, code: nat, l: nat, s: seq<bit>): Decoded
    requires Formed(t) && Total(t.bits, Last(t.bits)) <= 256
    requires 1 <= l <= |t.bits| && 2 * Taken(t.bits, l - 1) <= code
    decreases |t.bits| - l
  {
    if l == |t.bits| then Bad
    else if code > MaxCode(t, l) then
      if s == [] then Bad else DecodeFrom(t, 2 * code + s[0], l + 1, s[1..])
    else
      TotalMonotone(t.bits, l, Last(t.bits));
      Symbol(t.huffval[code + ValOffset(t, l)], s)
  }

  function Decode(t: Table, s: seq<bit>): Decoded
    requires Formed(t) && Total(t.bits, Last(t.bits)) <= 256
  {
    if s == [] then Bad else DecodeFrom(t, s[0], 1, s[1..])
  }

  lemma {:induction false} BitAtShr(v: nat, k: nat)
    ensures BitAt(v, k) == Shr(v, k) % 2
  {
    if k > 0 {
      BitAtShr(v / 2, k - 1);
      ShrHalf(v, k - 1);
    }
  }

  /** The first bit of the low n bits, and the number left of them. */
  lemma NextBit(v: nat, n: nat, rest: seq<bit>)
    requires 0 < n
    ensures ToBits(v, n) + rest == [BitAt(v, n - 1)] + (ToBits(v, n - 1) + rest)
    ensures Shr(v, n - 1) == 2 * Shr(v, n) + BitAt(v, n - 1)
  {
    ToBitsTop(v, n - 1);
    BitAtShr(v, n - 1);
  }

  /** The first l bits of a longer code word are past the codes of length l. */
  lemma TooShort(t: Table, p: nat, l: nat)
    requires Formed(t) && p < Total(t.bits, Last(t.bits)) && 1 <= l < SizeOf(t, p)
    ensures Taken(t.bits, l) <= Shr(CodeOf(t, p), SizeOf(t, p) - l)
  {
    hide Shr;
    var v, m := CodeOf(t, p), SizeOf(t, p);
    TakenExtends(t.bits, l, m - 1);
    ShrShl(v, m - l);
    ShlLess(Shr(v, m - l) + 1, Taken(t.bits, l) + 1, m - l);
    ShlLess(Taken(t.bits, l), Shr(v, m - l) + 1, m - l);
  }

  /** A code word shorter than its size goes on with its next bit. */
  lemma DecodeBit(t: Table, p: nat, l: nat, rest: seq<bit>)
    requires Formed(t) && Total(t.bits, Last(t.bits)) <= 256 && p < Total(t.bits, Last(t.bits))
    requires 1 <= l < SizeOf(t, p)
    requires 2 * Taken(t.bits, l - 1) <= Shr(CodeOf(t, p), SizeOf(t, p) - l)
    ensures var v, n := CodeOf(t, p), SizeOf(t, p) - l;
            2 * Taken(t.bits, l) <= Shr(v, n - 1)
            && DecodeFrom(t, Shr(v, n), l, ToBits(v, n) + rest)
               == DecodeFrom(t, Shr(v, n - 1), l + 1, ToBits(v, n - 1) + rest)
  {
    hide Shr, ToBits;
    var v, n := CodeOf(t, p), SizeOf(t, p) - l;
    TooShort(t, p, l);
    NextBit(v, n, rest);
    var s := ToBits(v, n) + rest;
    assert s[1..] == ToBits(v, n - 1) + rest;
  }

  lemma {:induction false} DecodeRest(t: Table, p: nat, l: nat, rest: seq<bit>)
    requires Formed(t) && Total(t.bits, Last(t.bits)) <= 256 && p < Total(t.bits, Last(t.bits))
    requires 1 <= l <= SizeOf(t, p)
    requires 2 * Taken(t.bits, l - 1) <= Shr(CodeOf(t, p), SizeOf(t, p) - l)
    ensures var n := SizeOf(t, p) - l;
            DecodeFrom(t, Shr(CodeOf(t, p), n), l, ToBits(CodeOf(t, p), n) + rest) == Symbol(t.huffval[p], rest)
    decreases SizeOf(t, p) - l
  {
    if l == SizeOf(t, p) {
      assert ToBits(CodeOf(t, p), 0) + rest == rest;
    } else {
      hide Taken, Shr, CodeOf, ToBits, DecodeFrom;
      DecodeBit(t, p, l, rest);
      DecodeRest(t, p, l + 1, rest);
    }
  }

  /** The decoder reads back exactly the bits of one code word. */
  lemma DecodeWord(t: Table, p: nat, rest: seq<bit>)
    requires Formed(t) && Roomy(t.bits) && Total(t.bits, Last(t.bits)) <= 256 && p < Total(t.bits, Last(t.bits))
    ensures Decode(t, Word(t, p) + rest) == Symbol(t.huffval[p], rest)
  {
    var v, m := CodeOf(t, p), SizeOf(t, p);
    CodeFits(t, p);
    ShrFits(v, m, m);
    NextBit(v, m, rest);
    DecodeRest(t, p, 1, rest);
  }
}
