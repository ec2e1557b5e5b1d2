/** What the generated tables are good for: optimal among prefix codes, and always acceptable to the derivation. */
module HuffmanResults {
  import opened Bytes
  import opened Sums
  import opened HuffmanForest
  import opened HuffmanOptimal
  import opened CodeLengths
  import opened HuffmanTree
  import opened HuffmanTable
  import HuffmanCodes
  import HuffmanDerivation

  // Kraft's inequality for prefix codes.

  ghost predicate PrefixCode(words: seq<seq<bit>>) {
    forall i, j :: 0 <= i < |words| && 0 <= j < |words| && i != j ==> !(words[i] <= words[j])
  }

  function Lengths(words: seq<seq<bit>>): (l: seq<nat>)
    ensures |l| == |words|
    ensures forall i :: 0 <= i < |words| ==> l[i] == |words[i]|
  {
    seq(|words|, i requires 0 <= i < |words| => |words[i]|)
  }

  /** The shares of the words that start with w. */
  function SharesUnder(words: seq<seq<bit>>, w: seq<bit>, d: nat): (v: seq<nat>)
    requires Fits(Lengths(words), d)
    ensures |v| == |words|
    ensures forall i :: 0 <= i < |words| ==> |words[i]| <= d && v[i] == if w <= words[i] then Shl(1, d - |words[i]|) else 0
  {
    var l := Lengths(words);
    seq(|words|, i requires 0 <= i < |words| => assert l[i] <= d; if w <= words[i] then Shl(1, d - |words[i]|) else 0)
  }

  /** A longer word that starts with w goes on with a zero or a one. */
  lemma OneOfTwo(word: seq<bit>, w: seq<bit>)
    requires word != w
    ensures w <= word <==> (w + [0] <= word || w + [1] <= word)
    ensures !(w + [0] <= word && w + [1] <= word)
  {
    if w <= word {
      assert word[..|w| + 1] == w + [word[|w|]];
    }
    if w + [0] <= word {
      assert word[|w|] == (w + [0])[|w|];
      assert word[..|w|] == (w + [0])[..|w|] == w;
    }
    if w + [1] <= word {
      assert word[|w|] == (w + [1])[|w|];
      assert word[..|w|] == (w + [1])[..|w|] == w;
    }
  }

  /** The words below any prefix together take at most the prefix's own share. */
  lemma {:induction false} KraftUnder(words: seq<seq<bit>>, w: seq<bit>, d: nat)
    requires PrefixCode(words) && Fits(Lengths(words), d) && |w| <= d
    ensures Sum(SharesUnder(words, w, d)) <= Shl(1, d - |w|)
    decreases d - |w|
  {
    hide Sum;
    var v := SharesUnder(words, w, d);
    if i: nat :| i < |words| && words[i] == w {
      assert forall j :: 0 <= j < |words| && j != i ==> v[j] == 0;
      SumUpdate(v, i, 0);
      SumZero(v[i := 0]);
    } else if |w| == d {
      assert forall j :: 0 <= j < |words| && w <= words[j] ==> Lengths(words)[j] <= d && words[j] == w;
      SumZero(v);
    } else {
      KraftUnder(words, w + [0], d);
      KraftUnder(words, w + [1], d);
      forall j | 0 <= j < |words|
        ensures v[j] == SharesUnder(words, w + [0], d)[j] + SharesUnder(words, w + [1], d)[j]
      {
        OneOfTwo(words[j], w);
      }
      SumAdd(v, SharesUnder(words, w + [0], d), SharesUnder(words, w + [1], d));
    }
  }

  lemma PrefixCodeKraft(words: seq<seq<bit>>, d: nat)
    requires PrefixCode(words) && Fits(Lengths(words), d)
    ensures Kraft(Lengths(words), d)
  {
    KraftUnder(words, [], d);
    assert SharesUnder(words, [], d) == Shares(Lengths(words), d);
  }

  lemma {:induction false} SomeDepth(l: seq<nat>) returns (d: nat)
    ensures Fits(l, d)
  {
    if l == [] {
      d := 0;
    } else {
      d := SomeDepth(l[..|l| - 1]);
      d := if d < l[|l| - 1] then l[|l| - 1] else d;
      assert forall s :: 0 <= s < |l| - 1 ==> l[s] == l[..|l| - 1][s];
    }
  }

  /** No prefix code for the counted symbols, pseudo-symbol included, costs less than the merge loop's sizes. */
  lemma NoPrefixCodeIsCheaper(w: seq<nat>, size: seq<nat>, words: seq<seq<bit>>)
    requires Optimal(w, size) && |words| == |w| && PrefixCode(words)
    ensures Cost(w, size) <= Cost(w, Lengths(words))
  {
    var d := SomeDepth(Lengths(words));
    PrefixCodeKraft(words, d);
  }

  // The list of symbols has no gaps and no repetitions.

  function Elements(s: seq<nat>): (r: set<nat>)
    ensures forall x :: x in r <==> x in s
  {
    if s == [] then {} else Elements(s[..|s| - 1]) + {s[|s| - 1]}
  }

  function Range(n: nat): (r: set<nat>)
    ensures forall x: nat :: x in r <==> x < n
  {
    if n == 0 then {} else Range(n - 1) + {n - 1}
  }

  lemma {:induction false} DistinctSet(s: seq<nat>)
    requires forall i, j :: 0 <= i < j < |s| ==> s[i] != s[j]
    ensures |Elements(s)| == |s|
  {
    if s != [] {
      DistinctSet(s[..|s| - 1]);
    }
  }

  lemma {:induction false} RangeSize(n: nat)
    ensures |Range(n)| == n
  {
    if n > 0 {
      RangeSize(n - 1);
    }
  }

  lemma SameSize(a: set<nat>, b: set<nat>)
    requires a <= b && |a| == |b|
    ensures a == b
  {
    assert |b - a| == 0;
    assert b == a + (b - a);
  }

  /** Distinct numbers below their count take every value. */
  lemma Pigeonhole(s: seq<nat>, p: nat)
    requires forall i, j :: 0 <= i < j < |s| ==> s[i] != s[j]
    requires forall i :: 0 <= i < |s| ==> s[i] < |s|
    requires p < |s|
    ensures p in s
  {
    DistinctSet(s);
    RangeSize(|s|);
    SameSize(Elements(s), Range(|s|));
    assert p in Range(|s|);
  }

  /** Every place of the list holds one of the symbols. */
  lemma NoGaps(symbols: seq<nat>, size: seq<nat>, bits: seq<nat>, list: seq<nat>, p: nat) returns (i: nat)
    requires Describes(symbols, size, bits, list) && p < |list|
    ensures i < |list| && Rank(size, i) == p && list[p] == symbols[i]
  {
    var n := |list|;
    var ranks: seq<nat> := seq(n, j requires 0 <= j < n => Rank(size, j));
    forall j, k | 0 <= j < k < n
      ensures ranks[j] != ranks[k]
    {
      RankDistinct(size, j, k);
    }
    Pigeonhole(ranks, p);
    i :| 0 <= i < n && ranks[i] == p;
  }

  lemma NoRepetitions(symbols: seq<nat>, size: seq<nat>, bits: seq<nat>, list: seq<nat>)
    requires Describes(symbols, size, bits, list)
    requires forall i, j :: 0 <= i < j < |symbols| ==> symbols[i] < symbols[j]
    ensures HuffmanCodes.Distinct(list)
  {
    forall p, q | 0 <= p < q < |list|
      ensures list[p] != list[q]
    {
      var i := NoGaps(symbols, size, bits, list, p);
      var j := NoGaps(symbols, size, bits, list, q);
    }
  }

  // The generated table passes the derivation's checks.

  lemma {:induction false} TakenIsUsed(bits: seq<nat>, l: nat)
    requires l < |bits| && bits[0] == 0
    ensures HuffmanCodes.Taken(bits, l) == Used(bits, l)
  {
    if l > 0 {
      TakenIsUsed(bits, l - 1);
    }
  }

  lemma {:induction false} TotalIsSum(bits: seq<nat>, l: nat)
    requires l < |bits| && bits[0] == 0
    ensures HuffmanCodes.Total(bits, l) == Sum(bits[..l + 1])
  {
    assert bits[..l + 1] == bits[..l] + [bits[l]];
    SumAppend(bits[..l], bits[l]);
    if l > 0 {
      TotalIsSum(bits, l - 1);
    }
  }

  lemma GeneratedTotal(symbols: seq<nat>, size: seq<nat>, bits: seq<nat>, list: seq<nat>)
    requires Describes(symbols, size, bits, list)
    ensures bits[0] == 0 && HuffmanCodes.Total(bits, 16) == |list|
  {
    assert Used(bits, 0) < Shl(1, 0);
    TotalIsSum(bits, 16);
    assert bits[..17] == bits;
  }

  /** Whatever the counts, the generated table is acceptable. */
  lemma GeneratedAccepted(freq: seq<nat>, size: seq<nat>, t: HuffmanCodes.Table, maxSymbol: nat)
    requires |freq| == 257 && HuffmanCodes.Formed(t) && 0 < |size| <= 256
    requires Describes(Symbols(freq), size, t.bits, t.huffval[..|size| - 1])
    requires forall s :: maxSymbol < s < 256 ==> freq[s] == 0
    ensures HuffmanCodes.Accepts(t, maxSymbol)
  {
    var symbols, list := Symbols(freq), t.huffval[..|size| - 1];
    InUseIncreasing(freq[256 := 1], 257);
    GeneratedTotal(symbols, size, t.bits, list);
    NoRepetitions(symbols, size, t.bits, list);
    forall l | 1 <= l < |t.bits|
      ensures HuffmanCodes.Taken(t.bits, l) < Shl(1, l)
    {
      TakenIsUsed(t.bits, l);
      assert Used(t.bits, l) < Shl(1, l);
    }
    forall p | 0 <= p < |list|
      ensures t.huffval[p] <= maxSymbol
    {
      var i := NoGaps(symbols, size, t.bits, list, p);
      assert symbols[i] < symbols[|symbols| - 1];
    }
  }

  /** Every symbol with a count gets a code. */
  lemma CountedHaveCodes(freq: seq<nat>, size: seq<nat>, t: HuffmanCodes.Table, ehufco: seq<nat>, ehufsi: seq<nat>, s: nat)
    requires |freq| == 257 && HuffmanCodes.Formed(t) && 0 < |size| <= 256
    requires Describes(Symbols(freq), size, t.bits, t.huffval[..|size| - 1])
    requires HuffmanCodes.Total(t.bits, 16) <= 256 && HuffmanDerivation.Derived(t, ehufco, ehufsi)
    requires s < 256 && freq[s] != 0
    ensures 0 < ehufsi[s] <= 16
  {
    var symbols, list := Symbols(freq), t.huffval[..|size| - 1];
    InUseAll(freq[256 := 1], 257, s);
    InUseAll(freq[256 := 1], 257, 256);
    InUseIncreasing(freq[256 := 1], 257);
    GeneratedTotal(symbols, size, t.bits, list);
    var i :| 0 <= i < |symbols| && symbols[i] == s;
    var last :| 0 <= last < |symbols| && symbols[last] == 256;
    assert last == |symbols| - 1 && i < last;
    assert list[Rank(size, i)] == s;
    assert t.huffval[Rank(size, i)] == s;
    assert ehufsi[s] == HuffmanCodes.SizeOf(t, Rank(size, i));
  }

  lemma {:induction false} TotalIsBelow(bits: seq<nat>, size: seq<nat>, l: nat)
    requires l < |bits| && forall k :: 0 <= k <= l ==> bits[k] == Count(size, k)
    requires bits[0] == 0
    ensures HuffmanCodes.Total(bits, l) == Below(size, l + 1)
  {
    BelowNext(size, l);
    if l > 0 {
      TotalIsBelow(bits, size, l - 1);
    } else {
      SumZero(OnesBelow(size, 0));
    }
  }

  /** Where no optimal size is over 16 bits, every symbol's code has its optimal size. */
  lemma UnlimitedSizes(symbols: seq<nat>, size: seq<nat>, t: HuffmanCodes.Table, i: nat)
    requires HuffmanCodes.Formed(t) && 0 < |size| <= 256
    requires forall s :: 0 <= s < |size| ==> size[s] <= size[|size| - 1]
    requires Describes(symbols, size, t.bits, t.huffval[..|size| - 1]) && Fits(size, 16) && i < |size| - 1
    ensures HuffmanCodes.Total(t.bits, 16) == |size| - 1 && Rank(size, i) < |size| - 1
    ensures HuffmanCodes.SizeOf(t, Rank(size, i)) == size[i]
  {
    var n, k := |size| - 1, size[i];
    var part := size[..n];
    GeneratedTotal(symbols, size, t.bits, t.huffval[..n]);
    assert size == part + [size[n]];
    assert size[i] == part[i];
    SumBounds(Ones(part, k), i);
    TotalIsBelow(t.bits, part, k);
    TotalIsBelow(t.bits, part, k - 1);
    assert OnesBelow(size, k) == OnesBelow(part, k) + [0];
    SumAppend(OnesBelow(part, k), 0);
    assert part[..i] == size[..i];
    CountPrefix(part, i, n, k);
    assert part[..n] == part;
    BelowNext(part, k);
    HuffmanCodes.ClassUnique(t.bits, Rank(size, i), k, 16);
  }
}
