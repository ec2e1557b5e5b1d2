/** Counts of code lengths: how much of the code space they use, and limiting lengths to 16 bits. */
module CodeLengths {
  import opened Bytes
  import opened Sums
  import opened HuffmanForest

  /** One for each symbol of size k. */
  function Ones(size: seq<nat>, k: nat): (v: seq<nat>)
    ensures |v| == |size|
    ensures forall s :: 0 <= s < |size| ==> v[s] == if size[s] == k then 1 else 0
  {
    seq(|size|, s requires 0 <= s < |size| => if size[s] == k then 1 else 0)
  }

  /** The number of symbols of size k. */
  function Count(size: seq<nat>, k: nat): nat {
    Sum(Ones(size, k))
  }

  lemma CountAppend(size: seq<nat>, x: nat, k: nat)
    ensures Count(size + [x], k) == Count(size, k) + if x == k then 1 else 0
  {
    assert Ones(size + [x], k) == Ones(size, k) + [if x == k then 1 else 0];
    SumAppend(Ones(size, k), if x == k then 1 else 0);
  }

  /** The number of prefixes of length k that codes of length k or less, counted in bits, use up. */
  function Used(bits: seq<nat>, k: nat): nat
    requires k < |bits|
  {
    if k == 0 then bits[0] else 2 * Used(bits, k - 1) + bits[k]
  }

  /** Shares of the code space at level k, of the symbols of size at most k. */
  function SharesTo(size: seq<nat>, k: nat): (v: seq<nat>)
    ensures |v| == |size|
    ensures forall s :: 0 <= s < |size| ==> v[s] == if size[s] <= k then Shl(1, k - size[s]) else 0
  {
    seq(|size|, s requires 0 <= s < |size| => if size[s] <= k then Shl(1, k - size[s]) else 0)
  }

  lemma {:induction false} UsedIsShares(bits: seq<nat>, size: seq<nat>, k: nat)
    requires k < |bits|
    requires forall j :: 0 <= j <= k ==> bits[j] == Count(size, j)
    ensures Used(bits, k) == Sum(SharesTo(size, k))
  {
    if k == 0 {
      assert SharesTo(size, 0) == Ones(size, 0);
    } else {
      UsedIsShares(bits, size, k - 1);
      var v, half := SharesTo(size, k), SharesTo(size, k - 1);
      var twice: seq<nat> := seq(|size|, s requires 0 <= s < |size| => 2 * half[s]);
      SumAdd(twice, half, half);
      SumAdd(v, twice, Ones(size, k));
    }
  }

  lemma {:induction false} UsedZero(bits: seq<nat>, k: nat)
    requires k < |bits| && forall j :: 0 <= j <= k ==> bits[j] == 0
    ensures Used(bits, k) == 0
  {
    if k > 0 {
      UsedZero(bits, k - 1);
    }
  }

  /** With no codes longer than k, the prefixes of length k are as full as those of length d. */
  lemma {:induction false} UsedShorter(bits: seq<nat>, k: nat, d: nat)
    requires k <= d < |bits|
    requires forall j :: k < j <= d ==> bits[j] == 0
    ensures Used(bits, d) == Shl(1, d) ==> Used(bits, k) == Shl(1, k)
  {
    if k < d {
      UsedShorter(bits, k, d - 1);
    }
  }

  /** A pair of codes of length i becomes one of length i - 1, and a code of length j two of length j + 1. */
  predicate Split(a: seq<nat>, b: seq<nat>, i: nat, j: nat) {
    && |a| == |b| && j + 2 <= i < |a| && 2 <= a[i] && 1 <= a[j]
    && (forall k :: 0 <= k < |a| ==> b[k] as int == a[k] + (if k == i then -2 else 0) + (if k == i - 1 then 1 else 0)
                                             + (if k == j + 1 then 2 else 0) + (if k == j then -1 else 0))
  }

  lemma {:induction false} SplitUsed(a: seq<nat>, b: seq<nat>, i: nat, j: nat, k: nat)
    requires Split(a, b, i, j) && k < |a|
    ensures Used(b, k) as int == Used(a, k) + (if k == i - 1 then 1 else 0) + (if k == j then -1 else 0)
  {
    if k > 0 {
      SplitUsed(a, b, i, j, k - 1);
    }
  }

  lemma {:induction false} SplitPrefix(a: seq<nat>, b: seq<nat>, i: nat, j: nat, k: nat)
    requires Split(a, b, i, j) && k <= |a|
    ensures Sum(b[..k]) as int == Sum(a[..k]) + (if k > i then -2 else 0) + (if k > i - 1 then 1 else 0)
                                  + (if k > j + 1 then 2 else 0) + (if k > j then -1 else 0)
  {
    if k > 0 {
      SplitPrefix(a, b, i, j, k - 1);
      assert a[..k] == a[..k - 1] + [a[k - 1]] && b[..k] == b[..k - 1] + [b[k - 1]];
      SumAppend(a[..k - 1], a[k - 1]);
      SumAppend(b[..k - 1], b[k - 1]);
    }
  }

  lemma SplitSum(a: seq<nat>, b: seq<nat>, i: nat, j: nat)
    requires Split(a, b, i, j)
    ensures Sum(b) == Sum(a)
  {
    SplitPrefix(a, b, i, j, |a|);
    assert a[..|a|] == a && b[..|b|] == b;
  }

  /** A full code space whose longest codes have length i has an even number of them. */
  lemma LongestPaired(bits: seq<nat>, i: nat)
    requires 0 < i < |bits| && Used(bits, i) == Shl(1, i)
    ensures bits[i] % 2 == 0
  {
    var u, s := Used(bits, i - 1), Shl(1, i - 1);
    assert Used(bits, i) == 2 * u + bits[i];
    assert Shl(1, i) == 2 * s;
    hide Used, Shl;
    assert bits[i] == 2 * (s - u);
  }

  /** Few codes cannot fill a deep code space with their two longest lengths alone. */
  lemma ShorterExists(bits: seq<nat>, i: nat) returns (j: nat)
    requires 17 <= i < |bits| && Used(bits, i) == Shl(1, i) && Sum(bits) <= 255
    ensures j <= i - 2 && bits[j] > 0
  {
    if used: nat :| used <= i - 2 && bits[used] > 0 {
      j := used;
    } else {
      UsedZero(bits, i - 2);
      SumBoundsTwo(bits, i - 1, i);
      ShlShl(1, 17, i - 17);
      ShlLess(0x1FFFF, Shl(1, 17), i - 17);
      BigShift(i);
      assert false;
    }
  }

  lemma {:induction false} BigShift(i: nat)
    requires 17 <= i
    ensures 0x20000 <= Shl(1, i)
  {
    if i == 17 {
      ShlConstants(1);
    } else {
      BigShift(i - 1);
    }
  }

  /** A full code space leaves no shorter prefixes full while there are longer codes. */
  lemma {:induction false} ShorterNotFull(bits: seq<nat>, k: nat, d: nat)
    requires k < d < |bits| && Used(bits, d) == Shl(1, d) && bits[d] > 0
    ensures Used(bits, k) < Shl(1, k)
    decreases d - k
  {
    if k < d - 1 {
      ShorterNotFull(bits, k + 1, d);
    }
  }

  lemma {:induction false} UsedAgree(a: seq<nat>, b: seq<nat>, k: nat)
    requires k < |a| && k < |b| && forall j :: 0 <= j <= k ==> a[j] == b[j]
    ensures Used(a, k) == Used(b, k)
  {
    if k > 0 {
      UsedAgree(a, b, k - 1);
    }
  }

  /** One of the longest codes less leaves room at every length: no code is all ones. */
  lemma {:induction false} RemoveLongest(a: seq<nat>, b: seq<nat>, i: nat, k: nat)
    requires |a| == |b| && i < |a| && k < |a|
    requires Used(a, i) == Shl(1, i) && a[i] > 0
    requires b == a[i := a[i] - 1]
    requires forall j :: i < j < |a| ==> a[j] == 0
    ensures Used(b, k) < Shl(1, k)
  {
    if k < i {
      ShorterNotFull(a, k, i);
      UsedAgree(a, b, k);
    } else if k == i {
      if 0 < i {
        UsedAgree(a, b, i - 1);
      }
    } else {
      RemoveLongest(a, b, i, k - 1);
    }
  }

  // Where a symbol of each size goes in the list sorted by size.

  /** One for each symbol of a size less than k. */
  function OnesBelow(size: seq<nat>, k: nat): (v: seq<nat>)
    ensures |v| == |size|
    ensures forall s :: 0 <= s < |size| ==> v[s] == if size[s] < k then 1 else 0
  {
    seq(|size|, s requires 0 <= s < |size| => if size[s] < k then 1 else 0)
  }

  /** The number of symbols of a size less than k. */
  function Below(size: seq<nat>, k: nat): nat {
    Sum(OnesBelow(size, k))
  }

  lemma BelowNext(size: seq<nat>, k: nat)
    ensures Below(size, k + 1) == Below(size, k) + Count(size, k)
  {
    SumAdd(OnesBelow(size, k + 1), OnesBelow(size, k), Ones(size, k));
  }

  lemma {:induction false} BelowMonotone(size: seq<nat>, k: nat, m: nat)
    requires k <= m
    ensures Below(size, k) <= Below(size, m)
    decreases m - k
  {
    SumMonotone(OnesBelow(size, k), OnesBelow(size, m));
  }

  /** The place of symbol i in the list sorted by size, symbols of one size in order. */
  function Rank(size: seq<nat>, i: nat): nat
    requires i < |size|
  {
    Below(size, size[i]) + Count(size[..i], size[i])
  }

  lemma {:induction false} CountPrefix(size: seq<nat>, i: nat, j: nat, k: nat)
    requires i <= j <= |size|
    ensures Count(size[..i], k) <= Count(size[..j], k)
    ensures i < j && size[i] == k ==> Count(size[..i], k) < Count(size[..j], k)
    decreases j
  {
    if i < j {
      CountPrefix(size, i, j - 1, k);
      assert size[..j] == size[..j - 1] + [size[j - 1]];
      CountAppend(size[..j - 1], size[j - 1], k);
    }
  }

  /** Rank sorts by size, then by index. */
  lemma RankOrder(size: seq<nat>, i: nat, j: nat)
    requires i < |size| && j < |size|
    requires size[i] < size[j] || (size[i] == size[j] && i < j)
    ensures Rank(size, i) < Rank(size, j)
  {
    if size[i] == size[j] {
      CountPrefix(size, i, j, size[i]);
    } else {
      CountPrefix(size, i, |size|, size[i]);
      assert size[..|size|] == size;
      BelowNext(size, size[i]);
      BelowMonotone(size, size[i] + 1, size[j]);
    }
  }

  lemma RankDistinct(size: seq<nat>, i: nat, j: nat)
    requires i < |size| && j < |size| && i != j
    ensures Rank(size, i) != Rank(size, j)
  {
    if size[i] < size[j] || (size[i] == size[j] && i < j) {
      RankOrder(size, i, j);
    } else {
      RankOrder(size, j, i);
    }
  }

  lemma {:induction false} SumOfOnes(v: seq<nat>)
    requires forall s :: 0 <= s < |v| ==> v[s] <= 1
    ensures Sum(v) <= |v|
  {
    if v != [] {
      SumOfOnes(v[..|v| - 1]);
    }
  }

  /** The last symbol, when none is longer, is last in the list. */
  lemma RankLast(size: seq<nat>)
    requires size != []
    requires forall s :: 0 <= s < |size| ==> size[s] <= size[|size| - 1]
    ensures Rank(size, |size| - 1) == |size| - 1
  {
    var n := |size| - 1;
    var m := size[n];
    BelowNext(size, m);
    AllBelow(OnesBelow(size, m + 1));
    assert size == size[..n] + [m];
    CountAppend(size[..n], m, m);
  }

  lemma {:induction false} AllBelow(v: seq<nat>)
    requires forall s :: 0 <= s < |v| ==> v[s] == 1
    ensures Sum(v) == |v|
  {
    if v != [] {
      AllBelow(v[..|v| - 1]);
    }
  }
}
