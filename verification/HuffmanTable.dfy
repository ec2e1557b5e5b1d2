/** From code sizes to a table of code counts and symbols, with no code over 16 bits. */
module HuffmanTable {
  import opened Bytes
  import opened Sums
  import opened HuffmanForest
  import opened HuffmanOptimal
  import opened CodeLengths
  import opened HuffmanTree

  /** The symbols with nonzero counts among the first k, in increasing order. */
  function InUse(freq: seq<nat>, k: nat): (s: seq<nat>)
    requires k <= |freq|
    ensures |s| <= k
    ensures forall j :: 0 <= j < |s| ==> s[j] < k && freq[s[j]] != 0
  {
    if k == 0 then []
    else if freq[k - 1] != 0 then InUse(freq, k - 1) + [k - 1]
    else InUse(freq, k - 1)
  }

  lemma {:induction false} InUseAll(freq: seq<nat>, k: nat, s: nat)
    requires s < k <= |freq| && freq[s] != 0
    ensures s in InUse(freq, k)
  {
    if s < k - 1 {
      InUseAll(freq, k - 1, s);
    }
  }

  lemma {:induction false} InUseIncreasing(freq: seq<nat>, k: nat)
    requires k <= |freq|
    ensures forall i, j :: 0 <= i < j < |InUse(freq, k)| ==> InUse(freq, k)[i] < InUse(freq, k)[j]
  {
    if k > 0 {
      InUseIncreasing(freq, k - 1);
    }
  }

  /** The counts of the given symbols. */
  function CountsOf(freq: seq<nat>, symbols: seq<nat>): (w: seq<nat>)
    requires forall j :: 0 <= j < |symbols| ==> symbols[j] < |freq|
    ensures |w| == |symbols|
    ensures forall j :: 0 <= j < |w| ==> w[j] == freq[symbols[j]]
  {
    seq(|symbols|, j requires 0 <= j < |symbols| => freq[symbols[j]])
  }

  /** Moves the nonzero counts to the front, remembering whose they are. */
  method GroupCounts(freq: array<nat>, index: array<nat>) returns (n: nat)
    requires freq != index && freq.Length == index.Length
    modifies freq, index
    ensures n <= freq.Length
    ensures index[..n] == InUse(old(freq[..]), freq.Length)
    ensures freq[..n] == CountsOf(old(freq[..]), InUse(old(freq[..]), freq.Length))
  {
    ghost var f := freq[..];
    n := 0;
    var i := 0;
    while i < freq.Length
      invariant n <= i <= freq.Length
      invariant freq[i..] == f[i..]
      invariant index[..n] == InUse(f, i)
      invariant freq[..n] == CountsOf(f, InUse(f, i))
    {
      assert freq[i] == freq[i..][0] == f[i];
      if freq[i] != 0 {
        assert freq[i + 1..] == freq[i..][1..] == f[i + 1..];
        index[n] := i;
        freq[n] := freq[i];
        n := n + 1;
        assert index[..n] == index[..n - 1] + [i];
      }
      i := i + 1;
    }
  }

  /** Counts the sizes; fails when one is over 32. */
  method CountSizes(codesize: array<nat>, n: nat, bits: array<byte>) returns (ok: bool)
    requires n <= codesize.Length && n <= 255 && bits.Length == MAX_CLEN + 2
    requires codesize as object != bits
    requires forall k :: 0 <= k < bits.Length ==> bits[k] == 0
    modifies bits
    ensures ok <==> Fits(codesize[..n], MAX_CLEN)
    ensures ok ==> forall k :: 0 <= k < bits.Length ==> bits[k] == Count(codesize[..n], k)
  {
    forall k | 0 <= k < bits.Length
      ensures Count(codesize[..0], k) == 0
    {
    }
    var i := 0;
    while i < n
      invariant i <= n
      invariant Fits(codesize[..i], MAX_CLEN)
      invariant forall k :: 0 <= k < bits.Length ==> bits[k] == Count(codesize[..i], k)
    {
      if codesize[i] > MAX_CLEN {
        assert codesize[..n][i] > MAX_CLEN;
        return false;
      }
      ghost var done := codesize[..i];
      assert codesize[..i + 1] == done + [codesize[i]];
      forall k | 0 <= k < bits.Length
        ensures Count(codesize[..i + 1], k) == Count(done, k) + if codesize[i] == k then 1 else 0
        ensures Count(done, k) <= i
      {
        CountAppend(done, codesize[i], k);
        SumOfOnes(Ones(done, k));
      }
      bits[codesize[i]] := bits[codesize[i]] + 1;
      i := i + 1;
    }
    return true;
  }

  /** The number of symbols shorter than each length; entry 0 is not used. */
  method StartPositions(bits: array<byte>, bitPos: array<nat>, ghost size: seq<nat>)
    requires bits.Length == MAX_CLEN + 2 && bitPos.Length == MAX_CLEN + 1 && bits as object != bitPos
    requires forall k :: 0 <= k < bits.Length ==> bits[k] == Count(size, k)
    modifies bitPos
    ensures forall k :: 1 <= k < bitPos.Length ==> bitPos[k] + Count(size, 0) == Below(size, k)
  {
    var p: nat := 0;
    var i := 1;
    BelowNext(size, 0);
    SumZero(OnesBelow(size, 0));
    while i <= MAX_CLEN
      invariant 1 <= i <= MAX_CLEN + 1 && p + Count(size, 0) == Below(size, i)
      invariant forall k :: 1 <= k < i ==> bitPos[k] + Count(size, 0) == Below(size, k)
    {
      bitPos[i] := p;
      p := p + bits[i];
      BelowNext(size, i);
      i := i + 1;
    }
  }

  /** A full code space of at most 255 codes. */
  predicate Complete(bits: seq<nat>) {
    |bits| == MAX_CLEN + 2 && Used(bits, MAX_CLEN) == Shl(1, MAX_CLEN) && Sum(bits) <= 255
  }

  predicate NoneOver(bits: seq<nat>, k: nat) {
    forall j :: k < j < |bits| ==> bits[j] == 0
  }

  lemma CompleteAt(bits: seq<nat>, i: nat)
    requires Complete(bits) && i <= MAX_CLEN && NoneOver(bits, i)
    ensures Used(bits, i) == Shl(1, i)
    ensures 0 < i ==> bits[i] % 2 == 0
    ensures 17 <= i ==> exists j :: 0 <= j <= i - 2 && bits[j] > 0
  {
    UsedShorter(bits, i, MAX_CLEN);
    if 0 < i {
      LongestPaired(bits, i);
    }
    if 17 <= i {
      var j := ShorterExists(bits, i);
    }
  }

  lemma SplitComplete(a: seq<nat>, b: seq<nat>, i: nat, j: nat)
    requires Complete(a) && Split(a, b, i, j) && i <= MAX_CLEN
    ensures Complete(b) && Sum(b) == Sum(a)
    ensures forall k :: 0 <= k < |b| ==> b[k] <= 255
  {
    SplitUsed(a, b, i, j, MAX_CLEN);
    SplitSum(a, b, i, j);
    forall k | 0 <= k < |b|
      ensures b[k] <= 255
    {
      SumBounds(b, k);
    }
  }

  function SplitAt(a: seq<nat>, i: nat, j: nat): seq<nat>
    requires j + 2 <= i < |a| && 2 <= a[i] && 1 <= a[j]
  {
    var a1 := a[i := a[i] - 2];
    var a2 := a1[i - 1 := a1[i - 1] + 1];
    var a3 := a2[j + 1 := a2[j + 1] + 2];
    a3[j := a3[j] - 1]
  }

  lemma SplitInOrder(a: seq<nat>, i: nat, j: nat)
    requires Complete(a) && j + 2 <= i <= MAX_CLEN && 2 <= a[i] && 1 <= a[j]
    ensures var b := SplitAt(a, i, j); Complete(b) && Sum(b) == Sum(a) && forall k :: 0 <= k < |b| ==> b[k] <= 255
    ensures a[i - 1] < 255 && a[j + 1] < 254 && (j + 1 == i - 1 ==> a[j + 1] < 253)
  {
    hide Sum;
    assert Split(a, SplitAt(a, i, j), i, j);
    SplitComplete(a, SplitAt(a, i, j), i, j);
    assert SplitAt(a, i, j)[i - 1] <= 255 && SplitAt(a, i, j)[j + 1] <= 255;
  }

  /** Shortens one pair of codes of length i. */
  method SplitPair(bits: array<byte>, i: nat)
    requires bits.Length == MAX_CLEN + 2 && 17 <= i <= MAX_CLEN
    requires Complete(bits[..]) && NoneOver(bits[..], i) && bits[i] > 0
    modifies bits
    ensures Complete(bits[..]) && NoneOver(bits[..], i)
    ensures bits[i] as int + 2 == old(bits[i]) as int && Sum(bits[..]) == Sum(old(bits[..]))
  {
    hide Length, Sum, Shl, Split, Used, Shares;
    ghost var a: seq<nat> := bits[..];
    CompleteAt(a, i);
    ghost var g :| 0 <= g <= i - 2 && a[g] > 0;
    var j := i - 2;
    while bits[j] == 0
      invariant g <= j <= i - 2
      decreases j
    {
      assert bits[g] == a[g];
      j := j - 1;
    }
    SplitInOrder(a, i, j);
    bits[i] := bits[i] - 2;
    bits[i - 1] := bits[i - 1] + 1;
    bits[j + 1] := bits[j + 1] + 2;
    bits[j] := bits[j] - 1;
    assert bits[..] == SplitAt(a, i, j);
  }

  /** Leaves no code over 16 bits, keeping the code space full and the number of codes. */
  method LimitLengths(bits: array<byte>)
    requires bits.Length == MAX_CLEN + 2 && bits[MAX_CLEN + 1] == 0 && Complete(bits[..])
    modifies bits
    ensures Complete(bits[..]) && NoneOver(bits[..], 16) && Sum(bits[..]) == Sum(old(bits[..]))
    ensures NoneOver(old(bits[..]), 16) ==> bits[..] == old(bits[..])
  {
    var i := MAX_CLEN;
    while i > 16
      invariant 16 <= i <= MAX_CLEN
      invariant Complete(bits[..]) && NoneOver(bits[..], i) && Sum(bits[..]) == Sum(old(bits[..]))
      invariant NoneOver(old(bits[..]), 16) ==> bits[..] == old(bits[..])
    {
      while bits[i] > 0
        invariant Complete(bits[..]) && NoneOver(bits[..], i) && Sum(bits[..]) == Sum(old(bits[..]))
        invariant NoneOver(old(bits[..]), 16) ==> bits[..] == old(bits[..])
        decreases bits[i]
      {
        assert bits[..][i] > 0;
        SplitPair(bits, i);
      }
      i := i - 1;
    }
  }

  /** Takes the pseudo-symbol's code away: it is one of the longest. */
  method RemovePseudoSymbol(bits: array<byte>) returns (ghost longest: nat)
    requires bits.Length == MAX_CLEN + 2
    requires Complete(bits[..]) && NoneOver(bits[..], 16)
    modifies bits
    ensures NoneOver(bits[..], 16)
    ensures forall k :: 0 <= k < bits.Length ==> Used(bits[..], k) < Shl(1, k)
    ensures Sum(bits[..]) + 1 == Sum(old(bits[..]))
    ensures longest <= 16 && old(bits[longest]) > 0 && NoneOver(old(bits[..]), longest)
    ensures bits[..] == old(bits[..])[longest := old(bits[longest]) - 1]
  {
    hide Used, Complete;
    ghost var a: seq<nat> := bits[..];
    CompleteAt(a, 16);
    assert Pow2(16) >= 1;
    ghost var g := UsedSome(a, 16);
    var i := 16;
    while bits[i] == 0
      invariant g <= i <= 16 && NoneOver(a, i)
      decreases i
    {
      assert bits[g] == a[g];
      i := i - 1;
    }
    RoomLeft(a, i);
    bits[i] := bits[i] - 1;
    longest := i;
    assert bits[..] == a[i := a[i] - 1];
  }

  lemma RoomLeft(a: seq<nat>, i: nat)
    requires Complete(a) && i <= MAX_CLEN && a[i] > 0 && NoneOver(a, i)
    ensures var b := a[i := a[i] - 1];
            Sum(b) + 1 == Sum(a) && forall k :: 0 <= k < |b| ==> Used(b, k) < Shl(1, k)
  {
    CompleteAt(a, i);
    var b := a[i := a[i] - 1];
    forall k | 0 <= k < |b|
      ensures Used(b, k) < Shl(1, k)
    {
      RemoveLongest(a, b, i, k);
    }
    SumUpdate(a, i, a[i] - 1);
  }

  lemma {:induction false} UsedSome(bits: seq<nat>, k: nat) returns (g: nat)
    requires k < |bits| && Used(bits, k) > 0
    ensures g <= k && bits[g] > 0
  {
    if bits[k] > 0 {
      g := k;
    } else {
      g := UsedSome(bits, k - 1);
    }
  }

  /** The place of the next symbol of size k after the first i symbols. */
  function NextRank(size: seq<nat>, i: nat, k: nat): nat
    requires i <= |size|
  {
    Below(size, k) + Count(size[..i], k)
  }

  lemma StartRanks(size: seq<nat>)
    ensures forall k :: NextRank(size, 0, k) == Below(size, k)
  {
  }

  lemma RankNext(size: seq<nat>, i: nat)
    requires i < |size| - 1
    requires forall s :: 0 <= s < |size| ==> size[s] <= size[|size| - 1]
    ensures Rank(size, i) == NextRank(size, i, size[i]) < |size| - 1
    ensures forall j :: 0 <= j < i ==> Rank(size, j) != Rank(size, i)
    ensures forall k :: NextRank(size, i + 1, k) == NextRank(size, i, k) + if k == size[i] then 1 else 0
  {
    RankLast(size);
    RankOrder(size, i, |size| - 1);
    forall j | 0 <= j < i
      ensures Rank(size, j) != Rank(size, i)
    {
      RankDistinct(size, i, j);
    }
    forall k
      ensures NextRank(size, i + 1, k) == NextRank(size, i, k) + if k == size[i] then 1 else 0
    {
      assert size[..i + 1] == size[..i] + [size[i]];
      CountAppend(size[..i], size[i], k);
    }
  }

  /** The first i symbols are at their places in the list. */
  ghost predicate Placed(size: seq<nat>, index: seq<nat>, i: nat, list: seq<nat>)
    requires i <= |size| && i <= |index|
  {
    forall j :: 0 <= j < i ==> Rank(size, j) < |list| && list[Rank(size, j)] == index[j]
  }

  ghost predicate Positions(size: seq<nat>, i: nat, pos: seq<nat>)
    requires i <= |size|
  {
    forall k :: 1 <= k < |pos| ==> pos[k] == NextRank(size, i, k)
  }

  lemma PlaceNext(size: seq<nat>, index: seq<nat>, i: nat, list: seq<nat>, pos: seq<nat>)
    requires i < |size| - 1 && |size| <= |index| && |size| - 1 <= |list|
    requires forall s :: 0 <= s < |size| ==> size[s] <= size[|size| - 1]
    requires 0 < size[i] < |pos|
    requires Placed(size, index, i, list) && Positions(size, i, pos)
    ensures var p := pos[size[i]];
            p < |size| - 1 && Placed(size, index, i + 1, list[p := index[i]])
            && Positions(size, i + 1, pos[size[i] := p + 1])
  {
    RankNext(size, i);
  }

  /** Puts every symbol but the last at its place in the list sorted by size. */
  method ListSymbols(codesize: array<nat>, n: nat, index: array<nat>, bitPos: array<nat>, huffval: array<byte>)
    requires 0 < n <= codesize.Length && n <= index.Length && n <= 256 <= huffval.Length
    requires codesize as object != huffval && index as object != huffval && bitPos as object != huffval
    requires bitPos != codesize && bitPos != index
    requires forall s :: 0 <= s < n ==> codesize[s] <= codesize[n - 1] && codesize[s] < bitPos.Length
    requires forall s :: 0 <= s < n - 1 ==> 0 < codesize[s] && index[s] < 256
    requires 1 < n ==> Positions(codesize[..n], 0, bitPos[..])
    modifies huffval, bitPos
    ensures Placed(codesize[..n], index[..n], n - 1, huffval[..])
    ensures huffval[n - 1..] == old(huffval[n - 1..])
  {
    ghost var size, symbols := codesize[..n], index[..n];
    var i := 0;
    while i < n - 1
      invariant i <= n - 1
      invariant 1 < n ==> Positions(size, i, bitPos[..])
      invariant Placed(size, symbols, i, huffval[..])
      invariant huffval[n - 1..] == old(huffval[n - 1..])
    {
      var k := codesize[i];
      assert size[i] == k && symbols[i] == index[i];
      PlaceNext(size, symbols, i, huffval[..], bitPos[..]);
      ghost var list: seq<nat>, pos := huffval[..], bitPos[..];
      huffval[bitPos[k]] := index[i];
      bitPos[k] := bitPos[k] + 1;
      assert huffval[..] == list[pos[k] := index[i]];
      assert bitPos[..] == pos[k := pos[k] + 1];
      i := i + 1;
    }
  }

  // The whole table.

  /** The symbols of a table, pseudo-symbol 256 last. */
  function Symbols(freq: seq<nat>): seq<nat>
    requires |freq| == 257
  {
    InUse(freq[256 := 1], 257)
  }

  function SymbolCounts(freq: seq<nat>): seq<nat>
    requires |freq| == 257
  {
    CountsOf(freq[256 := 1], Symbols(freq))
  }

  lemma {:induction false} SumInUse(freq: seq<nat>, k: nat)
    requires k <= |freq|
    ensures Sum(CountsOf(freq, InUse(freq, k))) == Sum(freq[..k])
  {
    if k > 0 {
      SumInUse(freq, k - 1);
      var before, c := CountsOf(freq, InUse(freq, k - 1)), freq[k - 1];
      assert freq[..k] == freq[..k - 1] + [c];
      SumAppend(freq[..k - 1], c);
      if c != 0 {
        assert CountsOf(freq, InUse(freq, k)) == before + [c];
        SumAppend(before, c);
      }
    }
  }

  lemma SymbolCountsFit(freq: seq<nat>)
    requires |freq| == 257 && Sum(freq[..256]) < LIMIT
    ensures Counts(SymbolCounts(freq))
    ensures forall j :: 0 <= j < |Symbols(freq)| - 1 ==> Symbols(freq)[j] < 256
  {
    var f := freq[256 := 1];
    SumInUse(f, 257);
    assert f[..257] == freq[..256] + [1];
    SumAppend(freq[..256], 1);
    assert Symbols(freq) == InUse(f, 256) + [256];
  }

  lemma ShareStep(size: seq<nat>, d: nat)
    requires Fits(size, d)
    ensures Sum(Shares(size, d + 1)) == 2 * Sum(Shares(size, d))
  {
    SumAdd(Shares(size, d + 1), Shares(size, d), Shares(size, d));
  }

  lemma {:induction false} ShareScale(size: seq<nat>, d: nat, e: nat)
    requires d <= e && Fits(size, d)
    ensures Fits(size, e)
    ensures Sum(Shares(size, d)) == Shl(1, d) <==> Sum(Shares(size, e)) == Shl(1, e)
    decreases e - d
  {
    if d < e {
      ShareStep(size, d);
      ShareScale(size, d + 1, e);
    }
  }

  lemma {:induction false} SumCounts(bits: seq<nat>, size: seq<nat>, k: nat)
    requires k <= |bits| && forall j :: 0 <= j < k ==> bits[j] == Count(size, j)
    ensures Sum(bits[..k]) == Below(size, k)
  {
    if k == 0 {
      SumZero(OnesBelow(size, 0));
    } else {
      SumCounts(bits, size, k - 1);
      BelowNext(size, k - 1);
      assert bits[..k] == bits[..k - 1] + [bits[k - 1]];
      SumAppend(bits[..k - 1], bits[k - 1]);
    }
  }

  /** Sizes that fill the code space, counted, fill it. */
  lemma CountedFull(size: seq<nat>, bits: seq<nat>)
    requires Fits(size, |size|) && Sum(Shares(size, |size|)) == Shl(1, |size|) && Fits(size, MAX_CLEN)
    requires |bits| == MAX_CLEN + 2 && forall k :: 0 <= k < |bits| ==> bits[k] == Count(size, k)
    ensures Used(bits, MAX_CLEN) == Shl(1, MAX_CLEN)
  {
    UsedIsShares(bits, size, MAX_CLEN);
    assert SharesTo(size, MAX_CLEN) == Shares(size, MAX_CLEN);
    if |size| <= MAX_CLEN {
      ShareScale(size, |size|, MAX_CLEN);
    } else {
      ShareScale(size, MAX_CLEN, |size|);
    }
  }

  lemma CountedSum(size: seq<nat>, bits: seq<nat>)
    requires Fits(size, MAX_CLEN)
    requires |bits| == MAX_CLEN + 2 && forall k :: 0 <= k < |bits| ==> bits[k] == Count(size, k)
    ensures Sum(bits) == |size| && bits[MAX_CLEN + 1] == 0
  {
    SumCounts(bits, size, |bits|);
    assert bits[..|bits|] == bits;
    AllBelow(OnesBelow(size, |bits|));
    SumZero(Ones(size, MAX_CLEN + 1));
  }

  lemma NoneOverFits(size: seq<nat>, bits: seq<nat>, m: nat)
    requires Fits(size, m) && |bits| == MAX_CLEN + 2
    requires forall k :: 0 <= k < |bits| ==> bits[k] == Count(size, k)
    ensures NoneOver(bits, m)
  {
    forall k | m < k < |bits|
      ensures bits[k] == 0
    {
      SumZero(Ones(size, k));
    }
  }

  /** The first 17 entries hold every code. */
  lemma TablePart(bits: seq<nat>, table: seq<nat>)
    requires |bits| == MAX_CLEN + 2 && |table| == 17 && forall k :: 0 <= k < 17 ==> table[k] == bits[k]
    requires NoneOver(bits, 16)
    requires forall k :: 0 <= k < |bits| ==> Used(bits, k) < Shl(1, k)
    ensures forall k :: 0 <= k <= 16 ==> Used(table, k) < Shl(1, k)
    ensures Sum(table) == Sum(bits)
  {
    forall k | 0 <= k <= 16
      ensures Used(table, k) < Shl(1, k)
    {
      UsedAgree(table, bits, k);
    }
    SumZeros(bits, 17, |bits|);
    assert bits[..|bits|] == bits && table == bits[..17];
  }

  lemma {:induction false} SumZeros(s: seq<nat>, k: nat, m: nat)
    requires k <= m <= |s| && forall j :: k <= j < m ==> s[j] == 0
    ensures Sum(s[..k]) == Sum(s[..m])
    decreases m
  {
    if k < m {
      SumZeros(s, k, m - 1);
      assert s[..m] == s[..m - 1] + [s[m - 1]];
      SumAppend(s[..m - 1], s[m - 1]);
    }
  }

  /** Taking one from the longest class takes the last, longest, symbol. */
  lemma LongestCounted(size: seq<nat>, full: seq<nat>, i: nat, b: seq<nat>)
    requires size != [] && forall s :: 0 <= s < |size| ==> size[s] <= size[|size| - 1]
    requires size[|size| - 1] < |full| && forall k :: 0 <= k < |full| ==> full[k] == Count(size, k)
    requires i < |full| && full[i] > 0 && NoneOver(full, i) && b == full[i := full[i] - 1]
    ensures forall k :: 0 <= k < |full| ==> b[k] == Count(size[..|size| - 1], k)
  {
    var n := |size| - 1;
    SumBounds(Ones(size, size[n]), n);
    assert full[size[n]] == Count(size, size[n]) > 0;
    if size[n] < i {
      SumZero(Ones(size, i));
    }
    assert size == size[..n] + [i];
    forall k: nat | k < |full|
      ensures b[k] == Count(size[..n], k)
    {
      CountAppend(size[..n], i, k);
    }
  }

  /** The counts of sizes are limited to 16 bits, keeping room for every code, and left alone if they fit. */
  ghost predicate LimitedCounts(size: seq<nat>, bits: seq<nat>) {
    && size != [] && |bits| == MAX_CLEN + 2 && NoneOver(bits, 16)
    && (forall k :: 0 <= k < |bits| ==> Used(bits, k) < Shl(1, k))
    && Sum(bits) == |size| - 1
    && (Fits(size, 16) ==> forall k :: 0 <= k < |bits| ==> bits[k] == Count(size[..|size| - 1], k))
  }

  /** Sizes that fill the code space, the last of them the largest. */
  ghost predicate FullSizes(size: seq<nat>) {
    && size != [] && (forall s :: 0 <= s < |size| ==> size[s] <= size[|size| - 1])
    && Fits(size, |size|) && Sum(Shares(size, |size|)) == Shl(1, |size|)
  }

  lemma FullPositive(size: seq<nat>, s: nat)
    requires FullSizes(size) && s < |size| && 1 < |size|
    ensures 0 < size[s]
  {
    var n, t := |size|, if s == 0 then 1 else 0;
    SumBoundsTwo(Shares(size, n), s, t);
    ShlZero(n - size[t]);
    ShlLess(0, 1, n - size[t]);
  }

  /** Code counts for sizes of which the last is the largest. */
  ghost predicate FullCounts(size: seq<nat>, bits: seq<nat>) {
    && size != [] && (forall s :: 0 <= s < |size| ==> size[s] <= size[|size| - 1])
    && Complete(bits) && Sum(bits) == |size| && bits[MAX_CLEN + 1] == 0
    && size[|size| - 1] < |bits| && (forall k :: 0 <= k < |bits| ==> bits[k] == Count(size, k))
  }

  /** The counts of full sizes fill the code space. */
  lemma FullComplete(size: seq<nat>, bits: seq<nat>)
    requires FullSizes(size) && Fits(size, MAX_CLEN) && |size| <= 255
    requires |bits| == MAX_CLEN + 2 && forall k :: 0 <= k < |bits| ==> bits[k] == Count(size, k)
    ensures FullCounts(size, bits)
  {
    CountedFull(size, bits);
    CountedSum(size, bits);
  }

  lemma LimitedFrom(size: seq<nat>, full: seq<nat>, limited: seq<nat>, i: nat, b: seq<nat>)
    requires FullCounts(size, full) && Sum(limited) == |size| && |limited| == MAX_CLEN + 2
    requires NoneOver(full, 16) ==> limited == full
    requires i <= 16 && limited[i] > 0 && NoneOver(limited, i) && b == limited[i := limited[i] - 1]
    requires forall k :: 0 <= k < |b| ==> Used(b, k) < Shl(1, k)
    requires Sum(b) + 1 == Sum(limited)
    ensures LimitedCounts(size, b)
  {
    hide Used, Shl, Sum, Count;
    if Fits(size, 16) {
      NoneOverFits(size, full, 16);
      LongestCounted(size, full, i, b);
    }
  }

  method LimitCounts(bits: array<byte>, ghost size: seq<nat>)
    requires bits.Length == MAX_CLEN + 2 && FullCounts(size, bits[..])
    modifies bits
    ensures LimitedCounts(size, bits[..])
  {
    hide Length, Shl, Count, Ones, Used;
    ghost var full: seq<nat> := bits[..];
    LimitLengths(bits);
    ghost var limited: seq<nat> := bits[..];
    ghost var i := RemovePseudoSymbol(bits);
    ghost var b: seq<nat> := bits[..];
    LimitedFrom(size, full, limited, i, b);
  }

  /**
   * What a finished table promises: no more codes than the code space holds, none of them all ones; every
   * symbol but the last exactly once, in order of its size; and where no size is over 16 bits, exactly
   * those code lengths.
   */
  ghost predicate Describes(symbols: seq<nat>, size: seq<nat>, bits: seq<nat>, list: seq<nat>) {
    && |size| == |symbols| == |list| + 1
    && CountsFor(size, bits)
    && Placed(size, symbols, |list|, list)
  }

  ghost predicate CountsFor(size: seq<nat>, bits: seq<nat>) {
    && size != [] && |bits| == 17
    && (forall k :: 0 <= k <= 16 ==> Used(bits, k) < Shl(1, k))
    && Sum(bits) == |size| - 1
    && (Fits(size, 16) ==> forall k :: 0 <= k <= 16 ==> bits[k] == Count(size[..|size| - 1], k))
  }

  /** Where the symbols of each size start in the list. */
  method StartList(bits: array<byte>, bitPos: array<nat>, ghost size: seq<nat>)
    requires bits.Length == MAX_CLEN + 2 && bitPos.Length == MAX_CLEN + 1 && bits as object != bitPos
    requires FullSizes(size) && forall k :: 0 <= k < bits.Length ==> bits[k] == Count(size, k)
    modifies bitPos
    ensures 1 < |size| ==> Positions(size, 0, bitPos[..]) && forall s :: 0 <= s < |size| ==> 0 < size[s]
  {
    StartPositions(bits, bitPos, size);
    if 1 < |size| {
      forall s | 0 <= s < |size|
        ensures 0 < size[s]
      {
        FullPositive(size, s);
      }
      SumZero(Ones(size, 0));
      StartRanks(size);
    }
  }

  /** Gives the pseudo-symbol its count, and groups the nonzero counts. */
  method PrepareCounts(freq: array<nat>, index: array<nat>) returns (n: nat)
    requires freq != index && freq.Length == 257 == index.Length
    requires Sum(freq[..256]) < LIMIT && |Symbols(freq[..])| <= 255
    modifies freq, index
    ensures 1 <= n <= 255 && index[..n] == Symbols(old(freq[..])) && freq[..n] == SymbolCounts(old(freq[..]))
    ensures Counts(freq[..n]) && forall j :: 0 <= j < n - 1 ==> index[j] < 256
  {
    ghost var counts := freq[..];
    SymbolCountsFit(counts);
    freq[256] := 1;
    assert freq[..] == counts[256 := 1];
    n := GroupCounts(freq, index);
    forall j | 0 <= j < n - 1
      ensures index[j] < 256
    {
      assert index[j] == index[..n][j];
    }
  }

  method CopyCounts(bits: array<byte>, outBits: array<byte>, ghost size: seq<nat>)
    requires bits != outBits && outBits.Length == 17 && LimitedCounts(size, bits[..])
    modifies outBits
    ensures CountsFor(size, outBits[..])
  {
    ghost var b: seq<nat> := bits[..];
    forall i | 0 <= i < 17 {
      outBits[i] := bits[i];
    }
    TablePart(b, outBits[..]);
  }

  /** The code counts of the table. */
  method TableCounts(bits: array<byte>, outBits: array<byte>, ghost size: seq<nat>)
    requires bits != outBits && bits.Length == MAX_CLEN + 2 && outBits.Length == 17
    requires FullSizes(size) && Fits(size, MAX_CLEN) && |size| <= 255
    requires forall k :: 0 <= k < bits.Length ==> bits[k] == Count(size, k)
    modifies bits, outBits
    ensures CountsFor(size, outBits[..])
  {
    ghost var full: seq<nat> := bits[..];
    FullComplete(size, full);
    LimitCounts(bits, size);
    CopyCounts(bits, outBits, size);
  }

  /** The table for sizes that fill the code space, or a failure when one is over 32 bits. */
  method FillTable(codesize: array<nat>, n: nat, index: array<nat>, outBits: array<byte>, huffval: array<byte>)
    returns (ok: bool)
    requires 1 <= n <= 255 && n <= codesize.Length && n <= index.Length
    requires outBits.Length == 17 && huffval.Length == 256 && outBits != huffval
    requires codesize as object !in {outBits, huffval} && index as object !in {outBits, huffval}
    requires FullSizes(codesize[..n]) && forall j :: 0 <= j < n - 1 ==> index[j] < 256
    modifies outBits, huffval
    ensures ok <==> Fits(codesize[..n], MAX_CLEN)
    ensures ok ==> Describes(index[..n], codesize[..n], outBits[..], huffval[..n - 1])
    ensures !ok ==> outBits[..] == old(outBits[..]) && huffval[..] == old(huffval[..])
  {
    ghost var size := codesize[..n];
    var bits := new byte[MAX_CLEN + 2](_ => 0);
    var bitPos := new nat[MAX_CLEN + 1](_ => 0);
    ok := CountSizes(codesize, n, bits);
    if !ok {
      return;
    }
    ghost var symbols := index[..n];
    StartList(bits, bitPos, size);
    ghost var pos := bitPos[..];
    TableCounts(bits, outBits, size);
    ghost var counts: seq<nat> := outBits[..];
    assert forall s :: 0 <= s < n ==> codesize[s] == size[s];
    assert codesize[..n] == size && index[..n] == symbols && bitPos[..] == pos;
    ListSymbols(codesize, n, index, bitPos, huffval);
    assert outBits[..] == counts;
    ListPart(size, symbols, huffval[..], huffval[..n - 1]);
  }

  lemma ListPart(size: seq<nat>, symbols: seq<nat>, list: seq<nat>, part: seq<nat>)
    requires size != [] && |size| == |symbols| && |part| == |size| - 1 <= |list| && part == list[..|part|]
    requires forall s :: 0 <= s < |size| ==> size[s] <= size[|size| - 1]
    requires Placed(size, symbols, |size| - 1, list)
    ensures Placed(size, symbols, |size| - 1, part)
  {
    RankLast(size);
    forall j | 0 <= j < |size| - 1
      ensures Rank(size, j) < |part| && part[Rank(size, j)] == symbols[j]
    {
      RankOrder(size, j, |size| - 1);
    }
  }

  /** Generates the table from the counts, or fails when an optimal code is over 32 bits. */
  method GenOptimalTable(freq: array<nat>, outBits: array<byte>, huffval: array<byte>)
    returns (ok: bool, ghost size: seq<nat>)
    requires freq.Length == 257 && outBits.Length == 17 && huffval.Length == 256
    requires freq as object !in {outBits, huffval} && outBits != huffval
    requires Sum(freq[..256]) < LIMIT
    requires |Symbols(freq[..])| <= 255
    modifies freq, outBits, huffval
    ensures Optimal(SymbolCounts(old(freq[..])), size)
    ensures ok <==> Fits(size, MAX_CLEN)
    ensures ok ==> 0 < |size| <= 255 && Describes(Symbols(old(freq[..])), size, outBits[..], huffval[..|size| - 1])
    ensures !ok ==> outBits[..] == old(outBits[..]) && huffval[..] == old(huffval[..])
  {
    hide SymbolCounts;
    var codesize := new nat[257](_ => 0);
    var others := new int[257](_ => -1);
    var index := new nat[257](_ => 0);
    var n := PrepareCounts(freq, index);
    ghost var w := freq[..n];
    MergeTrees(freq, n, codesize, others);
    size := codesize[..n];
    ok := FillTable(codesize, n, index, outBits, huffval);
  }
}
