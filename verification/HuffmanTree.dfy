/** Building an optimal Huffman table from symbol counts (clause K.2 of T.81), in place. */
module HuffmanTree {
  import opened Bytes
  import opened Sums
  import opened HuffmanForest
  import opened HuffmanOptimal
  import opened CodeLengths

  /** The longest code the merge loop may produce. */
  const MAX_CLEN := 32

  predicate Live(freq: seq<nat>, i: int) {
    0 <= i < |freq| && freq[i] <= LIMIT
  }

  /** c1 and c2 are the first two live slots in the order of Before, or -1 where there are none. */
  ghost predicate Picks(freq: seq<nat>, c1: int, c2: int) {
    && (c1 == -1 ==> c2 == -1 && forall i :: 0 <= i < |freq| ==> !Live(freq, i))
    && (c1 != -1 ==> Live(freq, c1))
    && (c1 != -1 && c2 == -1 ==> forall i :: 0 <= i < |freq| && i != c1 ==> !Live(freq, i))
    && (c1 != -1 && c2 != -1 ==>
          && Live(freq, c2) && c1 != c2 && Before(freq, c1, c2)
          && (forall i :: 0 <= i < |freq| && i != c1 && i != c2 && Live(freq, i) ==> Before(freq, c2, i)))
  }

  lemma PicksNext(freq: seq<nat>, x: nat, c1: int, c2: int, d1: int, d2: int)
    requires Picks(freq, c1, c2)
    requires var v, v2 := if c1 == -1 then LIMIT else freq[c1], if c2 == -1 then LIMIT else freq[c2];
             d1 == (if x <= v2 && x <= v then |freq| else c1)
             && d2 == (if x <= v2 then if x <= v then c1 else |freq| else c2)
    ensures Picks(freq + [x], d1, d2)
  {
    var g := freq + [x];
    assert forall i :: Live(freq, i) ==> Live(g, i) && g[i] == freq[i];
    assert forall i :: Live(g, i) && i != |freq| ==> Live(freq, i);
  }

  method FindTwoSmallest(freq: array<nat>, n: nat) returns (c1: int, c2: int)
    requires n <= freq.Length
    ensures Picks(freq[..n], c1, c2)
  {
    c1, c2 := -1, -1;
    var v, v2 := LIMIT, LIMIT;
    var i := 0;
    while i < n
      invariant i <= n && Picks(freq[..i], c1, c2)
      invariant v == if c1 == -1 then LIMIT else freq[..i][c1]
      invariant v2 == if c2 == -1 then LIMIT else freq[..i][c2]
    {
      assert freq[..i + 1] == freq[..i] + [freq[i]];
      ghost var b1, b2 := c1, c2;
      if freq[i] <= v2 {
        if freq[i] <= v {
          c2 := c1;
          v2 := v;
          v := freq[i];
          c1 := i;
        } else {
          v2 := freq[i];
          c2 := i;
        }
      }
      PicksNext(freq[..i], freq[i], b1, b2, c1, c2);
      i := i + 1;
    }
  }

  /** The symbols of ch are linked in order through others, and the last one ends the chain. */
  ghost predicate Chain(others: seq<int>, ch: seq<nat>) {
    && ch != []
    && (forall k :: 0 <= k < |ch| ==> ch[k] < |others|)
    && (forall j, k :: 0 <= j < k < |ch| ==> ch[j] != ch[k])
    && (forall k :: 0 <= k < |ch| - 1 ==> others[ch[k]] == ch[k + 1])
    && others[ch[|ch| - 1]] == -1
  }

  /** Every symbol but the last has a successor. */
  lemma ChainNext(others: seq<int>, ch: seq<nat>, k: nat)
    requires Chain(others, ch) && k < |ch| - 1
    ensures ch[k] < |others| && others[ch[k]] >= 0
  {
    assert others[ch[k]] == ch[k + 1];
  }

  /** Only the last symbol has no successor. */
  lemma ChainEnds(others: seq<int>, ch: seq<nat>, k: nat)
    requires Chain(others, ch) && k < |ch| && others[ch[k]] < 0
    ensures k == |ch| - 1
  {
    if k < |ch| - 1 {
      ChainNext(others, ch, k);
    }
  }

  /** Adds one to the size of every symbol in the chain that starts at c, and returns the last one. */
  method Deepen(codesize: array<nat>, others: array<int>, c: nat, ghost ch: seq<nat>) returns (last: nat)
    requires codesize != others as object && codesize.Length == others.Length
    requires Chain(others[..], ch) && ch[0] == c
    modifies codesize
    ensures last == ch[|ch| - 1]
    ensures forall s :: 0 <= s < codesize.Length ==>
      codesize[s] == old(codesize[s]) + if s in ch then 1 else 0
  {
    last := c;
    ghost var k := 0;
    codesize[last] := codesize[last] + 1;
    while others[last] >= 0
      invariant k < |ch| && last == ch[k]
      invariant forall s :: 0 <= s < codesize.Length ==>
        codesize[s] == old(codesize[s]) + if s in ch[..k + 1] then 1 else 0
      decreases |ch| - k
    {
      assert k < |ch| - 1 && others[..][last] == ch[k + 1];
      last := others[last];
      k := k + 1;
      assert ch[..k + 1] == ch[..k] + [last];
      assert forall j :: 0 <= j < k ==> ch[..k][j] == ch[j];
      codesize[last] := codesize[last] + 1;
    }
    ChainEnds(others[..], ch, k);
    assert ch[..k + 1] == ch;
  }

  /** The symbols of c are those that r owns. */
  ghost predicate Members(owner: seq<nat>, r: nat, c: seq<nat>) {
    && (forall s :: s in c ==> s < |owner| && owner[s] == r)
    && (forall s :: 0 <= s < |owner| && owner[s] == r ==> s in c)
  }

  lemma JoinMembers(owner: seq<nat>, owner': seq<nat>, c1: nat, c2: nat, a: seq<nat>, b: seq<nat>)
    requires |owner| == |owner'| && Members(owner, c1, a) && Members(owner, c2, b)
    requires forall s :: 0 <= s < |owner| ==> owner'[s] == if owner[s] == c2 then c1 else owner[s]
    ensures Members(owner', c1, a + b)
  {
  }

  /** The chain of each root links exactly the symbols of its tree. */
  ghost predicate Chains(others: seq<int>, f: Forest, ch: seq<seq<nat>>) {
    && |ch| == |f.owner| <= |others|
    && (forall r :: Root(f, r) ==> Chain(others, ch[r]) && ch[r][0] == r)
    && (forall r :: Root(f, r) ==> Members(f.owner, r, ch[r]))
  }

  lemma JoinChains(others: seq<int>, a: seq<nat>, b: seq<nat>)
    requires Chain(others, a) && Chain(others, b)
    requires forall s :: s in a ==> s !in b
    ensures Chain(others[a[|a| - 1] := b[0]], a + b)
  {
    var last := a[|a| - 1];
    var others' := others[last := b[0]];
    assert last in a;
    forall k | 0 <= k < |a + b| - 1
      ensures others'[(a + b)[k]] == (a + b)[k + 1]
    {
      if k >= |a| {
        assert b[k - |a|] in b;
      }
    }
    assert b[|b| - 1] in b;
    forall j, k | 0 <= j < k < |a + b|
      ensures (a + b)[j] != (a + b)[k]
    {
      if j < |a| <= k {
        assert a[j] in a && b[k - |a|] in b;
      }
    }
  }

  lemma KeepChain(others: seq<int>, a: seq<nat>, last: nat, x: int)
    requires Chain(others, a) && last < |others| && last !in a
    ensures Chain(others[last := x], a)
  {
    assert forall k :: 0 <= k < |a| ==> a[k] in a;
  }

  lemma MergeChains(others: seq<int>, f: Forest, ch: seq<seq<nat>>, c1: nat, c2: nat)
    requires Indexed(f) && Chains(others, f, ch) && Root(f, c1) && Root(f, c2) && c1 != c2
    ensures Chains(others[ch[c1][|ch[c1]| - 1] := c2], Merge(f, c1, c2), ch[c1 := ch[c1] + ch[c2]])
  {
    MergeIndexed(f, c1, c2);
    var g, ch' := Merge(f, c1, c2), ch[c1 := ch[c1] + ch[c2]];
    var last := ch[c1][|ch[c1]| - 1];
    assert last in ch[c1];
    JoinChains(others, ch[c1], ch[c2]);
    JoinMembers(f.owner, g.owner, c1, c2, ch[c1], ch[c2]);
    forall r | Root(g, r)
      ensures Chain(others[last := c2], ch'[r]) && ch'[r][0] == r && Members(g.owner, r, ch'[r])
    {
      if r != c1 {
        assert Root(f, r) && Members(f.owner, r, ch[r]);
        KeepChain(others, ch[r], last, c2);
      }
    }
  }

  /** One for each root. */
  function RootOnes(f: Forest): (v: seq<nat>)
    requires |f.freq| == |f.owner|
    ensures |v| == |f.freq|
    ensures forall i :: 0 <= i < |v| ==> v[i] == if Root(f, i) then 1 else 0
  {
    seq(|f.freq|, i requires 0 <= i < |f.freq| => if Root(f, i) then 1 else 0)
  }

  lemma MergeRootCount(f: Forest, c1: nat, c2: nat)
    requires Indexed(f) && Root(f, c1) && Root(f, c2) && c1 != c2
    ensures Sum(RootOnes(Merge(f, c1, c2))) + 1 == Sum(RootOnes(f))
    ensures 2 <= Sum(RootOnes(f))
  {
    MergeIndexed(f, c1, c2);
    assert RootOnes(Merge(f, c1, c2)) == RootOnes(f)[c2 := 0];
    SumUpdate(RootOnes(f), c2, 0);
    SumBoundsTwo(RootOnes(f), c1, c2);
  }

  /** The counts of the symbols in use: all positive, the pseudo-symbol last with a count of one. */
  predicate Counts(w: seq<nat>) {
    && w != [] && w[|w| - 1] == 1
    && (forall i :: 0 <= i < |w| ==> 0 < w[i])
    && Sum(w) <= LIMIT
  }

  // Runs of the merge loop.

  /** The pairs of slots merged so far. */
  datatype Run = Begin | Then(prev: Run, c1: nat, c2: nat)

  function Length(run: Run): nat {
    match run
    case Begin => 0
    case Then(prev, _, _) => 1 + Length(prev)
  }

  /** Every merge took the two smallest counts. */
  ghost predicate Greedy(w: seq<nat>, run: Run)
    decreases run, 0
  {
    match run
    case Begin => true
    case Then(prev, c1, c2) => Greedy(w, prev) && TwoSmallest(After(w, prev), c1, c2)
  }

  /** The forest after the merges of run. */
  ghost function After(w: seq<nat>, run: Run): (f: Forest)
    requires Greedy(w, run)
    ensures |f.freq| == |f.owner| == |f.size| == |w|
    decreases run, 1
  {
    match run
    case Begin => Start(w)
    case Then(prev, c1, c2) => Merge(After(w, prev), c1, c2)
  }

  lemma {:induction false} RunShape(w: seq<nat>, run: Run)
    requires Counts(w) && Greedy(w, run)
    ensures Shape(After(w, run), w)
  {
    match run
    case Begin => StartShape(w);
    case Then(prev, c1, c2) =>
      RunShape(w, prev);
      MergeShape(After(w, prev), w, c1, c2);
  }

  lemma {:induction false} RunSizes(w: seq<nat>, run: Run)
    requires Counts(w) && Greedy(w, run)
    ensures Fits(After(w, run).size, Length(run))
    ensures Sum(RootOnes(After(w, run))) + Length(run) == |w|
    ensures Length(run) < |w|
  {
    hide Sum;
    match run
    case Begin => AllBelow(RootOnes(Start(w)));
    case Then(prev, c1, c2) =>
      RunShape(w, prev);
      RunSizes(w, prev);
      MergeRootCount(After(w, prev), c1, c2);
  }

  lemma {:induction false} RunFull(w: seq<nat>, run: Run)
    requires Counts(w) && Greedy(w, run)
    ensures Full(After(w, run), |w|)
  {
    match run
    case Begin => StartFull(w, |w|);
    case Then(prev, c1, c2) =>
      RunFull(w, prev);
      RunSizes(w, run);
      MergeFull(After(w, prev), c1, c2, |w|);
  }

  lemma {:induction false} RunDeepest(w: seq<nat>, run: Run)
    requires Counts(w) && Greedy(w, run)
    ensures Indexed(After(w, run)) && Deepest(After(w, run), |w| - 1)
  {
    hide Deepest, Merge, Shape;
    match run
    case Begin => StartDeepest(w);
    case Then(prev, c1, c2) =>
      RunShape(w, prev);
      RunDeepest(w, prev);
      MergeDeepest(After(w, prev), w, c1, c2, |w| - 1);
  }

  lemma {:induction false} RunMinimal(w: seq<nat>, run: Run)
    requires Counts(w) && Greedy(w, run)
    ensures Minimal(After(w, run), w)
  {
    match run
    case Begin => StartMinimal(w);
    case Then(prev, c1, c2) =>
      RunShape(w, prev);
      RunMinimal(w, prev);
      MergeMinimal(After(w, prev), w, c1, c2);
  }

  /** The live slots are the roots. */
  lemma LiveRoots(f: Forest, w: seq<nat>)
    requires Shape(f, w) && Sum(w) <= LIMIT
    ensures forall i :: Live(f.freq, i) <==> Root(f, i)
  {
    forall i | Root(f, i)
      ensures Live(f.freq, i)
    {
      RootBound(f, w, i);
    }
  }

  lemma PicksSmallest(f: Forest, w: seq<nat>, c1: int, c2: int)
    requires Shape(f, w) && w != [] && Sum(w) <= LIMIT && Picks(f.freq, c1, c2)
    ensures c1 != -1
    ensures c2 != -1 ==> TwoSmallest(f, c1, c2)
    ensures c2 == -1 ==> forall s :: 0 <= s < |w| ==> f.owner[s] == c1
  {
    LiveRoots(f, w);
    assert Root(f, f.owner[0]);
    if c2 == -1 {
      forall s | 0 <= s < |w|
        ensures f.owner[s] == c1
      {
        assert Root(f, f.owner[s]);
      }
    }
  }

  /**
   * What the merge loop computes: sizes that satisfy Kraft's equality, with the pseudo-symbol among the
   * longest, and that cost no more than any other lengths that satisfy Kraft's inequality.
   */
  ghost predicate Optimal(w: seq<nat>, size: seq<nat>) {
    && w != [] && |size| == |w|
    && Fits(size, |w| - 1)
    && Sum(Shares(size, |w|)) == Shl(1, |w|)
    && (forall s :: 0 <= s < |w| ==> size[s] <= size[|w| - 1])
    && (forall l: seq<nat>, d :: |l| == |w| && Kraft(l, d) ==> Cost(w, size) <= Cost(w, l))
  }

  /** A greedy run that leaves one tree ends with optimal sizes. */
  lemma RunOptimal(w: seq<nat>, run: Run, c: nat)
    requires Counts(w) && Greedy(w, run)
    requires forall s :: 0 <= s < |w| ==> After(w, run).owner[s] == c
    ensures Optimal(w, After(w, run).size)
  {
    hide After;
    var f := After(w, run);
    RunShape(w, run);
    RunSizes(w, run);
    RunFull(w, run);
    RunDeepest(w, run);
    RunMinimal(w, run);
    assert Root(f, f.owner[0]);
    assert Masked(Shares(f.size, |w|), f.owner, c) == Shares(f.size, |w|);
    forall l: seq<nat>, d | |l| == |w| && Kraft(l, d)
      ensures Cost(w, f.size) <= Cost(w, l)
    {
      MinimalCost(f, w, l, d);
    }
  }

  /** Either everything is merged, and the sizes are final, or there are two slots to merge. */
  lemma NextMerge(w: seq<nat>, run: Run, c1: int, c2: int)
    requires Counts(w) && Greedy(w, run) && Picks(After(w, run).freq, c1, c2)
    ensures Length(run) < |w| && Indexed(After(w, run))
    ensures c2 < 0 ==> Optimal(w, After(w, run).size)
    ensures c2 >= 0 ==> c1 >= 0 && TwoSmallest(After(w, run), c1, c2) && Greedy(w, Then(run, c1, c2))
  {
    RunShape(w, run);
    RunSizes(w, run);
    PicksSmallest(After(w, run), w, c1, c2);
    if c2 < 0 {
      RunOptimal(w, run, c1);
    }
  }

  function Alone(n: nat): (ch: seq<seq<nat>>)
    ensures |ch| == n
    ensures forall i :: 0 <= i < n ==> ch[i] == [i]
  {
    seq(n, i => [i])
  }

  lemma StartChains(others: seq<int>, w: seq<nat>)
    requires |w| <= |others| && forall i :: 0 <= i < |w| ==> others[i] == -1
    ensures Chains(others, Start(w), Alone(|w|))
  {
  }

  /** Merges slots c1 and c2 in the arrays. */
  method MergeSlots(freq: array<nat>, codesize: array<nat>, others: array<int>, c1: nat, c2: nat, n: nat,
                    ghost f: Forest, ghost ch: seq<seq<nat>>)
    requires n <= freq.Length == codesize.Length == others.Length
    requires codesize as object != others && codesize != freq && others as object != freq
    requires |f.freq| == n && Indexed(f) && Root(f, c1) && Root(f, c2) && c1 != c2
    requires freq[..n] == f.freq && codesize[..n] == f.size && Chains(others[..], f, ch)
    modifies freq, codesize, others
    ensures freq[..n] == Merge(f, c1, c2).freq && codesize[..n] == Merge(f, c1, c2).size
    ensures Chains(others[..], Merge(f, c1, c2), ch[c1 := ch[c1] + ch[c2]])
  {
    hide Length;
    MergeChains(others[..], f, ch, c1, c2);
    freq[c1] := freq[c1] + freq[c2];
    freq[c2] := LIMIT + 1;
    var last1 := Deepen(codesize, others, c1, ch[c1]);
    assert last1 in ch[c1] && last1 !in ch[c2];
    KeepChain(others[..], ch[c2], last1, c2);
    ghost var linked := others[..][last1 := c2];
    others[last1] := c2;
    assert others[..] == linked;
    var last2 := Deepen(codesize, others, c2, ch[c2]);
    forall s | 0 <= s < n
      ensures codesize[s] == Merge(f, c1, c2).size[s]
    {
      assert Members(f.owner, c1, ch[c1]) && Members(f.owner, c2, ch[c2]);
    }
  }

  /** The merge loop: repeatedly merges the two smallest counts, deepening every symbol below them. */
  method MergeTrees(freq: array<nat>, n: nat, codesize: array<nat>, others: array<int>)
    requires n <= freq.Length == codesize.Length == others.Length
    requires codesize as object != others && codesize != freq && others as object != freq
    requires Counts(freq[..n])
    requires forall i :: 0 <= i < freq.Length ==> codesize[i] == 0 && others[i] == -1
    modifies freq, codesize, others
    ensures Optimal(old(freq[..n]), codesize[..n])
  {
    ghost var w, run := freq[..n], Begin;
    ghost var ch := Alone(n);
    StartChains(others[..], w);
    while true
      invariant Greedy(w, run)
      invariant freq[..n] == After(w, run).freq && codesize[..n] == After(w, run).size
      invariant Chains(others[..], After(w, run), ch)
      decreases n - Length(run)
    {
      var c1, c2 := FindTwoSmallest(freq, n);
      NextMerge(w, run, c1, c2);
      if c2 < 0 {
        break;
      }
      MergeSlots(freq, codesize, others, c1, c2, n, After(w, run), ch);
      run, ch := Then(run, c1, c2), ch[c1 := ch[c1] + ch[c2]];
    }
  }
}
