/** The merge loop's code sizes cost no more than any lengths that fit in the code space. */
module HuffmanOptimal {
  import opened Bytes
  import opened Sums
  import opened HuffmanForest

  function Products(w: seq<nat>, l: seq<nat>): (v: seq<nat>)
    requires |w| == |l|
    ensures |v| == |w|
    ensures forall i :: 0 <= i < |w| ==> v[i] == w[i] * l[i]
  {
    seq(|w|, i requires 0 <= i < |w| => w[i] * l[i])
  }

  /** Total count times length. */
  function Cost(w: seq<nat>, l: seq<nat>): nat
    requires |w| == |l|
  {
    Sum(Products(w, l))
  }

  /** Kraft's inequality for the lengths l, none over d. */
  predicate Kraft(l: seq<nat>, d: nat) {
    Fits(l, d) && Sum(Shares(l, d)) <= Shl(1, d)
  }

  /** Count times length of each root, for code lengths r given to the roots alone. */
  function RootCosts(f: Forest, r: seq<nat>): (v: seq<nat>)
    requires |f.freq| == |f.owner| == |r|
    ensures |v| == |r|
    ensures forall i :: 0 <= i < |r| ==> v[i] == if Root(f, i) then f.freq[i] * r[i] else 0
  {
    seq(|r|, i requires 0 <= i < |r| => if Root(f, i) then f.freq[i] * r[i] else 0)
  }

  predicate RootFits(f: Forest, r: seq<nat>, d: nat)
    requires |f.freq| == |f.owner| == |r|
  {
    forall i :: 0 <= i < |r| && Root(f, i) ==> r[i] <= d
  }

  function RootShares(f: Forest, r: seq<nat>, d: nat): (v: seq<nat>)
    requires |f.freq| == |f.owner| == |r| && RootFits(f, r, d)
    ensures |v| == |r|
    ensures forall i :: 0 <= i < |r| ==> v[i] == if Root(f, i) then Shl(1, d - r[i]) else 0
  {
    seq(|r|, i requires 0 <= i < |r| => if Root(f, i) then Shl(1, d - r[i]) else 0)
  }

  predicate Affordable(f: Forest, r: seq<nat>, d: nat)
    requires |f.freq| == |f.owner| == |r|
  {
    RootFits(f, r, d) && Sum(RootShares(f, r, d)) <= Shl(1, d)
  }

  /** Nothing at the deepest level: the level can be dropped. */
  lemma DropLevel(f: Forest, r: seq<nat>, d: nat)
    requires |f.freq| == |f.owner| == |r| && 0 < d
    requires Affordable(f, r, d) && RootFits(f, r, d - 1)
    ensures Affordable(f, r, d - 1)
  {
    var v, v' := RootShares(f, r, d), RootShares(f, r, d - 1);
    SumAdd(v, v', v');
  }

  /** One root alone at the deepest level can be shortened: the shares of the others are even. */
  lemma ShortenLoner(f: Forest, r: seq<nat>, d: nat, x: nat)
    requires |f.freq| == |f.owner| == |r| && 0 < d && x < |r|
    requires Affordable(f, r, d) && Root(f, x) && r[x] == d
    requires forall i :: 0 <= i < |r| && Root(f, i) && i != x ==> r[i] < d
    ensures Affordable(f, r[x := d - 1], d)
    ensures Sum(RootCosts(f, r[x := d - 1])) <= Sum(RootCosts(f, r))
  {
    hide RootCosts, RootShares, Sum;
    var v := RootShares(f, r, d);
    SumEven(v[x := 0]);
    SumUpdate(v, x, 0);
    SumUpdate(v, x, 2);
    assert Shl(1, 1) == 2;
    assert RootShares(f, r[x := d - 1], d) == v[x := 2];
    SetCost(f, r, x, d - 1);
    assert f.freq[x] * (d - 1) <= f.freq[x] * d;
  }

  lemma SetCost(f: Forest, r: seq<nat>, i: nat, x: nat)
    requires |f.freq| == |f.owner| == |r| && i < |r| && Root(f, i)
    ensures Sum(RootCosts(f, r[i := x])) + f.freq[i] * r[i] == Sum(RootCosts(f, r)) + f.freq[i] * x
  {
    assert RootCosts(f, r[i := x]) == RootCosts(f, r)[i := f.freq[i] * x];
    SumUpdate(RootCosts(f, r), i, f.freq[i] * x);
  }

  lemma SetShare(f: Forest, r: seq<nat>, i: nat, x: nat, d: nat)
    requires |f.freq| == |f.owner| == |r| && i < |r| && Root(f, i)
    requires RootFits(f, r, d) && x <= d
    ensures RootFits(f, r[i := x], d)
    ensures Sum(RootShares(f, r[i := x], d)) + Shl(1, d - r[i]) == Sum(RootShares(f, r, d)) + Shl(1, d - x)
  {
    assert RootShares(f, r[i := x], d) == RootShares(f, r, d)[i := Shl(1, d - x)];
    SumUpdate(RootShares(f, r, d), i, Shl(1, d - x));
  }

  lemma Rearrange(a: nat, b: nat, x: nat, y: nat)
    requires a <= b && x <= y
    ensures a * y + b * x <= a * x + b * y
  {
    assert (b - a) * (y - x) >= 0;
  }

  function Swap(r: seq<nat>, i: nat, j: nat): seq<nat>
    requires i < |r| && j < |r|
  {
    r[i := r[j]][j := r[i]]
  }

  lemma SwapShares(f: Forest, r: seq<nat>, i: nat, j: nat, d: nat)
    requires |f.freq| == |f.owner| == |r| && Affordable(f, r, d)
    requires Root(f, i) && Root(f, j) && i != j
    ensures Affordable(f, Swap(r, i, j), d)
  {
    hide Shl, RootShares, Sum;
    SetShare(f, r, i, r[j], d);
    SetShare(f, r[i := r[j]], j, r[i], d);
  }

  /** Giving the longer code to the rarer of two roots costs no more. */
  lemma Exchange(f: Forest, r: seq<nat>, i: nat, j: nat)
    requires |f.freq| == |f.owner| == |r|
    requires Root(f, i) && Root(f, j) && i != j && f.freq[i] <= f.freq[j] && r[i] <= r[j]
    ensures Sum(RootCosts(f, Swap(r, i, j))) <= Sum(RootCosts(f, r))
  {
    SetCost(f, r, i, r[j]);
    SetCost(f, r[i := r[j]], j, r[i]);
    Rearrange(f.freq[i], f.freq[j], r[i], r[j]);
  }

  lemma JoinShares(f: Forest, r: seq<nat>, c1: nat, c2: nat, d: nat)
    requires Indexed(f) && |f.freq| == |r| && 0 < d
    requires Affordable(f, r, d) && Root(f, c1) && Root(f, c2) && c1 != c2 && r[c1] == r[c2] == d
    ensures Affordable(Merge(f, c1, c2), r[c1 := d - 1], d)
  {
    MergeIndexed(f, c1, c2);
    assert Shl(1, 0) == 1 && Shl(1, 1) == 2;
    var v := RootShares(f, r, d);
    assert RootShares(Merge(f, c1, c2), r[c1 := d - 1], d) == v[c1 := 2][c2 := 0];
    SumUpdate(v, c1, 2);
    SumUpdate(v[c1 := 2], c2, 0);
  }

  lemma OneLevel(a: nat, b: nat, d: nat)
    requires 0 < d
    ensures (a + b) * (d - 1) + a + b == a * d + b * d
  {
  }

  lemma JoinCosts(f: Forest, r: seq<nat>, c1: nat, c2: nat, d: nat)
    requires Indexed(f) && |f.freq| == |r| && 0 < d
    requires Root(f, c1) && Root(f, c2) && c1 != c2 && r[c1] == r[c2] == d
    ensures Sum(RootCosts(Merge(f, c1, c2), r[c1 := d - 1])) + f.freq[c1] + f.freq[c2] == Sum(RootCosts(f, r))
  {
    MergeIndexed(f, c1, c2);
    var k := RootCosts(f, r);
    var merged := (f.freq[c1] + f.freq[c2]) * (d - 1);
    assert RootCosts(Merge(f, c1, c2), r[c1 := d - 1]) == k[c1 := merged][c2 := 0];
    SumUpdate(k, c1, merged);
    SumUpdate(k[c1 := merged], c2, 0);
    OneLevel(f.freq[c1], f.freq[c2], d);
  }

  /** The two first roots can always be moved to the deepest level, at no cost. */
  lemma Sink(f: Forest, r: seq<nat>, c1: nat, c2: nat, x: nat, y: nat, d: nat) returns (r': seq<nat>)
    requires |f.freq| == |f.owner| == |r| && Affordable(f, r, d) && TwoSmallest(f, c1, c2)
    requires Root(f, x) && Root(f, y) && x != y && r[x] == r[y] == d
    ensures |r'| == |r| && Affordable(f, r', d) && r'[c1] == r'[c2] == d
    ensures Sum(RootCosts(f, r')) <= Sum(RootCosts(f, r))
  {
    hide RootShares, Sum, RootCosts, Shl;
    r' := r;
    var z := if x == c2 then y else x;
    if r[c1] < d {
      SwapShares(f, r, c1, z, d);
      Exchange(f, r, c1, z);
      r' := Swap(r, c1, z);
    }
    if r'[c2] < d {
      var u := if x != c1 && r'[x] == d then x else if y != c1 && r'[y] == d then y else z;
      SwapShares(f, r', c2, u, d);
      Exchange(f, r', c2, u);
      r' := Swap(r', c2, u);
    }
  }

  /** Two trees do not fit at the top level. */
  lemma TwoRootsFull(f: Forest, r: seq<nat>, c1: nat, c2: nat)
    requires Indexed(f) && |f.freq| == |r| && TwoSmallest(f, c1, c2)
    ensures !Affordable(f, r, 0)
  {
    if Affordable(f, r, 0) {
      SumBoundsTwo(RootShares(f, r, 0), c1, c2);
    }
  }

  /** Whatever lengths the roots are given, merging the first two of them leaves lengths that cost no more. */
  lemma {:induction false} Reduce(f: Forest, r: seq<nat>, c1: nat, c2: nat, d: nat) returns (r': seq<nat>, d': nat)
    requires Indexed(f) && |f.freq| == |r| && Affordable(f, r, d) && TwoSmallest(f, c1, c2)
    ensures |r'| == |r| && Affordable(Merge(f, c1, c2), r', d')
    ensures Sum(RootCosts(Merge(f, c1, c2), r')) + f.freq[c1] + f.freq[c2] <= Sum(RootCosts(f, r))
    decreases d
  {
    hide Before, Sum, Shl, RootShares, RootCosts, Merge;
    if d == 0 {
      TwoRootsFull(f, r, c1, c2);
      assert false;
    } else if x: nat :| Root(f, x) && r[x] == d {
      if y: nat :| Root(f, y) && y != x && r[y] == d {
        r' := Sink(f, r, c1, c2, x, y, d);
        JoinShares(f, r', c1, c2, d);
        JoinCosts(f, r', c1, c2, d);
        r', d' := r'[c1 := d - 1], d;
      } else {
        ShortenLoner(f, r, d, x);
        DropLevel(f, r[x := d - 1], d);
        r', d' := Reduce(f, r[x := d - 1], c1, c2, d - 1);
      }
    } else {
      DropLevel(f, r, d);
      r', d' := Reduce(f, r, c1, c2, d - 1);
    }
  }

  /** Lengths r for the roots, on top of the depths so far, cost no more than l. */
  ghost predicate Beats(f: Forest, w: seq<nat>, l: seq<nat>, r: seq<nat>, d: nat)
    requires |f.freq| == |f.owner| == |f.size| == |w| == |l|
  {
    |r| == |w| && Affordable(f, r, d) && Cost(w, f.size) + Sum(RootCosts(f, r)) <= Cost(w, l)
  }

  /** Any lengths that satisfy Kraft's inequality cost at least the depths so far and some lengths for the roots. */
  ghost predicate Minimal(f: Forest, w: seq<nat>)
    requires |f.freq| == |f.owner| == |f.size| == |w|
  {
    forall l: seq<nat>, d :: |l| == |w| && Kraft(l, d) ==> exists r, e :: Beats(f, w, l, r, e)
  }

  lemma StartMinimal(w: seq<nat>)
    ensures Minimal(Start(w), w)
  {
    var f := Start(w);
    SumZero(Products(w, f.size));
    forall l: seq<nat>, d | |l| == |w| && Kraft(l, d)
      ensures exists r, e :: Beats(f, w, l, r, e)
    {
      assert RootShares(f, l, d) == Shares(l, d);
      assert RootCosts(f, l) == Products(w, l);
      assert Beats(f, w, l, l, d);
    }
  }

  lemma MergeCost(f: Forest, w: seq<nat>, c1: nat, c2: nat)
    requires Shape(f, w) && Root(f, c1) && Root(f, c2) && c1 != c2
    ensures Cost(w, Merge(f, c1, c2).size) == Cost(w, f.size) + f.freq[c1] + f.freq[c2]
  {
    hide Products, Fits, Shares, Kraft, Sum;
    var g := Merge(f, c1, c2);
    var a, b := Masked(w, f.owner, c1), Masked(w, f.owner, c2);
    var both: seq<nat> := seq(|w|, s requires 0 <= s < |w| => a[s] + b[s]);
    SumAdd(both, a, b);
    forall s | 0 <= s < |w|
      ensures w[s] * g.size[s] == w[s] * f.size[s] + both[s]
    {
      assert w[s] * (f.size[s] + 1) == w[s] * f.size[s] + w[s];
    }
    SumAdd(Products(w, g.size), Products(w, f.size), both);
  }

  lemma MergeMinimal(f: Forest, w: seq<nat>, c1: nat, c2: nat)
    requires Shape(f, w) && TwoSmallest(f, c1, c2) && Minimal(f, w)
    ensures Minimal(Merge(f, c1, c2), w)
  {
    hide Kraft, Sum, Cost, RootCosts, Affordable, Before, Masked;
    var g := Merge(f, c1, c2);
    MergeCost(f, w, c1, c2);
    forall l: seq<nat>, d | |l| == |w| && Kraft(l, d)
      ensures exists r, e :: Beats(g, w, l, r, e)
    {
      var r, e :| Beats(f, w, l, r, e);
      var r', e' := Reduce(f, r, c1, c2, e);
      assert Beats(g, w, l, r', e');
    }
  }

  /** At the end the depths themselves cost no more than any lengths that satisfy Kraft's inequality. */
  lemma MinimalCost(f: Forest, w: seq<nat>, l: seq<nat>, d: nat)
    requires |f.freq| == |f.owner| == |f.size| == |w| == |l|
    requires Minimal(f, w) && Kraft(l, d)
    ensures Cost(w, f.size) <= Cost(w, l)
  {
    var r, e :| Beats(f, w, l, r, e);
  }
}
