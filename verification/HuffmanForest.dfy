/**
 * The forest that the merge loop of clause K.2 of T.81 keeps in its arrays, and what every merge keeps:
 * the Kraft equality of each tree, minimal total cost, and that the pseudo-symbol is deepest.
 */
module HuffmanForest {
  import opened Bytes
  import opened Sums

  /** The counts are assumed to sum to at most this, and a merged slot holds one more. */
  const LIMIT := 1_000_000_000

  /**
   * One slot a symbol. A slot that owns itself is the root of a tree and holds the tree's count;
   * size is the depth of each symbol in its tree.
   */
  datatype Forest = Forest(freq: seq<nat>, owner: seq<nat>, size: seq<nat>)

  predicate Root(f: Forest, i: int) {
    0 <= i < |f.freq| && i < |f.owner| && f.owner[i] == i
  }

  /** The values of the symbols in the tree of slot r, zero elsewhere. */
  function Masked(v: seq<nat>, owner: seq<nat>, r: nat): (m: seq<nat>)
    requires |v| == |owner|
    ensures |m| == |v|
    ensures forall s :: 0 <= s < |v| ==> m[s] == if owner[s] == r then v[s] else 0
  {
    seq(|v|, s requires 0 <= s < |v| => if owner[s] == r then v[s] else 0)
  }

  ghost predicate Shape(f: Forest, w: seq<nat>) {
    && |f.freq| == |f.owner| == |f.size| == |w|
    && (forall s :: 0 <= s < |w| ==> f.owner[s] < |w| && f.owner[f.owner[s]] == f.owner[s])
    && (forall r :: Root(f, r) ==> 0 < f.freq[r] && f.freq[r] == Sum(Masked(w, f.owner, r)))
    && (forall r :: 0 <= r < |w| && !Root(f, r) ==> f.freq[r] == LIMIT + 1)
  }

  function Start(w: seq<nat>): Forest {
    Forest(w, seq(|w|, i => i), seq(|w|, i => 0))
  }

  /** Slot i is taken before slot j: it has the smaller count, or the same count and a larger index. */
  predicate Before(freq: seq<nat>, i: nat, j: nat)
    requires i < |freq| && j < |freq|
  {
    freq[i] < freq[j] || (freq[i] == freq[j] && i > j)
  }

  /** c1 and c2 are the first and the second root in the order of Before. */
  ghost predicate TwoSmallest(f: Forest, c1: int, c2: int) {
    && Root(f, c1) && Root(f, c2) && c1 != c2 && Before(f.freq, c1, c2)
    && (forall r :: Root(f, r) && r != c1 && r != c2 ==> Before(f.freq, c2, r))
  }

  /** The two trees become one: every symbol in them moves one level down. */
  function Merge(f: Forest, c1: nat, c2: nat): (g: Forest)
    requires |f.freq| == |f.owner| == |f.size| && c1 < |f.freq| && c2 < |f.freq|
    ensures |g.freq| == |g.owner| == |g.size| == |f.freq|
    ensures g.freq == f.freq[c1 := f.freq[c1] + f.freq[c2]][c2 := LIMIT + 1]
    ensures forall s :: 0 <= s < |f.owner| ==> g.owner[s] == if f.owner[s] == c2 then c1 else f.owner[s]
    ensures forall s :: 0 <= s < |f.size| ==>
      g.size[s] == if f.owner[s] == c1 || f.owner[s] == c2 then f.size[s] + 1 else f.size[s]
  {
    Forest(f.freq[c1 := f.freq[c1] + f.freq[c2]][c2 := LIMIT + 1],
           seq(|f.owner|, s requires 0 <= s < |f.owner| => if f.owner[s] == c2 then c1 else f.owner[s]),
           seq(|f.size|, s requires 0 <= s < |f.size| =>
             if f.owner[s] == c1 || f.owner[s] == c2 then f.size[s] + 1 else f.size[s]))
  }

  lemma {:induction false} MaskedSingle(w: seq<nat>, owner: seq<nat>, r: nat)
    requires |w| == |owner| && r < |w|
    requires forall s :: 0 <= s < |w| ==> owner[s] == s
    ensures Sum(Masked(w, owner, r)) == w[r]
  {
    var m := Masked(w, owner, r);
    SumUpdate(m, r, 0);
    SumZero(m[r := 0]);
  }

  lemma StartShape(w: seq<nat>)
    requires forall i :: 0 <= i < |w| ==> 0 < w[i]
    ensures Shape(Start(w), w)
  {
    var f := Start(w);
    forall r | Root(f, r)
      ensures f.freq[r] == Sum(Masked(w, f.owner, r))
    {
      MaskedSingle(w, f.owner, r);
    }
  }

  lemma MergeMasked(f: Forest, c1: nat, c2: nat, v: seq<nat>, r: nat)
    requires |f.freq| == |f.owner| == |f.size| == |v| && c1 < |v| && c2 < |v| && c1 != c2
    ensures r == c1 ==>
      Sum(Masked(v, Merge(f, c1, c2).owner, r)) == Sum(Masked(v, f.owner, c1)) + Sum(Masked(v, f.owner, c2))
    ensures r != c1 && r != c2 ==> Sum(Masked(v, Merge(f, c1, c2).owner, r)) == Sum(Masked(v, f.owner, r))
  {
    var g := Merge(f, c1, c2);
    if r == c1 {
      SumAdd(Masked(v, g.owner, c1), Masked(v, f.owner, c1), Masked(v, f.owner, c2));
    } else if r != c2 {
      assert Masked(v, g.owner, r) == Masked(v, f.owner, r);
    }
  }

  lemma MergeShape(f: Forest, w: seq<nat>, c1: nat, c2: nat)
    requires Shape(f, w) && Root(f, c1) && Root(f, c2) && c1 != c2
    ensures Shape(Merge(f, c1, c2), w)
  {
    var g := Merge(f, c1, c2);
    forall r | Root(g, r)
      ensures 0 < g.freq[r] && g.freq[r] == Sum(Masked(w, g.owner, r))
    {
      MergeMasked(f, c1, c2, w, r);
      assert Root(f, r);
    }
  }

  /** The counts of two trees never add up to more than the total. */
  lemma TwoRootsBound(f: Forest, w: seq<nat>, c1: nat, c2: nat)
    requires Shape(f, w) && Root(f, c1) && Root(f, c2) && c1 != c2
    ensures f.freq[c1] + f.freq[c2] <= Sum(w)
  {
    var a, b := Masked(w, f.owner, c1), Masked(w, f.owner, c2);
    var both: seq<nat> := seq(|w|, s requires 0 <= s < |w| => a[s] + b[s]);
    SumAdd(both, a, b);
    SumMonotone(both, w);
  }

  lemma RootBound(f: Forest, w: seq<nat>, r: nat)
    requires Shape(f, w) && Root(f, r)
    ensures f.freq[r] <= Sum(w)
  {
    SumMonotone(Masked(w, f.owner, r), w);
  }

  // The Kraft equality of every tree.

  /** Every symbol's share of the code space, in units of the deepest level d. */
  function Shares(size: seq<nat>, d: nat): (v: seq<nat>)
    requires forall s :: 0 <= s < |size| ==> size[s] <= d
    ensures |v| == |size|
    ensures forall s :: 0 <= s < |size| ==> v[s] == Shl(1, d - size[s])
  {
    seq(|size|, s requires 0 <= s < |size| => Shl(1, d - size[s]))
  }

  predicate Fits(size: seq<nat>, d: nat) {
    forall s :: 0 <= s < |size| ==> size[s] <= d
  }

  /** Each tree fills the whole code space. */
  ghost predicate Full(f: Forest, d: nat)
    requires |f.freq| == |f.owner| == |f.size|
  {
    && Fits(f.size, d)
    && (forall r :: Root(f, r) ==> Sum(Masked(Shares(f.size, d), f.owner, r)) == Shl(1, d))
  }

  lemma StartFull(w: seq<nat>, d: nat)
    ensures Full(Start(w), d)
  {
    var f := Start(w);
    forall r | Root(f, r)
      ensures Sum(Masked(Shares(f.size, d), f.owner, r)) == Shl(1, d)
    {
      MaskedSingle(Shares(f.size, d), f.owner, r);
    }
  }

  /** A tree whose symbols all moved one level down takes half as much of the code space. */
  lemma LowerTree(v: seq<nat>, v': seq<nat>, owner: seq<nat>, r: nat)
    requires |v| == |v'| == |owner|
    requires forall s :: 0 <= s < |v| && owner[s] == r ==> v[s] == 2 * v'[s]
    ensures Sum(Masked(v, owner, r)) == 2 * Sum(Masked(v', owner, r))
  {
    SumAdd(Masked(v, owner, r), Masked(v', owner, r), Masked(v', owner, r));
  }

  lemma LowerShare(size: nat, d: nat)
    requires size < d
    ensures Shl(1, d - size) == 2 * Shl(1, d - (size + 1))
  {
  }

  lemma MergeShares(f: Forest, c1: nat, c2: nat, d: nat)
    requires |f.freq| == |f.owner| == |f.size| && c1 < |f.freq| && c2 < |f.freq|
    requires Fits(f.size, d) && Fits(Merge(f, c1, c2).size, d)
    ensures forall s :: 0 <= s < |f.size| ==>
      Shares(f.size, d)[s] == (if f.owner[s] == c1 || f.owner[s] == c2 then 2 else 1)
                              * Shares(Merge(f, c1, c2).size, d)[s]
  {
    var g := Merge(f, c1, c2);
    forall s | 0 <= s < |f.size|
      ensures Shares(f.size, d)[s] == (if f.owner[s] == c1 || f.owner[s] == c2 then 2 else 1) * Shares(g.size, d)[s]
    {
      assert g.size[s] <= d;
      if f.owner[s] == c1 || f.owner[s] == c2 {
        LowerShare(f.size[s], d);
      }
    }
  }

  lemma MergeFull(f: Forest, c1: nat, c2: nat, d: nat)
    requires |f.freq| == |f.owner| == |f.size|
    requires Root(f, c1) && Root(f, c2) && c1 != c2
    requires Full(f, d) && Fits(Merge(f, c1, c2).size, d)
    ensures Full(Merge(f, c1, c2), d)
  {
    hide Masked, Sum, Shl;
    var g := Merge(f, c1, c2);
    var v, v' := Shares(f.size, d), Shares(g.size, d);
    MergeShares(f, c1, c2, d);
    LowerTree(v, v', f.owner, c1);
    LowerTree(v, v', f.owner, c2);
    forall r | Root(g, r)
      ensures Sum(Masked(v', g.owner, r)) == Shl(1, d)
    {
      MergeMasked(f, c1, c2, v', r);
      if r != c1 {
        assert Root(f, r);
        assert Masked(v', f.owner, r) == Masked(v, f.owner, r);
      }
    }
  }

  // The pseudo-symbol is deepest.

  ghost predicate Indexed(f: Forest) {
    && |f.freq| == |f.owner| == |f.size|
    && (forall s :: 0 <= s < |f.owner| ==> f.owner[s] < |f.owner| && f.owner[f.owner[s]] == f.owner[s])
  }

  ghost predicate AsDeep(f: Forest, p: nat)
    requires Indexed(f) && p < |f.freq|
  {
    forall s :: 0 <= s < |f.size| ==> f.size[s] <= f.size[p]
  }

  ghost predicate DeepFirst(f: Forest, p: nat)
    requires Indexed(f) && p < |f.freq|
  {
    forall s :: 0 <= s < |f.size| && f.size[s] == f.size[p] && f.owner[s] != f.owner[p] ==>
      Before(f.freq, f.owner[p], f.owner[s])
  }

  /** The tree that slots i and j would form, with i as its root, comes after the tree of slot t. */
  predicate FormsLater(freq: seq<nat>, t: nat, i: nat, j: nat)
    requires t < |freq| && i < |freq| && j < |freq|
  {
    freq[i] + freq[j] > freq[t] || (freq[i] + freq[j] == freq[t] && i < t)
  }

  ghost predicate NewLater(f: Forest, t: nat)
    requires Indexed(f) && t < |f.freq|
  {
    forall i: nat, j: nat ::
      (Root(f, i) && Root(f, j) && i != j && i != t && j != t && Before(f.freq, i, j)) ==> FormsLater(f.freq, t, i, j)
  }

  /**
   * The symbol p is as deep as any symbol of the forest; its tree comes before every other tree that is
   * as deep, and before any tree that two others could form.
   */
  ghost predicate Deepest(f: Forest, p: nat)
    requires Indexed(f) && p < |f.freq|
  {
    AsDeep(f, p) && DeepFirst(f, p) && NewLater(f, f.owner[p])
  }

  /** A last symbol of the smallest possible count starts out before every other. */
  lemma StartDeepest(w: seq<nat>)
    requires w != [] && w[|w| - 1] == 1
    requires forall i :: 0 <= i < |w| ==> 0 < w[i]
    ensures Deepest(Start(w), |w| - 1)
  {
  }

  lemma MergeIndexed(f: Forest, c1: nat, c2: nat)
    requires Indexed(f) && Root(f, c1) && Root(f, c2) && c1 != c2
    ensures Indexed(Merge(f, c1, c2))
    ensures forall r :: Root(Merge(f, c1, c2), r) <==> Root(f, r) && r != c2
  {
  }

  lemma MergeAsDeep(f: Forest, c1: nat, c2: nat, p: nat)
    requires Indexed(f) && p < |f.freq| && AsDeep(f, p) && DeepFirst(f, p) && TwoSmallest(f, c1, c2)
    ensures Indexed(Merge(f, c1, c2)) && AsDeep(Merge(f, c1, c2), p)
  {
    MergeIndexed(f, c1, c2);
    var t := f.owner[p];
    assert Root(f, t);
    if t != c1 && t != c2 {
      assert Before(f.freq, c2, t) && Before(f.freq, c1, c2);
    }
  }

  lemma MergeDeepFirst(f: Forest, c1: nat, c2: nat, p: nat)
    requires Indexed(f) && p < |f.freq| && Deepest(f, p) && TwoSmallest(f, c1, c2)
    ensures Indexed(Merge(f, c1, c2)) && DeepFirst(Merge(f, c1, c2), p)
  {
    MergeIndexed(f, c1, c2);
    var t := f.owner[p];
    assert Root(f, t);
    if t != c1 && t != c2 {
      assert FormsLater(f.freq, t, c1, c2);
    }
  }

  lemma MergeNewLater(f: Forest, c1: nat, c2: nat, t: nat)
    requires Indexed(f) && Root(f, t) && TwoSmallest(f, c1, c2)
    requires forall r :: Root(f, r) ==> 0 < f.freq[r]
    requires NewLater(f, t)
    ensures Indexed(Merge(f, c1, c2))
    ensures NewLater(Merge(f, c1, c2), if t == c2 then c1 else t)
  {
    MergeIndexed(f, c1, c2);
    var g := Merge(f, c1, c2);
    var t' := if t == c2 then c1 else t;
    forall i: nat, j: nat | Root(g, i) && Root(g, j) && i != j && i != t' && j != t' && Before(g.freq, i, j)
      ensures FormsLater(g.freq, t', i, j)
    {
      if t' == c1 {
        assert Before(f.freq, c2, i) && Before(f.freq, c2, j);
      } else {
        assert FormsLater(f.freq, t, c1, c2);
        if i != c1 && j != c1 {
          assert FormsLater(f.freq, t, i, j);
        }
      }
    }
  }

  /** A merge of the two trees that come first keeps p deepest: ties go to the larger index. */
  lemma MergeDeepest(f: Forest, w: seq<nat>, c1: nat, c2: nat, p: nat)
    requires Shape(f, w) && p < |w| && Deepest(f, p) && TwoSmallest(f, c1, c2)
    ensures Shape(Merge(f, c1, c2), w)
    ensures Deepest(Merge(f, c1, c2), p)
  {
    MergeShape(f, w, c1, c2);
    MergeAsDeep(f, c1, c2, p);
    MergeDeepFirst(f, c1, c2, p);
    MergeNewLater(f, c1, c2, f.owner[p]);
  }
}
