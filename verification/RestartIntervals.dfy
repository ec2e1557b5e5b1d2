/** Cutting a scan into restart intervals. */
module RestartIntervals {
  /** The units of each restart interval, the first of which has togo units left. */
  function Intervals<T>(interval: nat, togo: nat, items: seq<T>): (r: seq<seq<T>>)
    ensures |r| > 0
    decreases |items|, if togo == 0 then 1 else 0
  {
    if items == [] then [[]]
    else if interval > 0 && togo == 0 then [[]] + Intervals(interval, interval, items)
    else
      var more := Intervals(interval, if interval > 0 then togo - 1 else togo, items[1..]);
      [[items[0]] + more[0]] + more[1..]
  }

  function Joined<T>(ints: seq<seq<T>>): seq<T> {
    if ints == [] then [] else ints[0] + Joined(ints[1..])
  }

  /** The restart intervals are the scan, in order. */
  lemma {:induction false} IntervalsJoin<T>(interval: nat, togo: nat, items: seq<T>)
    ensures Joined(Intervals(interval, togo, items)) == items
    decreases |items|, if togo == 0 then 1 else 0
  {
    if items == [] {
      var none: seq<seq<T>> := [[]];
      assert none[1..] == [];
    } else if interval > 0 && togo == 0 {
      IntervalsJoin(interval, interval, items);
      var more := Intervals(interval, interval, items);
      assert ([[]] + more)[1..] == more;
    } else {
      var togo' := if interval > 0 then togo - 1 else togo;
      IntervalsJoin(interval, togo', items[1..]);
      var more := Intervals(interval, togo', items[1..]);
      assert ([[items[0]] + more[0]] + more[1..])[1..] == more[1..];
      assert [items[0]] + (more[0] + Joined(more[1..])) == ([items[0]] + more[0]) + Joined(more[1..]);
    }
  }

  /** Every interval but the first and the last has the size asked for. */
  ghost predicate Even<T>(interval: nat, togo: nat, ints: seq<seq<T>>)
    requires ints != []
  {
    if |ints| == 1 then interval > 0 ==> |ints[0]| <= togo
    else
      interval > 0 && |ints[0]| == togo && 0 < |ints[|ints| - 1]| <= interval
      && forall i :: 0 < i < |ints| - 1 ==> |ints[i]| == interval
  }

  /** A scan is cut after every interval. */
  lemma {:induction false} IntervalSizes<T>(interval: nat, togo: nat, items: seq<T>)
    ensures Even(interval, togo, Intervals(interval, togo, items))
    decreases |items|, if togo == 0 then 1 else 0
  {
    if items != [] {
      if interval > 0 && togo == 0 {
        IntervalSizes(interval, interval, items);
      } else {
        IntervalSizes(interval, if interval > 0 then togo - 1 else togo, items[1..]);
      }
    }
  }

  function Sizes<T>(ints: seq<seq<T>>): (r: seq<nat>)
    ensures |r| == |ints| && forall k :: 0 <= k < |ints| ==> r[k] == |ints[k]|
  {
    seq(|ints|, k requires 0 <= k < |ints| => |ints[k]|)
  }

  /** The sizes of the restart intervals of n units. */
  function Quotas(interval: nat, n: nat): seq<nat> {
    Sizes(Intervals(interval, interval, seq(n, _ => ())))
  }

  // Cutting sequences that correspond.

  predicate AllRelated<T, U>(xs: seq<T>, ys: seq<U>, related: (T, U) -> bool) {
    |xs| == |ys| && forall i :: 0 <= i < |xs| ==> related(xs[i], ys[i])
  }

  predicate CutsRelated<T, U>(a: seq<seq<T>>, b: seq<seq<U>>, related: (T, U) -> bool) {
    |a| == |b| && forall k :: 0 <= k < |a| ==> AllRelated(a[k], b[k], related)
  }

  lemma LongerCut<T, U>(x: T, y: U, a: seq<seq<T>>, b: seq<seq<U>>, related: (T, U) -> bool)
    requires a != [] && b != [] && CutsRelated(a, b, related) && related(x, y)
    ensures CutsRelated([[x] + a[0]] + a[1..], [[y] + b[0]] + b[1..], related)
  {
    assert AllRelated(a[0], b[0], related);
    assert AllRelated([x] + a[0], [y] + b[0], related);
    forall k | 1 <= k < |a|
      ensures AllRelated(([[x] + a[0]] + a[1..])[k], ([[y] + b[0]] + b[1..])[k], related)
    {
      assert AllRelated(a[k], b[k], related);
    }
  }

  /** Sequences whose elements correspond are cut into intervals that correspond. */
  lemma {:induction false} SameCuts<T, U>(interval: nat, togo: nat, xs: seq<T>, ys: seq<U>, related: (T, U) -> bool)
    requires AllRelated(xs, ys, related)
    ensures CutsRelated(Intervals(interval, togo, xs), Intervals(interval, togo, ys), related)
    decreases |xs|, if togo == 0 then 1 else 0
  {
    if xs != [] {
      if interval > 0 && togo == 0 {
        SameCuts(interval, interval, xs, ys, related);
        var a, b := Intervals(interval, interval, xs), Intervals(interval, interval, ys);
        forall k | 1 <= k < |a| + 1
          ensures AllRelated(([[]] + a)[k], ([[]] + b)[k], related)
        {
          assert AllRelated(a[k - 1], b[k - 1], related);
        }
      } else {
        var togo' := if interval > 0 then togo - 1 else togo;
        SameCuts(interval, togo', xs[1..], ys[1..], related);
        LongerCut(xs[0], ys[0], Intervals(interval, togo', xs[1..]), Intervals(interval, togo', ys[1..]), related);
      }
    }
  }

  lemma QuotasOf<T>(interval: nat, items: seq<T>)
    ensures Quotas(interval, |items|) == Sizes(Intervals(interval, interval, items))
  {
    var units, related := seq(|items|, _ => ()), (x: T, u: ()) => true;
    var a, b := Intervals(interval, interval, items), Intervals(interval, interval, units);
    SameCuts(interval, interval, items, units, related);
    forall k | 0 <= k < |a|
      ensures Sizes(a)[k] == Sizes(b)[k]
    {
      assert AllRelated(a[k], b[k], related);
    }
  }
}
