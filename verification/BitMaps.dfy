/** Machine words as rows of flags, least significant first, and skipping over their zeros. */
module BitMaps {
  import opened Bytes
  import opened BitStrings
  import opened Coefficients
  import opened Words

  function Bitmap(v: seq<bit>): nat {
    if v == [] then 0 else v[0] + 2 * Bitmap(v[1..])
  }

  lemma {:induction false} BitmapAppend(v: seq<bit>, b: bit)
    ensures Bitmap(v + [b]) == Bitmap(v) + Shl(b, |v|)
    ensures Bitmap(v) < Pow2(|v|)
  {
    if v == [] {
      assert [b][1..] == [] && v + [b] == [b];
    } else {
      BitmapAppend(v[1..], b);
      assert (v + [b])[1..] == v[1..] + [b];
    }
  }

  /** Setting the next flag. */
  lemma SetFlag(v: seq<bit>, b: bit)
    ensures b == 1 ==> Or(Bitmap(v), Shl(1, |v|)) == Bitmap(v + [b])
    ensures b == 0 ==> Bitmap(v) == Bitmap(v + [b])
  {
    BitmapAppend(v, b);
    ShlZero(|v|);
    OrDisjoint(1, |v|, Bitmap(v));
    OrCommutes(Bitmap(v), Shl(1, |v|));
  }

  lemma {:induction false} BitmapZero(v: seq<bit>)
    ensures Bitmap(v) == 0 <==> forall i :: 0 <= i < |v| ==> v[i] == 0
  {
    if v != [] {
      BitmapZero(v[1..]);
      if forall i :: 0 <= i < |v| - 1 ==> v[1..][i] == 0 {
        assert forall i :: 1 <= i < |v| ==> v[i] == v[1..][i - 1];
      } else {
        var i :| 0 <= i < |v| - 1 && v[1..][i] != 0;
        assert v[i + 1] != 0;
      }
    }
  }

  /** A zero is not the last of flags that are not all zero. */
  lemma MoreFlags(v: seq<bit>)
    requires Bitmap(v) != 0 && Bitmap(v) % 2 == 0
    ensures |v| > 1
  {
    assert Bitmap(v[1..]) != 0;
  }

  /** Skips the zeros before the first flag. */
  method CountZeroes(x0: nat, ghost v: seq<bit>) returns (result: nat, x: nat)
    requires x0 == Bitmap(v) != 0
    ensures result < |v| && v[result] == 1 && forall i :: 0 <= i < result ==> v[i] == 0
    ensures x == Bitmap(v[result..])
  {
    result, x := 0, x0;
    assert v[0..] == v;
    while x % 2 == 0
      invariant result < |v| && x == Bitmap(v[result..]) != 0
      invariant forall i :: 0 <= i < result ==> v[i] == 0
      decreases |v| - result
    {
      assert v[result..][1..] == v[result + 1..];
      MoreFlags(v[result..]);
      result := result + 1;
      x := x / 2;
    }
  }

  /** Shifting the first flag out. */
  lemma ShiftFlag(v: seq<bit>, p: nat)
    requires p < |v|
    ensures Bitmap(v[p..]) / 2 == Bitmap(v[p + 1..]) && Bitmap(v[p..]) % 2 == v[p]
  {
    assert v[p..][1..] == v[p + 1..];
  }

  lemma {:induction false} ShrFlags(v: seq<bit>, p: nat, n: nat)
    requires p + n <= |v|
    ensures Shr(Bitmap(v[p..]), n) == Bitmap(v[p + n..])
    decreases n
  {
    if n > 0 {
      ShrFlags(v, p, n - 1);
      ShiftFlag(v, p + n - 1);
    }
  }
}
