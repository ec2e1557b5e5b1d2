/**
 * From which value the DC coefficient of a block is predicted: the one that its component last sent in the same
 * restart interval, found by looking back, and zero if there is none.
 */
module DcPrediction {
  /** The last value sent for component c. */
  function LastSent(sent: seq<(nat, int)>, c: nat): int
    decreases |sent|
  {
    if sent == [] then 0
    else
      var n := |sent| - 1;
      if sent[n].0 == c then sent[n].1 else LastSent(sent[..n], c)
  }

  lemma {:induction false} NothingSent(sent: seq<(nat, int)>, c: nat)
    requires forall i :: 0 <= i < |sent| ==> sent[i].0 != c
    ensures LastSent(sent, c) == 0
    decreases |sent|
  {
    if sent != [] {
      NothingSent(sent[..|sent| - 1], c);
    }
  }

  lemma {:induction false} SentLast(sent: seq<(nat, int)>, i: nat, c: nat)
    requires i < |sent| && sent[i].0 == c && forall j :: i < j < |sent| ==> sent[j].0 != c
    ensures LastSent(sent, c) == sent[i].1
    decreases |sent|
  {
    if i < |sent| - 1 {
      SentLast(sent[..|sent| - 1], i, c);
    }
  }

  /** The predictions that an encoder keeps are those found by looking back. */
  predicate Remembers(last: seq<int>, sent: seq<(nat, int)>) {
    forall c :: 0 <= c < |last| ==> last[c] == LastSent(sent, c)
  }

  lemma RemembersNext(last: seq<int>, sent: seq<(nat, int)>, c: nat, v: int)
    requires c < |last| && Remembers(last, sent)
    ensures Remembers(last[c := v], sent + [(c, v)])
  {
    var more := sent + [(c, v)];
    assert more[..|sent|] == sent;
  }
}
