/** Scan scripts: which ones are accepted, and what that means for every coefficient of every component. */
module ScanScript {

  /** The components of a scan, its band, and its bit positions. */
  datatype ScanInfo = ScanInfo(comps: seq<int>, ss: int, se: int, ah: int, al: int)

  datatype Verdict = Rejected | Accepted(progressive: bool, lossless: bool)

  const MAX_COMPS_IN_SCAN := 4
  const DCTSIZE2 := 64

  // What an accepted script is.

  /** At least one and at most four components, in the order of the frame header. */
  predicate ComponentsOk(s: ScanInfo, n: nat) {
    && 1 <= |s.comps| <= MAX_COMPS_IN_SCAN
    && (forall i :: 0 <= i < |s.comps| ==> 0 <= s.comps[i] < n)
    && (forall i :: 0 < i < |s.comps| ==> s.comps[i] > s.comps[i - 1])
  }

  function MaxBit(precision: nat): nat { if precision == 12 then 13 else 10 }

  /** DC and AC coefficients are not mixed, and AC scans are not interleaved. */
  predicate BandOk(s: ScanInfo, precision: nat) {
    && 0 <= s.ss < DCTSIZE2 && s.ss <= s.se < DCTSIZE2
    && 0 <= s.ah <= MaxBit(precision) && 0 <= s.al <= MaxBit(precision)
    && (if s.ss == 0 then s.se == 0 else |s.comps| == 1)
  }

  predicate Sends(s: ScanInfo, c: nat, k: nat) { c in s.comps && s.ss <= k <= s.se }

  /** The bit positions, high and low, at which the scans of a script send a coefficient. */
  function History(script: seq<ScanInfo>, c: nat, k: nat): (h: seq<(int, int)>)
    decreases |script|
  {
    if script == [] then []
    else
      var n := |script| - 1;
      History(script[..n], c, k) + if Sends(script[n], c, k) then [(script[n].ah, script[n].al)] else []
  }

  /** A coefficient is sent from the top down to some bit, and then bit by bit. */
  predicate Descends(h: seq<(int, int)>) {
    forall i :: 0 <= i < |h| ==> DescendsAt(h, i)
  }

  predicate DescendsAt(h: seq<(int, int)>, i: nat)
    requires i < |h|
  {
    if i == 0 then h[i].0 == 0 else h[i].0 == h[i - 1].1 && h[i].1 == h[i].0 - 1
  }

  /** The last bit position of a coefficient, -1 if it has not been sent. */
  function LastBit(script: seq<ScanInfo>, c: nat, k: nat): int {
    var h := History(script, c, k);
    if h == [] then -1 else h[|h| - 1].1
  }

  /** Every coefficient descends. */
  ghost predicate AllDescend(script: seq<ScanInfo>) {
    forall c: nat, k: nat :: Descends(History(script, c, k))
  }

  /** An earlier scan has DC data of the component. */
  predicate DcBefore(script: seq<ScanInfo>, i: nat)
    requires i < |script|
  {
    |script[i].comps| >= 1 && script[i].comps[0] >= 0 && DcSent(script[..i], script[i].comps[0])
  }

  /** Some scan has DC data of the component. */
  predicate DcSent(script: seq<ScanInfo>, c: nat) { History(script, c, 0) != [] }

  ghost predicate GoodProgressive(script: seq<ScanInfo>, n: nat, precision: nat) {
    && (forall i :: 0 <= i < |script| ==> ComponentsOk(script[i], n) && BandOk(script[i], precision))
    && AllDescend(script)
    && (forall i :: 0 <= i < |script| && script[i].ss > 0 ==> DcBefore(script, i))
    && (forall c: nat :: c < n ==> DcSent(script, c))
  }

  predicate SequentialScan(s: ScanInfo) { s.ss == 0 && s.se == DCTSIZE2 - 1 && s.ah == 0 && s.al == 0 }

  predicate LosslessScan(s: ScanInfo, precision: nat) { 1 <= s.ss <= 7 && s.se == 0 && s.ah == 0 && 0 <= s.al < precision }

  /** Some scan of the script has the component. */
  predicate Sent(script: seq<ScanInfo>, c: int) { exists i :: 0 <= i < |script| && c in script[i].comps }

  /** Every component is in exactly one scan. */
  predicate SentOnce(script: seq<ScanInfo>, n: nat) {
    && (forall c :: 0 <= c < n ==> Sent(script, c))
    && (forall i, c :: 0 <= i < |script| && c in script[i].comps ==> !Sent(script[..i], c))
  }

  predicate GoodSequential(script: seq<ScanInfo>, n: nat) {
    && (forall i :: 0 <= i < |script| ==> ComponentsOk(script[i], n) && SequentialScan(script[i]))
    && SentOnce(script, n)
  }

  predicate GoodLossless(script: seq<ScanInfo>, n: nat, precision: nat) {
    && (forall i :: 0 <= i < |script| ==> ComponentsOk(script[i], n) && LosslessScan(script[i], precision))
    && SentOnce(script, n)
  }

  // Histories grow.

  lemma {:induction false} HistoryConcat(a: seq<ScanInfo>, b: seq<ScanInfo>, c: nat, k: nat)
    ensures History(a + b, c, k) == History(a, c, k) + History(b, c, k)
    decreases |b|
  {
    if b == [] {
      assert a + b == a;
    } else {
      var n := |b| - 1;
      HistoryConcat(a, b[..n], c, k);
      assert (a + b)[..|a + b| - 1] == a + b[..n];
    }
  }

  /** A scan is in step with what was sent before it. */
  predicate InStep(before: seq<ScanInfo>, s: ScanInfo, c: nat, k: nat) {
    Sends(s, c, k) ==> if LastBit(before, c, k) < 0 then s.ah == 0 else s.ah == LastBit(before, c, k) && s.al == s.ah - 1
  }

  ghost predicate ScanInStep(before: seq<ScanInfo>, s: ScanInfo)
    requires |s.comps| >= 1
  {
    && (s.ss > 0 ==> s.comps[0] >= 0 && LastBit(before, s.comps[0], 0) >= 0)
    && AllInStep(before, s)
  }

  ghost predicate AllInStep(before: seq<ScanInfo>, s: ScanInfo) {
    forall c: nat, k: nat :: InStep(before, s, c, k)
  }

  /** The bit positions are not negative. */
  predicate Bits(script: seq<ScanInfo>) { forall i :: 0 <= i < |script| ==> script[i].al >= 0 }

  lemma {:induction false} LastBitSeen(script: seq<ScanInfo>, c: nat, k: nat)
    requires Bits(script)
    ensures LastBit(script, c, k) < 0 <==> History(script, c, k) == []
    decreases |script|
  {
    if script != [] {
      var n := |script| - 1;
      LastBitSeen(script[..n], c, k);
    }
  }

  lemma HistoryNext(script: seq<ScanInfo>, s: ScanInfo, c: nat, k: nat)
    ensures History(script + [s], c, k) == History(script, c, k) + if Sends(s, c, k) then [(s.ah, s.al)] else []
  {
    assert (script + [s])[..|script|] == script;
  }

  /** Being in step and descending are the same. */
  lemma StepDescends(before: seq<ScanInfo>, s: ScanInfo, c: nat, k: nat)
    requires Bits(before)
    ensures Descends(History(before + [s], c, k)) <==> Descends(History(before, c, k)) && InStep(before, s, c, k)
  {
    HistoryNext(before, s, c, k);
    LastBitSeen(before, c, k);
    var h, t := History(before, c, k), History(before + [s], c, k);
    assert forall i :: 0 <= i < |h| ==> DescendsAt(t, i) == DescendsAt(h, i);
    if Sends(s, c, k) {
      assert DescendsAt(t, |h|) == InStep(before, s, c, k);
      assert |t| == |h| + 1;
    } else {
      assert t == h;
    }
  }

  /** What descends in the end has descended all the time. */
  lemma PrefixDescends(script: seq<ScanInfo>, i: nat, c: nat, k: nat)
    requires i <= |script| && Descends(History(script, c, k))
    ensures Descends(History(script[..i], c, k))
  {
    HistoryConcat(script[..i], script[i..], c, k);
    assert script[..i] + script[i..] == script;
    var h, t := History(script[..i], c, k), History(script, c, k);
    assert forall j :: 0 <= j < |h| ==> DescendsAt(t, j) == DescendsAt(h, j);
  }

  // The validator.

  method ValidateComponents(s: ScanInfo, n: nat) returns (ok: bool)
    ensures ok <==> ComponentsOk(s, n)
  {
    var ncomps := |s.comps|;
    if ncomps <= 0 || ncomps > MAX_COMPS_IN_SCAN {
      return false;
    }
    var ci := 0;
    while ci < ncomps
      invariant ci <= ncomps
      invariant forall i :: 0 <= i < ci ==> 0 <= s.comps[i] < n
      invariant forall i :: 0 < i < ci ==> s.comps[i] > s.comps[i - 1]
    {
      var thisi := s.comps[ci];
      if thisi < 0 || thisi >= n {
        return false;
      }
      if ci > 0 && thisi <= s.comps[ci - 1] {
        return false;
      }
      ci := ci + 1;
    }
    return true;
  }

  /** The table of last bit positions, before a scan or in the middle of it. */
  ghost predicate Tracks(lastBitpos: array2<int>, before: seq<ScanInfo>)
    reads lastBitpos
  {
    forall c, k :: 0 <= c < lastBitpos.Length0 && 0 <= k < lastBitpos.Length1 ==> lastBitpos[c, k] == LastBit(before, c, k)
  }

  lemma LastBitNext(before: seq<ScanInfo>, s: ScanInfo, c: nat, k: nat)
    ensures LastBit(before + [s], c, k) == if Sends(s, c, k) then s.al else LastBit(before, c, k)
  {
    HistoryNext(before, s, c, k);
  }

  /** One component of a progressive scan. */
  method CheckComponent(lastBitpos: array2<int>, s: ScanInfo, c: nat, ghost before: seq<ScanInfo>) returns (ok: bool)
    requires c < lastBitpos.Length0 && lastBitpos.Length1 == DCTSIZE2 && 0 <= s.ss <= s.se < DCTSIZE2 && c in s.comps
    requires forall k :: 0 <= k < DCTSIZE2 ==> lastBitpos[c, k] == LastBit(before, c, k)
    modifies lastBitpos
    ensures ok <==> (s.ss > 0 ==> LastBit(before, c, 0) >= 0) && forall k: nat :: InStep(before, s, c, k)
    ensures ok ==> forall k :: 0 <= k < DCTSIZE2 ==> lastBitpos[c, k] == LastBit(before + [s], c, k)
    ensures forall d, k :: 0 <= d < lastBitpos.Length0 && d != c && 0 <= k < DCTSIZE2 ==> lastBitpos[d, k] == old(lastBitpos[d, k])
  {
    if s.ss != 0 && lastBitpos[c, 0] < 0 {
      return false;
    }
    var coefi := s.ss;
    while coefi <= s.se
      invariant s.ss <= coefi <= s.se + 1
      invariant forall k: nat :: k < coefi ==> InStep(before, s, c, k)
      invariant forall k :: 0 <= k < DCTSIZE2 ==> lastBitpos[c, k] == if s.ss <= k < coefi then s.al else LastBit(before, c, k)
      invariant forall d, k :: 0 <= d < lastBitpos.Length0 && d != c && 0 <= k < DCTSIZE2 ==> lastBitpos[d, k] == old(lastBitpos[d, k])
    {
      if lastBitpos[c, coefi] < 0 {
        if s.ah != 0 {
          assert !InStep(before, s, c, coefi);
          return false;
        }
      } else if s.ah != lastBitpos[c, coefi] || s.al != s.ah - 1 {
        assert !InStep(before, s, c, coefi);
        return false;
      }
      lastBitpos[c, coefi] := s.al;
      coefi := coefi + 1;
    }
    forall k | 0 <= k < DCTSIZE2
      ensures lastBitpos[c, k] == LastBit(before + [s], c, k)
    {
      LastBitNext(before, s, c, k);
    }
    return true;
  }

  lemma SortedDistinct(s: ScanInfo, n: nat, i: nat, j: nat)
    requires ComponentsOk(s, n) && i < j < |s.comps|
    ensures s.comps[i] < s.comps[j]
    decreases j - i
  {
    if i + 1 < j {
      SortedDistinct(s, n, i, j - 1);
    }
  }

  /** All components of a progressive scan. */
  method CheckProgressive(lastBitpos: array2<int>, s: ScanInfo, n: nat, precision: nat, ghost before: seq<ScanInfo>) returns (ok: bool)
    requires lastBitpos.Length0 == n && lastBitpos.Length1 == DCTSIZE2 && ComponentsOk(s, n) && Tracks(lastBitpos, before)
    modifies lastBitpos
    ensures ok <==> BandOk(s, precision) && ScanInStep(before, s)
    ensures ok ==> Tracks(lastBitpos, before + [s])
  {
    hide LastBit;
    var ncomps, maxAhAl := |s.comps|, if precision == 12 then 13 else 10;
    if s.ss < 0 || s.ss >= DCTSIZE2 || s.se < s.ss || s.se >= DCTSIZE2 || s.ah < 0 || s.ah > maxAhAl || s.al < 0 || s.al > maxAhAl {
      return false;
    }
    if s.ss == 0 {
      if s.se != 0 {
        return false;
      }
    } else if ncomps != 1 {
      return false;
    }
    var ci := 0;
    while ci < ncomps
      invariant ci <= ncomps
      invariant s.ss > 0 && ci > 0 ==> LastBit(before, s.comps[0], 0) >= 0
      invariant forall i, k: nat :: 0 <= i < ci ==> InStep(before, s, s.comps[i], k)
      invariant forall c, k :: 0 <= c < n && 0 <= k < DCTSIZE2 ==>
        lastBitpos[c, k] == LastBit(if c in s.comps[..ci] then before + [s] else before, c, k)
    {
      var c := s.comps[ci];
      forall i | 0 <= i < ci
        ensures s.comps[i] != c
      {
        SortedDistinct(s, n, i, ci);
      }
      assert c !in s.comps[..ci] && s.comps[..ci + 1] == s.comps[..ci] + [c];
      var fits := CheckComponent(lastBitpos, s, c, before);
      if !fits {
        return false;
      }
      ci := ci + 1;
    }
    assert s.comps[..ncomps] == s.comps;
    forall c: nat, k: nat
      ensures InStep(before, s, c, k)
    {
      if Sends(s, c, k) {
        var i :| 0 <= i < |s.comps| && s.comps[i] == c;
        assert InStep(before, s, s.comps[i], k);
      }
    }
    forall c, k | 0 <= c < n && 0 <= k < DCTSIZE2
      ensures lastBitpos[c, k] == LastBit(before + [s], c, k)
    {
      LastBitNext(before, s, c, k);
    }
    return true;
  }

  /** The components of a sequential or lossless scan, which must not have been sent before. */
  method CheckUnsent(componentSent: array<bool>, s: ScanInfo, n: nat, ghost before: seq<ScanInfo>) returns (ok: bool)
    requires componentSent.Length == n && ComponentsOk(s, n)
    requires forall c :: 0 <= c < n ==> componentSent[c] == Sent(before, c)
    modifies componentSent
    ensures ok <==> forall c :: c in s.comps ==> !Sent(before, c)
    ensures ok ==> forall c :: 0 <= c < n ==> componentSent[c] == Sent(before + [s], c)
  {
    var ci := 0;
    while ci < |s.comps|
      invariant ci <= |s.comps|
      invariant forall i :: 0 <= i < ci ==> !Sent(before, s.comps[i])
      invariant forall c :: 0 <= c < n ==> componentSent[c] == (Sent(before, c) || c in s.comps[..ci])
    {
      var thisi := s.comps[ci];
      forall i | 0 <= i < ci
        ensures s.comps[i] != thisi
      {
        SortedDistinct(s, n, i, ci);
      }
      assert thisi !in s.comps[..ci] && s.comps[..ci + 1] == s.comps[..ci] + [thisi];
      if componentSent[thisi] {
        return false;
      }
      componentSent[thisi] := true;
      ci := ci + 1;
    }
    assert s.comps[..|s.comps|] == s.comps;
    forall c | 0 <= c < n
      ensures Sent(before + [s], c) == (Sent(before, c) || c in s.comps)
    {
      SentNext(before, s, c);
    }
    return true;
  }

  lemma SentNext(before: seq<ScanInfo>, s: ScanInfo, c: int)
    ensures Sent(before + [s], c) == (Sent(before, c) || c in s.comps)
  {
    var all := before + [s];
    if Sent(before, c) {
      var i :| 0 <= i < |before| && c in before[i].comps;
      assert all[i] == before[i];
    }
    assert all[|before|] == s;
  }

  /** Being in step all the way and descending are the same. */
  lemma StepsDescend(before: seq<ScanInfo>, s: ScanInfo)
    requires Bits(before) && AllDescend(before)
    ensures AllInStep(before, s) <==> AllDescend(before + [s])
  {
    forall c: nat, k: nat
      ensures InStep(before, s, c, k) == Descends(History(before + [s], c, k))
    {
      StepDescends(before, s, c, k);
    }
  }

  /** A scan that is not in order spoils the script. */
  lemma Unscriptable(script: seq<ScanInfo>, i: nat, n: nat, precision: nat)
    requires i < |script| && GoodProgressive(script, n, precision)
    ensures ComponentsOk(script[i], n) && BandOk(script[i], precision) && ScanInStep(script[..i], script[i])
  {
    forall c: nat, k: nat
      ensures InStep(script[..i], script[i], c, k)
    {
      PrefixDescends(script, i + 1, c, k);
      assert script[..i + 1] == script[..i] + [script[i]];
      StepDescends(script[..i], script[i], c, k);
    }
    if script[i].ss > 0 {
      assert DcBefore(script, i);
      LastBitSeen(script[..i], script[i].comps[0], 0);
    }
  }

  lemma InOrder(script: seq<ScanInfo>, i: nat, n: nat, precision: nat)
    requires i < |script| && (forall j :: 0 <= j < i ==> BandOk(script[j], precision))
    requires ComponentsOk(script[i], n) && BandOk(script[i], precision) && ScanInStep(script[..i], script[i])
    requires AllDescend(script[..i])
    ensures AllDescend(script[..i + 1])
    ensures script[i].ss > 0 ==> DcBefore(script, i)
  {
    assert script[..i + 1] == script[..i] + [script[i]];
    StepsDescend(script[..i], script[i]);
    if script[i].ss > 0 {
      LastBitSeen(script[..i], script[i].comps[0], 0);
    }
  }

  /** The scans of a progressive script, one after the other. */
  method ValidateProgressive(script: seq<ScanInfo>, n: nat, precision: nat) returns (ok: bool)
    ensures ok <==> GoodProgressive(script, n, precision)
  {
    hide BandOk, ComponentsOk, InStep, ScanInStep, AllDescend, DcBefore;
    var lastBitpos := new int[n, DCTSIZE2]((_, _) => -1);
    var scanno := 0;
    NothingSent(script);
    while scanno < |script|
      invariant scanno <= |script| && lastBitpos.Length0 == n && lastBitpos.Length1 == DCTSIZE2
      invariant Tracks(lastBitpos, script[..scanno])
      invariant forall i :: 0 <= i < scanno ==> ComponentsOk(script[i], n) && BandOk(script[i], precision)
      invariant AllDescend(script[..scanno])
      invariant forall i :: 0 <= i < scanno && script[i].ss > 0 ==> DcBefore(script, i)
    {
      var s := script[scanno];
      assert script[..scanno + 1] == script[..scanno] + [s];
      var fits := ValidateComponents(s, n);
      if fits {
        fits := CheckProgressive(lastBitpos, s, n, precision, script[..scanno]);
      }
      if !fits {
        if GoodProgressive(script, n, precision) {
          Unscriptable(script, scanno, n, precision);
        }
        return false;
      }
      InOrder(script, scanno, n, precision);
      scanno := scanno + 1;
    }
    assert script[..|script|] == script;
    ok := AllDcSent(lastBitpos, script, n, precision);
  }

  lemma NothingSent(script: seq<ScanInfo>)
    ensures AllDescend(script[..0]) && forall c: nat, k: nat :: LastBit(script[..0], c, k) == -1
  {
  }

  /** Every component has had some DC data. */
  method AllDcSent(lastBitpos: array2<int>, script: seq<ScanInfo>, n: nat, ghost precision: nat) returns (ok: bool)
    requires lastBitpos.Length0 == n && lastBitpos.Length1 == DCTSIZE2 && Tracks(lastBitpos, script)
    requires forall i :: 0 <= i < |script| ==> BandOk(script[i], precision)
    ensures ok <==> forall c: nat :: c < n ==> DcSent(script, c)
  {
    var ci := 0;
    while ci < n
      invariant ci <= n && forall c: nat :: c < ci ==> DcSent(script, c)
    {
      LastBitSeen(script, ci, 0);
      if lastBitpos[ci, 0] < 0 {
        assert !DcSent(script, ci);
        return false;
      }
      ci := ci + 1;
    }
    return true;
  }

  /** The scans of a sequential or lossless script, one after the other. */
  method ValidateUnsplit(script: seq<ScanInfo>, n: nat, precision: nat, lossless: bool) returns (ok: bool)
    ensures ok <==> if lossless then GoodLossless(script, n, precision) else GoodSequential(script, n)
  {
    hide ComponentsOk, LosslessScan, SequentialScan, Sent;
    var componentSent := new bool[n](_ => false);
    var scanno := 0;
    assert forall c :: !Sent(script[..0], c) by {
      NothingSentYet(script);
    }
    while scanno < |script|
      invariant scanno <= |script| && componentSent.Length == n
      invariant forall c :: 0 <= c < n ==> componentSent[c] == Sent(script[..scanno], c)
      invariant forall i :: 0 <= i < scanno ==> ComponentsOk(script[i], n)
      invariant forall i :: 0 <= i < scanno ==> if lossless then LosslessScan(script[i], precision) else SequentialScan(script[i])
      invariant forall i, c :: 0 <= i < scanno && c in script[i].comps ==> !Sent(script[..i], c)
    {
      var s := script[scanno];
      assert script[..scanno + 1] == script[..scanno] + [s];
      var fits := ValidateComponents(s, n);
      if !fits {
        return false;
      }
      fits := CheckUnsplit(s, precision, lossless);
      if !fits {
        return false;
      }
      fits := CheckUnsent(componentSent, s, n, script[..scanno]);
      if !fits {
        return false;
      }
      scanno := scanno + 1;
    }
    assert script[..|script|] == script;
    var ci := 0;
    while ci < n
      invariant ci <= n && forall c :: 0 <= c < ci ==> Sent(script, c)
    {
      if !componentSent[ci] {
        return false;
      }
      ci := ci + 1;
    }
    return true;
  }

  lemma NothingSentYet(script: seq<ScanInfo>)
    ensures forall c :: !Sent(script[..0], c)
  {
  }

  method CheckUnsplit(s: ScanInfo, precision: nat, lossless: bool) returns (ok: bool)
    ensures ok <==> if lossless then LosslessScan(s, precision) else SequentialScan(s)
  {
    if lossless {
      if s.ss < 1 || s.ss > 7 || s.se != 0 || s.ah != 0 || s.al < 0 || s.al >= precision {
        return false;
      }
    } else if s.ss != 0 || s.se != DCTSIZE2 - 1 || s.ah != 0 || s.al != 0 {
      return false;
    }
    return true;
  }

  /** A script is accepted exactly if it is a good one of the kind its first scan announces. */
  method ValidateScript(script: seq<ScanInfo>, n: nat, precision: nat) returns (r: Verdict)
    ensures script == [] ==> r == Rejected
    ensures script != [] && script[0].ss != 0 && script[0].se == 0 ==>
      r == if GoodLossless(script, n, precision) then Accepted(false, true) else Rejected
    ensures script != [] && script[0].ss == 0 && script[0].se == DCTSIZE2 - 1 ==>
      r == if GoodSequential(script, n) then Accepted(false, false) else Rejected
    ensures script != [] && script[0].se != (if script[0].ss == 0 then DCTSIZE2 - 1 else 0) ==>
      r == if GoodProgressive(script, n, precision) then Accepted(true, false) else Rejected
  {
    if |script| <= 0 {
      return Rejected;
    }
    var progressive, lossless, ok := false, false, false;
    if script[0].ss != 0 && script[0].se == 0 {
      lossless := true;
    } else if script[0].ss != 0 || script[0].se != DCTSIZE2 - 1 {
      progressive := true;
    }
    if progressive {
      ok := ValidateProgressive(script, n, precision);
    } else {
      ok := ValidateUnsplit(script, n, precision, lossless);
    }
    r := if ok then Accepted(progressive, lossless) else Rejected;
  }

  /** In an accepted script of any kind, the first scan refines nothing. */
  lemma FirstScan(script: seq<ScanInfo>, n: nat, precision: nat)
    requires script != []
    requires GoodProgressive(script, n, precision) || GoodSequential(script, n) || GoodLossless(script, n, precision)
    ensures script[0].ah == 0
  {
    if GoodProgressive(script, n, precision) {
      Unscriptable(script, 0, n, precision);
      assert InStep(script[..0], script[0], script[0].comps[0], script[0].ss);
    }
  }

  // The standard progression.

  /** One scan for each of the first n components. */
  function Each(n: nat, ss: int, se: int, ah: int, al: int): (r: seq<ScanInfo>)
    ensures |r| == n
  {
    if n == 0 then [] else Each(n - 1, ss, se, ah, al) + [ScanInfo([n - 1], ss, se, ah, al)]
  }

  function FirstComponents(n: nat): (r: seq<int>)
    ensures |r| == n && forall i :: 0 <= i < n ==> r[i] == i
  {
    seq(n, i => i)
  }

  function DcScans(n: nat, ah: int, al: int): seq<ScanInfo> {
    if n <= MAX_COMPS_IN_SCAN then [ScanInfo(FirstComponents(n), 0, 0, ah, al)] else Each(n, 0, 0, ah, al)
  }

  lemma {:induction false} EachHistory(n: nat, ss: int, se: int, ah: int, al: int, c: nat, k: nat)
    ensures History(Each(n, ss, se, ah, al), c, k) == if c < n && ss <= k <= se then [(ah, al)] else []
  {
    if n > 0 {
      EachHistory(n - 1, ss, se, ah, al, c, k);
      HistoryNext(Each(n - 1, ss, se, ah, al), ScanInfo([n - 1], ss, se, ah, al), c, k);
    }
  }

  lemma DcHistory(n: nat, ah: int, al: int, c: nat, k: nat)
    ensures History(DcScans(n, ah, al), c, k) == if c < n && k == 0 then [(ah, al)] else []
  {
    if n <= MAX_COMPS_IN_SCAN {
      var s := ScanInfo(FirstComponents(n), 0, 0, ah, al);
      assert [] + [s] == [s];
      HistoryNext([], s, c, k);
      assert c < n ==> FirstComponents(n)[c] == c;
    } else {
      EachHistory(n, 0, 0, ah, al, c, k);
    }
  }

  /** The scripts of jpeg_simple_progression. */
  function SimpleScript(n: nat, ycc: bool): seq<ScanInfo> {
    if n == 3 && ycc then
      DcScans(n, 0, 1) + [ScanInfo([0], 1, 5, 0, 2), ScanInfo([2], 1, 63, 0, 1), ScanInfo([1], 1, 63, 0, 1)]
      + [ScanInfo([0], 6, 63, 0, 2), ScanInfo([0], 1, 63, 2, 1)] + DcScans(n, 1, 0)
      + [ScanInfo([2], 1, 63, 1, 0), ScanInfo([1], 1, 63, 1, 0), ScanInfo([0], 1, 63, 1, 0)]
    else
      DcScans(n, 0, 1) + Each(n, 1, 5, 0, 2) + Each(n, 6, 63, 0, 2)
      + Each(n, 1, 63, 2, 1) + DcScans(n, 1, 0) + Each(n, 1, 63, 1, 0)
  }

  /** The number of scans that is set aside for the script. */
  function SimpleSize(n: nat, ycc: bool): nat {
    if n == 3 && ycc then 10 else if n > MAX_COMPS_IN_SCAN then 6 * n else 2 + 4 * n
  }
}
