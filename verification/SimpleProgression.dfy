/** The standard progression: the script is as long as the room made for it, it is accepted, and it sends everything. */
module SimpleProgression {
  import opened ScanScript

  // What the script sends.

  lemma {:induction false} EachScan(n: nat, ss: int, se: int, ah: int, al: int, i: nat)
    requires i < n
    ensures Each(n, ss, se, ah, al)[i] == ScanInfo([i], ss, se, ah, al)
  {
    if i < n - 1 {
      EachScan(n - 1, ss, se, ah, al, i);
    }
  }

  /** What the scans of an image of n components send of coefficient k of component c; chroma comes in two steps. */
  function FullHistory(n: nat, color: bool, c: nat, k: nat): seq<(int, int)> {
    if c >= n || k >= 64 then [] else if k == 0 || (color && c > 0) then [(0, 1), (1, 0)] else [(0, 2), (2, 1), (1, 0)]
  }

  lemma GeneralHistory(n: nat, c: nat, k: nat)
    ensures History(SimpleScript(n, false), c, k) == FullHistory(n, false, c, k)
  {
    hide History, Each, DcScans;
    var a, b, d := DcScans(n, 0, 1), Each(n, 1, 5, 0, 2), Each(n, 6, 63, 0, 2);
    var e, f, g := Each(n, 1, 63, 2, 1), DcScans(n, 1, 0), Each(n, 1, 63, 1, 0);
    DcHistory(n, 0, 1, c, k);
    EachHistory(n, 1, 5, 0, 2, c, k);
    EachHistory(n, 6, 63, 0, 2, c, k);
    EachHistory(n, 1, 63, 2, 1, c, k);
    DcHistory(n, 1, 0, c, k);
    EachHistory(n, 1, 63, 1, 0, c, k);
    HistoryConcat(a, b, c, k);
    HistoryConcat(a + b, d, c, k);
    HistoryConcat(a + b + d, e, c, k);
    HistoryConcat(a + b + d + e, f, c, k);
    HistoryConcat(a + b + d + e + f, g, c, k);
  }

  lemma OneHistory(s: ScanInfo, x: int, c: nat, k: nat)
    requires s.comps == [x]
    ensures History([s], c, k) == if c == x && s.ss <= k <= s.se then [(s.ah, s.al)] else []
  {
    assert [] + [s] == [s];
    HistoryNext([], s, c, k);
  }

  lemma TwoHistory(s: ScanInfo, t: ScanInfo, c: nat, k: nat)
    ensures History([s, t], c, k) == History([s], c, k) + History([t], c, k)
  {
    HistoryConcat([s], [t], c, k);
    assert [s] + [t] == [s, t];
  }

  lemma ThreeHistory(s: ScanInfo, t: ScanInfo, u: ScanInfo, c: nat, k: nat)
    ensures History([s, t, u], c, k) == History([s], c, k) + History([t], c, k) + History([u], c, k)
  {
    TwoHistory(s, t, c, k);
    HistoryConcat([s, t], [u], c, k);
    assert [s, t] + [u] == [s, t, u];
  }

  lemma ColorHistory(n: nat, c: nat, k: nat)
    requires n == 3
    ensures History(SimpleScript(n, true), c, k) == FullHistory(n, true, c, k)
  {
    hide History, DcScans;
    var s1, s2, s3 := ScanInfo([0], 1, 5, 0, 2), ScanInfo([2], 1, 63, 0, 1), ScanInfo([1], 1, 63, 0, 1);
    var s4, s5 := ScanInfo([0], 6, 63, 0, 2), ScanInfo([0], 1, 63, 2, 1);
    var s7, s8, s9 := ScanInfo([2], 1, 63, 1, 0), ScanInfo([1], 1, 63, 1, 0), ScanInfo([0], 1, 63, 1, 0);
    var a, b, d, e, f := DcScans(n, 0, 1), [s1, s2, s3], [s4, s5], DcScans(n, 1, 0), [s7, s8, s9];
    DcHistory(n, 0, 1, c, k);
    DcHistory(n, 1, 0, c, k);
    ThreeHistory(s1, s2, s3, c, k);
    TwoHistory(s4, s5, c, k);
    ThreeHistory(s7, s8, s9, c, k);
    OneHistory(s1, 0, c, k);
    OneHistory(s2, 2, c, k);
    OneHistory(s3, 1, c, k);
    OneHistory(s4, 0, c, k);
    OneHistory(s5, 0, c, k);
    OneHistory(s7, 2, c, k);
    OneHistory(s8, 1, c, k);
    OneHistory(s9, 0, c, k);
    HistoryConcat(a, b, c, k);
    HistoryConcat(a + b, d, c, k);
    HistoryConcat(a + b + d, e, c, k);
    HistoryConcat(a + b + d + e, f, c, k);
  }

  lemma SimpleHistory(n: nat, ycc: bool, c: nat, k: nat)
    ensures History(SimpleScript(n, ycc), c, k) == FullHistory(n, n == 3 && ycc, c, k)
  {
    if n == 3 && ycc {
      ColorHistory(n, c, k);
    } else {
      assert SimpleScript(n, ycc) == SimpleScript(n, false);
      GeneralHistory(n, c, k);
    }
  }

  /** The scans of a part of a script, each in itself as it should be. */
  ghost predicate PartOk(part: seq<ScanInfo>, n: nat, precision: nat) {
    forall i :: 0 <= i < |part| ==> ComponentsOk(part[i], n) && BandOk(part[i], precision)
  }

  lemma EachOk(m: nat, n: nat, precision: nat, ss: int, se: int, ah: int, al: int)
    requires m <= n && 0 <= ss <= se < 64 && 0 <= ah <= 2 && 0 <= al <= 2 && (ss == 0 ==> se == 0)
    ensures PartOk(Each(m, ss, se, ah, al), n, precision)
  {
    forall i | 0 <= i < m
      ensures ComponentsOk(Each(m, ss, se, ah, al)[i], n) && BandOk(Each(m, ss, se, ah, al)[i], precision)
    {
      EachScan(m, ss, se, ah, al, i);
    }
  }

  lemma DcOk(n: nat, precision: nat, ah: int, al: int)
    requires n >= 1 && 0 <= ah <= 2 && 0 <= al <= 2
    ensures PartOk(DcScans(n, ah, al), n, precision)
    ensures forall i :: 0 <= i < |DcScans(n, ah, al)| ==> DcScans(n, ah, al)[i].ss == 0
  {
    if n > MAX_COMPS_IN_SCAN {
      EachOk(n, n, precision, 0, 0, ah, al);
      forall i | 0 <= i < n
        ensures Each(n, 0, 0, ah, al)[i].ss == 0
      {
        EachScan(n, 0, 0, ah, al, i);
      }
    }
  }

  lemma JoinOk(a: seq<ScanInfo>, b: seq<ScanInfo>, n: nat, precision: nat)
    requires PartOk(a, n, precision) && PartOk(b, n, precision)
    ensures PartOk(a + b, n, precision)
  {
  }

  lemma GeneralOk(n: nat, precision: nat)
    requires n >= 1
    ensures PartOk(SimpleScript(n, false), n, precision)
  {
    hide Each, DcScans, PartOk;
    var a, b, d := DcScans(n, 0, 1), Each(n, 1, 5, 0, 2), Each(n, 6, 63, 0, 2);
    var e, f, g := Each(n, 1, 63, 2, 1), DcScans(n, 1, 0), Each(n, 1, 63, 1, 0);
    DcOk(n, precision, 0, 1);
    EachOk(n, n, precision, 1, 5, 0, 2);
    EachOk(n, n, precision, 6, 63, 0, 2);
    EachOk(n, n, precision, 1, 63, 2, 1);
    DcOk(n, precision, 1, 0);
    EachOk(n, n, precision, 1, 63, 1, 0);
    JoinOk(a, b, n, precision);
    JoinOk(a + b, d, n, precision);
    JoinOk(a + b + d, e, n, precision);
    JoinOk(a + b + d + e, f, n, precision);
    JoinOk(a + b + d + e + f, g, n, precision);
  }

  lemma ColorOk(n: nat, precision: nat)
    requires n == 3
    ensures PartOk(SimpleScript(n, true), n, precision)
  {
    DcOk(n, precision, 0, 1);
    DcOk(n, precision, 1, 0);
  }

  /** The DC scans come first. */
  lemma DcFirst(n: nat, ycc: bool)
    requires n >= 1
    ensures DcScans(n, 0, 1) <= SimpleScript(n, ycc)
  {
    hide DcScans, Each;
  }

  lemma PrefixAt(a: seq<ScanInfo>, b: seq<ScanInfo>, i: nat)
    requires a <= b && i < |b|
    ensures i < |a| ==> b[i] == a[i]
  {
  }

  lemma DcComesFirst(n: nat, ycc: bool, precision: nat, i: nat)
    requires n >= 1 && i < |SimpleScript(n, ycc)| && PartOk(SimpleScript(n, ycc), n, precision) && SimpleScript(n, ycc)[i].ss > 0
    ensures DcBefore(SimpleScript(n, ycc), i)
  {
    hide SimpleScript, DcScans;
    var script, dc := SimpleScript(n, ycc), DcScans(n, 0, 1);
    DcFirst(n, ycc);
    DcOk(n, precision, 0, 1);
    PrefixAt(dc, script, i);
    assert ComponentsOk(script[i], n);
    var c := script[i].comps[0];
    assert script[..i] == dc + script[|dc|..i];
    HistoryConcat(dc, script[|dc|..i], c, 0);
    DcHistory(n, 0, 1, c, 0);
  }

  /** The script is accepted, and sends every coefficient down to its last bit. */
  lemma SimpleAccepted(n: nat, ycc: bool, precision: nat)
    requires n >= 1
    ensures GoodProgressive(SimpleScript(n, ycc), n, precision)
    ensures forall c: nat, k: nat :: c < n && k < 64 ==> LastBit(SimpleScript(n, ycc), c, k) == 0
  {
    hide SimpleScript;
    var script := SimpleScript(n, ycc);
    SimplePartsOk(n, ycc, precision);
    forall c: nat, k: nat
      ensures Descends(History(script, c, k))
      ensures c < n && k < 64 ==> LastBit(script, c, k) == 0
    {
      SimpleHistory(n, ycc, c, k);
    }
    forall i | 0 <= i < |script| && script[i].ss > 0
      ensures DcBefore(script, i)
    {
      DcComesFirst(n, ycc, precision, i);
    }
    forall c: nat | c < n
      ensures DcSent(script, c)
    {
      SimpleHistory(n, ycc, c, 0);
    }
  }

  lemma SimplePartsOk(n: nat, ycc: bool, precision: nat)
    requires n >= 1
    ensures PartOk(SimpleScript(n, ycc), n, precision)
  {
    if n == 3 && ycc {
      ColorOk(n, precision);
    } else {
      assert SimpleScript(n, ycc) == SimpleScript(n, false);
      GeneralOk(n, precision);
    }
  }

  // Filling in the script.

  method FillAScan(space: array<ScanInfo>, scanptr: nat, ci: int, ss: int, se: int, ah: int, al: int) returns (next: nat)
    requires scanptr < space.Length
    modifies space
    ensures next == scanptr + 1 && space[..next] == old(space[..scanptr]) + [ScanInfo([ci], ss, se, ah, al)]
  {
    space[scanptr] := ScanInfo([ci], ss, se, ah, al);
    next := scanptr + 1;
  }

  method FillScans(space: array<ScanInfo>, scanptr: nat, ncomps: nat, ss: int, se: int, ah: int, al: int) returns (next: nat)
    requires scanptr + ncomps <= space.Length
    modifies space
    ensures next == scanptr + ncomps && space[..next] == old(space[..scanptr]) + Each(ncomps, ss, se, ah, al)
  {
    var ci := 0;
    next := scanptr;
    assert space[..next] == old(space[..scanptr]) + Each(0, ss, se, ah, al);
    while ci < ncomps
      invariant ci <= ncomps && next == scanptr + ci
      invariant space[..next] == old(space[..scanptr]) + Each(ci, ss, se, ah, al)
    {
      ghost var before := space[..next];
      space[next] := ScanInfo([ci], ss, se, ah, al);
      next := next + 1;
      assert space[..next] == before + [ScanInfo([ci], ss, se, ah, al)];
      ci := ci + 1;
    }
  }

  method FillDcScans(space: array<ScanInfo>, scanptr: nat, ncomps: nat, ah: int, al: int) returns (next: nat)
    requires scanptr + (if ncomps <= MAX_COMPS_IN_SCAN then 1 else ncomps) <= space.Length
    modifies space
    ensures next == scanptr + (if ncomps <= MAX_COMPS_IN_SCAN then 1 else ncomps)
    ensures space[..next] == old(space[..scanptr]) + DcScans(ncomps, ah, al)
  {
    if ncomps <= MAX_COMPS_IN_SCAN {
      space[scanptr] := ScanInfo(FirstComponents(ncomps), 0, 0, ah, al);
      next := scanptr + 1;
    } else {
      next := FillScans(space, scanptr, ncomps, 0, 0, ah, al);
    }
  }

  /** Makes the script: exactly as many scans as there is room for. */
  method MakeSimpleProgression(ncomps: nat, ycc: bool) returns (numScans: nat, script: seq<ScanInfo>)
    requires ncomps >= 1
    ensures numScans == |script| == SimpleSize(ncomps, ycc) && script == SimpleScript(ncomps, ycc)
  {
    var nscans := if ncomps == 3 && ycc then 10 else if ncomps > MAX_COMPS_IN_SCAN then 6 * ncomps else 2 + 4 * ncomps;
    var space := new ScanInfo[nscans](_ => ScanInfo([], 0, 0, 0, 0));
    numScans := nscans;
    var scanptr := 0;
    if ncomps == 3 && ycc {
      scanptr := FillColorScript(space, ncomps);
    } else {
      scanptr := FillGeneralScript(space, ncomps);
    }
    assert space[..scanptr] == space[..];
    script := space[..];
  }

  method FillColorScript(space: array<ScanInfo>, ncomps: nat) returns (scanptr: nat)
    requires ncomps == 3 && space.Length == 10
    modifies space
    ensures scanptr == 10 && space[..scanptr] == SimpleScript(ncomps, true)
  {
    hide DcScans, Each, FirstComponents;
    scanptr := FillDcScans(space, 0, ncomps, 0, 1);
    ghost var a := DcScans(ncomps, 0, 1);
    assert space[..scanptr] == a;
    scanptr := FillAScan(space, scanptr, 0, 1, 5, 0, 2);
    scanptr := FillAScan(space, scanptr, 2, 1, 63, 0, 1);
    scanptr := FillAScan(space, scanptr, 1, 1, 63, 0, 1);
    ghost var b := [ScanInfo([0], 1, 5, 0, 2), ScanInfo([2], 1, 63, 0, 1), ScanInfo([1], 1, 63, 0, 1)];
    assert space[..scanptr] == a + b;
    scanptr := FillAScan(space, scanptr, 0, 6, 63, 0, 2);
    scanptr := FillAScan(space, scanptr, 0, 1, 63, 2, 1);
    ghost var d := [ScanInfo([0], 6, 63, 0, 2), ScanInfo([0], 1, 63, 2, 1)];
    assert space[..scanptr] == a + b + d;
    scanptr := FillDcScans(space, scanptr, ncomps, 1, 0);
    ghost var e := DcScans(ncomps, 1, 0);
    assert space[..scanptr] == a + b + d + e;
    scanptr := FillAScan(space, scanptr, 2, 1, 63, 1, 0);
    scanptr := FillAScan(space, scanptr, 1, 1, 63, 1, 0);
    scanptr := FillAScan(space, scanptr, 0, 1, 63, 1, 0);
    ghost var f := [ScanInfo([2], 1, 63, 1, 0), ScanInfo([1], 1, 63, 1, 0), ScanInfo([0], 1, 63, 1, 0)];
    assert space[..scanptr] == a + b + d + e + f;
  }

  method FillGeneralScript(space: array<ScanInfo>, ncomps: nat) returns (scanptr: nat)
    requires ncomps >= 1 && space.Length == SimpleSize(ncomps, false)
    modifies space
    ensures scanptr == space.Length && space[..scanptr] == SimpleScript(ncomps, false)
  {
    hide DcScans, Each;
    scanptr := FillDcScans(space, 0, ncomps, 0, 1);
    assert space[..scanptr] == DcScans(ncomps, 0, 1);
    scanptr := FillScans(space, scanptr, ncomps, 1, 5, 0, 2);
    scanptr := FillScans(space, scanptr, ncomps, 6, 63, 0, 2);
    scanptr := FillScans(space, scanptr, ncomps, 1, 63, 2, 1);
    scanptr := FillDcScans(space, scanptr, ncomps, 1, 0);
    scanptr := FillScans(space, scanptr, ncomps, 1, 63, 1, 0);
  }
}
