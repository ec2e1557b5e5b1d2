/** Expanding a Huffman table into codes and lengths indexed by symbol, with its validity checks. */
module HuffmanDerivation {
  import opened Bytes
  import opened BitStrings
  import opened HuffmanCodes

  predicate InClass(bits: seq<nat>, p: nat, l: nat) {
    1 <= l < |bits| && Total(bits, l - 1) <= p < Total(bits, l)
  }

  /** Figure C.1: the length of each code, ended by a zero; fails for more than 256 codes. */
  method CodeSizes(bits: seq<byte>, huffsize: array<nat>) returns (lastp: nat, ok: bool)
    requires |bits| == 17 && huffsize.Length == 257
    modifies huffsize
    ensures ok <==> Total(bits, 16) <= 256
    ensures ok ==> lastp == Total(bits, 16) && huffsize[lastp] == 0
    ensures ok ==> forall p :: 0 <= p < lastp ==> InClass(bits, p, huffsize[p])
  {
    lastp, ok := 0, true;
    var l := 1;
    while l <= 16
      invariant 1 <= l <= 17 && lastp == Total(bits, l - 1) <= 256
      invariant forall p :: 0 <= p < lastp ==> InClass(bits, p, huffsize[p])
    {
      var i: nat := bits[l];
      if lastp + i > 256 {
        TotalMonotone(bits, l, 16);
        return lastp, false;
      }
      while i > 0
        invariant 0 <= i <= bits[l] && lastp + i == Total(bits, l) <= 256
        invariant forall p :: 0 <= p < lastp ==> InClass(bits, p, huffsize[p])
        decreases i
      {
        huffsize[lastp] := l;
        lastp := lastp + 1;
        i := i - 1;
      }
      l := l + 1;
    }
    huffsize[lastp] := 0;
  }

  lemma {:induction false} NoneBelow(bits: seq<nat>, l: nat)
    requires l < |bits| && Total(bits, l) == 0
    ensures Taken(bits, l) == 0
  {
    if l > 0 {
      NoneBelow(bits, l - 1);
    }
  }

  /** Room up to length l, and no longer codes, means room at every length. */
  lemma {:induction false} RoomAfter(bits: seq<nat>, l: nat, m: nat)
    requires l <= m < |bits| && Total(bits, l) == Total(bits, |bits| - 1)
    requires Taken(bits, l) < Shl(1, l)
    ensures Taken(bits, m) < Shl(1, m)
    decreases m
  {
    if l < m {
      RoomAfter(bits, l, m - 1);
      TotalMonotone(bits, l, m - 1);
      TotalMonotone(bits, m, |bits| - 1);
    }
  }

  /** The codes of lengths below l are there, and there is room at each of those lengths. */
  ghost predicate CodesTo(bits: seq<nat>, sizes: seq<nat>, codes: seq<nat>, p: nat) {
    && p <= |sizes| && p <= |codes|
    && (forall q :: 0 <= q < p ==> InClass(bits, q, sizes[q]) && codes[q] == CodeIn(bits, q, sizes[q]))
  }

  ghost predicate RoomTo(bits: seq<nat>, l: nat)
    requires l <= |bits|
  {
    forall k :: 1 <= k < l ==> Taken(bits, k) < Shl(1, k)
  }

  lemma RoomEverywhere(bits: seq<nat>, l: nat)
    requires 1 <= l <= |bits| && RoomTo(bits, l) && Total(bits, l - 1) == Total(bits, |bits| - 1)
    ensures Roomy(bits)
  {
    forall k | 1 <= k < |bits|
      ensures Taken(bits, k) < Shl(1, k)
    {
      if l <= k {
        RoomAfter(bits, l - 1, k);
      }
    }
  }

  lemma {:induction false} RoomBefore(bits: seq<nat>, l: nat)
    requires l <= |bits| && (l == 0 || Total(bits, l - 1) == 0)
    ensures RoomTo(bits, l)
  {
    forall k | 1 <= k < l
      ensures Taken(bits, k) < Shl(1, k)
    {
      TotalMonotone(bits, k, l - 1);
      NoneBelow(bits, k);
      assert Pow2(k) >= 1;
    }
  }

  /** A code of length si comes before the end of its class. */
  lemma WithinClass(bits: seq<nat>, sizes: seq<nat>, lastp: nat, p: nat, si: nat)
    requires |bits| == 17 && |sizes| == 257 && lastp <= 256 && sizes[lastp] == 0
    requires forall q :: 0 <= q < lastp ==> InClass(bits, q, sizes[q])
    requires 1 <= si <= 16 && p <= Total(bits, si) <= lastp && sizes[p] == si
    ensures p < Total(bits, si)
  {
    assert p == lastp || InClass(bits, p, sizes[p]);
  }

  /** The list of lengths ends where a length is zero. */
  lemma AtEnd(bits: seq<nat>, sizes: seq<nat>, lastp: nat, p: nat)
    requires |bits| == 17 && |sizes| == 257 && p <= lastp <= 256 && sizes[p] == 0
    requires forall q :: 0 <= q < lastp ==> InClass(bits, q, sizes[q])
    ensures p == lastp
  {
    forall q | 0 <= q < lastp
      ensures sizes[q] > 0
    {
      assert InClass(bits, q, sizes[q]);
    }
  }

  /** All the codes of length si, in order from code on. */
  method CodesOfSize(bits: seq<byte>, huffsize: array<nat>, huffcode: array<nat>, lastp: nat, si: nat, p0: nat, code0: nat)
    returns (p: nat, code: nat)
    requires |bits| == 17 && huffsize.Length == 257 == huffcode.Length && huffsize != huffcode
    requires lastp == Total(bits, 16) <= 256 && huffsize[lastp] == 0
    requires forall q :: 0 <= q < lastp ==> InClass(bits, q, huffsize[q])
    requires 1 <= si <= 16 && p0 == Total(bits, si - 1) && code0 == 2 * Taken(bits, si - 1)
    requires CodesTo(bits, huffsize[..], huffcode[..], p0)
    modifies huffcode
    ensures p == Total(bits, si) && code == Taken(bits, si)
    ensures CodesTo(bits, huffsize[..], huffcode[..], p)
  {
    TotalMonotone(bits, si, 16);
    ghost var sizes := huffsize[..];
    p, code := p0, code0;
    while huffsize[p] == si
      invariant p0 <= p <= Total(bits, si) && code == code0 + (p - p0)
      invariant CodesTo(bits, sizes, huffcode[..], p)
      decreases Total(bits, si) - p
    {
      WithinClass(bits, sizes, lastp, p, si);
      ghost var codes := huffcode[..];
      huffcode[p] := code;
      assert huffcode[..] == codes[p := code];
      p := p + 1;
      code := code + 1;
    }
    if p < Total(bits, si) {
      SameClass(bits, p, si, huffsize[p]);
    }
  }

  lemma SameClass(bits: seq<nat>, p: nat, l: nat, m: nat)
    requires InClass(bits, p, l) && InClass(bits, p, m)
    ensures l == m
  {
    if l < m {
      TotalMonotone(bits, l, m - 1);
    } else if m < l {
      TotalMonotone(bits, m, l - 1);
    }
  }

  /** Figure C.2: the codes themselves; fails when some length has no room left for a code of all ones. */
  method AssignCodes(bits: seq<byte>, huffsize: array<nat>, huffcode: array<nat>, lastp: nat) returns (ok: bool)
    requires |bits| == 17 && huffsize.Length == 257 == huffcode.Length && huffsize != huffcode
    requires lastp == Total(bits, 16) <= 256 && huffsize[lastp] == 0
    requires forall p :: 0 <= p < lastp ==> InClass(bits, p, huffsize[p])
    modifies huffcode
    ensures ok <==> Roomy(bits)
    ensures ok ==> CodesTo(bits, huffsize[..], huffcode[..], lastp)
  {
    var code: nat, si, p: nat := 0, huffsize[0], 0;
    if lastp == 0 {
      RoomBefore(bits, 17);
      return true;
    }
    TotalMonotone(bits, 0, si - 1);
    RoomBefore(bits, si);
    NoneBelow(bits, si - 1);
    while huffsize[p] != 0
      invariant 1 <= si <= 17 && p == Total(bits, si - 1) <= lastp && code == 2 * Taken(bits, si - 1)
      invariant RoomTo(bits, si) && CodesTo(bits, huffsize[..], huffcode[..], p)
      decreases 17 - si
    {
      assert p < lastp;
      p, code := CodesOfSize(bits, huffsize, huffcode, lastp, si, p, code);
      if code >= Shl(1, si) {
        return false;
      }
      TotalMonotone(bits, si, 16);
      code := 2 * code;
      si := si + 1;
    }
    AtEnd(bits, huffsize[..], lastp, p);
    RoomEverywhere(bits, si);
    return true;
  }

  /** Codes and sizes by symbol; symbols without a code have size zero. */
  ghost predicate Filled(list: seq<nat>, sizes: seq<nat>, codes: seq<nat>, ehufco: seq<nat>, ehufsi: seq<nat>)
    requires |list| <= |sizes| && |list| <= |codes| && |ehufco| == 256 == |ehufsi|
  {
    && (forall p :: 0 <= p < |list| ==>
          list[p] < 256 && ehufco[list[p]] == codes[p] && ehufsi[list[p]] == sizes[p])
    && (forall s :: 0 <= s < 256 && s !in list ==> ehufco[s] == 0 && ehufsi[s] == 0)
  }

  /** Figure C.3: codes and sizes by symbol; fails for a symbol out of range or listed twice. */
  method FillBySymbol(huffval: seq<byte>, maxSymbol: nat, lastp: nat, huffsize: array<nat>, huffcode: array<nat>,
                      ehufco: array<nat>, ehufsi: array<nat>) returns (ok: bool)
    requires lastp <= |huffval| && lastp <= huffsize.Length == huffcode.Length
    requires ehufco.Length == 256 == ehufsi.Length && ehufco != ehufsi
    requires huffsize !in {ehufco, ehufsi} && huffcode !in {ehufco, ehufsi}
    requires forall p :: 0 <= p < lastp ==> 0 < huffsize[p]
    requires forall s :: 0 <= s < 256 ==> ehufco[s] == 0 && ehufsi[s] == 0
    modifies ehufco, ehufsi
    ensures ok <==> Distinct(huffval[..lastp]) && forall p :: 0 <= p < lastp ==> huffval[p] <= maxSymbol
    ensures ok ==> Filled(huffval[..lastp], huffsize[..], huffcode[..], ehufco[..], ehufsi[..])
  {
    ghost var sizes, codes := huffsize[..], huffcode[..];
    var p := 0;
    while p < lastp
      invariant p <= lastp
      invariant Distinct(huffval[..p]) && forall q :: 0 <= q < p ==> huffval[q] <= maxSymbol
      invariant Filled(huffval[..p], sizes, codes, ehufco[..], ehufsi[..])
    {
      var i := huffval[p];
      if i > maxSymbol || ehufsi[i] != 0 {
        if ehufsi[i] != 0 {
          assert ehufsi[..][i] != 0;
          assert i in huffval[..p];
          ghost var q :| 0 <= q < p && huffval[..p][q] == i;
          assert huffval[..lastp][q] == huffval[..lastp][p];
        }
        return false;
      }
      FilledNext(huffval[..p], i, sizes, codes, ehufco[..], ehufsi[..]);
      assert huffval[..p + 1] == huffval[..p] + [i];
      ghost var co, si := ehufco[..], ehufsi[..];
      ehufco[i] := huffcode[p];
      ehufsi[i] := huffsize[p];
      assert ehufco[..] == co[i := codes[p]] && ehufsi[..] == si[i := sizes[p]];
      p := p + 1;
    }
    return true;
  }

  lemma FilledNext(list: seq<nat>, i: nat, sizes: seq<nat>, codes: seq<nat>, ehufco: seq<nat>, ehufsi: seq<nat>)
    requires |list| < |sizes| && |list| < |codes| && |ehufco| == 256 == |ehufsi| && i < 256
    requires Distinct(list) && Filled(list, sizes, codes, ehufco, ehufsi)
    requires forall p :: 0 <= p < |list| ==> 0 < sizes[p]
    requires ehufsi[i] == 0
    ensures Distinct(list + [i])
    ensures Filled(list + [i], sizes, codes, ehufco[i := codes[|list|]], ehufsi[i := sizes[|list|]])
  {
    assert i !in list;
  }

  /** The p-th symbol of the table has the p-th code; symbols not listed have size zero. */
  ghost predicate Derived(t: Table, ehufco: seq<nat>, ehufsi: seq<nat>)
    requires Formed(t) && Total(t.bits, Last(t.bits)) <= 256
  {
    && |ehufco| == 256 == |ehufsi|
    && (forall p :: 0 <= p < Total(t.bits, Last(t.bits)) ==>
          ehufco[t.huffval[p]] == CodeOf(t, p) && ehufsi[t.huffval[p]] == SizeOf(t, p))
    && (forall s :: 0 <= s < 256 && s !in t.huffval[..Total(t.bits, Last(t.bits))] ==> ehufco[s] == 0 && ehufsi[s] == 0)
  }

  lemma FilledDerived(t: Table, sizes: seq<nat>, codes: seq<nat>, ehufco: seq<nat>, ehufsi: seq<nat>)
    requires Formed(t) && Total(t.bits, 16) <= 256 && |sizes| == |codes| == 257 && |ehufco| == 256 == |ehufsi|
    requires CodesTo(t.bits, sizes, codes, Total(t.bits, 16))
    requires Filled(t.huffval[..Total(t.bits, 16)], sizes, codes, ehufco, ehufsi)
    ensures Derived(t, ehufco, ehufsi)
  {
    var n := Total(t.bits, 16);
    forall p | 0 <= p < n
      ensures ehufco[t.huffval[p]] == CodeOf(t, p) && ehufsi[t.huffval[p]] == SizeOf(t, p)
    {
      assert t.huffval[..n][p] == t.huffval[p];
      ClassUnique(t.bits, p, sizes[p], 16);
    }
  }

  /** Derives the encoder's table, or fails exactly when the table is not acceptable. */
  method MakeDerivedTable(t: Table, maxSymbol: nat, ehufco: array<nat>, ehufsi: array<nat>) returns (ok: bool)
    requires Formed(t) && ehufco.Length == 256 == ehufsi.Length && ehufco != ehufsi
    modifies ehufco, ehufsi
    ensures ok <==> Accepts(t, maxSymbol)
    ensures ok ==> Derived(t, ehufco[..], ehufsi[..])
  {
    var huffsize := new nat[257](_ => 0);
    var huffcode := new nat[257](_ => 0);
    var lastp;
    lastp, ok := CodeSizes(t.bits, huffsize);
    if !ok {
      return;
    }
    ok := AssignCodes(t.bits, huffsize, huffcode, lastp);
    if !ok {
      return;
    }
    forall s | 0 <= s < 256 {
      ehufco[s] := 0;
    }
    forall s | 0 <= s < 256 {
      ehufsi[s] := 0;
    }
    ghost var sizes, codes := huffsize[..], huffcode[..];
    ok := FillBySymbol(t.huffval, maxSymbol, lastp, huffsize, huffcode, ehufco, ehufsi);
    if ok {
      assert huffsize[..] == sizes && huffcode[..] == codes;
      FilledDerived(t, sizes, codes, ehufco[..], ehufsi[..]);
    }
  }
}
