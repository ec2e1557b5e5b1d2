/** The decoding procedures of section F.2.4 of T.81: the parser asks the arithmetic decoder for one decision after
    the other, and the decisions it has seen choose the bin of the next one. */
module ArithReader {
  import opened Bytes
  import opened BitStrings
  import opened Coefficients
  import opened IntervalCoder
  import opened ArithDecoder
  import opened ZigZag
  import opened ArithModel
  import opened ArithMcu

  /** The decoder is about to see exactly the decisions that are left, with bins for all tables. */
  ghost predicate Ready(d: Decoder)
    reads d, d.stats
  {
    d.Valid() && d.stats.Length == NUM_BINS
  }

  method DecodeBit(d: Decoder, st: nat) returns (b: bit)
    requires Ready(d) && Read(d.todo, st).Got?
    modifies d, d.stats
    ensures Ready(d) && Got(b, d.todo) == old(Read(d.todo, st))
  {
    b := d.Decode(st);
  }

  /** Figure F.23, from bin st on: ones up to a zero. */
  method DecodeUnary(d: Decoder, st0: nat, n0: nat) returns (n: nat)
    requires Ready(d) && ParseUnary(d.todo, st0, n0).Got?
    modifies d, d.stats
    ensures Ready(d) && Got(n, d.todo) == old(ParseUnary(d.todo, st0, n0))
  {
    hide Ready;
    ghost var goal := ParseUnary(d.todo, st0, n0);
    var st := st0;
    n := n0;
    var b := DecodeBit(d, st);
    while b == 1
      invariant Ready(d)
      invariant if b == 0 then Got(n, d.todo) == goal else n + 1 < 15 && ParseUnary(d.todo, st + 1, n + 1) == goal
      decreases 15 - n, b
    {
      n, st := n + 1, st + 1;
      b := DecodeBit(d, st);
    }
  }

  /** Figure F.24: the bits below the highest one. */
  method DecodePattern(d: Decoder, bin: nat, n0: nat, v0: nat) returns (v: nat)
    requires Ready(d) && ParsePattern(d.todo, bin, n0, v0).Got?
    modifies d, d.stats
    ensures Ready(d) && Got(v, d.todo) == old(ParsePattern(d.todo, bin, n0, v0))
  {
    hide Ready;
    ghost var goal := ParsePattern(d.todo, bin, n0, v0);
    var n := n0;
    v := v0;
    while n > 0
      invariant Ready(d) && ParsePattern(d.todo, bin, n, v) == goal
    {
      var b := DecodeBit(d, bin);
      v := 2 * v + b;
      n := n - 1;
    }
  }

  method DecodeLengthAndBits(d: Decoder, st: nat, n0: nat, p0: nat) returns (v: nat)
    requires Ready(d) && ParseLengthAndBits(d.todo, st, n0, p0).Got?
    modifies d, d.stats
    ensures Ready(d) && Got(v, d.todo) == old(ParseLengthAndBits(d.todo, st, n0, p0))
  {
    hide Ready, ParseUnary, ParsePattern;
    var n := DecodeUnary(d, st, n0);
    v := DecodePattern(d, p0 + n, n, 1);
  }

  /** Figures F.19 to F.24: a DC difference. */
  method DecodeDc(d: Decoder, area: nat, ctx: nat) returns (v: int)
    requires Ready(d) && ParseDc(d.todo, area, ctx).Got?
    modifies d, d.stats
    ensures Ready(d) && Got(v, d.todo) == old(ParseDc(d.todo, area, ctx))
  {
    hide Ready, ParseLengthAndBits, Read;
    var s0 := area + ctx;
    var b := DecodeBit(d, s0);
    if b == 0 {
      return 0;
    }
    var sign := DecodeBit(d, s0 + 1);
    var m := 0;
    b := DecodeBit(d, s0 + 2 + sign);
    if b == 1 {
      m := DecodeLengthAndBits(d, area + 20, 0, area + 34);
    }
    v := Signed(sign, m + 1);
  }

  /** Figures F.21 to F.24: a nonzero AC coefficient. */
  method DecodeCoefficient(d: Decoder, st: nat, x1: nat) returns (v: int)
    requires Ready(d) && ParseCoefficient(d.todo, st, x1).Got?
    modifies d, d.stats
    ensures Ready(d) && Got(v, d.todo) == old(ParseCoefficient(d.todo, st, x1))
  {
    hide Ready, ParseLengthAndBits, Read;
    var sign := DecodeBit(d, FIXED_BIN);
    var m := 0;
    var b := DecodeBit(d, st);
    if b == 1 {
      m := 1;
      b := DecodeBit(d, st);
      if b == 1 {
        m := DecodeLengthAndBits(d, x1, 1, x1 + 13);
      }
    }
    v := Signed(sign, m + 1);
  }

  /** The values in front, and then those that are parsed, are all the values. */
  predicate Completes(x: seq<int>, p: Parsed<seq<int>>, goal: Parsed<seq<int>>) {
    p.Got? && goal == Got(x + p.value, p.rest)
  }

  lemma CompletesMore(x: seq<int>, v: int, p: Parsed<seq<int>>, goal: Parsed<seq<int>>)
    requires Completes(x, Prepend(v, p), goal)
    ensures Completes(x + [v], p, goal)
  {
    assert p.Got? && x + ([v] + p.value) == (x + [v]) + p.value;
  }

  lemma CompletesAll(p: Parsed<seq<int>>)
    requires p.Got?
    ensures Completes([], p, p)
  {
    assert [] + p.value == p.value;
  }

  lemma CompletesNone(x: seq<int>, t: Trace, goal: Parsed<seq<int>>)
    requires Completes(x, Got([], t), goal)
    ensures goal == Got(x, t)
  {
    assert x + [] == x;
  }

  /** The zero run and the coefficient after a negative end-of-block decision. */
  method DecodeAcRun(d: Decoder, k0: nat, se: nat, area: nat, kx: nat, x0: seq<int>, ghost goal: Parsed<seq<int>>)
    returns (x: seq<int>, k: nat)
    requires Ready(d) && 1 <= k0 <= se && Completes(x0, ParseAcRun(d.todo, k0, se, area, kx), goal)
    modifies d, d.stats
    ensures Ready(d) && k0 < k <= se + 1 && Completes(x, ParseAc(d.todo, k, se, area, kx), goal)
  {
    hide Ready, ParseCoefficient, Completes, X1, ParseAc;
    x, k := x0, k0;
    RunReads(d.todo, k, se, area, kx, x, goal);
    var b := DecodeBit(d, area + 3 * (k - 1) + 1);
    while b == 0
      invariant Ready(d) && k0 <= k <= se
      invariant if b == 0 then k < se && Completes(x + [0], ParseAcRun(d.todo, k + 1, se, area, kx), goal)
                else Completes(x, CoefficientAndAc(d.todo, k, se, area, kx), goal)
      decreases se - k, 1 - b
    {
      x, k := x + [0], k + 1;
      RunReads(d.todo, k, se, area, kx, x, goal);
      b := DecodeBit(d, area + 3 * (k - 1) + 1);
    }
    CoefficientReads(d.todo, k, se, area, kx, x, goal);
    var v := DecodeCoefficient(d, area + 3 * (k - 1) + 2, X1(area, k, kx));
    x, k := x + [v], k + 1;
  }

  /** A coefficient and what follows it. */
  function CoefficientAndAc(t: Trace, k: nat, se: nat, area: nat, kx: nat): Parsed<seq<int>>
    requires 1 <= k <= se
  {
    match ParseCoefficient(t, area + 3 * (k - 1) + 2, X1(area, k, kx))
    case Stuck => Stuck
    case Got(v, rest) => Prepend(v, ParseAc(rest, k + 1, se, area, kx))
  }

  lemma RunReads(t: Trace, k: nat, se: nat, area: nat, kx: nat, x: seq<int>, goal: Parsed<seq<int>>)
    requires 1 <= k <= se && Completes(x, ParseAcRun(t, k, se, area, kx), goal)
    ensures var r := Read(t, area + 3 * (k - 1) + 1);
      r.Got? && if r.value == 0 then k < se && Completes(x + [0], ParseAcRun(r.rest, k + 1, se, area, kx), goal)
                else Completes(x, CoefficientAndAc(r.rest, k, se, area, kx), goal)
  {
    hide Completes, ParseCoefficient, X1, ParseAc;
    assert Completes(x, Stuck, goal) ==> false by {
      NotStuck(x, goal);
    }
    var r := Read(t, area + 3 * (k - 1) + 1);
    if r.Got? && r.value == 0 && k < se {
      CompletesMore(x, 0, ParseAcRun(r.rest, k + 1, se, area, kx), goal);
    }
  }

  lemma NotStuck(x: seq<int>, goal: Parsed<seq<int>>)
    ensures !Completes(x, Stuck, goal)
  {
  }

  lemma CoefficientReads(t: Trace, k: nat, se: nat, area: nat, kx: nat, x: seq<int>, goal: Parsed<seq<int>>)
    requires 1 <= k <= se && Completes(x, CoefficientAndAc(t, k, se, area, kx), goal)
    ensures var r := ParseCoefficient(t, area + 3 * (k - 1) + 2, X1(area, k, kx));
      r.Got? && Completes(x + [r.value], ParseAc(r.rest, k + 1, se, area, kx), goal)
  {
    hide Completes, ParseCoefficient, X1, ParseAc;
    NotStuck(x, goal);
    var r := ParseCoefficient(t, area + 3 * (k - 1) + 2, X1(area, k, kx));
    if r.Got? {
      CompletesMore(x, r.value, ParseAc(r.rest, k + 1, se, area, kx), goal);
    }
  }

  /** Figure F.20: the coefficients of a band. */
  method DecodeAc(d: Decoder, ss: nat, se: nat, area: nat, kx: nat) returns (x: seq<int>)
    requires Ready(d) && 1 <= ss <= se + 1 && ParseAc(d.todo, ss, se, area, kx).Got?
    modifies d, d.stats
    ensures Ready(d) && Got(x, d.todo) == old(ParseAc(d.todo, ss, se, area, kx))
  {
    hide Ready, ParseAcRun;
    ghost var goal := ParseAc(d.todo, ss, se, area, kx);
    var k := ss;
    x := [];
    CompletesAll(goal);
    while k <= se
      invariant Ready(d) && ss <= k <= se + 1 && Completes(x, ParseAc(d.todo, k, se, area, kx), goal)
      decreases se + 1 - k
    {
      var b := DecodeBit(d, area + 3 * (k - 1));
      if b == 1 {
        x := x + Zeros(se + 1 - k);
        return;
      }
      x, k := DecodeAcRun(d, k, se, area, kx, x, goal);
    }
    CompletesNone(x, d.todo, goal);
  }

  // Refinement scans.

  /** A coefficient that was nonzero, with one more bit. */
  function OneMoreBit(v: int, b: bit): int { if v < 0 then 2 * v - b else 2 * v + b }

  /** After a negative end-of-block decision, or none: some zeros, and the coefficient after them. */
  method DecodeRefineRun(d: Decoder, prev: seq<int>, k0: nat, se: nat, area: nat, x0: seq<int>, ghost goal: Parsed<seq<int>>)
    returns (x: seq<int>, k: nat)
    requires Ready(d) && 1 <= k0 <= se < |prev| && Completes(x0, ParseRefineRun(d.todo, prev, k0, se, area), goal)
    modifies d, d.stats
    ensures Ready(d) && k0 < k <= se + 1 && Completes(x, ParseRefine(d.todo, prev, k, se, area), goal)
  {
    hide Ready, Completes, ParseRefine, Read, OneMoreBit;
    x, k := x0, k0;
    var found := false;
    while !found
      invariant Ready(d) && k0 <= k <= se + 1 && (found ==> k > k0)
      invariant if found then Completes(x, ParseRefine(d.todo, prev, k, se, area), goal)
                else k <= se && Completes(x, ParseRefineRun(d.todo, prev, k, se, area), goal)
      decreases se + 1 - k, !found
    {
      var st := area + 3 * (k - 1);
      RefineReads(d.todo, prev, k, se, area, x, goal);
      if prev[k] != 0 {
        var b := DecodeBit(d, st + 2);
        x, k, found := x + [OneMoreBit(prev[k], b)], k + 1, true;
      } else {
        var b := DecodeBit(d, st + 1);
        if b == 1 {
          var sign := DecodeBit(d, FIXED_BIN);
          x, k, found := x + [Signed(sign, 1)], k + 1, true;
        } else {
          x, k := x + [0], k + 1;
        }
      }
    }
  }

  lemma RefineReads(t: Trace, prev: seq<int>, k: nat, se: nat, area: nat, x: seq<int>, goal: Parsed<seq<int>>)
    requires 1 <= k <= se < |prev| && Completes(x, ParseRefineRun(t, prev, k, se, area), goal)
    ensures prev[k] != 0 ==>
      var r := Read(t, area + 3 * (k - 1) + 2);
      r.Got? && Completes(x + [OneMoreBit(prev[k], r.value)], ParseRefine(r.rest, prev, k + 1, se, area), goal)
    ensures prev[k] == 0 ==>
      var r := Read(t, area + 3 * (k - 1) + 1);
      r.Got? && if r.value == 0 then k < se && Completes(x + [0], ParseRefineRun(r.rest, prev, k + 1, se, area), goal)
                else var sign := Read(r.rest, FIXED_BIN);
                     sign.Got? && Completes(x + [Signed(sign.value, 1)], ParseRefine(sign.rest, prev, k + 1, se, area), goal)
  {
    hide Completes, ParseRefine, Read, Signed;
    NotStuck(x, goal);
    if prev[k] != 0 {
      var r := Read(t, area + 3 * (k - 1) + 2);
      if r.Got? {
        CompletesMore(x, OneMoreBit(prev[k], r.value), ParseRefine(r.rest, prev, k + 1, se, area), goal);
      }
    } else {
      var r := Read(t, area + 3 * (k - 1) + 1);
      if r.Got? && r.value == 0 && k < se {
        CompletesMore(x, 0, ParseRefineRun(r.rest, prev, k + 1, se, area), goal);
      }
      if r.Got? && r.value == 1 {
        var sign := Read(r.rest, FIXED_BIN);
        if sign.Got? {
          CompletesMore(x, Signed(sign.value, 1), ParseRefine(sign.rest, prev, k + 1, se, area), goal);
        }
      }
    }
  }

  /** The last nonzero coefficient of the previous stage, at most at se. */
  method PreviousEnd(prev: seq<int>, se: nat) returns (kex: nat)
    requires se < |prev|
    ensures kex <= se && forall i :: kex < i <= se ==> prev[i] == 0
    ensures kex > 0 ==> prev[kex] != 0
  {
    kex := se;
    while kex > 0 && prev[kex] == 0
      invariant kex <= se && forall i :: kex < i <= se ==> prev[i] == 0
    {
      kex := kex - 1;
    }
  }

  /** Figure G.10: the coefficients of a band, at one more bit of precision. */
  method DecodeRefine(d: Decoder, prev: seq<int>, ss: nat, se: nat, area: nat) returns (x: seq<int>)
    requires Ready(d) && 1 <= ss <= se + 1 <= |prev| && ParseRefine(d.todo, prev, ss, se, area).Got?
    modifies d, d.stats
    ensures Ready(d) && Got(x, d.todo) == old(ParseRefine(d.todo, prev, ss, se, area))
  {
    hide Ready, ParseRefineRun, Read;
    ghost var goal := ParseRefine(d.todo, prev, ss, se, area);
    var kex := 0;
    if ss <= se {
      kex := PreviousEnd(prev, se);
    }
    var k := ss;
    x := [];
    CompletesAll(goal);
    while k <= se
      invariant Ready(d) && ss <= k <= se + 1 && Completes(x, ParseRefine(d.todo, prev, k, se, area), goal)
      decreases se + 1 - k
    {
      assert k > kex <==> forall i :: k <= i <= se ==> prev[i] == 0;
      if k > kex {
        var b := DecodeBit(d, area + 3 * (k - 1));
        if b == 1 {
          x := x + Zeros(se + 1 - k);
          return;
        }
      }
      x, k := DecodeRefineRun(d, prev, k, se, area, x, goal);
    }
    CompletesNone(x, d.todo, goal);
  }

  // Blocks and MCUs.

  /** A DC value: the difference is added to the prediction, and sets the conditioning category. */
  method DecodeDcValue(d: Decoder, s: Scan, dc: DcState, ci: nat) returns (v: int, next: DcState)
    requires Ready(d) && GoodScan(s) && GoodDc(s, dc) && ci < |s.comps| && ParseDcValue(d.todo, s, dc, ci).Got?
    modifies d, d.stats
    ensures Ready(d) && Got((v, next), d.todo) == old(ParseDcValue(d.todo, s, dc, ci))
  {
    hide Ready, ParseDc, DcContext;
    var tbl := s.comps[ci].dcTbl;
    var diff := DecodeDc(d, DcArea(tbl), dc.ctx[ci]);
    var u := (dc.last[ci] + diff) % 0x10000;
    next := DcState(dc.last[ci := u], dc.ctx[ci := DcContext(diff, s.lower[tbl], s.upper[tbl])]);
    v := ToCoef(u);
  }

  /** One block of an MCU; known is what the scans before have delivered. */
  method DecodeBlock(d: Decoder, s: Scan, dc: DcState, b: nat, known: Block) returns (x: seq<int>, next: DcState)
    requires Ready(d) && GoodScan(s) && GoodDc(s, dc) && b < |s.membership| && ParseBlock(d.todo, s, dc, b, known).Got?
    modifies d, d.stats
    ensures Ready(d) && GoodDc(s, next) && Got((x, next), d.todo) == old(ParseBlock(d.todo, s, dc, b, known))
  {
    hide Ready, ParseDcValue, ParseAc, ParseRefine, Read;
    var ci := s.membership[b];
    var acArea, kx := AcArea(s.comps[ci].acTbl), s.kx[s.comps[ci].acTbl];
    next := dc;
    match s.kind {
      case Sequential =>
        var v, ac;
        v, next := DecodeDcValue(d, s, dc, ci);
        ac := DecodeAc(d, 1, 63, acArea, kx);
        x := [v] + ac;
      case DcFirst(_) =>
        var v;
        v, next := DecodeDcValue(d, s, dc, ci);
        x := [v];
      case DcRefine(_) =>
        var v := DecodeBit(d, FIXED_BIN);
        x := [v];
      case AcFirst(ss, se, _) =>
        x := DecodeAc(d, ss, se, acArea, kx);
      case AcRefine(ss, se, _) =>
        x := DecodeRefine(d, known, ss, se, acArea);
    }
  }

  /** The blocks in front, and then those that are parsed, are the whole MCU. */
  predicate McuCompletes(xs: seq<seq<int>>, p: Parsed<(seq<seq<int>>, DcState)>, goal: Parsed<(seq<seq<int>>, DcState)>) {
    p.Got? && goal == Got((xs + p.value.0, p.value.1), p.rest)
  }

  lemma McuEnds(p: Parsed<(seq<seq<int>>, DcState)>, xs: seq<seq<int>>, dc: DcState, t: Trace)
    ensures p.Got? ==> McuCompletes([], p, p)
    ensures McuCompletes(xs, Got(([], dc), t), p) ==> p == Got((xs, dc), t)
  {
    assert p.Got? ==> [] + p.value.0 == p.value.0;
    assert xs + [] == xs;
  }

  lemma BlockReads(t: Trace, s: Scan, dc: DcState, known: seq<Block>, b: nat, xs: seq<seq<int>>, goal: Parsed<(seq<seq<int>>, DcState)>)
    requires GoodScan(s) && GoodDc(s, dc) && b < |known| == |s.membership|
    requires McuCompletes(xs, ParseMcu(t, s, dc, known, b), goal)
    ensures var r := ParseBlock(t, s, dc, b, known[b]);
      r.Got? && McuCompletes(xs + [r.value.0], ParseMcu(r.rest, s, r.value.1, known, b + 1), goal)
  {
    hide ParseBlock, GoodScan, GoodDc;
    var r := ParseBlock(t, s, dc, b, known[b]);
    var q := ParseMcu(r.rest, s, r.value.1, known, b + 1);
    assert xs + ([r.value.0] + q.value.0) == (xs + [r.value.0]) + q.value.0;
  }

  /** The blocks of an MCU. */
  method DecodeMcu(d: Decoder, s: Scan, dc: DcState, known: seq<Block>) returns (xs: seq<seq<int>>, next: DcState)
    requires Ready(d) && GoodScan(s) && GoodDc(s, dc) && |known| == |s.membership| && ParseMcu(d.todo, s, dc, known, 0).Got?
    modifies d, d.stats
    ensures Ready(d) && GoodDc(s, next) && Got((xs, next), d.todo) == old(ParseMcu(d.todo, s, dc, known, 0))
  {
    hide Ready, ParseBlock, GoodDc, McuCompletes;
    ghost var goal := ParseMcu(d.todo, s, dc, known, 0);
    xs, next := [], dc;
    McuEnds(goal, [], dc, Done);
    var b := 0;
    while b < |known|
      invariant b <= |known| && Ready(d) && GoodDc(s, next)
      invariant McuCompletes(xs, ParseMcu(d.todo, s, next, known, b), goal)
    {
      BlockReads(d.todo, s, next, known, b, xs, goal);
      var x;
      x, next := DecodeBlock(d, s, next, b, known[b]);
      xs, b := xs + [x], b + 1;
    }
    McuEnds(goal, xs, next, d.todo);
  }
}
