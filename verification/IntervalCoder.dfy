/** The ideal adaptive binary interval coder: an unbounded-precision base, a normalised size, and
    the statistics bins.  It knows nothing of bytes, carries or termination. */
module IntervalCoder {
  import opened Bytes
  import opened ProbabilityTable

  /** A binary decision and the statistics bin it is coded in. */
  datatype Decision = Decision(bin: nat, val: bit)

  /** Decisions in the order they are coded. */
  datatype Trace = Done | Then(head: Decision, tail: Trace)

  /** Decisions in the order they were made, the last one outermost. */
  datatype Log = Nothing | Add(log: Log, last: Decision)

  /** The decisions of a log followed by those of a trace. */
  function Append(log: Log, t: Trace): Trace {
    match log
    case Nothing => t
    case Add(earlier, d) => Append(earlier, Then(d, t))
  }

  /** After `shifts` doublings the current interval is [base, base + size), in units of
      2^-(16 + shifts) of the initial interval. */
  datatype Coder = Coder(base: nat, size: nat, shifts: nat, bins: seq<byte>)

  predicate GoodBins(bins: seq<byte>) { forall i :: 0 <= i < |bins| ==> GoodBin(bins[i]) }

  /** Normalised, and inside the initial unit interval. */
  ghost predicate Valid(c: Coder) {
    && 0x8000 <= c.size <= 0x10000
    && GoodBins(c.bins)
    && c.base + c.size <= Pow2(16 + c.shifts)
  }

  function Start(bins: seq<byte>): Coder { Coder(0, 0x10000, 0, bins) }

  /** The sub-interval chosen for a decision, and the new estimate. */
  datatype Choice = Choice(offset: int, size: int, sv: byte)

  /** Sections D.1.4 and D.1.5: the upper part of size qe belongs to the less probable symbol,
      unless it is the larger part, when the two are exchanged.  The estimate is updated only
      when the interval needs renormalisation. */
  function Choose(size: int, sv: byte, val: bit): (r: Choice)
    requires 0x8000 <= size <= 0x10000 && GoodBin(sv)
    ensures 0 <= r.offset && 1 <= r.size && r.offset + r.size <= size && GoodBin(r.sv)
  {
    var qe := RowOf(sv).qe;
    var rest := size - qe;
    if val != Mps(sv) then
      if rest >= qe then Choice(rest, qe, AfterLps(sv)) else Choice(0, rest, AfterLps(sv))
    else if rest >= 0x8000 then Choice(0, rest, sv)
    else if rest < qe then Choice(rest, qe, AfterMps(sv))
    else Choice(0, rest, AfterMps(sv))
  }

  /**
   * The two symbols divide the interval: a lower part and an upper part of the size of the estimate, of which the more
   * probable symbol has the larger one. Without the exchange of the two it would lose bits to an estimate over one half.
   */
  lemma SubIntervals(size: int, sv: byte)
    requires 0x8000 <= size <= 0x10000 && GoodBin(sv)
    ensures var m, l, qe := Choose(size, sv, Mps(sv)), Choose(size, sv, 1 - Mps(sv)), RowOf(sv).qe;
      && m.size + l.size == size && m.size >= l.size
      && (if m.offset == 0 then l.offset == m.size && l.size == qe else l.offset == 0 && m.offset == l.size && m.size == qe)
      && l.sv == AfterLps(sv) && m.sv == if m.size < 0x8000 then AfterMps(sv) else sv
  {
    hide AfterLps, AfterMps, Mps, Table;
    assert RowOf(sv).qe <= 0x5B12;
  }

  /** Codes one decision, without normalising the result. */
  function Split(c: Coder, d: Decision): (r: Coder)
    requires 0x8000 <= c.size <= 0x10000 && GoodBins(c.bins) && d.bin < |c.bins|
    ensures 1 <= r.size <= 0x10000 && GoodBins(r.bins) && |r.bins| == |c.bins|
    ensures r.shifts == c.shifts && c.base <= r.base && r.base + r.size <= c.base + c.size
  {
    var ch := Choose(c.size, c.bins[d.bin], d.val);
    Coder(c.base + ch.offset, ch.size, c.shifts, c.bins[d.bin := ch.sv])
  }

  /** One doubling of the interval. */
  function Double(c: Coder): Coder { Coder(2 * c.base, 2 * c.size, c.shifts + 1, c.bins) }

  /** Section D.1.6: double the interval until its size is normal. */
  function Renorm(c: Coder): (r: Coder)
    requires 1 <= c.size <= 0x10000
    ensures 0x8000 <= r.size <= 0x10000 && r.bins == c.bins
    decreases 0x8000 - c.size
  {
    if c.size >= 0x8000 then c else Renorm(Double(c))
  }

  function Encode(c: Coder, d: Decision): (r: Coder)
    requires 0x8000 <= c.size <= 0x10000 && GoodBins(c.bins) && d.bin < |c.bins|
    ensures 0x8000 <= r.size <= 0x10000 && GoodBins(r.bins) && |r.bins| == |c.bins|
  {
    Renorm(Split(c, d))
  }

  predicate InBins(t: Trace, n: nat) {
    match t
    case Done => true
    case Then(d, tail) => d.bin < n && InBins(tail, n)
  }

  function EncodeAll(c: Coder, t: Trace): (r: Coder)
    requires 0x8000 <= c.size <= 0x10000 && GoodBins(c.bins) && InBins(t, |c.bins|)
    ensures 0x8000 <= r.size <= 0x10000 && GoodBins(r.bins) && |r.bins| == |c.bins|
    decreases t
  {
    match t
    case Done => c
    case Then(d, tail) => EncodeAll(Encode(c, d), tail)
  }

  lemma {:induction false} RenormInUnit(c: Coder)
    requires 1 <= c.size <= 0x10000 && c.base + c.size <= Pow2(16 + c.shifts)
    ensures var r := Renorm(c); r.base + r.size <= Pow2(16 + r.shifts)
    decreases 0x8000 - c.size
  {
    if c.size < 0x8000 {
      RenormInUnit(Double(c));
    }
  }

  lemma EncodeValid(c: Coder, d: Decision)
    requires Valid(c) && d.bin < |c.bins|
    ensures Valid(Encode(c, d))
  {
    RenormInUnit(Split(c, d));
  }

  lemma StartValid(bins: seq<byte>)
    requires GoodBins(bins)
    ensures Valid(Start(bins))
  {
    ShlConstants(1);
  }

  lemma {:induction false} EncodeAllValid(c: Coder, t: Trace)
    requires Valid(c) && InBins(t, |c.bins|)
    ensures Valid(EncodeAll(c, t))
    decreases t
  {
    if t.Then? {
      EncodeValid(c, t.head);
      EncodeAllValid(Encode(c, t.head), t.tail);
    }
  }

  /** The code value x, given to 8m bits, lies in the interval of c. */
  ghost predicate Contains(c: Coder, m: nat, x: nat) {
    && 16 + c.shifts <= 8 * m
    && var n := 8 * m - 16 - c.shifts;
       Shl(c.base, n) <= x < Shl(c.base + c.size, n)
  }

  lemma {:induction false} RenormContains(c: Coder, m: nat, x: nat)
    requires 1 <= c.size <= 0x10000 && Contains(Renorm(c), m, x)
    ensures Contains(c, m, x)
    decreases 0x8000 - c.size
  {
    if c.size < 0x8000 {
      RenormContains(Double(c), m, x);
      var n := 8 * m - 16 - (c.shifts + 1);
      ShlEven(c.base, n);
      ShlEven(c.base + c.size, n);
    }
  }

  /** Intervals only shrink: a value inside the interval after a decision is inside it before. */
  lemma SplitContains(c: Coder, d: Decision, m: nat, x: nat)
    requires 0x8000 <= c.size <= 0x10000 && GoodBins(c.bins) && d.bin < |c.bins|
    requires Contains(Split(c, d), m, x)
    ensures Contains(c, m, x)
  {
    var s := Split(c, d);
    var n := 8 * m - 16 - c.shifts;
    ShlLess(s.base, c.base, n);
    ShlLess(c.base + c.size, s.base + s.size, n);
  }

  lemma {:induction false} EncodeAllContains(c: Coder, t: Trace, m: nat, x: nat)
    requires 0x8000 <= c.size <= 0x10000 && GoodBins(c.bins) && InBins(t, |c.bins|)
    requires Contains(EncodeAll(c, t), m, x)
    ensures Contains(c, m, x)
    decreases t
  {
    if t.Then? {
      EncodeAllContains(Encode(c, t.head), t.tail, m, x);
      RenormContains(Split(c, t.head), m, x);
      SplitContains(c, t.head, m, x);
    }
  }
}
