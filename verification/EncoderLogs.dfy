/** What an encoder that either writes or counts has produced, as a log of items, and the total of a whole scan. */
module EncoderLogs {
  import opened Bytes
  import opened BitStrings
  import opened Words
  import opened BitLogs
  import opened BitWriters
  import opened HuffmanItems
  import opened HuffmanScan

  /** Everything the encoder has produced: bits, or counts when it gathers statistics. */
  datatype Output = Output(bits: Bits, counts: Stats)

  /** The output after the given items. */
  ghost function After(gather: bool, book: CodeBook, items: Items, o: Output): Output
    requires GoodStats(o.counts)
  {
    if gather then Output(o.bits, Tally(items, o.counts)) else Output(Emit(book, items, o.bits), o.counts)
  }

  /** The items so far, last one outermost. */
  datatype Log = Start | AddSym(init: Log, table: TableId, symbol: byte) | AddRaw(init: Log, value: nat, size: nat)

  function Append(log: Log, rest: Items): Items
    decreases log
  {
    match log
    case Start => rest
    case AddSym(init, t, s) => Append(init, Sym(t, s, rest))
    case AddRaw(init, v, n) => Append(init, Raw(v, n, rest))
  }

  /** The output of the items so far. */
  ghost function Done(gather: bool, book: CodeBook, log: Log, base: Output): (o: Output)
    requires GoodStats(base.counts)
    ensures GoodStats(o.counts)
    decreases log
  {
    match log
    case Start => base
    case AddSym(init, t, s) =>
      var o := Done(gather, book, init, base);
      if gather then Output(o.bits, Bump(o.counts, t, s)) else Output(Put(o.bits, book[t].co[s], book[t].si[s]), o.counts)
    case AddRaw(init, v, n) =>
      var o := Done(gather, book, init, base);
      if gather then o else Output(Put(o.bits, v, n), o.counts)
  }

  /** The output of the items so far, and then of the rest, is that of all of them. */
  lemma {:induction false} DoneAppend(gather: bool, book: CodeBook, log: Log, rest: Items, base: Output)
    requires GoodStats(base.counts)
    ensures After(gather, book, rest, Done(gather, book, log, base)) == After(gather, book, Append(log, rest), base)
    decreases log
  {
    match log
    case Start =>
    case AddSym(init, t, s) => DoneAppend(gather, book, init, Sym(t, s, rest), base);
    case AddRaw(init, v, n) => DoneAppend(gather, book, init, Raw(v, n, rest), base);
  }

  /** Every symbol so far has a code. */
  predicate Covers(book: CodeBook, log: Log)
    decreases log
  {
    match log
    case Start => true
    case AddSym(init, t, s) => book[t].si[s] > 0 && Covers(book, init)
    case AddRaw(init, _, _) => Covers(book, init)
  }

  lemma {:induction false} CoversAppend(book: CodeBook, log: Log, rest: Items)
    ensures Covered(book, Append(log, rest)) <==> Covers(book, log) && Covered(book, rest)
    decreases log
  {
    match log
    case Start =>
    case AddSym(init, t, s) => CoversAppend(book, init, Sym(t, s, rest));
    case AddRaw(init, v, n) => CoversAppend(book, init, Raw(v, n, rest));
  }

  lemma {:induction false} PutSame(b: Bits, v: nat, w: nat, n: nat)
    requires ToBits(v, n) == ToBits(w, n)
    ensures Put(b, v, n) == Put(b, w, n)
    decreases n
  {
    if n > 0 {
      assert ToBits(v, n)[..n - 1] == ToBits(v / 2, n - 1);
      assert ToBits(w, n)[..n - 1] == ToBits(w / 2, n - 1);
      assert ToBits(v, n)[n - 1] == v % 2 && ToBits(w, n)[n - 1] == w % 2;
      PutSame(b, v / 2, w / 2, n - 1);
    }
  }

  lemma {:induction false} SameBits(v: nat, w: nat, n: nat)
    requires Put(Empty, v, n) == Put(Empty, w, n)
    ensures ToBits(v, n) == ToBits(w, n)
    decreases n
  {
    if n > 0 {
      SameBits(v / 2, w / 2, n - 1);
    }
  }

  lemma {:induction false} LowBitsSame(v: int, w: nat, n: nat)
    requires n <= w
    ensures ToBits(LowBits(v, w), n) == ToBits(LowBits(v, n), n)
    decreases n
  {
    if v >= 0 {
      PutWrap(Empty, v, w, n);
      PutWrap(Empty, v, n, n);
      SameBits(Wrap(v, w), v, n);
      SameBits(Wrap(v, n), v, n);
    } else {
      LowBitsNegative(0 - v - 1, w, n);
    }
  }

  lemma {:induction false} LowBitsNegative(u: nat, w: nat, n: nat)
    requires n <= w
    ensures Wrap(u, w) < Pow2(w) && Wrap(u, n) < Pow2(n)
    ensures ToBits(Pow2(w) - 1 - Wrap(u, w), n) == ToBits(Pow2(n) - 1 - Wrap(u, n), n)
    decreases n
  {
    WrapBound(u, w);
    WrapBound(u, n);
    if n > 0 {
      LowBitsNegative(u / 2, w - 1, n - 1);
      assert (Pow2(w) - 1 - Wrap(u, w)) / 2 == Pow2(w - 1) - 1 - Wrap(u / 2, w - 1);
      assert (Pow2(n) - 1 - Wrap(u, n)) / 2 == Pow2(n - 1) - 1 - Wrap(u / 2, n - 1);
    }
  }

  function NoCounts(): (c: Stats)
    ensures GoodStats(c) && forall t: TableId, i: nat :: i < 257 ==> c[t][i] == 0
  {
    seq(NUM_TABLES, _ => seq(257, _ => 0))
  }

  /** Finished segments, or counts. */
  datatype Outcome = Written(segs: seq<Bits>) | Counted(counts: Stats)

  /** Everything a scan writes, or counts, if these segments come from here. */
  ghost function TotalOf(gather: bool, book: CodeBook, done: seq<Bits>, base: Output, segs: Segs): Outcome
    requires GoodStats(base.counts)
  {
    if gather then Counted(TallySegs(segs, base.counts)) else Written(done + EmitSegs(book, segs, base.bits))
  }

  /** Ending a segment does not change the total. */
  lemma EndSegment(gather: bool, book: CodeBook, done: seq<Bits>, base: Output, log: Log, segs: Segs, o: Output, base': Output)
    requires GoodStats(base.counts) && o == Done(gather, book, log, base)
    requires base' == if gather then o else Output(Empty, o.counts)
    ensures gather ==> TotalOf(gather, book, done, base', segs) == TotalOf(gather, book, done, base, More(Append(log, Nil), segs))
    ensures !gather ==>
      TotalOf(gather, book, done + [Padded(o.bits)], base', segs) == TotalOf(gather, book, done, base, More(Append(log, Nil), segs))
    ensures (gather || Covers(book, log)) ==> gather || Covered(book, Append(log, Nil))
  {
    DoneAppend(gather, book, log, Nil, base);
    CoversAppend(book, log, Nil);
    Regroup(done, [Padded(o.bits)], EmitSegs(book, segs, Empty));
  }

  lemma LastSegmentDone(gather: bool, book: CodeBook, done: seq<Bits>, base: Output, log: Log, o: Output)
    requires GoodStats(base.counts) && o == Done(gather, book, log, base)
    ensures TotalOf(gather, book, done, base, Last(Append(log, Nil)))
         == if gather then Counted(o.counts) else Written(done + [Padded(o.bits)])
    ensures Covers(book, log) ==> Covered(book, Append(log, Nil))
  {
    DoneAppend(gather, book, log, Nil, base);
    CoversAppend(book, log, Nil);
  }
}
