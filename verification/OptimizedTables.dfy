/** Tables generated and derived from the counts of a statistics pass, and what they are good for. */
module OptimizedTables {
  import opened Bytes
  import opened Sums
  import opened HuffmanForest
  import opened HuffmanTree
  import opened HuffmanTable
  import opened HuffmanResults
  import opened HuffmanCodes
  import opened HuffmanDerivation
  import opened HuffmanItems
  import opened HuffmanScan

  /** The table was generated from these counts, with the given optimal sizes, and the codes derived from it. */
  ghost predicate GeneratedFrom(freq: seq<nat>, size: seq<nat>, t: Table, c: Codes) {
    && |freq| == 257 && Formed(t) && 0 < |size| <= 256
    && Describes(Symbols(freq), size, t.bits, t.huffval[..|size| - 1])
    && (Accepts(t, 255) ==> Derived(t, c.co, c.si))
  }

  lemma GeneratedBook(freq: seq<nat>, size: seq<nat>, t: Table, c: Codes)
    requires GeneratedFrom(freq, size, t, c)
    ensures AcceptedBook(t, c)
    ensures forall s: byte :: freq[s] > 0 ==> c.si[s] > 0
  {
    GeneratedAccepted(freq, size, t, 255);
    forall s: byte | freq[s] > 0
      ensures c.si[s] > 0
    {
      CountedHaveCodes(freq, size, t, c.co, c.si, s);
    }
  }

  /**
   * Tables generated from a statistics pass are accepted by the derivation and have a code for every
   * symbol of the scan, so the scan decodes.
   */
  lemma GeneratedTablesServe(counts: Stats, zero: Stats, segs: Segs, sizes: seq<seq<nat>>, tables: seq<Table>, book: CodeBook)
    requires GoodStats(zero) && forall t: TableId, s: byte :: zero[t][s] == 0
    requires counts == TallySegs(segs, zero)
    requires |sizes| == |tables| == NUM_TABLES
    requires forall t: TableId :: GeneratedFrom(counts[t], sizes[t], tables[t], book[t])
    ensures BookOf(tables, book) && ReadsBook(DecodersOf(tables), book) && CoveredSegs(book, segs)
  {
    forall t: TableId
      ensures AcceptedBook(tables[t], book[t])
      ensures forall s: byte :: counts[t][s] > 0 ==> book[t].si[s] > 0
    {
      GeneratedBook(counts[t], sizes[t], tables[t], book[t]);
    }
    BookReads(tables, book);
    StatisticsCover(book, segs, zero);
  }

  // Generating all tables.

  /** No codes at all, for an encoder that only counts. */
  function NoBook(): (book: CodeBook)
    ensures GoodBook(book)
  {
    seq(NUM_TABLES, _ => NoCodes())
  }

  /** Counts for which the generation is meant: they sum to less than its limit, and leave room for the pseudo-symbol. */
  ghost predicate Countable(freq: seq<nat>) {
    |freq| == 257 && Sum(freq[..256]) < LIMIT && |Symbols(freq)| <= 255
  }

  /** The optimal code lengths of the counts do not fit 32 bits. */
  ghost predicate TooLong(freq: seq<nat>) {
    |freq| == 257 && exists size :: Optimal(SymbolCounts(freq), size) && !Fits(size, MAX_CLEN)
  }

  /** One table and the codes derived from it; fails only if an optimal code is over 32 bits. */
  method MakeTable(counts: seq<nat>) returns (ok: bool, t: Table, c: Codes, ghost size: seq<nat>)
    requires Countable(counts)
    ensures !ok ==> TooLong(counts)
    ensures ok ==> GeneratedFrom(counts, size, t, c)
  {
    hide Optimal, Describes, SymbolCounts, Symbols, Derived, Accepts, Fits;
    var freq := new nat[257](i requires 0 <= i < 257 => counts[i]);
    assert freq[..] == counts && freq[..256] == counts[..256];
    var bits, huffval := new byte[17](_ => 0), new byte[256](_ => 0);
    ok, size := GenOptimalTable(freq, bits, huffval);
    t := Table(bits[..], huffval[..]);
    var ehufco, ehufsi := new nat[256](_ => 0), new nat[256](_ => 0);
    var accepted := MakeDerivedTable(t, 255, ehufco, ehufsi);
    c := DerivedTable(ehufco[..], ehufsi[..]);
    if ok {
      assert t.huffval[..|size| - 1] == huffval[..|size| - 1];
    }
  }

  /** All tables; fails only if an optimal code of some table is over 32 bits. */
  method MakeTables(counts: Stats) returns (ok: bool, tables: seq<Table>, book: CodeBook, ghost sizes: seq<seq<nat>>)
    requires GoodStats(counts) && forall t: TableId :: Countable(counts[t])
    ensures !ok ==> exists t: TableId :: TooLong(counts[t])
    ensures ok ==> |sizes| == |tables| == NUM_TABLES
    ensures ok ==> forall t: TableId :: GeneratedFrom(counts[t], sizes[t], tables[t], book[t])
  {
    hide Countable, TooLong, GeneratedFrom;
    tables, sizes, book := [], [], seq(NUM_TABLES, _ => NoCodes());
    var n := 0;
    while n < NUM_TABLES
      invariant n <= NUM_TABLES && |sizes| == |tables| == n
      invariant forall t: TableId :: t < n ==> GeneratedFrom(counts[t], sizes[t], tables[t], book[t])
    {
      var t, c;
      ghost var size;
      ok, t, c, size := MakeTable(counts[n]);
      if !ok {
        return;
      }
      tables, sizes, book := tables + [t], sizes + [size], book[n := c];
      n := n + 1;
    }
    ok := true;
  }
}
