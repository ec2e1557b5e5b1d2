/** The arithmetic decoder, following a code segment written by ArithEncoder. */
module ArithDecoder {
  import opened Bytes
  import opened ProbabilityTable
  import opened IntervalCoder
  import opened ArithEncoder

  /** Data byte k of a segment, zeros being supplied after its end. */
  function ByteAt(data: seq<byte>, k: nat): byte {
    if k < |data| then data[k] else 0
  }

  lemma CodeValueNext(data: seq<byte>, k: nat)
    ensures CodeValue(data, k + 1) == CodeValue(data, k) * 256 + ByteAt(data, k)
  {
    if k < |data| {
      assert data[..k + 1] == data[..k] + [data[k]];
      ValueAppend(data[..k], data[k]);
    } else {
      assert k == |data| ==> data[..k] == data + Repeat(0, 0);
      AppendRepeat(data, 0, k - |data|);
      ValueAppend(data + Repeat(0, k - |data|), 0);
    }
  }

  /** The first k bytes are the leading digits of the first m. */
  lemma {:induction false} CodeValuePrefix(data: seq<byte>, k: nat, m: nat)
    requires k <= m
    ensures Shl(CodeValue(data, k), 8 * (m - k)) <= CodeValue(data, m) < Shl(CodeValue(data, k) + 1, 8 * (m - k))
    decreases m - k
  {
    if k < m {
      var v, q := CodeValue(data, k), 8 * (m - k - 1);
      CodeValuePrefix(data, k + 1, m);
      CodeValueNext(data, k);
      ShlConstants(v);
      ShlConstants(v + 1);
      ShlShl(v, 8, q);
      ShlShl(v + 1, 8, q);
      ShlLess(CodeValue(data, k + 1), Shl(v, 8), q);
      ShlLess(Shl(v + 1, 8), CodeValue(data, k + 1) + 1, q);
    }
  }

  /** What the decoder's register holds when k bytes have been read: the distance of the code
      value from the base of the interval, to ct extra bits. */
  lemma Offset(c: Coder, d: Decision, data: seq<byte>, k: nat, ct: nat, m: nat)
    requires 0x8000 <= c.size <= 0x10000 && GoodBins(c.bins) && d.bin < |c.bins|
    requires k <= m && 8 * k == 16 + c.shifts + ct && Contains(Split(c, d), m, CodeValue(data, m))
    ensures var ch := Choose(c.size, c.bins[d.bin], d.val);
      Shl(c.base, ct) + Shl(ch.offset, ct) <= CodeValue(data, k) < Shl(c.base, ct) + Shl(ch.offset + ch.size, ct)
  {
    hide Shl, CodeValue, RowOf;
    var s, q := Split(c, d), 8 * (m - k);
    var v, ch := CodeValue(data, k), Choose(c.size, c.bins[d.bin], d.val);
    CodeValuePrefix(data, k, m);
    ShlShl(s.base, ct, q);
    ShlShl(s.base + s.size, ct, q);
    ShlLess(Shl(s.base, ct), v + 1, q);
    ShlLess(v, Shl(s.base + s.size, ct), q);
    ShlAdd(c.base, ch.offset, ct);
    ShlAdd(c.base, ch.offset + ch.size, ct);
  }

  /** Every decision still to come is determined by the code value x, given to 8m bits. */
  ghost predicate Follows(c: Coder, todo: Trace, m: nat, x: nat)
    requires 0x8000 <= c.size <= 0x10000 && GoodBins(c.bins) && InBins(todo, |c.bins|)
  {
    Contains(EncodeAll(c, todo), m, x)
  }

  lemma FollowsTail(c: Coder, todo: Trace, m: nat, x: nat)
    requires 0x8000 <= c.size <= 0x10000 && GoodBins(c.bins) && InBins(todo, |c.bins|) && todo.Then?
    requires Follows(c, todo, m, x)
    ensures InBins(todo.tail, |c.bins|) && Follows(Encode(c, todo.head), todo.tail, m, x)
  {
  }

  /** The code value lies in the sub-interval of the next decision. */
  lemma FollowsHead(c: Coder, todo: Trace, m: nat, x: nat)
    requires 0x8000 <= c.size <= 0x10000 && GoodBins(c.bins) && InBins(todo, |c.bins|) && todo.Then?
    requires Follows(c, todo, m, x)
    ensures Contains(Split(c, todo.head), m, x)
  {
    var s := Split(c, todo.head);
    EncodeAllContains(Renorm(s), todo.tail, m, x);
    RenormContains(s, m, x);
  }

  /** The registers agree with the ideal state: the k bytes read so far place the code value. */
  ghost predicate Places(c: nat, a: nat, ct: int, k: nat, s: Coder, data: seq<byte>) {
    && a == s.size && 0 <= ct < 8
    && 8 * k == 16 + s.shifts + ct
    && c + Shl(s.base, ct) == CodeValue(data, k)
  }

  lemma PlacesDouble(c: nat, a: nat, ct: nat, k: nat, s: Coder, data: seq<byte>)
    requires Places(c, a, ct, k, s, data)
    ensures if ct > 0 then Places(c, 2 * a, ct - 1, k, Double(s), data)
            else Places(c * 256 + ByteAt(data, k), 2 * a, 7, k + 1, Double(s), data)
  {
    CodeValueNext(data, k);
    ShlEven(s.base, if ct > 0 then ct - 1 else 7);
    ShlConstants(s.base);
  }

  lemma PlacesSplit(c: nat, a: nat, ct: nat, k: nat, s: Coder, data: seq<byte>, d: Decision)
    requires 0x8000 <= s.size <= 0x10000 && GoodBins(s.bins) && d.bin < |s.bins|
    requires Places(c, a, ct, k, s, data)
    ensures var ch := Choose(a, s.bins[d.bin], d.val);
      Shl(ch.offset, ct) <= c ==> Places(c - Shl(ch.offset, ct), ch.size, ct, k, Split(s, d), data)
  {
    hide Shl, CodeValue, RowOf;
    ShlAdd(s.base, Choose(a, s.bins[d.bin], d.val).offset, ct);
  }

  /** The first two bytes fill the register. */
  lemma FillFacts(data: seq<byte>, bins: seq<byte>)
    ensures CodeValue(data, 0) == 0 && CodeValue(data, 1) == ByteAt(data, 0)
    ensures CodeValue(data, 2) == ByteAt(data, 0) * 256 + ByteAt(data, 1)
    ensures Places(CodeValue(data, 2), 0x10000, 0, 2, Start(bins), data)
  {
    CodeValueNext(data, 0);
    CodeValueNext(data, 1);
  }

  /** From position `origin` the input holds the stuffed segment, then `fill` 0xFF bytes and a
      marker code. */
  ghost predicate Holds(input: seq<byte>, origin: nat, data: seq<byte>, fill: nat) {
    var end := origin + |Stuff(data)|;
    && 1 <= fill && end + fill < |input|
    && input[origin..end] == Stuff(data)
    && (forall i :: end <= i < end + fill ==> input[i] == 0xFF)
    && input[end + fill] != 0 && input[end + fill] != 0xFF
  }

  lemma StuffedAt(data: seq<byte>, k: nat)
    requires k < |data|
    ensures var s, p := Stuff(data), |Stuff(data[..k])|;
      p + |Stuffed(data[k])| == |Stuff(data[..k + 1])| <= |s| &&
      p < |s| && s[p] == data[k] && (data[k] == 0xFF ==> p + 1 < |s| && s[p + 1] == 0)
      && |Stuffed(data[k])| == if data[k] == 0xFF then 2 else 1
  {
    hide Stuff;
    var a, t, b := Stuff(data[..k]), Stuffed(data[k]), Stuff(data[k + 1..]);
    assert data == data[..k + 1] + data[k + 1..];
    StuffConcat(data[..k + 1], data[k + 1..]);
    assert data[..k + 1] == data[..k] + [data[k]];
    StuffAppend(data[..k], data[k]);
    assert Stuff(data) == (a + t) + b;
    assert (a + t)[|a|] == t[0];
  }

  /** Data byte k stands at the place where the first k stuffed bytes end. */
  lemma HoldsAt(input: seq<byte>, origin: nat, data: seq<byte>, fill: nat, k: nat)
    requires Holds(input, origin, data, fill) && k < |data|
    ensures var p := origin + |Stuff(data[..k])|;
      p + (if data[k] == 0xFF then 2 else 1) == origin + |Stuff(data[..k + 1])| <= origin + |Stuff(data)| &&
      input[p] == data[k] && (data[k] == 0xFF ==> input[p + 1] == 0)
  {
    hide Stuff, Stuffed;
    var s, p := Stuff(data), |Stuff(data[..k])|;
    StuffedAt(data, k);
    assert input[origin..origin + |s|][p] == s[p];
    if data[k] == 0xFF {
      assert input[origin..origin + |s|][p + 1] == s[p + 1];
    }
  }

  class Decoder {
    var c: nat
    var a: nat
    var ct: int
    const input: seq<byte>
    var pos: nat
    var marker: byte    // the marker that ended the segment, 0 while none has been met
    const stats: array<byte>

    ghost const data: seq<byte>     // the segment, without stuffing
    ghost const origin: nat         // where it starts in the input
    ghost const m: nat              // to how many bytes the code value is known to be placed
    ghost const fill: nat           // how many 0xFF bytes lead the marker after it
    ghost var k: nat                // how many of its bytes, padding included, have been read
    ghost var coder: Coder          // the encoder's ideal state, not yet normalised
    ghost var todo: Trace   // what the encoder coded from there on

    ghost predicate Reading()
      reads `pos, `marker, `k
    {
      && Holds(input, origin, data, fill)
      && (marker == 0 ==> k <= |data| && pos == origin + |Stuff(data[..k])|)
      && (marker != 0 ==> |data| < k && pos == origin + |Stuff(data)| + fill + 1 && marker == input[pos - 1])
    }

    ghost predicate Tracking()
      reads `c, `a, `ct, `k, `coder
    {
      Places(c, a, ct, k, coder, data)
    }

    /** The register is being filled with the first two bytes. */
    ghost predicate Filling()
      reads `c, `a, `ct, `k, `coder
    {
      && a == 0 && c == CodeValue(data, k) && coder == Start(coder.bins)
      && ((k == 0 && ct == -16) || (k == 1 && ct == -8))
    }

    ghost predicate Inv()
      reads this, stats
    {
      && Reading() && (Filling() || Tracking())
      && 1 <= coder.size <= 0x10000 && GoodBins(coder.bins) && stats[..] == coder.bins
    }

    /** The decoder is about to see exactly the decisions in todo. */
    ghost predicate Valid()
      reads this, stats
    {
      Inv() && InBins(todo, |coder.bins|) && Follows(Renorm(coder), todo, m, CodeValue(data, m))
    }

    constructor (input: seq<byte>, origin: nat, stats: array<byte>, ghost data: seq<byte>, ghost fill: nat,
                 ghost m: nat, ghost todo: Trace)
      requires Holds(input, origin, data, fill)
      requires GoodBins(stats[..]) && InBins(todo, stats.Length)
      requires Follows(Start(stats[..]), todo, m, CodeValue(data, m))
      ensures Valid() && this.stats == stats && this.todo == todo && coder == Start(stats[..])
      ensures this.input == input && this.origin == origin && this.data == data && this.fill == fill
    {
      this.input, this.stats, this.origin, this.data, this.fill, this.m, this.todo :=
        input, stats, origin, data, fill, m, todo;
      c, a, ct, pos, marker, k := 0, 0, -16, origin, 0, 0;
      coder := Start(stats[..]);
      new;
      assert data[..0] == [];
    }

    /** The next data byte: a stuffed zero is discarded, and after a marker zeros are supplied. */
    method NextByte() returns (b: byte)
      requires Reading()
      modifies `pos, `marker, `k
      ensures Reading() && k == old(k) + 1 && b == ByteAt(data, old(k))
    {
      hide CodeValue, Shl, Stuff, Stuffed;
      if marker != 0 {
        b := 0;
      } else {
        if k < |data| {
          HoldsAt(input, origin, data, fill, k);
        } else {
          assert data[..k] == data;
        }
        b := input[pos];
        pos := pos + 1;
        if b == 0xFF {
          b := SkipFill();
          if b == 0 {
            b := 0xFF;
          } else {
            marker := b;
            b := 0;
          }
        }
      }
      k := k + 1;
    }

    /** After a 0xFF byte: swallows further ones and returns the byte that follows them. */
    method SkipFill() returns (b: byte)
      requires Holds(input, origin, data, fill) && 1 <= pos
      requires pos - 1 == origin + |Stuff(data)| || (pos < |input| && input[pos] == 0)
      modifies `pos
      ensures 1 <= pos <= |input| && b == input[pos - 1]
      ensures if old(pos) - 1 == origin + |Stuff(data)| then b != 0 && pos == origin + |Stuff(data)| + fill + 1
              else b == 0 && pos == old(pos) + 1
    {
      ghost var start, end := pos, origin + |Stuff(data)|;
      b := input[pos];
      pos := pos + 1;
      while b == 0xFF
        invariant start < pos <= |input| && b == input[pos - 1]
        invariant start - 1 == end ==> pos <= end + fill + 1
        invariant start - 1 != end ==> pos == start + 1
        decreases |input| - pos
      {
        b := input[pos];
        pos := pos + 1;
      }
    }

    /** After a segment: the marker it ends with.  What the decoder has not read of the segment is skipped. */
    method ReadMarker() returns (b: byte)
      requires Reading()
      modifies `pos
      ensures pos == origin + |Stuff(data)| + fill + 1 <= |input| && b == input[pos - 1]
    {
      hide CodeValue, Shl, Stuff, Stuffed;
      ghost var j := k;
      b := marker;
      while b == 0
        invariant Holds(input, origin, data, fill)
        invariant if b == 0 then j <= |data| && pos == origin + |Stuff(data[..j])|
                  else pos == origin + |Stuff(data)| + fill + 1 <= |input| && b == input[pos - 1]
        decreases if b == 0 then |data| - j + 1 else 0
      {
        if j < |data| {
          HoldsAt(input, origin, data, fill, j);
        } else {
          assert data[..j] == data;
        }
        var c := input[pos];
        pos := pos + 1;
        if c == 0xFF {
          b := SkipFill();
        }
        j := j + 1;
      }
    }

    /** One turn of the renormalisation loop: while the register is being filled the interval
        stays what it is, afterwards it doubles. */
    method Step()
      requires Inv() && a < 0x8000
      modifies `c, `a, `ct, `k, `pos, `marker, `coder
      ensures Inv() && coder == if old(a) == 0 then old(coder) else Double(old(coder))
      ensures old(a) == 0 ==> a == 0x10000 || (a == 0 && old(k) == 0 && k == 1)
    {
      hide Shl, CodeValue, Stuff, Holds, GoodBins, Start, ByteAt;
      FillFacts(data, coder.bins);
      ghost var filling := a == 0;
      if !filling {
        PlacesDouble(c, a, ct, k, coder, data);
      }
      ct := ct - 1;
      if ct < 0 {
        var b := NextByte();
        c := c * 256 + b;
        ct := ct + 8;
        if ct < 0 {
          ct := ct + 1;
          if ct == 0 {
            a := 0x8000;
          }
        }
      }
      a := 2 * a;
      if !filling {
        coder := Double(coder);
      }
    }

    /** Section D.2.6: the renormalisation that precedes every decision. */
    method Normalize()
      requires Inv()
      modifies `c, `a, `ct, `k, `pos, `marker, `coder
      ensures Inv() && Tracking() && coder == Renorm(old(coder))
    {
      while a < 0x8000
        invariant Inv() && (a == 0 ==> k < 2)
        invariant Renorm(coder) == Renorm(old(coder))
        decreases if a == 0 then 2 - k else 0, if a == 0 then 0 else 0x8000 - a
      {
        Step();
      }
    }

    /** Sections D.2.4 and D.2.5: the decision is the one whose sub-interval the register is in.
        `val` is the decision that was coded. */
    method Decide(sv: byte, ghost val: bit) returns (r: bit, next: byte)
      requires 0x8000 <= a <= 0x10000 && GoodBin(sv) && 0 <= ct
      requires var ch := Choose(a, sv, val); Shl(ch.offset, ct) <= c < Shl(ch.offset + ch.size, ct)
      modifies `c, `a
      ensures r == val && Choice(Choose(old(a), sv, val).offset, a, next) == Choose(old(a), sv, val)
      ensures c + Shl(Choose(old(a), sv, val).offset, ct) == old(c)
    {
      hide RowOf;
      var qe, nl, nm := Encoder.Fetch(sv);
      var mps := sv / 128;
      ShlZero(ct);
      a := a - qe;
      var temp := Shl(a, ct);
      next := sv;
      r := mps;
      if c >= temp {
        c := c - temp;
        if a < qe {
          a := qe;
          next := FlipTop(sv, nm);
        } else {
          a := qe;
          next := FlipTop(sv, nl);
          r := 1 - mps;
        }
      } else if a < 0x8000 {
        if a < qe {
          next := FlipTop(sv, nl);
          r := 1 - mps;
        } else {
          next := FlipTop(sv, nm);
        }
      }
    }

    /** Decides and updates the estimate, once the register is normalised. */
    method Take(st: nat, ghost val: bit) returns (r: bit)
      requires Inv() && Tracking() && 0x8000 <= a && st < stats.Length
      requires var ch := Choose(a, coder.bins[st], val);
        Shl(ch.offset, ct) <= c < Shl(ch.offset + ch.size, ct)
      modifies `c, `a, `coder, stats
      ensures Inv() && r == val && coder == Split(old(coder), Decision(st, val))
    {
      hide CodeValue, Stuff, Holds, RowOf, Shl;
      ghost var ch := Choose(a, coder.bins[st], val);
      PlacesSplit(c, a, ct, k, coder, data, Decision(st, val));
      var sv := stats[st];
      var next;
      r, next := Decide(sv, val);
      stats[st] := next;
      assert stats[..] == coder.bins[st := ch.sv];
      coder := Split(coder, Decision(st, val));
    }

    /** Decodes one binary decision with the estimate in bin st: it is the decision that the
        encoder coded there, and the statistics stay in step. */
    method Decode(st: nat) returns (val: bit)
      requires Valid() && todo.Then? && todo.head.bin == st && st < stats.Length
      modifies this, stats
      ensures Valid() && val == old(todo).head.val && todo == old(todo).tail
      ensures Renorm(coder) == Encode(Renorm(old(coder)), old(todo).head)
    {
      hide Shl, CodeValue, Stuff, Holds, Choose, Contains;
      Normalize();
      NextOffset();
      FollowsTail(coder, todo, m, CodeValue(data, m));
      val := Take(st, todo.head.val);
      todo := todo.tail;
    }

    /** The code value lies in the sub-interval of the next decision. */
    lemma NextOffset()
      requires Inv() && Tracking() && 0x8000 <= a && InBins(todo, |coder.bins|) && todo.Then?
      requires Follows(coder, todo, m, CodeValue(data, m))
      ensures var ch := Choose(a, coder.bins[todo.head.bin], todo.head.val);
        Shl(ch.offset, ct) <= c < Shl(ch.offset + ch.size, ct)
    {
      hide Shl, CodeValue, Stuff, Holds, RowOf, EncodeAll, Contains;
      FollowsHead(coder, todo, m, CodeValue(data, m));
      Offset(coder, todo.head, data, k, ct, m);
    }

    /** Decodes everything that is left, asking for the bins of t in turn. */
    method DecodeTrace(t: Trace) returns (decoded: Log)
      requires Valid() && todo == t
      modifies this, stats
      ensures Append(decoded, Done) == t
      ensures stats[..] == EncodeAll(Renorm(old(coder)), t).bins
    {
      decoded := Nothing;
      var ask := t;
      ghost var goal := EncodeAll(Renorm(coder), t);
      while ask.Then?
        invariant Valid() && todo == ask && |coder.bins| == stats.Length
        invariant Append(decoded, ask) == t
        invariant EncodeAll(Renorm(coder), todo) == goal
        decreases ask
      {
        var v := Decode(ask.head.bin);
        decoded := Add(decoded, Decision(ask.head.bin, v));
        ask := ask.tail;
      }
    }
  }
}
