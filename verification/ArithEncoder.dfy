/** The byte-emitting arithmetic encoder: registers C and A with delayed carry, stacked 0xFF bytes,
    pending zero bytes, stuffing and "Pacman" termination.  Every method is specified by what it
    does to the ideal coder that the registers and the bytes together denote. */
module ArithEncoder {
  import opened Bytes
  import opened ProbabilityTable
  import opened IntervalCoder

  /** The code value of a byte string read to m bytes, zeros being supplied after its end. */
  function CodeValue(data: seq<byte>, m: nat): nat {
    if m <= |data| then Value(data[..m]) else Value(data + Repeat(0, m - |data|))
  }

  /** The byte string that is still open to change, as carried by zc, buffer and sc. */
  function Held(zc: nat, buffer: int, sc: nat): (r: seq<byte>)
    requires -1 <= buffer < 255
    ensures |r| == zc + sc + (if buffer >= 0 then 1 else 0)
  {
    Repeat(0, zc) + (if buffer >= 0 then [buffer] else []) + Repeat(0xFF, sc)
  }

  /** The ideal coder denoted by the bytes produced so far, the registers and the bins. */
  function Denote(p: seq<byte>, c: nat, a: nat, ct: nat, bins: seq<byte>): Coder
    requires ct <= 11
  {
    Coder(Shl(Value(p), 27 - ct) + c, a, 8 * |p| + 11 - ct, bins)
  }

  /** The registers fit.  The bound on c + a is the effect of the spacer bits: a carry can reach at
      most bit 27, and C fits 32 bits.  The bound on the whole keeps the interval inside the unit. */
  ghost predicate Fits(p: seq<byte>, c: nat, a: nat, ct: nat)
    requires ct <= 11
  {
    && 1 <= a <= 0x10000
    && c + a <= Shl(9, 24 - ct)
    && Shl(Value(p), 27 - ct) + c + a <= Pow2(8 * |p| + 27 - ct)
  }

  lemma DoubleFits(p: seq<byte>, c: nat, a: nat, ct: nat, bins: seq<byte>)
    requires 1 <= ct <= 11 && Fits(p, c, a, ct) && a < 0x8000
    ensures Fits(p, 2 * c, 2 * a, ct - 1)
    ensures Denote(p, 2 * c, 2 * a, ct - 1, bins) == Double(Denote(p, c, a, ct, bins))
  {
  }

  /** Moving the complete byte from C to a byte string of the matching value changes nothing. */
  lemma ByteFits(p: seq<byte>, c: nat, a: nat, p': seq<byte>, bins: seq<byte>)
    requires Fits(p, c, a, 0) && a < 0x10000 && |p'| == |p| + 1
    requires Value(p') == Value(p) * 256 + c / 0x80000
    ensures Fits(p', c % 0x80000, a, 8)
    ensures Denote(p', c % 0x80000, a, 8, bins) == Denote(p, c, a, 0, bins)
  {
    ShlConstants(9);
    ShlConstants(Value(p));
    ShlConstants(Value(p'));
  }

  lemma CarryIsOne(p: seq<byte>, c: nat, a: nat)
    requires Fits(p, c, a, 0)
    ensures c / 0x80000 > 0xFF ==> c / 0x80000 - 256 < 32
  {
    ShlConstants(9);
  }

  /** No carry can occur while everything produced is stacked 0xFF bytes. */
  lemma NoCarryOutOfOnes(n: nat, c: nat, a: nat, ct: nat)
    requires ct <= 11 && Fits(Repeat(0xFF, n), c, a, ct)
    ensures c + a <= Pow2(27 - ct)
  {
    var v := Value(Repeat(0xFF, n));
    ValueAllOnes(n);
    ShlShl(1, 8 * n, 27 - ct);
    ShlAdd(v, 1, 27 - ct);
  }

  lemma SplitFits(p: seq<byte>, c: nat, a: nat, ct: nat, bins: seq<byte>, d: Decision, ch: Choice)
    requires ct <= 11 && Fits(p, c, a, ct) && 0x8000 <= a && GoodBins(bins) && d.bin < |bins|
    requires ch == IntervalCoder.Choose(a, bins[d.bin], d.val)
    ensures Fits(p, c + ch.offset, ch.size, ct) && GoodBins(bins[d.bin := ch.sv])
    ensures Denote(p, c + ch.offset, ch.size, ct, bins[d.bin := ch.sv]) == Split(Denote(p, c, a, ct, bins), d)
  {
  }

  lemma CarryHeld(data: seq<byte>, zc: nat, buffer: byte, sc: nat)
    requires buffer < 255
    ensures Value(data + Repeat(0, zc) + [buffer + 1] + Repeat(0, sc)) == Value(data + Held(zc, buffer, sc)) + 1
  {
    var p := data + Repeat(0, zc);
    CarryRipple(p, buffer, sc);
    assert data + Held(zc, buffer, sc) == p + [buffer] + Repeat(0xFF, sc);
  }

  lemma HeldNew(data: seq<byte>, zc: nat, b: byte)
    requires b < 255
    ensures data + Held(zc, b, 0) == data + Repeat(0, zc) + [b]
    ensures Value(data + Held(zc, b, 0)) == Value(data + Repeat(0, zc)) * 256 + b
  {
    assert data + Held(zc, b, 0) == data + Repeat(0, zc) + [b];
    ValueAppend(data + Repeat(0, zc), b);
  }

  lemma HeldBuffer(data: seq<byte>, zc: nat, buffer: int)
    requires -1 <= buffer < 255
    ensures buffer == -1 ==> data + Held(zc, buffer, 0) == data + Repeat(0, zc)
    ensures buffer == 0 ==> data + Held(zc, buffer, 0) == data + Repeat(0, zc + 1)
    ensures buffer > 0 ==> data + Held(zc, buffer, 0) == data + Repeat(0, zc) + [buffer as byte] + Repeat(0, 0)
  {
  }

  lemma HeldStacked(data: seq<byte>, zc: nat, buffer: int, sc: nat)
    requires -1 <= buffer < 255
    ensures Value(data + Held(zc, buffer, sc + 1)) == Value(data + Held(zc, buffer, sc)) * 256 + 0xFF
  {
    RepeatSucc(0xFF, sc);
    assert data + Held(zc, buffer, sc + 1) == data + Held(zc, buffer, sc) + [0xFF];
    ValueAppend(data + Held(zc, buffer, sc), 0xFF);
  }

  lemma HeldSettled(data: seq<byte>, zc: nat, buffer: int, sc: nat)
    requires -1 <= buffer < 255
    ensures data + Held(zc, buffer, sc) == data + Held(zc, buffer, 0) + Repeat(0xFF, sc)
  {
  }

  /** The truncated code value is still in the interval, and shifted into place it leaves only
      two bytes below the carry position. */
  /** The value of the interval with the most trailing zeros has at least fifteen of them. */
  lemma TrailingZeros(c: nat, a: nat, code: nat)
    requires 0x8000 <= a
    requires var top := a - 1 + c; var t := top - top % 0x10000; code == if t < c then t + 0x8000 else t
    ensures c <= code < c + a && code == code / 0x800 * 0x800
  {
  }

  lemma TruncatedFits(p: seq<byte>, c: nat, a: nat, ct: nat, code: nat)
    requires ct <= 11 && Fits(p, c, a, ct) && 0x8000 <= a
    requires var top := a - 1 + c; var t := top - top % 0x10000; code == if t < c then t + 0x8000 else t
    ensures c <= code < c + a
    ensures Shl(code, ct) < 0x9000000 && Shl(code, ct) % 0x800 == 0
  {
    hide Value, Shl;
    TrailingZeros(c, a, code);
    var u := code / 0x800;
    ShlLess(code, Shl(9, 24 - ct), ct);
    ShlShl(9, 24 - ct, ct);
    ShlConstants(9);
    ShlMultiple(u, ct);
  }

  lemma {:induction false} ShlMultiple(u: nat, n: nat)
    ensures Shl(u * 0x800, n) % 0x800 == 0
  {
    if n > 0 {
      ShlMultiple(u, n - 1);
    }
  }

  lemma TruncatedAlone(n: nat, c: nat, a: nat, ct: nat, code: nat)
    requires ct <= 11 && Fits(Repeat(0xFF, n), c, a, ct) && code < c + a
    ensures Shl(code, ct) < 0x8000000
  {
    NoCarryOutOfOnes(n, c, a, ct);
    ShlLess(code, Pow2(27 - ct), ct);
    ShlShl(1, 27 - ct, ct);
    ShlConstants(1);
  }

  lemma LastTwo(p: seq<byte>, c: nat)
    requires c % 0x800 == 0
    ensures var b1: byte, b2: byte := c / 0x80000 % 256, c / 0x800 % 256;
      Value(p + [b1, b2]) * 0x800 == Value(p) * 0x8000000 + c % 0x8000000
    ensures c / 0x800 % 0x10000 == c / 0x80000 % 256 * 256 + c / 0x800 % 256
  {
    var b1: byte, b2: byte := c / 0x80000 % 256, c / 0x800 % 256;
    assert p + [b1, b2] == p + [b1] + [b2];
    ValueAppend(p, b1);
    ValueAppend(p + [b1], b2);
    LowBits(c, c / 0x800, c / 0x8000000);
  }

  lemma LowBits(c: nat, u: nat, t: nat)
    requires c == u * 0x800 && t == c / 0x8000000
    ensures u % 0x10000 == c / 0x80000 % 256 * 256 + u % 256
    ensures c % 0x8000000 == (c / 0x80000 % 256 * 256 + u % 256) * 0x800
  {
    assert c / 0x80000 == u / 256;
    assert u / 256 / 256 == t;
  }

  lemma PaddedEnd(p: seq<byte>, b1: byte, b2: byte, data: seq<byte>, k: nat)
    requires data + Repeat(0, k) == p + [b1, b2]
    ensures |data| <= |p| + 2 && CodeValue(data, |p| + 2) == Value(p + [b1, b2])
  {
    assert |p + [b1, b2]| == |data| + k;
    if k == 0 {
      assert data == p + [b1, b2] && data[..|data|] == data;
    }
  }

  /** The value of a terminated segment is the truncated code value, at every precision. */
  lemma FinishContains(p: seq<byte>, c: nat, a: nat, ct: nat, bins: seq<byte>, code: nat, data: seq<byte>)
    requires ct <= 11 && c <= code < c + a && |data| <= |p| + 2
    requires CodeValue(data, |p| + 2) * 0x800 == Value(p) * 0x8000000 + Shl(code, ct)
    ensures var d := Denote(p, c, a, ct, bins);
      forall m: nat :: d.shifts + 32 <= 8 * m ==> |data| <= m && Contains(d, m, CodeValue(data, m))
  {
    var d := Denote(p, c, a, ct, bins);
    forall m: nat | d.shifts + 32 <= 8 * m ensures |data| <= m && Contains(d, m, CodeValue(data, m)) {
      FinishContainsAt(p, c, a, ct, bins, code, data, m);
    }
  }

  lemma FinishContainsAt(p: seq<byte>, c: nat, a: nat, ct: nat, bins: seq<byte>, code: nat, data: seq<byte>, m: nat)
    requires ct <= 11 && c <= code < c + a && |data| <= |p| + 2
    requires CodeValue(data, |p| + 2) * 0x800 == Value(p) * 0x8000000 + Shl(code, ct)
    requires 8 * |p| + 43 - ct <= 8 * m
    ensures |data| <= m && Contains(Denote(p, c, a, ct, bins), m, CodeValue(data, m))
  {
    hide CodeValue, Value, Shl;
    var k := m - |p| - 2;
    FinishScale(p, ct, code, data, k);
    Inside(Shl(Value(p), 27 - ct), c, code, a, 8 * k - 11 + ct);
  }

  lemma Inside(low: nat, c: nat, code: nat, a: nat, n: nat)
    requires c <= code < c + a
    ensures Shl(low + c, n) <= Shl(low + code, n) < Shl(low + c + a, n)
  {
    ShlLess(low + code, low + c, n);
    ShlLess(low + code, low + c + a, n);
  }

  lemma FinishScale(p: seq<byte>, ct: nat, code: nat, data: seq<byte>, k: nat)
    requires ct <= 11 && 2 <= k && |data| <= |p| + 2
    requires CodeValue(data, |p| + 2) * 0x800 == Value(p) * 0x8000000 + Shl(code, ct)
    ensures CodeValue(data, |p| + 2 + k) == Shl(Shl(Value(p), 27 - ct) + code, 8 * k - 11 + ct)
  {
    var y, v := CodeValue(data, |p| + 2), Value(p);
    CodeValueExtend(data, |p| + 2, k);
    ShlConstants(y);
    ShlConstants(v);
    ShlShl(v, 27 - ct, ct);
    ShlAdd(Shl(v, 27 - ct), code, ct);
    assert Shl(y, 11) == Shl(Shl(v, 27 - ct) + code, ct);
    ShlShl(y, 11, 8 * k - 11);
    ShlShl(Shl(v, 27 - ct) + code, ct, 8 * k - 11);
  }

  lemma CodeValueExtend(data: seq<byte>, n: nat, k: nat)
    requires |data| <= n
    ensures CodeValue(data, n + k) == Shl(CodeValue(data, n), 8 * k)
  {
    var d := data + Repeat(0, n - |data|);
    assert n == |data| ==> data[..n] == d;
    assert data + Repeat(0, n + k - |data|) == d + Repeat(0, k);
    assert n + k == |data| ==> data[..n + k] == d + Repeat(0, k);
    ValueTrailingZeros(d, k);
  }

  class Encoder {
    var c: nat          // base of the coding interval, below the bytes already shifted out
    var a: nat          // size of the coding interval
    var sc: nat         // stacked 0xFF bytes, which a carry would turn into zeros
    var zc: nat         // pending zero bytes, discarded if nothing follows
    var ct: nat         // doublings until the next byte is complete
    var buffer: int     // most recent byte other than 0xFF, or -1
    var out: seq<byte>  // everything handed to the destination, stuffing included
    const stats: array<byte>

    ghost var prior: seq<byte>  // what the destination held when this code segment began
    ghost var data: seq<byte>   // the segment's bytes so far, without stuffing

    /** Every byte of the segment produced so far: emitted, pending, buffered and stacked. */
    ghost function Produced(): seq<byte>
      reads `data, `zc, `buffer, `sc
      requires -1 <= buffer < 255
    {
      data + Held(zc, buffer, sc)
    }

    ghost predicate Segment()
      reads `out, `prior, `data, `buffer, `zc
    {
      && out == prior + Stuff(data)
      && -1 <= buffer < 255
      && (buffer == -1 ==> data == [] && zc == 0)
      && (data != [] ==> data[|data| - 1] != 0)
    }

    /** The ideal coder denoted by the state. */
    ghost function Ideal(): Coder
      reads this, stats
      requires -1 <= buffer < 255 && ct <= 11
    {
      Denote(Produced(), c, a, ct, stats[..])
    }

    /** What holds at every step, also in the middle of renormalisation. */
    ghost predicate Inv()
      reads this, stats
    {
      Segment() && ct <= 11 && a <= 0x10000 && Fits(Produced(), c, a, ct) && GoodBins(stats[..])
    }

    ghost predicate Valid()
      reads this, stats
    {
      Inv() && 0x8000 <= a && 1 <= ct
    }

    constructor (stats: array<byte>)
      requires GoodBins(stats[..])
      ensures Valid() && this.stats == stats && Ideal() == Start(stats[..]) && out == prior == []
    {
      this.stats := stats;
      c, a, sc, zc, ct, buffer := 0, 0x10000, 0, 0, 11, -1;
      out, prior, data := [], [], [];
      new;
      StartFacts();
    }

    /** Starts a new code segment after whatever the destination holds now. */
    method Reset()
      requires GoodBins(stats[..])
      modifies this
      ensures Valid() && out == prior == old(out) && data == [] && Ideal() == Start(stats[..])
    {
      c := 0;
      a := 0x10000;
      sc := 0;
      zc := 0;
      ct := 11;
      buffer := -1;
      prior, data := out, [];
      StartFacts();
    }

    /** emit_byte with stuffing, for a byte that belongs to the code segment. */
    method EmitData(b: byte)
      requires out == prior + Stuff(data)
      modifies this`out, this`data
      ensures out == prior + Stuff(data) && data == old(data) + [b]
    {
      out := out + [b];
      if b == 0xFF {
        out := out + [0x00];
      }
      StuffAppend(data, b);
      data := data + [b];
      assert out == prior + Stuff(data);
    }

    /** Emits the pending zero bytes. */
    method FlushZeros()
      requires out == prior + Stuff(data)
      modifies this`out, this`data, this`zc
      ensures out == prior + Stuff(data) && zc == 0 && data == old(data) + Repeat(0, old(zc))
    {
      assert data + Repeat(0, 0) == data;
      while zc != 0
        invariant zc <= old(zc)
        invariant out == prior + Stuff(data) && data == old(data) + Repeat(0, old(zc) - zc)
      {
        AppendRepeat(old(data), 0, old(zc) - zc);
        EmitData(0x00);
        zc := zc - 1;
      }
    }

    /** Adds a carry to the buffered byte; the stacked 0xFF bytes become pending zeros. */
    method Carry()
      requires Segment() && 0 <= buffer
      modifies this`out, this`data, this`zc, this`sc
      ensures out == prior + Stuff(data) && sc == 0
      ensures data != [] && data[|data| - 1] != 0
      ensures |data| + zc == |old(Produced())|
      ensures Value(data + Repeat(0, zc)) == Value(old(Produced())) + 1
    {
      hide Value, Stuff;
      CarryHeld(data, zc, buffer, sc);
      FlushZeros();
      EmitData(buffer + 1);
      zc := zc + sc;
      sc := 0;
    }

    /** Emits the buffered byte, which no carry can reach any more; a zero is only counted. */
    method SettleBuffer()
      requires Segment()
      modifies this`out, this`data, this`zc
      ensures out == prior + Stuff(data)
      ensures data != [] ==> data[|data| - 1] != 0
      ensures data + Repeat(0, zc) == old(data + Held(zc, buffer, 0))
      ensures buffer == -1 ==> data == [] && zc == 0
    {
      HeldBuffer(data, zc, buffer);
      if buffer == 0 {
        zc := zc + 1;
      } else if buffer > 0 {
        FlushZeros();
        EmitData(buffer);
      }
    }

    /** Emits the stacked 0xFF bytes. */
    method EmitStacked()
      requires out == prior + Stuff(data)
      requires data != [] ==> data[|data| - 1] != 0
      modifies this`out, this`data, this`zc, this`sc
      ensures out == prior + Stuff(data) && sc == 0
      ensures data != [] ==> data[|data| - 1] != 0
      ensures data + Repeat(0, zc) == old(data + Repeat(0, zc) + Repeat(0xFF, sc))
    {
      hide Stuff;
      if sc != 0 {
        FlushZeros();
        ghost var p := data;
        assert p + Repeat(0xFF, 0) == p;
        while sc != 0
          invariant sc <= old(sc) && zc == 0 && out == prior + Stuff(data)
          invariant data == p + Repeat(0xFF, old(sc) - sc)
        {
          AppendRepeat(p, 0xFF, old(sc) - sc);
          EmitData(0xFF);
          sc := sc - 1;
        }
      }
    }

    /** Emits everything that no carry can reach any more. */
    method Settle()
      requires Segment()
      modifies this`out, this`data, this`zc, this`sc
      ensures out == prior + Stuff(data) && sc == 0
      ensures data != [] ==> data[|data| - 1] != 0
      ensures data + Repeat(0, zc) == old(Produced())
    {
      HeldSettled(data, zc, buffer, sc);
      SettleBuffer();
      EmitStacked();
    }

    /** Makes b the buffered byte once nothing is buffered or stacked. */
    method Buffer(b: byte)
      requires out == prior + Stuff(data) && sc == 0 && b < 255
      requires data != [] ==> data[|data| - 1] != 0
      modifies this`buffer
      ensures Segment() && |Produced()| == |data| + zc + 1
      ensures Value(Produced()) == Value(data + Repeat(0, zc)) * 256 + b
    {
      HeldNew(data, zc, b);
      buffer := b;
    }

    /** Takes the bits above the remaining C register: a byte, possibly with a carry on top. */
    method PutByte(temp: nat)
      requires Segment() && temp < 288
      requires temp > 0xFF ==> buffer >= 0
      modifies this`out, this`data, this`zc, this`sc, this`buffer
      ensures Segment() && |Produced()| == |old(Produced())| + 1
      ensures Value(Produced()) == Value(old(Produced())) * 256 + temp
    {
      hide Value, Stuff;
      if temp > 0xFF {
        assert temp % 256 == temp - 256;
        PutCarry(temp % 256);
      } else if temp == 0xFF {
        HeldStacked(data, zc, buffer, sc);
        sc := sc + 1;
      } else {
        PutPlain(temp % 256);
      }
    }

    method PutCarry(b: byte)
      requires Segment() && 0 <= buffer && b < 32
      modifies this`out, this`data, this`zc, this`sc, this`buffer
      ensures Segment() && |Produced()| == |old(Produced())| + 1
      ensures Value(Produced()) == (Value(old(Produced())) + 1) * 256 + b
    {
      Carry();
      Buffer(b);
    }

    method PutPlain(b: byte)
      requires Segment() && b < 255
      modifies this`out, this`data, this`zc, this`sc, this`buffer
      ensures Segment() && |Produced()| == |old(Produced())| + 1
      ensures Value(Produced()) == Value(old(Produced())) * 256 + b
    {
      Settle();
      Buffer(b);
    }

    /** A byte is complete: move it out of C. */
    method ByteOut()
      requires Inv() && ct == 0 && a < 0x10000
      modifies this
      ensures Inv() && ct == 8 && a == old(a) && prior == old(prior)
      ensures Ideal() == old(Ideal())
    {
      hide Value, Shl, Fits, Denote, Stuff, Held;
      ghost var p := Produced();
      CarryIsOne(p, c, a);
      if buffer == -1 {
        NoCarryAlone();
      }
      PutByte(c / 0x80000);
      ByteFits(p, c, a, Produced(), stats[..]);
      c := c % 0x80000;
      ct := ct + 8;
    }

    /** One step of renormalisation: double the interval, and output a byte if one is complete. */
    method Shift()
      requires Inv() && 1 <= ct && a < 0x8000
      modifies this
      ensures Inv() && 1 <= ct && a == 2 * old(a) && prior == old(prior)
      ensures Ideal() == Double(old(Ideal()))
    {
      hide Value, Shl, Fits, Stuff;
      DoubleFits(Produced(), c, a, ct, stats[..]);
      a := 2 * a;
      c := 2 * c;
      ct := ct - 1;
      if ct == 0 {
        ByteOut();
      }
    }

    /** Fetches the interval size and the successor bytes from the packed table. */
    static method Fetch(sv: byte) returns (qe: int, nl: byte, nm: byte)
      requires GoodBin(sv)
      ensures qe == RowOf(sv).qe
      ensures FlipTop(sv, nl) == AfterLps(sv) && FlipTop(sv, nm) == AfterMps(sv)
    {
      ByteUpdate(sv);
      Unpack(sv % 128);
      qe := Pack(Table(sv % 128));
      nl := qe % 256;
      qe := qe / 256;
      nm := qe % 256;
      qe := qe / 256;
    }

    /** The coding procedure: moves the registers to the chosen sub-interval and says which byte
        the bin should hold. */
    method Select(sv: byte, val: bit) returns (ready: bool, next: byte)
      requires 0x8000 <= a <= 0x10000 && GoodBin(sv)
      modifies this`a, this`c
      ensures Choice(c - old(c), a, next) == IntervalCoder.Choose(old(a), sv, val)
      ensures ready <==> a >= 0x8000
      ensures ready ==> next == sv
    {
      var qe, nl, nm := Fetch(sv);
      a := a - qe;
      if val != sv / 128 {
        if a >= qe {
          c := c + a;
          a := qe;
        }
        next := FlipTop(sv, nl);
      } else {
        if a >= 0x8000 {
          return true, sv;
        }
        if a < qe {
          c := c + a;
          a := qe;
        }
        next := FlipTop(sv, nm);
      }
      ready := false;
    }

    /** The coding and estimation procedures, up to renormalisation. */
    method Choose(st: nat, val: bit) returns (ready: bool)
      requires Valid() && st < stats.Length
      modifies this`a, this`c, stats
      ensures Inv() && 1 <= ct && (ready <==> a >= 0x8000)
      ensures Ideal() == Split(old(Ideal()), Decision(st, val))
    {
      hide Fits, Denote, Split, Shl, Value, RowOf;
      var sv := stats[st];
      ghost var ch := IntervalCoder.Choose(a, sv, val);
      SplitFits(Produced(), c, a, ct, stats[..], Decision(st, val), ch);
      var next;
      ready, next := Select(sv, val);
      if !ready {
        stats[st] := next;
      }
      assert stats[..] == old(stats[..])[st := ch.sv];
    }

    /** Codes one binary decision with the estimate in bin st. */
    method Encode(st: nat, val: bit)
      requires Valid() && st < stats.Length
      modifies this, stats
      ensures Valid() && prior == old(prior)
      ensures Ideal() == IntervalCoder.Encode(old(Ideal()), Decision(st, val))
    {
      var ready := Choose(st, val);
      if ready {
        return;
      }
      Shift();
      while a < 0x8000
        invariant Inv() && 1 <= ct && prior == old(prior)
        invariant Renorm(Ideal()) == IntervalCoder.Encode(old(Ideal()), Decision(st, val))
        decreases 0x8000 - a
      {
        Shift();
      }
    }

    /** Codes a sequence of decisions. */
    method EncodeTrace(t: Trace)
      requires Valid() && InBins(t, stats.Length)
      modifies this, stats
      ensures Valid() && prior == old(prior) && Ideal() == EncodeAll(old(Ideal()), t)
    {
      var t := t;
      ghost var goal := EncodeAll(Ideal(), t);
      while t.Then?
        invariant Valid() && prior == old(prior)
        invariant InBins(t, stats.Length) && EncodeAll(Ideal(), t) == goal
        decreases t
      {
        Encode(t.head.bin, t.head.val);
        t := t.tail;
      }
    }

    /** Moves C to the value in the interval with the most trailing zero bits, and shifts it so
        that the last bits are in place for output. */
    method Truncate() returns (ghost code: nat)
      requires Valid()
      modifies this`c
      ensures old(c) <= code < old(c) + a && c == Shl(code, ct)
      ensures c < 0x9000000 && c % 0x800 == 0
      ensures buffer == -1 ==> c < 0x8000000
    {
      var top := a - 1 + c;
      var temp := top - top % 0x10000;
      if temp < c {
        temp := temp + 0x8000;
      }
      TruncatedFits(Produced(), c, a, ct, temp);
      if buffer == -1 {
        assert Produced() == Repeat(0xFF, sc);
        TruncatedAlone(sc, c, a, ct, temp);
      }
      c := Shl(temp, ct);
      return temp;
    }

    /** Outputs two bytes that are not both zero, dropping the second one if it is zero. */
    method EmitTwo(b1: byte, b2: byte) returns (ghost k: nat)
      requires out == prior + Stuff(data) && (b1 != 0 || b2 != 0)
      modifies this`out, this`data, this`zc
      ensures out == prior + Stuff(data) && data != [] && data[|data| - 1] != 0
      ensures data + Repeat(0, k) == old(data + Repeat(0, zc)) + [b1, b2]
    {
      FlushZeros();
      EmitData(b1);
      if b2 != 0 {
        EmitData(b2);
        k := 0;
      } else {
        k := 1;
      }
    }

    /** Outputs the two bytes left in C, unless they are zero. */
    method LastBytes()
      requires out == prior + Stuff(data) && c % 0x800 == 0
      requires data != [] ==> data[|data| - 1] != 0
      modifies this`out, this`data, this`zc
      ensures out == prior + Stuff(data) && (data != [] ==> data[|data| - 1] != 0)
      ensures |data| <= old(|data| + zc + 2)
      ensures CodeValue(data, old(|data| + zc + 2)) * 0x800 ==
              Value(old(data + Repeat(0, zc))) * 0x8000000 + c % 0x8000000
    {
      hide Stuff, Value, CodeValue, Repeat;
      ghost var p, k := data + Repeat(0, zc), zc + 2;
      var b1 := c / 0x80000 % 256;
      var b2 := c / 0x800 % 256;
      LastTwo(p, c);
      if c / 0x800 % 0x10000 != 0 {
        k := EmitTwo(b1, b2);
      }
      PaddedEnd(p, b1, b2, data, k);
    }

    /** Section D.1.8: terminates the code segment.  Whatever zero bytes are dropped, the segment
        followed by zeros denotes a value inside the final interval, and it never ends in a zero
        byte of its own. */
    method Finish()
      requires Valid()
      modifies this
      ensures out == prior + Stuff(data) && prior == old(prior)
      ensures data != [] ==> data[|data| - 1] != 0
      ensures forall m: nat :: old(Ideal()).shifts + 32 <= 8 * m ==>
        |data| <= m && Contains(old(Ideal()), m, CodeValue(data, m))
    {
      hide Stuff, Value, CodeValue, Repeat, Fits, Denote, Contains, Shl;
      ghost var p, c0 := Produced(), c;
      ghost var code := Truncate();
      Release();
      LastBytes();
      FinishContains(p, c0, a, ct, stats[..], code, data);
    }

    /** A restart marker after a finished segment. */
    method EmitMarker(num: nat)
      requires num < 8
      modifies `out
      ensures out == old(out) + [0xFF, 0xD0 + num]
    {
      out := out + [0xFF];
      out := out + [0xD0 + num];
    }

    /** Emits what is buffered and stacked, with the final carry if there is one. */
    method Release()
      requires Segment() && c < 0x10000000 && (buffer == -1 ==> c < 0x8000000)
      modifies this`out, this`data, this`zc, this`sc
      ensures out == prior + Stuff(data) && (data != [] ==> data[|data| - 1] != 0)
      ensures |data| + zc == |old(Produced())|
      ensures Value(data + Repeat(0, zc)) == Value(old(Produced())) + c / 0x8000000
    {
      if c >= 0x8000000 {
        Carry();
      } else {
        Settle();
      }
    }

    lemma NoCarryAlone()
      requires Inv() && ct == 0 && buffer == -1
      ensures c < 0x8000000
    {
      assert Produced() == Repeat(0xFF, sc);
      NoCarryOutOfOnes(sc, c, a, 0);
      ShlConstants(1);
    }

    lemma StartFacts()
      requires buffer == -1 && data == [] && zc == 0 && sc == 0 && ct == 11 && c == 0 && a == 0x10000
      requires GoodBins(stats[..]) && out == prior
      ensures Inv() && Ideal() == Start(stats[..])
    {
      assert Produced() == [];
      ShlConstants(1);
      ShlConstants(9);
      ShlZero(16);
      assert out == prior + Stuff(data);
    }
  }
}
