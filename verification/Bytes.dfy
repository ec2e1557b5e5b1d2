/** Powers of two, byte strings read as big-endian numbers, and zero-byte stuffing. */
module Bytes {

  type byte = b: int | 0 <= b < 256

  /** A binary decision or a single bit. */
  type bit = b: int | 0 <= b < 2

  /** v shifted left by n bits. */
  function Shl(v: nat, n: nat): nat
  {
    if n == 0 then v else 2 * Shl(v, n - 1)
  }

  function Pow2(n: nat): (r: nat)
    ensures 1 <= r
  {
    ShlZero(n);
    ShlLess(0, 1, n);
    Shl(1, n)
  }

  lemma {:induction false} ShlAdd(v: nat, w: nat, n: nat)
    ensures Shl(v + w, n) == Shl(v, n) + Shl(w, n)
  {
    if n > 0 {
      ShlAdd(v, w, n - 1);
    }
  }

  lemma {:induction false} ShlShl(v: nat, m: nat, n: nat)
    ensures Shl(Shl(v, m), n) == Shl(v, m + n)
  {
    if n > 0 {
      ShlShl(v, m, n - 1);
    }
  }

  lemma {:induction false} ShlLess(v: nat, w: nat, n: nat)
    ensures v < w <==> Shl(v, n) < Shl(w, n)
  {
    if n > 0 {
      ShlLess(v, w, n - 1);
    }
  }

  lemma {:induction false} ShlEven(v: nat, n: nat)
    ensures Shl(2 * v, n) == 2 * Shl(v, n)
  {
    if n > 0 {
      ShlEven(v, n - 1);
    }
  }

  lemma {:induction false} ShlZero(n: nat)
    ensures Shl(0, n) == 0
  {
    if n > 0 {
      ShlZero(n - 1);
    }
  }

  /** Shifts by constants are multiplications by constants. */
  lemma ShlConstants(v: nat)
    ensures Shl(v, 8) == v * 0x100 && Shl(v, 11) == v * 0x800
    ensures Shl(v, 13) == v * 0x2000 && Shl(v, 16) == v * 0x10000 && Shl(v, 19) == v * 0x80000
    ensures Shl(v, 24) == v * 0x1000000 && Shl(v, 27) == v * 0x8000000
  {
    assert Shl(v, 1) == v * 0x2;
    assert Shl(v, 2) == v * 0x4;
    assert Shl(v, 3) == v * 0x8;
    assert Shl(v, 4) == v * 0x10;
    assert Shl(v, 5) == v * 0x20;
    assert Shl(v, 6) == v * 0x40;
    assert Shl(v, 7) == v * 0x80;
    assert Shl(v, 8) == v * 0x100;
    assert Shl(v, 9) == v * 0x200;
    assert Shl(v, 10) == v * 0x400;
    assert Shl(v, 11) == v * 0x800;
    assert Shl(v, 12) == v * 0x1000;
    assert Shl(v, 13) == v * 0x2000;
    assert Shl(v, 14) == v * 0x4000;
    assert Shl(v, 15) == v * 0x8000;
    assert Shl(v, 16) == v * 0x10000;
    assert Shl(v, 17) == v * 0x20000;
    assert Shl(v, 18) == v * 0x40000;
    assert Shl(v, 19) == v * 0x80000;
    assert Shl(v, 20) == v * 0x100000;
    assert Shl(v, 21) == v * 0x200000;
    assert Shl(v, 22) == v * 0x400000;
    assert Shl(v, 23) == v * 0x800000;
    assert Shl(v, 24) == v * 0x1000000;
    assert Shl(v, 25) == v * 0x2000000;
    assert Shl(v, 26) == v * 0x4000000;
  }

  /** The number a byte string spells, most significant byte first. */
  function Value(s: seq<byte>): nat
  {
    if s == [] then 0 else Value(s[..|s| - 1]) * 256 + s[|s| - 1]
  }

  function Repeat(b: byte, n: nat): (r: seq<byte>)
    ensures |r| == n
    ensures forall i :: 0 <= i < n ==> r[i] == b
  {
    seq(n, _ => b)
  }

  lemma ValueAppend(s: seq<byte>, b: byte)
    ensures Value(s + [b]) == Value(s) * 256 + b
  {
    assert (s + [b])[..|s|] == s;
  }

  lemma RepeatSucc(b: byte, n: nat)
    ensures Repeat(b, n + 1) == Repeat(b, n) + [b]
  {
  }

  lemma AppendRepeat(p: seq<byte>, b: byte, n: nat)
    ensures p + Repeat(b, n) + [b] == p + Repeat(b, n + 1)
  {
  }

  lemma {:induction false} ValueBound(s: seq<byte>)
    ensures Value(s) < Pow2(8 * |s|)
  {
    if s == [] {
    } else {
      ValueBound(s[..|s| - 1]);
      ShlShl(1, 8 * (|s| - 1), 8);
      ShlConstants(Pow2(8 * (|s| - 1)));
    }
  }

  /** A carry into a byte followed by a run of 0xFF bytes increments that byte and clears the run. */
  lemma {:induction false} CarryRipple(p: seq<byte>, b: byte, n: nat)
    requires b < 255
    ensures Value(p + [b + 1] + Repeat(0, n)) == Value(p + [b] + Repeat(0xFF, n)) + 1
  {
    if n == 0 {
      assert p + [b + 1] + Repeat(0, 0) == p + [b + 1];
      assert p + [b] + Repeat(0xFF, 0) == p + [b];
      ValueAppend(p, b);
      ValueAppend(p, b + 1);
    } else {
      CarryRipple(p, b, n - 1);
      assert p + [b + 1] + Repeat(0, n) == p + [b + 1] + Repeat(0, n - 1) + [0];
      assert p + [b] + Repeat(0xFF, n) == p + [b] + Repeat(0xFF, n - 1) + [0xFF];
      ValueAppend(p + [b + 1] + Repeat(0, n - 1), 0);
      ValueAppend(p + [b] + Repeat(0xFF, n - 1), 0xFF);
    }
  }

  lemma {:induction false} ValueAllOnes(n: nat)
    ensures Value(Repeat(0xFF, n)) + 1 == Pow2(8 * n)
  {
    if n == 0 {
    } else {
      ValueAllOnes(n - 1);
      RepeatSucc(0xFF, n - 1);
      ValueAppend(Repeat(0xFF, n - 1), 0xFF);
      ShlShl(1, 8 * (n - 1), 8);
      ShlConstants(Pow2(8 * (n - 1)));
    }
  }

  lemma {:induction false} ValueTrailingZeros(s: seq<byte>, n: nat)
    ensures Value(s + Repeat(0, n)) == Shl(Value(s), 8 * n)
  {
    if n == 0 {
      assert s + Repeat(0, 0) == s;
    } else {
      ValueTrailingZeros(s, n - 1);
      assert s + Repeat(0, n) == s + Repeat(0, n - 1) + [0];
      ValueAppend(s + Repeat(0, n - 1), 0);
      ShlShl(Value(s), 8 * (n - 1), 8);
      ShlConstants(Shl(Value(s), 8 * (n - 1)));
    }
  }

  /** Byte stuffing: every 0xFF data byte is followed by a zero byte. */
  function Stuffed(b: byte): seq<byte>
  {
    if b == 0xFF then [0xFF, 0x00] else [b]
  }

  function Stuff(s: seq<byte>): seq<byte>
  {
    if s == [] then [] else Stuff(s[..|s| - 1]) + Stuffed(s[|s| - 1])
  }

  lemma StuffAppend(s: seq<byte>, b: byte)
    ensures Stuff(s + [b]) == Stuff(s) + Stuffed(b)
  {
    assert (s + [b])[..|s|] == s;
  }

  lemma StuffLast(s: seq<byte>)
    ensures Stuff(s) == if s == [] then [] else Stuff(s[..|s| - 1]) + Stuffed(s[|s| - 1])
  {
  }

  lemma {:induction false} StuffConcat(s: seq<byte>, t: seq<byte>)
    ensures Stuff(s + t) == Stuff(s) + Stuff(t)
  {
    hide Stuff, Stuffed;
    StuffLast(t);
    if t == [] {
      assert s + t == s;
    } else {
      var t' := t[..|t| - 1];
      StuffConcat(s, t');
      StuffLast(s + t);
      assert (s + t)[..|s + t| - 1] == s + t';
    }
  }
}
