/** A growing string of bits, and what shifting, masking and splitting words mean for it. */
module BitLogs {
  import opened Bytes
  import opened BitStrings
  import opened Coefficients
  import opened Words

  datatype Bits = Empty | Snoc(init: Bits, last: bit)

  function Length(b: Bits): nat {
    match b
    case Empty => 0
    case Snoc(init, _) => Length(init) + 1
  }

  /** Appends the low n bits of v. */
  function Put(b: Bits, v: nat, n: nat): Bits
  {
    if n == 0 then b else Snoc(Put(b, v / 2, n - 1), v % 2)
  }

  function PutOnes(b: Bits, n: nat): Bits {
    if n == 0 then b else Snoc(PutOnes(b, n - 1), 1)
  }

  function PutBytes(b: Bits, s: seq<byte>): Bits
    decreases |s|
  {
    if s == [] then b else Put(PutBytes(b, s[..|s| - 1]), s[|s| - 1], 8)
  }

  /** All bits of b, then rest, first bit first. */
  function Prepend(b: Bits, rest: seq<bit>): seq<bit>
    decreases b
  {
    match b
    case Empty => rest
    case Snoc(init, x) => Prepend(init, [x] + rest)
  }

  lemma {:induction false} PrependPut(b: Bits, v: nat, n: nat, rest: seq<bit>)
    ensures Prepend(Put(b, v, n), rest) == Prepend(b, ToBits(v, n) + rest)
    decreases n
  {
    if n == 0 {
      assert ToBits(v, 0) + rest == rest;
    } else {
      PrependPut(b, v / 2, n - 1, [v % 2] + rest);
      assert ToBits(v, n) + rest == ToBits(v / 2, n - 1) + ([v % 2] + rest);
    }
  }

  lemma {:induction false} PutLength(b: Bits, v: nat, n: nat)
    ensures Length(Put(b, v, n)) == Length(b) + n
    decreases n
  {
    if n > 0 {
      PutLength(b, v / 2, n - 1);
    }
  }

  lemma {:induction false} PutBytesLength(b: Bits, s: seq<byte>)
    ensures Length(PutBytes(b, s)) == Length(b) + 8 * |s|
    decreases |s|
  {
    if s != [] {
      PutBytesLength(b, s[..|s| - 1]);
      PutLength(PutBytes(b, s[..|s| - 1]), s[|s| - 1], 8);
    }
  }

  lemma PutByte(b: Bits, s: seq<byte>, x: byte)
    ensures PutBytes(b, s + [x]) == Put(PutBytes(b, s), x, 8)
  {
    assert (s + [x])[..|s|] == s;
  }

  lemma {:induction false} PutConcat(b: Bits, s: seq<byte>, t: seq<byte>)
    ensures PutBytes(b, s + t) == PutBytes(PutBytes(b, s), t)
    decreases |t|
  {
    if t == [] {
      assert s + t == s;
    } else {
      PutConcat(b, s, t[..|t| - 1]);
      assert (s + t)[..|s + t| - 1] == s + t[..|t| - 1];
    }
  }

  /** A word keeps its low bits. */
  lemma {:induction false} PutWrap(b: Bits, v: nat, w: nat, n: nat)
    requires n <= w
    ensures Put(b, Wrap(v, w), n) == Put(b, v, n)
    decreases n
  {
    if n > 0 {
      PutWrap(b, v / 2, w - 1, n - 1);
    }
  }

  /** The low n bits are the upper n - k of them and the low k. */
  lemma {:induction false} PutSplit(b: Bits, v: nat, n: nat, k: nat)
    requires k <= n
    ensures Put(b, v, n) == Put(Put(b, Shr(v, k), n - k), v, k)
    decreases k
  {
    if k > 0 {
      PutSplit(b, v / 2, n - 1, k - 1);
      ShrHalf(v, k - 1);
    }
  }

  lemma {:induction false} PutShifted(b: Bits, v: nat, c: nat, n: nat, k: nat)
    requires c < Pow2(k)
    ensures Put(b, Shl(v, k) + c, n + k) == Put(Put(b, v, n), c, k)
    decreases k
  {
    if k > 0 {
      PutShifted(b, v, c / 2, n, k - 1);
    }
  }

  /** The k bits c shifted into a w-bit word below n valid bits. */
  lemma ShiftIn(b: Bits, v: nat, c: nat, n: nat, k: nat, w: nat)
    requires n + k <= w && c < Pow2(k)
    ensures Put(b, Or(Wrap(Shl(v, k), w), c), n + k) == Put(Put(b, v, n), c, k)
  {
    WrapShl(v, k, w);
    OrDisjoint(Wrap(v, w - k), k, c);
    PutShifted(b, Wrap(v, w - k), c, n, k);
    PutWrap(b, v, w - k, n);
  }

  /** Appending a byte is appending the low eight bits of any number that ends in it. */
  lemma PutLowByte(b: Bits, v: nat)
    ensures Put(b, v % 256, 8) == Put(b, v, 8)
  {
    ShlConstants(v / 256);
    ShlConstants(1);
    PutShifted(b, v / 256, v % 256, 0, 8);
  }

  /** A word's bytes are its bits. */
  lemma {:induction false} PutWord(b: Bits, v: nat, n: nat)
    ensures PutBytes(b, WordBytes(v, n)) == Put(b, v, 8 * n)
    decreases n
  {
    if n > 0 {
      PutWord(b, v / 256, n - 1);
      PutByte(b, WordBytes(v / 256, n - 1), v % 256);
      LowByte(v);
      PutLowByte(Put(b, v / 256, 8 * (n - 1)), v);
      PutSplit(b, v, 8 * n, 8);
    }
  }

  lemma {:induction false} PutAllOnes(b: Bits, n: nat)
    ensures Put(b, Pow2(n) - 1, n) == PutOnes(b, n)
    decreases n
  {
    if n > 0 {
      PutAllOnes(b, n - 1);
    }
  }
}
