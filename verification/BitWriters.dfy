/**
 * The two ways of packing codes into stuffed bytes. Both append exactly the bits of each code to one abstract
 * bit string, and pad it with fewer than eight ones when flushed.
 */
module BitWriters {
  import opened Bytes
  import opened BitStrings
  import opened Coefficients
  import opened Words
  import opened BitLogs

  /** The number of bits that complete a byte. */
  function Padding(n: nat): (p: nat)
    ensures p < 8 && (n + p) % 8 == 0
  {
    (8 - n % 8) % 8
  }

  lemma Regroup<T>(a: seq<T>, b: seq<T>, c: seq<T>)
    ensures (a + b) + c == a + (b + c)
  {
  }

  // Reading a segment back.

  /** The data bytes up to the first marker, a 0xFF followed by anything but zero, or the end. */
  function Segment(s: seq<byte>): seq<byte> {
    if s == [] then []
    else if s[0] != 0xFF then [s[0]] + Segment(s[1..])
    else if |s| == 1 || s[1] != 0 then []
    else [0xFF] + Segment(s[2..])
  }

  lemma SegmentHead(b: byte, tail: seq<byte>)
    ensures Segment(Stuffed(b) + tail) == [b] + Segment(tail)
  {
    assert (Stuffed(b) + tail)[|Stuffed(b)|..] == tail;
  }

  /** Reading stuffed data up to the next marker gives the data back. */
  lemma {:induction false} SegmentStuffed(raw: seq<byte>, rest: seq<byte>)
    requires rest == [] || (|rest| >= 2 && rest[0] == 0xFF && rest[1] != 0)
    ensures Segment(Stuff(raw) + rest) == raw
    decreases |raw|
  {
    if raw == [] {
      assert Stuff(raw) + rest == rest;
    } else {
      var b, t := raw[0], raw[1..];
      StuffHead(raw);
      Regroup(Stuffed(b), Stuff(t), rest);
      SegmentHead(b, Stuff(t) + rest);
      SegmentStuffed(t, rest);
      assert raw == [b] + t;
    }
  }

  lemma StuffHead(raw: seq<byte>)
    requires raw != []
    ensures Stuff(raw) == Stuffed(raw[0]) + Stuff(raw[1..])
  {
    assert raw == [raw[0]] + raw[1..];
    StuffConcat([raw[0]], raw[1..]);
    assert [raw[0]] == [] + [raw[0]];
    StuffAppend([], raw[0]);
  }

  // The arithmetic of the word-wide writer.

  /** The word completed with the top bits of a code. */
  function Completed(buffer: nat, code: nat, top: nat, left: nat, width: nat): nat {
    Or(Wrap(Shl(buffer, top), width), Shr(code, left))
  }

  /** A code that does not fit: its top bits complete the word, and the rest stay. */
  lemma AppendSplit(b: Bits, buffer: nat, n: nat, code: nat, top: nat, left: nat, bytes: nat)
    requires n + top == 8 * bytes && code < Pow2(top + left)
    ensures Put(PutBytes(b, WordBytes(Completed(buffer, code, top, left, 8 * bytes), bytes)), code, left)
         == Put(Put(b, buffer, n), code, top + left)
  {
    ShrFits(code, top + left, left);
    ShiftIn(b, buffer, Shr(code, left), n, top, 8 * bytes);
    PutSplit(Put(b, buffer, n), code, top + left, left);
    PutWord(b, Completed(buffer, code, top, left, 8 * bytes), bytes);
  }

  /** A byte off the top of the valid bits. */
  lemma TakeByte(b: Bits, buffer: nat, left: nat)
    ensures Put(Put(b, Shr(buffer, left) % 256, 8), buffer, left) == Put(b, buffer, left + 8)
  {
    PutSplit(b, buffer, left + 8, left);
    PutLowByte(b, Shr(buffer, left));
  }

  lemma PadValue(buffer: nat, n: nat)
    requires n <= 8
    ensures Or(Shl(buffer, 8 - n), Shr(0xFF, n)) == Shl(buffer, 8 - n) + (Pow2(8 - n) - 1)
  {
    ShrOnes(n);
    OrDisjoint(buffer, 8 - n, Pow2(8 - n) - 1);
  }

  /** The last byte: the n valid bits, then ones. */
  lemma PadByte(b: Bits, buffer: nat, n: nat, pad: nat)
    requires n + pad == 8
    ensures Put(b, Or(Shl(buffer, pad), Shr(0xFF, n)) % 256, 8) == PutOnes(Put(b, buffer, n), pad)
  {
    PadValue(buffer, n);
    PutShifted(b, buffer, Pow2(pad) - 1, n, pad);
    PutAllOnes(Put(b, buffer, n), pad);
    PutLowByte(b, Or(Shl(buffer, pad), Shr(0xFF, n)));
  }

  method LastByte(buffer: nat, n: nat, ghost b: Bits) returns (temp: byte)
    requires n <= 8
    ensures Put(b, temp, 8) == PutOnes(Put(b, buffer, n), 8 - n)
  {
    PadByte(b, buffer, n, 8 - n);
    temp := Or(Shl(buffer, 8 - n), Shr(0xFF, n)) % 256;
  }

  lemma PaddingMod(m: nat, n: nat)
    ensures Padding(8 * m + n) == Padding(n)
  {
    assert (8 * m + n) % 8 == n % 8;
  }

  /** Whole bytes do not matter to the padding. */
  lemma PaddingOf(raw: seq<byte>, buffer: nat, n: nat)
    ensures Padding(Length(Put(PutBytes(Empty, raw), buffer, n))) == Padding(n)
  {
    PutLength(PutBytes(Empty, raw), buffer, n);
    PutBytesLength(Empty, raw);
    PaddingMod(|raw|, n);
  }

  /** Data bytes, stuffed, after what was written before. */
  function StuffOnto(before: seq<byte>, raw: seq<byte>): seq<byte> {
    if raw == [] then before else StuffOnto(before, raw[..|raw| - 1]) + Stuffed(raw[|raw| - 1])
  }

  lemma StuffNext(before: seq<byte>, raw: seq<byte>, b: byte)
    ensures StuffOnto(before, raw + [b]) == StuffOnto(before, raw) + Stuffed(b)
  {
    assert (raw + [b])[..|raw|] == raw;
  }

  lemma {:induction false} StuffOntoConcat(before: seq<byte>, raw: seq<byte>)
    ensures StuffOnto(before, raw) == before + Stuff(raw)
  {
    if raw != [] {
      StuffOntoConcat(before, raw[..|raw| - 1]);
      Regroup(before, Stuff(raw[..|raw| - 1]), Stuffed(raw[|raw| - 1]));
    }
  }

  /** A word without 0xFF bytes is its own stuffed form. */
  lemma {:induction false} PlainWord(before: seq<byte>, raw: seq<byte>, word: seq<byte>)
    requires 0xFF !in word
    ensures StuffOnto(before, raw + word) == StuffOnto(before, raw) + word
  {
    if word == [] {
      assert raw + word == raw;
    } else {
      var w, b := word[..|word| - 1], word[|word| - 1];
      PlainWord(before, raw, w);
      assert raw + word == (raw + w) + [b] && w + [b] == word;
      StuffNext(before, raw + w, b);
      Regroup(StuffOnto(before, raw), w, [b]);
    }
  }

  lemma ShrOnes(n: nat)
    requires n <= 8
    ensures Shr(0xFF, n) == Pow2(8 - n) - 1
  {
    assert Shr(0xFF, 1) == 0x7F;
    assert Shr(0xFF, 2) == 0x3F;
    assert Shr(0xFF, 3) == 0x1F;
    assert Shr(0xFF, 4) == 0xF;
    assert Shr(0xFF, 5) == 7;
    assert Shr(0xFF, 6) == 3;
    assert Shr(0xFF, 7) == 1;
    assert Shr(0xFF, 8) == 0;
    assert Shl(1, 8) == 256;
  }

  /** The next byte of a word, most significant first. */
  lemma NextWordByte(v: nat, n: nat, i: nat)
    requires i < n
    ensures WordBytes(v, n)[..n - i] == WordBytes(v, n)[..n - i - 1] + [Shr(v, 8 * i) % 256]
  {
    ByteShr(v, i);
    WordBytesAt(v, n, n - 1 - i);
  }

  // Segments separated by restart markers.

  /** Finished segments, each followed by the next restart marker. */
  function Framed(done: seq<seq<byte>>): seq<byte> {
    if done == [] then []
    else StuffOnto(Framed(done[..|done| - 1]), done[|done| - 1]) + [0xFF, 0xD0 + (|done| - 1) % 8]
  }

  lemma FramedNext(done: seq<seq<byte>>, raw: seq<byte>)
    ensures Framed(done + [raw]) == StuffOnto(Framed(done), raw) + [0xFF, 0xD0 + |done| % 8]
  {
    assert (done + [raw])[..|done|] == done;
  }

  /** The length of the stuffed data before the first marker. */
  function SegmentLength(s: seq<byte>): (n: nat)
    ensures n <= |s|
  {
    if s == [] then 0
    else if s[0] != 0xFF then 1 + SegmentLength(s[1..])
    else if |s| == 1 || s[1] != 0 then 0
    else 2 + SegmentLength(s[2..])
  }

  /** The segments of a scan, as long as the restart markers are the expected ones. */
  function Segments(s: seq<byte>, num: nat): seq<seq<byte>>
    decreases |s|
  {
    var n := SegmentLength(s);
    if n + 2 <= |s| && s[n] == 0xFF && s[n + 1] == 0xD0 + num % 8
    then [Segment(s)] + Segments(s[n + 2..], num + 1)
    else [Segment(s)]
  }

  lemma LengthHead(b: byte, tail: seq<byte>)
    ensures SegmentLength(Stuffed(b) + tail) == |Stuffed(b)| + SegmentLength(tail)
  {
    assert (Stuffed(b) + tail)[|Stuffed(b)|..] == tail;
  }

  lemma {:induction false} LengthStuffed(raw: seq<byte>, rest: seq<byte>)
    requires rest == [] || (|rest| >= 2 && rest[0] == 0xFF && rest[1] != 0)
    ensures SegmentLength(Stuff(raw) + rest) == |Stuff(raw)|
    decreases |raw|
  {
    if raw == [] {
      assert Stuff(raw) + rest == rest;
    } else {
      var b, t := raw[0], raw[1..];
      StuffHead(raw);
      Regroup(Stuffed(b), Stuff(t), rest);
      LengthHead(b, Stuff(t) + rest);
      LengthStuffed(t, rest);
    }
  }

  lemma OneSegment(raw: seq<byte>, num: nat, tail: seq<byte>)
    ensures Segments(Stuff(raw) + ([0xFF, 0xD0 + num % 8] + tail), num) == [raw] + Segments(tail, num + 1)
  {
    hide SegmentLength;
    var rest := [0xFF, 0xD0 + num % 8] + tail;
    var s := Stuff(raw) + rest;
    SegmentStuffed(raw, rest);
    LengthStuffed(raw, rest);
    var n := |Stuff(raw)|;
    assert s[n] == rest[0] && s[n + 1] == rest[1];
    assert s[n + 2..] == tail;
  }

  /** The finished segments are read back, and reading goes on after them. */
  lemma {:induction false} FramedSegments(done: seq<seq<byte>>, tail: seq<byte>)
    ensures Segments(Framed(done) + tail, 0) == done + Segments(tail, |done|)
    decreases |done|
  {
    if done == [] {
      assert Framed(done) + tail == tail;
      assert done + Segments(tail, 0) == Segments(tail, 0);
    } else {
      var n := |done| - 1;
      var init, raw, marker := done[..n], done[n], [0xFF, 0xD0 + n % 8];
      StuffOntoConcat(Framed(init), raw);
      Regroup(Framed(init) + Stuff(raw), marker, tail);
      Regroup(Framed(init), Stuff(raw), marker + tail);
      FramedSegments(init, Stuff(raw) + (marker + tail));
      OneSegment(raw, n, tail);
      Regroup(init, [raw], Segments(tail, n + 1));
      assert init + [raw] == done;
    }
  }

  /** A whole scan, up to the end of the data or a marker that is no restart marker, is read back. */
  lemma ScanSegments(done: seq<seq<byte>>, raw: seq<byte>, rest: seq<byte>)
    requires rest == [] || (|rest| >= 2 && rest[0] == 0xFF && (0 < rest[1] < 0xD0 || rest[1] > 0xD7))
    ensures Segments(StuffOnto(Framed(done), raw) + rest, 0) == done + [raw]
  {
    StuffOntoConcat(Framed(done), raw);
    Regroup(Framed(done), Stuff(raw), rest);
    FramedSegments(done, Stuff(raw) + rest);
    LastSegment(raw, |done|, rest);
  }

  lemma LastSegment(raw: seq<byte>, num: nat, rest: seq<byte>)
    requires rest == [] || (|rest| >= 2 && rest[0] == 0xFF && (0 < rest[1] < 0xD0 || rest[1] > 0xD7))
    ensures Segments(Stuff(raw) + rest, num) == [raw]
  {
    SegmentStuffed(raw, rest);
    LengthStuffed(raw, rest);
    var s, n := Stuff(raw) + rest, |Stuff(raw)|;
    if rest != [] {
      assert s[n + 1] == rest[1];
    }
  }

  /** The word-wide writer: codes fill a 32- or 64-bit word that is written out whole. */
  class WordWriter {
    const bytes: nat
    const width := 8 * bytes
    var putBuffer: nat
    var freeBits: int
    var out: seq<byte>
    /** Everything up to and including the last marker, and the data of the segments in it. */
    ghost var before: seq<byte>
    ghost var done: seq<seq<byte>>
    /** The data bytes written since, before stuffing. */
    ghost var raw: seq<byte>

    ghost predicate Valid()
      reads this
    {
      && (bytes == 4 || bytes == 8)
      && 0 <= freeBits <= width
      && before == Framed(done) && out == StuffOnto(before, raw)
    }

    /** The bits since the last marker; bits of the word above the valid ones do not count. */
    ghost function Contents(): Bits
      requires Valid()
      reads this
    {
      Put(PutBytes(Empty, raw), putBuffer, width - freeBits)
    }

    constructor (bytes: nat)
      requires bytes == 4 || bytes == 8
      ensures Valid() && this.bytes == bytes && freeBits == width && out == [] && raw == [] && done == []
      ensures Contents() == Empty
    {
      this.bytes := bytes;
      putBuffer := 0;
      freeBits := 8 * bytes;
      out, before, done, raw := [], [], [], [];
    }

    /** One byte, with a zero after it if it is 0xFF. */
    method EmitByte(b: byte)
      requires out == StuffOnto(before, raw)
      modifies `out, `raw
      ensures raw == old(raw) + [b] && out == StuffOnto(before, raw)
    {
      StuffNext(before, raw, b);
      out := out + [b] + if b == 0xFF then [0] else [];
      raw := raw + [b];
    }

    /** All bytes of the word, stuffed one by one. */
    method EmitWord(n: nat)
      requires out == StuffOnto(before, raw)
      modifies `out, `raw
      ensures out == StuffOnto(before, raw) && raw == old(raw) + WordBytes(putBuffer, n)
    {
      hide WordBytes, Segment, SegmentLength;
      ghost var word, r := WordBytes(putBuffer, n), raw;
      var i := n;
      assert word[..0] == [] && r + [] == r;
      while i > 0
        invariant 0 <= i <= n && out == StuffOnto(before, raw) && raw == r + word[..n - i]
      {
        i := i - 1;
        NextWordByte(putBuffer, n, i);
        assert r + word[..n - i] == r + word[..n - i - 1] + [Shr(putBuffer, 8 * i) % 256];
        EmitByte(Shr(putBuffer, 8 * i) % 256);
      }
      assert word[..n] == word;
    }

    /** The whole word; stuffing is looked for only if some byte is 0xFF. */
    method Flush()
      requires out == StuffOnto(before, raw)
      modifies `out, `raw
      ensures out == StuffOnto(before, raw) && raw == old(raw) + WordBytes(putBuffer, bytes)
    {
      WordTestFinds(putBuffer, bytes);
      if WordTest(putBuffer, bytes) {
        EmitWord(bytes);
      } else {
        PlainWord(before, raw, WordBytes(putBuffer, bytes));
        out := out + WordBytes(putBuffer, bytes);
        raw := raw + WordBytes(putBuffer, bytes);
      }
    }

    /** Appends the low size bits of code, which are all of it. */
    method PutBits(code: nat, size: nat)
      requires Valid() && size <= 31 && code < Pow2(size)
      modifies `putBuffer, `freeBits, `out, `raw
      ensures Valid() && Contents() == Put(old(Contents()), code, size)
    {
      hide Pow2, WordBytes, Flagged, OneInEach;
      ghost var b, n, buffer := PutBytes(Empty, raw), width - freeBits, putBuffer;
      freeBits := freeBits - size;
      if freeBits < 0 {
        AppendSplit(b, buffer, n, code, size + freeBits, -freeBits, bytes);
        putBuffer := Or(Wrap(Shl(putBuffer, size + freeBits), width), Shr(code, -freeBits));
        PutConcat(Empty, raw, WordBytes(putBuffer, bytes));
        Flush();
        freeBits := freeBits + width;
        putBuffer := code;
      } else {
        ShiftIn(b, buffer, code, n, size, width);
        putBuffer := Or(Wrap(Shl(putBuffer, size), width), code);
      }
    }

    /** Whole bytes out of the word while there are any. */
    method FlushBytes(putBits: nat) returns (left: nat)
      requires out == StuffOnto(before, raw)
      modifies `out, `raw
      ensures out == StuffOnto(before, raw)
      ensures left < 8 && left % 8 == putBits % 8
      ensures Put(PutBytes(Empty, raw), putBuffer, left) == old(Put(PutBytes(Empty, raw), putBuffer, putBits))
    {
      left := putBits;
      while left >= 8
        invariant out == StuffOnto(before, raw) && left % 8 == putBits % 8
        invariant Put(PutBytes(Empty, raw), putBuffer, left) == old(Put(PutBytes(Empty, raw), putBuffer, putBits))
      {
        left := left - 8;
        TakeByte(PutBytes(Empty, raw), putBuffer, left);
        PutByte(Empty, raw, Shr(putBuffer, left) % 256);
        EmitByte(Shr(putBuffer, left) % 256);
      }
    }

    /** The last byte, completed with ones, if there are bits left for it. */
    method FinishByte(putBits: nat)
      requires out == StuffOnto(before, raw) && putBits < 8
      modifies `out, `raw
      ensures out == StuffOnto(before, raw)
      ensures PutBytes(Empty, raw) == PutOnes(old(Put(PutBytes(Empty, raw), putBuffer, putBits)), Padding(putBits))
    {
      if putBits > 0 {
        var temp := LastByte(putBuffer, putBits, PutBytes(Empty, raw));
        PutByte(Empty, raw, temp);
        EmitByte(temp);
      }
    }

    /** Completes the last byte with ones and empties the word. */
    method FlushBits()
      requires Valid()
      modifies `putBuffer, `freeBits, `out, `raw
      ensures Valid() && freeBits == width && Contents() == PutBytes(Empty, raw)
      ensures Contents() == PutOnes(old(Contents()), Padding(Length(old(Contents()))))
    {
      hide Stuffed, Shr;
      PaddingOf(raw, putBuffer, width - freeBits);
      var putBits := FlushBytes(width - freeBits);
      FinishByte(putBits);
      putBuffer := 0;
      freeBits := width;
    }

    /** A restart marker. */
    method EmitMarker(num: nat)
      requires Valid() && freeBits == width && num == |done| % 8
      modifies `out, `before, `done, `raw
      ensures Valid() && Contents() == Empty
      ensures done == old(done) + [old(raw)] && raw == []
    {
      FramedNext(done, raw);
      out := out + [0xFF, 0xD0 + num];
      before, done, raw := out, done + [raw], [];
    }
  }

  // The arithmetic of the byte-wise writer.

  lemma {:induction false} ShrOfShl(v: nat, k: nat, j: nat)
    requires k <= j
    ensures Shr(Shl(v, k), j) == Shr(v, j - k)
    decreases k
  {
    if k > 0 {
      ShrHalf(Shl(v, k), j - 1);
      ShrOfShl(v, k - 1, j - 1);
    }
  }

  lemma {:induction false} ShlBound(v: nat, m: nat, k: nat)
    requires v < Pow2(m)
    ensures Shl(v, k) < Pow2(m + k)
  {
    ShlLess(v, Pow2(m), k);
    ShlShl(1, m, k);
  }

  /** New bits aligned below the held ones: nothing overlaps, so or appends. */
  lemma AlignBits(held: nat, code: nat, size: nat, putBits: nat)
    requires putBits + size <= 24
    ensures Or(Shl(Wrap(code, size), 24 - putBits - size), Shl(held, 24 - putBits))
         == Shl(Shl(held, size) + Wrap(code, size), 24 - putBits - size)
  {
    var c, k := Wrap(code, size), 24 - putBits - size;
    WrapBound(code, size);
    ShlBound(c, size, k);
    OrDisjoint(held, size + k, Shl(c, k));
    OrCommutes(Shl(c, k), Shl(held, size + k));
    ShlShl(held, size, k);
    ShlAdd(Shl(held, size), c, k);
  }

  /** Moving the next byte out of a word of w bits. */
  lemma ShiftOut(b: Bits, held: nat, putBits: nat, w: nat)
    requires 8 <= putBits <= 24 && w >= 32
    ensures var c, left := Shr(Shl(held, 24 - putBits), 16) % 256, Wrap(held, w - 32 + putBits);
            Wrap(Shl(Shl(held, 24 - putBits), 8), w) == Shl(left, 24 - (putBits - 8))
            && Put(Put(b, c, 8), left, putBits - 8) == Put(b, held, putBits)
  {
    ShrOfShl(held, 24 - putBits, 16);
    TakeByte(b, held, putBits - 8);
    ShlShl(held, 24 - putBits, 8);
    WrapShl(held, 32 - putBits, w);
    PutWrap(Put(b, Shr(held, putBits - 8) % 256, 8), held, w - 32 + putBits, putBits - 8);
  }

  lemma {:induction false} StripOnes(x: Bits, v: nat, k: nat, y: Bits, m: nat)
    requires k <= m && Put(x, v, k) == PutOnes(y, m)
    ensures x == PutOnes(y, m - k)
    decreases k
  {
    if k > 0 {
      StripOnes(x, v / 2, k - 1, y, m - 1);
    }
  }

  lemma PaddingIs(n: nat, p: nat, m: nat)
    requires n + p == 8 * m && p < 8
    ensures p == Padding(n)
  {
  }

  lemma OnesAndDrop(bits: Bits, v: nat, n: nat, raw: seq<byte>, held: nat, putBits: nat)
    requires n < 8 && putBits <= n && v == Pow2(n) - 1
    requires Put(PutBytes(Empty, raw), held, putBits) == Put(bits, v, n)
    ensures PutBytes(Empty, raw) == PutOnes(bits, Padding(Length(bits)))
  {
    PutAllOnes(bits, n);
    StripOnes(PutBytes(Empty, raw), held, putBits, bits, n);
    PutLength(bits, v, n);
    PutLength(PutBytes(Empty, raw), held, putBits);
    PutBytesLength(Empty, raw);
    PaddingIs(Length(bits), n - putBits, |raw|);
  }

  /** Seven ones appended, and an incomplete byte dropped, pad with fewer than eight ones. */
  lemma SevenOnes(bits: Bits, raw: seq<byte>, held: nat, putBits: nat)
    requires putBits < 8 && Put(PutBytes(Empty, raw), held, putBits) == Put(bits, 0x7F, 7)
    ensures PutBytes(Empty, raw) == PutOnes(bits, Padding(Length(bits)))
  {
    assert Shl(1, 7) == 0x80;
    OnesAndDrop(bits, 0x7F, 7, raw, held, putBits);
  }

  /** The byte-wise writer: whole bytes leave as soon as they are complete, the rest wait left-justified in 24 bits. */
  class ByteWriter {
    const width: nat
    var putBuffer: nat
    var putBits: nat
    var out: seq<byte>
    ghost var before: seq<byte>
    ghost var done: seq<seq<byte>>
    ghost var raw: seq<byte>
    /** The buffer before left-justification; bits above the valid ones are stale. */
    ghost var held: nat

    ghost predicate Valid()
      reads this
    {
      && 32 <= width && putBits < 8
      && putBuffer == Shl(held, 24 - putBits)
      && before == Framed(done) && out == StuffOnto(before, raw)
    }

    /** The bits since the last marker. */
    ghost function Contents(): Bits
      reads this
    {
      Put(PutBytes(Empty, raw), held, putBits)
    }

    constructor (width: nat)
      requires 32 <= width
      ensures Valid() && this.width == width && putBits == 0 && out == [] && raw == [] && done == []
      ensures Contents() == Empty
    {
      this.width := width;
      putBuffer, putBits, held := 0, 0, 0;
      out, before, done, raw := [], [], [], [];
      ShlZero(24);
    }

    method EmitByte(b: byte)
      requires out == StuffOnto(before, raw)
      modifies `out, `raw
      ensures raw == old(raw) + [b] && out == StuffOnto(before, raw)
    {
      StuffNext(before, raw, b);
      out := out + [b];
      if b == 0xFF {
        out := out + [0];
      }
      raw := raw + [b];
    }

    /** Moves whole bytes of a buffer out. */
    method ShiftBytes(buffer0: nat, bits0: nat, ghost held0: nat) returns (buffer: nat, bits: nat)
      requires 32 <= width && bits0 <= 24 && buffer0 == Shl(held0, 24 - bits0)
      requires out == StuffOnto(before, raw)
      modifies `out, `raw, `held
      ensures out == StuffOnto(before, raw) && bits < 8 && buffer == Shl(held, 24 - bits)
      ensures Put(PutBytes(Empty, raw), held, bits) == Put(PutBytes(Empty, old(raw)), held0, bits0)
    {
      buffer, bits := buffer0, bits0;
      held := held0;
      while bits >= 8
        invariant out == StuffOnto(before, raw) && bits <= 24 && buffer == Shl(held, 24 - bits)
        invariant Put(PutBytes(Empty, raw), held, bits) == Put(PutBytes(Empty, old(raw)), held0, bits0)
      {
        var c: byte := Shr(buffer, 16) % 256;
        ShiftOut(PutBytes(Empty, raw), held, bits, width);
        PutByte(Empty, raw, c);
        EmitByte(c);
        held := Wrap(held, width - 32 + bits);
        buffer := Wrap(Shl(buffer, 8), width);
        bits := bits - 8;
      }
    }

    /** Appends the low size bits of code; a size of zero means a missing code, and fails. */
    method EmitBits(code: nat, size: nat) returns (ok: bool)
      requires Valid() && size <= 16
      modifies `putBuffer, `putBits, `out, `raw, `held
      ensures Valid() && ok == (size != 0)
      ensures Contents() == Put(old(Contents()), code, size)
    {
      if size == 0 {
        return false;
      }
      ghost var held0 := Shl(held, size) + Wrap(code, size);
      var buffer := Shl(Wrap(code, size), 24 - (putBits + size));
      AlignBits(held, code, size, putBits);
      buffer := Or(buffer, putBuffer);
      WrapBound(code, size);
      PutShifted(PutBytes(Empty, raw), held, Wrap(code, size), putBits, size);
      PutWrap(Contents(), code, size, size);
      putBuffer, putBits := ShiftBytes(buffer, putBits + size, held0);
      return true;
    }

    /** Completes the last byte with ones and drops what is left. */
    method FlushBits()
      requires Valid()
      modifies `putBuffer, `putBits, `out, `raw, `held
      ensures Valid() && putBits == 0 && Contents() == PutBytes(Empty, raw)
      ensures Contents() == PutOnes(old(Contents()), Padding(Length(old(Contents()))))
    {
      ghost var bits := Contents();
      var ok := EmitBits(0x7F, 7);
      SevenOnes(bits, raw, held, putBits);
      putBuffer, putBits, held := 0, 0, 0;
      ShlZero(24);
    }

    /** A restart marker. */
    method EmitMarker(num: nat)
      requires Valid() && putBits == 0 && num == |done| % 8
      modifies `out, `before, `done, `raw
      ensures Valid() && Contents() == Empty
      ensures done == old(done) + [old(raw)] && raw == []
    {
      FramedNext(done, raw);
      out := out + [0xFF, 0xD0 + num];
      before, done, raw := out, done + [raw], [];
    }
  }
}
