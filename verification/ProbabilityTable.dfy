/** The probability estimation state machine of the arithmetic coder (Table D.2 of ITU-T T.81). */
module ProbabilityTable {
  import opened Bytes

  /** One row: LPS interval size, successor states, and whether an LPS flips the sense of the MPS. */
  datatype Row = Row(qe: int, nextLps: int, nextMps: int, switchMps: int)

  const FIXED_STATE := 113

  /** Packs a row into one integer, field by field. */
  function Pack(r: Row): int {
    r.qe * 65536 + r.nextMps * 256 + r.switchMps * 128 + r.nextLps
  }

  predicate InRange(r: Row) {
    && 1 <= r.qe <= 0x5B12
    && 0 <= r.nextLps <= FIXED_STATE
    && 0 <= r.nextMps <= FIXED_STATE
    && 0 <= r.switchMps <= 1
  }

  function Rows0To28(index: int): (r: Row)
    ensures InRange(r)
  {
    match index
    case 0 => Row(0x5a1d, 1, 1, 1)
    case 1 => Row(0x2586, 14, 2, 0)
    case 2 => Row(0x1114, 16, 3, 0)
    case 3 => Row(0x080b, 18, 4, 0)
    case 4 => Row(0x03d8, 20, 5, 0)
    case 5 => Row(0x01da, 23, 6, 0)
    case 6 => Row(0x00e5, 25, 7, 0)
    case 7 => Row(0x006f, 28, 8, 0)
    case 8 => Row(0x0036, 30, 9, 0)
    case 9 => Row(0x001a, 33, 10, 0)
    case 10 => Row(0x000d, 35, 11, 0)
    case 11 => Row(0x0006, 9, 12, 0)
    case 12 => Row(0x0003, 10, 13, 0)
    case 13 => Row(0x0001, 12, 13, 0)
    case 14 => Row(0x5a7f, 15, 15, 1)
    case 15 => Row(0x3f25, 36, 16, 0)
    case 16 => Row(0x2cf2, 38, 17, 0)
    case 17 => Row(0x207c, 39, 18, 0)
    case 18 => Row(0x17b9, 40, 19, 0)
    case 19 => Row(0x1182, 42, 20, 0)
    case 20 => Row(0x0cef, 43, 21, 0)
    case 21 => Row(0x09a1, 45, 22, 0)
    case 22 => Row(0x072f, 46, 23, 0)
    case 23 => Row(0x055c, 48, 24, 0)
    case 24 => Row(0x0406, 49, 25, 0)
    case 25 => Row(0x0303, 51, 26, 0)
    case 26 => Row(0x0240, 52, 27, 0)
    case 27 => Row(0x01b1, 54, 28, 0)
    case _ => Row(0x0144, 56, 29, 0)
  }

  function Rows29To57(index: int): (r: Row)
    ensures InRange(r)
  {
    match index
    case 29 => Row(0x00f5, 57, 30, 0)
    case 30 => Row(0x00b7, 59, 31, 0)
    case 31 => Row(0x008a, 60, 32, 0)
    case 32 => Row(0x0068, 62, 33, 0)
    case 33 => Row(0x004e, 63, 34, 0)
    case 34 => Row(0x003b, 32, 35, 0)
    case 35 => Row(0x002c, 33, 9, 0)
    case 36 => Row(0x5ae1, 37, 37, 1)
    case 37 => Row(0x484c, 64, 38, 0)
    case 38 => Row(0x3a0d, 65, 39, 0)
    case 39 => Row(0x2ef1, 67, 40, 0)
    case 40 => Row(0x261f, 68, 41, 0)
    case 41 => Row(0x1f33, 69, 42, 0)
    case 42 => Row(0x19a8, 70, 43, 0)
    case 43 => Row(0x1518, 72, 44, 0)
    case 44 => Row(0x1177, 73, 45, 0)
    case 45 => Row(0x0e74, 74, 46, 0)
    case 46 => Row(0x0bfb, 75, 47, 0)
    case 47 => Row(0x09f8, 77, 48, 0)
    case 48 => Row(0x0861, 78, 49, 0)
    case 49 => Row(0x0706, 79, 50, 0)
    case 50 => Row(0x05cd, 48, 51, 0)
    case 51 => Row(0x04de, 50, 52, 0)
    case 52 => Row(0x040f, 50, 53, 0)
    case 53 => Row(0x0363, 51, 54, 0)
    case 54 => Row(0x02d4, 52, 55, 0)
    case 55 => Row(0x025c, 53, 56, 0)
    case 56 => Row(0x01f8, 54, 57, 0)
    case _ => Row(0x01a4, 55, 58, 0)
  }

  function Rows58To86(index: int): (r: Row)
    ensures InRange(r)
  {
    match index
    case 58 => Row(0x0160, 56, 59, 0)
    case 59 => Row(0x0125, 57, 60, 0)
    case 60 => Row(0x00f6, 58, 61, 0)
    case 61 => Row(0x00cb, 59, 62, 0)
    case 62 => Row(0x00ab, 61, 63, 0)
    case 63 => Row(0x008f, 61, 32, 0)
    case 64 => Row(0x5b12, 65, 65, 1)
    case 65 => Row(0x4d04, 80, 66, 0)
    case 66 => Row(0x412c, 81, 67, 0)
    case 67 => Row(0x37d8, 82, 68, 0)
    case 68 => Row(0x2fe8, 83, 69, 0)
    case 69 => Row(0x293c, 84, 70, 0)
    case 70 => Row(0x2379, 86, 71, 0)
    case 71 => Row(0x1edf, 87, 72, 0)
    case 72 => Row(0x1aa9, 87, 73, 0)
    case 73 => Row(0x174e, 72, 74, 0)
    case 74 => Row(0x1424, 72, 75, 0)
    case 75 => Row(0x119c, 74, 76, 0)
    case 76 => Row(0x0f6b, 74, 77, 0)
    case 77 => Row(0x0d51, 75, 78, 0)
    case 78 => Row(0x0bb6, 77, 79, 0)
    case 79 => Row(0x0a40, 77, 48, 0)
    case 80 => Row(0x5832, 80, 81, 1)
    case 81 => Row(0x4d1c, 88, 82, 0)
    case 82 => Row(0x438e, 89, 83, 0)
    case 83 => Row(0x3bdd, 90, 84, 0)
    case 84 => Row(0x34ee, 91, 85, 0)
    case 85 => Row(0x2eae, 92, 86, 0)
    case _ => Row(0x299a, 93, 87, 0)
  }

  function Rows87To113(index: int): (r: Row)
    ensures InRange(r)
  {
    match index
    case 87 => Row(0x2516, 86, 71, 0)
    case 88 => Row(0x5570, 88, 89, 1)
    case 89 => Row(0x4ca9, 95, 90, 0)
    case 90 => Row(0x44d9, 96, 91, 0)
    case 91 => Row(0x3e22, 97, 92, 0)
    case 92 => Row(0x3824, 99, 93, 0)
    case 93 => Row(0x32b4, 99, 94, 0)
    case 94 => Row(0x2e17, 93, 86, 0)
    case 95 => Row(0x56a8, 95, 96, 1)
    case 96 => Row(0x4f46, 101, 97, 0)
    case 97 => Row(0x47e5, 102, 98, 0)
    case 98 => Row(0x41cf, 103, 99, 0)
    case 99 => Row(0x3c3d, 104, 100, 0)
    case 100 => Row(0x375e, 99, 93, 0)
    case 101 => Row(0x5231, 105, 102, 0)
    case 102 => Row(0x4c0f, 106, 103, 0)
    case 103 => Row(0x4639, 107, 104, 0)
    case 104 => Row(0x415e, 103, 99, 0)
    case 105 => Row(0x5627, 105, 106, 1)
    case 106 => Row(0x50e7, 108, 107, 0)
    case 107 => Row(0x4b85, 109, 103, 0)
    case 108 => Row(0x5597, 110, 109, 0)
    case 109 => Row(0x504f, 111, 107, 0)
    case 110 => Row(0x5a10, 110, 111, 1)
    case 111 => Row(0x5522, 112, 109, 0)
    case 112 => Row(0x59eb, 112, 111, 1)
    case _ => Row(0x5a1d, 113, 113, 0)
  }

  /** The table itself; the last row is the fixed estimate of 0.5. */
  function Table(index: int): (r: Row)
    requires 0 <= index <= FIXED_STATE
    ensures InRange(r)
  {
    if index <= 28 then Rows0To28(index)
    else if index <= 57 then Rows29To57(index)
    else if index <= 86 then Rows58To86(index)
    else Rows87To113(index)
  }

  /** Fetching a packed row and picking the fields apart yields the row that was packed:
      the low byte is the LPS successor with the switch flag on top, the next byte the MPS
      successor, the rest the interval size. */
  lemma Unpack(index: int)
    requires 0 <= index <= FIXED_STATE
    ensures var r := Table(index); var v := Pack(r);
      v % 256 == r.switchMps * 128 + r.nextLps && v / 256 % 256 == r.nextMps && v / 65536 == r.qe
  {
    UnpackRow(Table(index));
  }

  lemma UnpackRow(r: Row)
    requires InRange(r)
    ensures var v := Pack(r);
      v % 256 == r.switchMps * 128 + r.nextLps && v / 256 % 256 == r.nextMps && v / 65536 == r.qe
  {
    assert Pack(r) == (r.qe * 256 + r.nextMps) * 256 + (r.switchMps * 128 + r.nextLps);
  }

  /**
   * How estimates adapt: a more probable symbol goes on to the next state, or back to a fast one, and lowers the estimate;
   * a less probable one raises it, or changes sides where the estimate is near one half.  Only the smallest estimate and
   * the fixed one stay.
   */
  predicate Adapts(index: int)
    requires 0 <= index <= FIXED_STATE
  {
    var r := Table(index);
    && (if index == 13 || index == 113 then r.nextMps == index
        else (r.nextMps == index + 1 || r.nextMps < index) && Table(r.nextMps).qe < r.qe)
    && (index < 113 ==> if r.switchMps == 0 then r.qe < Table(r.nextLps).qe else r.qe > 0x5500)
  }

  lemma TableAdapts(index: int)
    requires 0 <= index <= FIXED_STATE
    ensures Adapts(index)
  {
    hide Table, Adapts;
    if index <= 14 {
      Adapts0To14(index);
    } else if index <= 21 {
      Adapts15To21(index);
    } else if index <= 28 {
      Adapts22To28(index);
    } else if index <= 36 {
      Adapts29To36(index);
    } else if index <= 43 {
      Adapts37To43(index);
    } else if index <= 50 {
      Adapts44To50(index);
    } else if index <= 57 {
      Adapts51To57(index);
    } else if index <= 72 {
      Adapts58To72(index);
    } else if index <= 79 {
      Adapts73To79(index);
    } else if index <= 86 {
      Adapts80To86(index);
    } else if index <= 100 {
      Adapts87To100(index);
    } else if index <= 106 {
      Adapts101To106(index);
    } else {
      Adapts107To113(index);
    }
  }

  lemma Adapts0To14(index: int)
    requires 0 <= index <= 14
    ensures Adapts(index)
  {
    hide Rows58To86, Rows87To113;
  }

  lemma Adapts15To21(index: int)
    requires 15 <= index <= 21
    ensures Adapts(index)
  {
    hide Rows58To86, Rows87To113;
  }

  lemma Adapts22To28(index: int)
    requires 22 <= index <= 28
    ensures Adapts(index)
  {
    hide Rows58To86, Rows87To113;
  }

  lemma Adapts29To36(index: int)
    requires 29 <= index <= 36
    ensures Adapts(index)
  {
    hide Rows87To113;
  }

  lemma Adapts37To43(index: int)
    requires 37 <= index <= 43
    ensures Adapts(index)
  {
    hide Rows0To28, Rows87To113;
  }

  lemma Adapts44To50(index: int)
    requires 44 <= index <= 50
    ensures Adapts(index)
  {
    hide Rows0To28, Rows87To113;
  }

  lemma Adapts51To57(index: int)
    requires 51 <= index <= 57
    ensures Adapts(index)
  {
    hide Rows0To28, Rows87To113;
  }

  lemma Adapts58To72(index: int)
    requires 58 <= index <= 72
    ensures Adapts(index)
  {
    hide Rows0To28;
  }

  lemma Adapts73To79(index: int)
    requires 73 <= index <= 79
    ensures Adapts(index)
  {
    hide Rows0To28, Rows87To113;
  }

  lemma Adapts80To86(index: int)
    requires 80 <= index <= 86
    ensures Adapts(index)
  {
    hide Rows0To28, Rows29To57;
  }

  lemma Adapts87To100(index: int)
    requires 87 <= index <= 100
    ensures Adapts(index)
  {
    hide Rows0To28, Rows29To57;
  }

  lemma Adapts101To106(index: int)
    requires 101 <= index <= 106
    ensures Adapts(index)
  {
    hide Rows0To28, Rows29To57, Rows58To86;
  }

  lemma Adapts107To113(index: int)
    requires 107 <= index <= 113
    ensures Adapts(index)
  {
    hide Rows0To28, Rows29To57, Rows58To86;
  }

  /** A statistics bin is one byte: the sense of the MPS in the top bit, the table index below. */
  predicate GoodBin(sv: byte) { sv % 128 <= FIXED_STATE }

  function Mps(sv: byte): bit { sv / 128 }

  function RowOf(sv: byte): Row
    requires GoodBin(sv)
  {
    Table(sv % 128)
  }

  function MakeBin(mps: bit, index: int): (sv: byte)
    requires 0 <= index <= FIXED_STATE
    ensures GoodBin(sv) && Mps(sv) == mps && sv % 128 == index
  {
    128 * mps + index
  }

  /** The estimate after a less probable symbol. */
  function AfterLps(sv: byte): (r: byte)
    requires GoodBin(sv)
    ensures GoodBin(r)
  {
    var row := RowOf(sv);
    MakeBin(if row.switchMps == 1 then 1 - Mps(sv) else Mps(sv), row.nextLps)
  }

  /** The estimate after a more probable symbol. */
  function AfterMps(sv: byte): (r: byte)
    requires GoodBin(sv)
    ensures GoodBin(r)
  {
    MakeBin(Mps(sv), RowOf(sv).nextMps)
  }

  lemma LastRow(index: int)
    requires index == 113
    ensures Table(index) == Row(0x5a1d, 113, 113, 0)
  {
    hide Rows0To28, Rows29To57, Rows58To86;
  }

  lemma LastEstimate(sv: byte)
    requires sv % 128 == 113
    ensures RowOf(sv) == Row(0x5a1d, 113, 113, 0)
  {
    hide Table;
    LastRow(sv % 128);
  }

  /** The last state is left by no decision; its estimate is about one half. */
  lemma FixedEstimate(sv: byte)
    requires sv % 128 == 113
    ensures RowOf(sv) == Row(0x5a1d, 113, 113, 0) && AfterMps(sv) == sv == AfterLps(sv)
  {
    hide RowOf, Mps, MakeBin;
    LastEstimate(sv);
    assert MakeBin(Mps(sv), 113) == sv by {
      SameBin(sv);
    }
  }

  lemma SameBin(sv: byte)
    requires GoodBin(sv)
    ensures MakeBin(Mps(sv), sv % 128) == sv
  {
  }

  /** (sv & 0x80) ^ n for a successor byte n. */
  function FlipTop(sv: byte, n: byte): byte {
    var top := sv / 128;
    if n >= 128 then 128 * (1 - top) + (n - 128) else 128 * top + n
  }

  /** The byte-level state update is the table's estimation procedure. */
  lemma ByteUpdate(sv: byte)
    requires GoodBin(sv)
    ensures var v := Pack(RowOf(sv));
      FlipTop(sv, v % 256) == AfterLps(sv) && FlipTop(sv, v / 256 % 256) == AfterMps(sv)
  {
    Unpack(sv % 128);
  }
}
