/** The zigzag order of the 64 coefficients of a block. */
module ZigZag {
  /** jpeg_natural_order: where the coefficient with zigzag index k stands in the block. */
  function NaturalOrder(k: int): (r: int)
    ensures 0 <= r < 64
  {
    match k
    case 0 => 0
    case 1 => 1
    case 2 => 8
    case 3 => 16
    case 4 => 9
    case 5 => 2
    case 6 => 3
    case 7 => 10
    case 8 => 17
    case 9 => 24
    case 10 => 32
    case 11 => 25
    case 12 => 18
    case 13 => 11
    case 14 => 4
    case 15 => 5
    case 16 => 12
    case 17 => 19
    case 18 => 26
    case 19 => 33
    case 20 => 40
    case 21 => 48
    case 22 => 41
    case 23 => 34
    case 24 => 27
    case 25 => 20
    case 26 => 13
    case 27 => 6
    case 28 => 7
    case 29 => 14
    case 30 => 21
    case 31 => 28
    case 32 => 35
    case 33 => 42
    case 34 => 49
    case 35 => 56
    case 36 => 57
    case 37 => 50
    case 38 => 43
    case 39 => 36
    case 40 => 29
    case 41 => 22
    case 42 => 15
    case 43 => 23
    case 44 => 30
    case 45 => 37
    case 46 => 44
    case 47 => 51
    case 48 => 58
    case 49 => 59
    case 50 => 52
    case 51 => 45
    case 52 => 38
    case 53 => 31
    case 54 => 39
    case 55 => 46
    case 56 => 53
    case 57 => 60
    case 58 => 61
    case 59 => 54
    case 60 => 47
    case 61 => 55
    case 62 => 62
    case _ => 63
  }

  /** The zigzag index of block position k. */
  function ZigZagIndex(k: int): (r: int)
    ensures 0 <= r < 64
  {
    match k
    case 0 => 0
    case 1 => 1
    case 2 => 5
    case 3 => 6
    case 4 => 14
    case 5 => 15
    case 6 => 27
    case 7 => 28
    case 8 => 2
    case 9 => 4
    case 10 => 7
    case 11 => 13
    case 12 => 16
    case 13 => 26
    case 14 => 29
    case 15 => 42
    case 16 => 3
    case 17 => 8
    case 18 => 12
    case 19 => 17
    case 20 => 25
    case 21 => 30
    case 22 => 41
    case 23 => 43
    case 24 => 9
    case 25 => 11
    case 26 => 18
    case 27 => 24
    case 28 => 31
    case 29 => 40
    case 30 => 44
    case 31 => 53
    case 32 => 10
    case 33 => 19
    case 34 => 23
    case 35 => 32
    case 36 => 39
    case 37 => 45
    case 38 => 52
    case 39 => 54
    case 40 => 20
    case 41 => 22
    case 42 => 33
    case 43 => 38
    case 44 => 46
    case 45 => 51
    case 46 => 55
    case 47 => 60
    case 48 => 21
    case 49 => 34
    case 50 => 37
    case 51 => 47
    case 52 => 50
    case 53 => 56
    case 54 => 59
    case 55 => 61
    case 56 => 35
    case 57 => 36
    case 58 => 48
    case 59 => 49
    case 60 => 57
    case 61 => 58
    case 62 => 62
    case _ => 63
  }

  /**
   * The place after v on the way through the block: upwards to the right and downwards to the left in turn, and along
   * the edge where the diagonal ends.
   */
  function NextPlace(v: int): int {
    var row, col := v / 8, v % 8;
    if (row + col) % 2 == 0 then
      if col == 7 then v + 8 else if row == 0 then v + 1 else v - 8 + 1
    else if row == 7 then v + 1 else if col == 0 then v + 8 else v + 8 - 1
  }

  /** The natural order is the zigzag walk from the top left corner. */
  lemma ZigZagWalk(k: int)
    requires 0 <= k < 63
    ensures NaturalOrder(0) == 0 && NaturalOrder(k + 1) == NextPlace(NaturalOrder(k))
  {
    hide NaturalOrder, NextPlace;
    FirstPlace(0);
    if k <= 15 {
      Walk0To15(k);
    } else if k <= 31 {
      Walk16To31(k);
    } else if k <= 47 {
      Walk32To47(k);
    } else {
      Walk48To62(k);
    }
  }

  lemma FirstPlace(k: int)
    requires k == 0
    ensures NaturalOrder(k) == 0
  {
  }

  lemma Walk0To15(k: int)
    requires 0 <= k <= 15
    ensures NaturalOrder(k + 1) == NextPlace(NaturalOrder(k))
  {
  }

  lemma Walk16To31(k: int)
    requires 16 <= k <= 31
    ensures NaturalOrder(k + 1) == NextPlace(NaturalOrder(k))
  {
  }

  lemma Walk32To47(k: int)
    requires 32 <= k <= 47
    ensures NaturalOrder(k + 1) == NextPlace(NaturalOrder(k))
  {
  }

  lemma Walk48To62(k: int)
    requires 48 <= k <= 62
    ensures NaturalOrder(k + 1) == NextPlace(NaturalOrder(k))
  {
  }

  lemma ZigZagInverse(k: int)
    requires 0 <= k < 64
    ensures NaturalOrder(ZigZagIndex(k)) == k && ZigZagIndex(NaturalOrder(k)) == k
  {
    LeftInverse(k);
    RightInverse(k);
  }

  lemma LeftInverse(k: int)
    requires 0 <= k < 64
    ensures NaturalOrder(ZigZagIndex(k)) == k
  {
    hide NaturalOrder, ZigZagIndex;
    if k < 16 {
      LeftInverse0To15(k);
    } else if k < 32 {
      LeftInverse16To31(k);
    } else if k < 48 {
      LeftInverse32To47(k);
    } else {
      LeftInverse48To63(k);
    }
  }

  lemma LeftInverse0To15(k: int)
    requires 0 <= k < 16
    ensures NaturalOrder(ZigZagIndex(k)) == k
  {
  }

  lemma LeftInverse16To31(k: int)
    requires 16 <= k < 32
    ensures NaturalOrder(ZigZagIndex(k)) == k
  {
  }

  lemma LeftInverse32To47(k: int)
    requires 32 <= k < 48
    ensures NaturalOrder(ZigZagIndex(k)) == k
  {
  }

  lemma LeftInverse48To63(k: int)
    requires 48 <= k < 64
    ensures NaturalOrder(ZigZagIndex(k)) == k
  {
  }

  lemma RightInverse(k: int)
    requires 0 <= k < 64
    ensures ZigZagIndex(NaturalOrder(k)) == k
  {
    hide NaturalOrder, ZigZagIndex;
    if k < 32 {
      RightInverse0To31(k);
    } else {
      RightInverse32To63(k);
    }
  }

  lemma RightInverse0To31(k: int)
    requires 0 <= k < 32
    ensures ZigZagIndex(NaturalOrder(k)) == k
  {
  }

  lemma RightInverse32To63(k: int)
    requires 32 <= k < 64
    ensures ZigZagIndex(NaturalOrder(k)) == k
  {
  }

  type Block = b: seq<int> | |b| == 64 witness seq(64, _ => 0)

  /** A scanning order: for every zigzag index a position of the block. */
  type Order = o: seq<int> | |o| == 64 && forall i :: 0 <= i < 64 ==> 0 <= o[i] < 64
    witness seq(64, _ => 0)

  /** The coefficients of a block in scanning order. */
  function Reordered(block: Block, order: Order): (x: Block)
    ensures forall k :: 0 <= k < 64 ==> x[k] == block[order[k]]
  {
    seq(64, k requires 0 <= k < 64 => block[order[k]])
  }

  /** A whole MCU in scanning order. */
  function ReorderedMcu(blocks: seq<Block>, order: Order): (xs: seq<Block>)
    ensures |xs| == |blocks|
    ensures forall i :: 0 <= i < |blocks| ==> xs[i] == Reordered(blocks[i], order)
  {
    seq(|blocks|, i requires 0 <= i < |blocks| => Reordered(blocks[i], order))
  }

  function ReorderedMcus(mcus: seq<seq<Block>>, order: Order): (xs: seq<seq<Block>>)
    ensures |xs| == |mcus|
    ensures forall i :: 0 <= i < |mcus| ==> xs[i] == ReorderedMcu(mcus[i], order)
  {
    seq(|mcus|, i requires 0 <= i < |mcus| => ReorderedMcu(mcus[i], order))
  }

  function NaturalOrders(): Order { seq(64, k => NaturalOrder(k)) }

  /** The coefficients of a block in zigzag order, and back. */
  function ToZigZag(block: Block): Block { seq(64, k => block[NaturalOrder(k)]) }
  function FromZigZag(x: Block): Block { seq(64, k => x[ZigZagIndex(k)]) }

  /** The zigzag order is a permutation of the block. */
  lemma ZigZagRoundTrip(block: Block)
    ensures FromZigZag(ToZigZag(block)) == block && ToZigZag(FromZigZag(block)) == block
  {
    forall k | 0 <= k < 64 ensures FromZigZag(ToZigZag(block))[k] == block[k] && ToZigZag(FromZigZag(block))[k] == block[k] {
      ZigZagInverse(k);
    }
  }
}
