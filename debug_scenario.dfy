/** The self-test that debug_BitMatrix runs when the debug switch is turned
    on: a 40 x 15 matrix of zeros and a 40-bit mask with bits 0, 5 and 39
    set; bit (0, 0) is set, bit (39, 14) is set and cleared again, and the
    rows are grown four times. */
module DebugScenario {
  import opened Words
  import opened RowValues
  import BV = BitVectors
  import opened BitMatrices

  /** The mask word `33 + (1 << 39)`: bits 0, 5 and 39. */
  const ScenarioMask: Word := 33 + (1 << 39)

  /** The rows the mask selects. */
  predicate Grows(i: nat)
  {
    i == 0 || i == 5 || i == 39
  }

  /** The mask word has exactly bits 0, 5 and 39 set among its low 40 bits. */
  lemma ScenarioMaskBits(i: nat)
    requires i < 40
    ensures BitOf(ScenarioMask, i) == Grows(i)
  {
    ShiftAmount(i);
    MaskLane(i as bv8);
  }

  lemma MaskLane(x: bv8)
    requires x < 40
    ensures Lane(ScenarioMask, x) == (x == 0 || x == 5 || x == 39)
  {
  }

  /** No bit of the zero word is set. */
  lemma ZeroBit(r: nat)
    requires r < W
    ensures !BitOf(0, r)
  {
    ShiftAmount(r);
    ZeroLane(r as bv8);
  }

  lemma ZeroLane(x: bv8)
    requires x < 64
    ensures !Lane(0, x)
  {
  }

  /** A row with no bit set has value 0. */
  lemma {:induction false} NoBitsValue(bs: seq<bool>)
    requires forall j | 0 <= j < |bs| :: !bs[j]
    ensures Value(bs) == 0
  {
    if bs != [] {
      assert forall j | 0 <= j < |bs[1..]| :: !bs[1..][j] by {
        forall j | 0 <= j < |bs[1..]| ensures !bs[1..][j] { assert bs[1..][j] == bs[j + 1]; }
      }
      NoBitsValue(bs[1..]);
    }
  }

  /** A row whose only set bit is bit 0 has value 1. */
  lemma UnitValue(bs: seq<bool>)
    requires bs != [] && bs[0] && forall j | 1 <= j < |bs| :: !bs[j]
    ensures Value(bs) == 1
  {
    assert forall j | 0 <= j < |bs[1..]| :: !bs[1..][j] by {
      forall j | 0 <= j < |bs[1..]| ensures !bs[1..][j] { assert bs[1..][j] == bs[j + 1]; }
    }
    NoBitsValue(bs[1..]);
  }

  /** Row values after t of the four growth steps: row 0 starts at 1 and the
      other two selected rows at 0, and every step sets one more low bit. */
  ghost function Expected(t: nat, i: nat): nat
  {
    if i == 0 then Pow2(t + 1) - 1 else if Grows(i) then Pow2(t) - 1 else 0
  }

  /** The shape of the scenario's matrix. */
  predicate ScenarioShape(m: BitMatrix)
  {
    m.Valid() && m.nrow == 40 && m.ncol == 15
  }

  /** The values of the 40 rows. */
  ghost function Rows(m: BitMatrix, s: seq<Word>): seq<nat>
    requires ScenarioShape(m) && |s| == m.words.Length
  {
    seq(40, i requires 0 <= i < 40 => RowValue(m, s, i))
  }

  ghost function ExpectedRows(t: nat): seq<nat>
  {
    seq(40, i requires 0 <= i < 40 => Expected(t, i))
  }

  ghost predicate RowsAre(m: BitMatrix, s: seq<Word>, t: nat)
    requires ScenarioShape(m) && |s| == m.words.Length
  {
    Rows(m, s) == ExpectedRows(t)
  }

  lemma RowsAreAt(m: BitMatrix, s: seq<Word>, t: nat, i: nat)
    requires ScenarioShape(m) && |s| == m.words.Length && RowsAre(m, s, t) && i < 40
    ensures RowValue(m, s, i) == Expected(t, i)
  {
    assert Rows(m, s)[i] == ExpectedRows(t)[i];
  }

  lemma RowsAreAll(m: BitMatrix, s: seq<Word>, t: nat)
    requires ScenarioShape(m) && |s| == m.words.Length
    requires forall i | 0 <= i < 40 :: RowValue(m, s, i) == Expected(t, i)
    ensures RowsAre(m, s, t)
  {
  }

  /** The mask: 40 bits held in one word, the scenario's mask word. */
  ghost predicate ScenarioMaskCol(mask: BV.BitCol)
    reads mask.words
  {
    mask.Valid() && mask.nbit == 40 && mask.offset == 0 && mask.words.Length == 1 && mask.words[0] == ScenarioMask
  }

  /** Bit i of the mask is set exactly for the rows that grow. */
  lemma ScenarioMaskGetBit(mask: BV.BitCol, i: nat)
    requires ScenarioMaskCol(mask) && i < 40
    ensures BV.GetBit(mask, i) == if Grows(i) then 1 else 0
  {
    ScenarioMaskBits(i);
  }

  /** One growth step moves every row from Expected(t) to Expected(t + 1),
      while the top bit (column 14) is still clear in every row. */
  lemma ExpectedStep(t: nat, i: nat)
    requires t + 1 < 15
    ensures GrownValue(Expected(t, i), 15, Grows(i)) == Expected(t + 1, i)
  {
    if i == 0 {
      Thermometer(t + 1, 15);
    } else if Grows(i) {
      Thermometer(t, 15);
    }
  }

  lemma ExpectedAfterFour(i: nat)
    ensures Expected(4, i) == if i == 0 then 31 else if Grows(i) then 15 else 0
  {
    assert Pow2(1) == 2;
    assert Pow2(2) == 4;
    assert Pow2(3) == 8;
    assert Pow2(4) == 16;
    assert Pow2(5) == 32;
  }

  /** After bit (0, 0) of the zero matrix is set, row 0 holds 1 and every
      other row 0. */
  lemma FirstRows(m: BitMatrix, s0: seq<Word>, s1: seq<Word>)
    requires ScenarioShape(m) && |s0| == m.words.Length
    requires forall k | 0 <= k < |s0| :: s0[k] == 0
    requires s1 == SetCell(m, s0, 0, 0, 1)
    ensures RowsAre(m, s1, 0)
  {
    forall i | 0 <= i < 40 ensures RowValue(m, s1, i) == Expected(0, i) {
      var bs := RowBits(m, s1, i);
      forall j | 0 <= j < 15 ensures bs[j] == (i == 0 && j == 0) {
        SetCellThenGet(m, s0, 0, 0, 1, i, j);
        FillCells(m, s0, 0, i, j);
        ZeroBit(i % W);
      }
      if i == 0 {
        UnitValue(bs);
      } else {
        NoBitsValue(bs);
      }
    }
    RowsAreAll(m, s1, 0);
  }

  /** After bit (0, 0) is set, bit (39, 14) is still clear. */
  lemma CornerClear(m: BitMatrix, s0: seq<Word>, s1: seq<Word>)
    requires ScenarioShape(m) && |s0| == m.words.Length
    requires forall k | 0 <= k < |s0| :: s0[k] == 0
    requires s1 == SetCell(m, s0, 0, 0, 1)
    ensures !Cell(m, s1, 39, 14)
  {
    SetCellThenGet(m, s0, 0, 0, 1, 39, 14);
    FillCells(m, s0, 0, 39, 14);
    ZeroBit(39 % W);
  }

  /** The scenario's matrix and mask, in separate buffers, with the rows
      as they are after t growth steps. */
  ghost predicate ScenarioState(m: BitMatrix, mask: BV.BitCol, t: nat)
    reads m.words, mask.words
  {
    ScenarioShape(m) && ScenarioMaskCol(mask) && mask.words != m.words && RowsAre(m, m.words[..], t)
  }

  /** One call of grow1rows with the scenario's mask. */
  method GrowStep(m: BitMatrix, mask: BV.BitCol, ghost t: nat)
    requires ScenarioState(m, mask, t) && t < 4
    modifies m.words
    ensures ScenarioState(m, mask, t + 1)
  {
    forall i | 0 <= i < 40 ensures BV.GetBit(mask, i) == if Grows(i) then 1 else 0 {
      ScenarioMaskGetBit(mask, i);
    }
    ghost var s := m.words[..];
    var r := Grow1Rows(m, mask);
    forall i | 0 <= i < 40 ensures RowValue(m, m.words[..], i) == Expected(t + 1, i) {
      RowsAreAt(m, s, t, i);
      ExpectedStep(t, i);
    }
    RowsAreAll(m, m.words[..], t + 1);
  }

  /** The three calls of set_bit: (0, 0) is set, then (39, 14) is set and
      cleared, which gives back the buffer as it was after the first call. */
  method SetScenarioBits(m: BitMatrix)
    requires ScenarioShape(m)
    requires forall k | 0 <= k < m.words.Length :: m.words[k] == 0
    modifies m.words
    ensures RowsAre(m, m.words[..], 0)
  {
    ghost var s0 := m.words[..];
    SetBit(m, 0, 0, 1);
    ghost var s1 := m.words[..];
    FirstRows(m, s0, s1);
    CornerClear(m, s0, s1);
    SetBit(m, 39, 14, 1);
    SetBit(m, 39, 14, 0);
    SetCellRestore(m, s1, 39, 14);
  }

  /** `_new_BitMatrix(40, 15, 0UL)` and `_new_BitCol(40, 33UL + (1UL << 39))`,
      followed by the three calls of set_bit. */
  method NewScenario() returns (m: BitMatrix, mask: BV.BitCol)
    ensures ScenarioState(m, mask, 0) && fresh(m.words)
  {
    var rm := NewBitMatrix(40, 15, 0);
    var rc := BV.NewBitCol(40, ScenarioMask);
    m := rm.value;
    mask := rc.value;
    SetScenarioBits(m);
  }

  /** The four calls of grow1rows. */
  method GrowFour(m: BitMatrix, mask: BV.BitCol)
    requires ScenarioState(m, mask, 0)
    modifies m.words
    ensures ScenarioState(m, mask, 4)
  {
    GrowStep(m, mask, 0);
    GrowStep(m, mask, 1);
    GrowStep(m, mask, 2);
    GrowStep(m, mask, 3);
  }

  /** After the four growth steps: row 0 holds 31, rows 5 and 39 hold 15,
      and every other row 0. */
  lemma FinalRows(m: BitMatrix, s: seq<Word>)
    requires ScenarioShape(m) && |s| == m.words.Length && RowsAre(m, s, 4)
    ensures forall i | 0 <= i < 40 ::
      RowValue(m, s, i) == if i == 0 then 31 else if i == 5 || i == 39 then 15 else 0
  {
    forall i | 0 <= i < 40
      ensures RowValue(m, s, i) == if i == 0 then 31 else if i == 5 || i == 39 then 15 else 0
    {
      RowsAreAt(m, s, 4, i);
      ExpectedAfterFour(i);
    }
  }

  /** The whole self-test. The rows that the mask selects grow as
      thermometer codes: row 0 ends at 31 and rows 5 and 39 at 15. */
  method Scenario() returns (m: BitMatrix)
    ensures ScenarioShape(m)
    ensures forall i | 0 <= i < 40 ::
      RowValue(m, m.words[..], i) == if i == 0 then 31 else if i == 5 || i == 39 then 15 else 0
  {
    var mask;
    m, mask := NewScenario();
    GrowFour(m, mask);
    FinalRows(m, m.words[..]);
  }
}
