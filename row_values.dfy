/** The integer view of a matrix row: row i, read across the columns, is the
    unsigned integer whose bit j is bit (i, j) (column 0 is the least
    significant bit), as BitMatrix_tr computes it. Everything here is ghost:
    it is the vocabulary in which grow1rows is specified. */
module RowValues {

  ghost function Pow2(n: nat): (p: nat)
    ensures p >= 1
  {
    if n == 0 then 1 else 2 * Pow2(n - 1)
  }

  /** The value of a row whose bits, least significant first, are bs:
      the sum of 2^j over the set bits j. It always fits in |bs| bits. */
  ghost function Value(bs: seq<bool>): (v: nat)
    ensures v < Pow2(|bs|)
  {
    if bs == [] then 0 else (if bs[0] then 1 else 0) + 2 * Value(bs[1..])
  }

  /** Bitwise OR of two naturals, digit by digit from the least significant. */
  ghost function BitOr(a: nat, b: nat): nat
    decreases a + b
  {
    if a == 0 && b == 0 then 0
    else (if a % 2 == 1 || b % 2 == 1 then 1 else 0) + 2 * BitOr(a / 2, b / 2)
  }

  ghost predicate AllOnes(bs: seq<bool>)
  {
    forall j | 0 <= j < |bs| :: bs[j]
  }

  /** Bits 0 .. j - 1 of the row are all set. */
  ghost predicate OnesBelow(bs: seq<bool>, j: nat)
    requires j <= |bs|
  {
    forall k | 0 <= k < j :: bs[k]
  }

  lemma OnesBelowStep(bs: seq<bool>, j: nat)
    requires 0 < j <= |bs|
    ensures OnesBelow(bs, j) == (OnesBelow(bs, j - 1) && bs[j - 1])
  {
  }

  /** The row with its lowest clear bit set; a row of ones is left as it is. */
  ghost function SetLowestClear(bs: seq<bool>): (r: seq<bool>)
    ensures |r| == |bs|
    ensures forall j | 0 <= j < |bs| :: bs[j] ==> r[j]
  {
    if bs == [] then []
    else if !bs[0] then [true] + bs[1..]
    else [true] + SetLowestClear(bs[1..])
  }

  /** What grow1rows does to the value r of an ncol-bit row: when the row
      grows and is not yet all ones it becomes r | (r + 1); otherwise it
      keeps its value (an all-ones row does not wrap around). */
  ghost function GrownValue(r: nat, ncol: nat, grow: bool): (v: nat)
    ensures r <= v
    ensures grow && r < Pow2(ncol) - 1 ==> r < v
    ensures r < Pow2(ncol) ==> v < Pow2(ncol)
  {
    if grow && r < Pow2(ncol) - 1 then
      BitOrAtLeast(r, r + 1);
      BitOrBelow(r, r + 1, ncol);
      BitOr(r, r + 1)
    else r
  }

  /** An OR has every set bit of either operand, so it is at least as
      large as each. */
  lemma {:induction false} BitOrAtLeast(a: nat, b: nat)
    ensures a <= BitOr(a, b) && b <= BitOr(a, b)
    decreases a + b
  {
    if a != 0 || b != 0 {
      BitOrAtLeast(a / 2, b / 2);
    }
  }

  /** An OR of two n-bit numbers is an n-bit number. */
  lemma {:induction false} BitOrBelow(a: nat, b: nat, n: nat)
    requires a < Pow2(n) && b < Pow2(n)
    ensures BitOr(a, b) < Pow2(n)
  {
    if n > 0 && (a != 0 || b != 0) {
      BitOrBelow(a / 2, b / 2, n - 1);
    }
  }

  /** Bit j of the grown row is set exactly when it was set before or every
      bit below it was set. */
  lemma {:induction false} SetLowestClearAt(bs: seq<bool>, j: nat)
    requires j < |bs|
    ensures SetLowestClear(bs)[j] == (bs[j] || OnesBelow(bs, j))
  {
    if j > 0 {
      if bs[0] {
        SetLowestClearAt(bs[1..], j - 1);
        assert OnesBelow(bs[1..], j - 1) == OnesBelow(bs, j) by {
          if OnesBelow(bs[1..], j - 1) {
            forall k | 0 <= k < j ensures bs[k] {
              if k > 0 { assert bs[k] == bs[1..][k - 1]; }
            }
          }
        }
      } else {
        assert !OnesBelow(bs, j) by { assert !bs[0]; }
      }
    }
  }

  /** Growing never changes a row of ones. */
  lemma {:induction false} SetLowestClearAllOnes(bs: seq<bool>)
    requires AllOnes(bs)
    ensures SetLowestClear(bs) == bs
  {
    if bs != [] {
      assert AllOnes(bs[1..]) by {
        forall k | 0 <= k < |bs| - 1 ensures bs[1..][k] { assert bs[1..][k] == bs[k + 1]; }
      }
      SetLowestClearAllOnes(bs[1..]);
      assert bs == [true] + bs[1..];
    }
  }

  /** A row has the largest value, 2^n - 1, exactly when all its bits are set. */
  lemma {:induction false} AllOnesValue(bs: seq<bool>)
    ensures Value(bs) == Pow2(|bs|) - 1 <==> AllOnes(bs)
  {
    if bs != [] {
      var rest := bs[1..];
      AllOnesValue(rest);
      assert AllOnes(bs) <==> bs[0] && AllOnes(rest) by {
        if bs[0] && AllOnes(rest) {
          forall k | 0 <= k < |bs| ensures bs[k] {
            if k > 0 { assert bs[k] == rest[k - 1]; }
          }
        }
        if AllOnes(bs) {
          forall k | 0 <= k < |rest| ensures rest[k] { assert rest[k] == bs[k + 1]; }
        }
      }
    }
  }

  lemma {:induction false} BitOrSelf(a: nat)
    ensures BitOr(a, a) == a
    decreases a
  {
    if a != 0 {
      BitOrSelf(a / 2);
    }
  }

  /** On a row that is not all ones, setting the lowest clear bit is the
      integer operation r | (r + 1). */
  lemma {:induction false} SetLowestClearValue(bs: seq<bool>)
    requires !AllOnes(bs)
    ensures Value(SetLowestClear(bs)) == BitOr(Value(bs), Value(bs) + 1)
  {
    if bs[0] {
      var k :| 0 <= k < |bs| && !bs[k];
      assert k > 0 && !bs[1..][k - 1];
      SetLowestClearValue(bs[1..]);
      OddStep(bs);
    } else {
      EvenStep(bs);
    }
  }

  /** The step of SetLowestClearValue for a row whose lowest bit is set. */
  lemma {:induction false} OddStep(bs: seq<bool>)
    requires bs != [] && bs[0]
    requires Value(SetLowestClear(bs[1..])) == BitOr(Value(bs[1..]), Value(bs[1..]) + 1)
    ensures Value(SetLowestClear(bs)) == BitOr(Value(bs), Value(bs) + 1)
  {
    var rest := bs[1..];
    var r := Value(rest);
    var grown := SetLowestClear(rest);
    assert SetLowestClear(bs) == [true] + grown;
    assert ([true] + grown)[1..] == grown;
    var v := Value(bs);
    assert v == 1 + 2 * r;
    BitOrOdd(r);
    calc {
      Value(SetLowestClear(bs));
      1 + 2 * Value(grown);
      1 + 2 * BitOr(r, r + 1);
      BitOr(1 + 2 * r, 2 * r + 2);
      BitOr(v, v + 1);
    }
  }

  /** The step of SetLowestClearValue for a row whose lowest bit is clear. */
  lemma {:induction false} EvenStep(bs: seq<bool>)
    requires bs != [] && !bs[0]
    ensures Value(SetLowestClear(bs)) == BitOr(Value(bs), Value(bs) + 1)
  {
    var rest := bs[1..];
    var r := Value(rest);
    BitOrSelf(r);
    assert SetLowestClear(bs) == [true] + rest;
    assert ([true] + rest)[1..] == rest;
    assert Value(SetLowestClear(bs)) == 1 + 2 * r;
    assert Value(bs) == 2 * r;
    BitOrEven(r);
  }

  lemma BitOrOdd(r: nat)
    ensures BitOr(1 + 2 * r, 2 * r + 2) == 1 + 2 * BitOr(r, r + 1)
  {
    assert (1 + 2 * r) / 2 == r && (2 * r + 2) / 2 == r + 1;
    assert (1 + 2 * r) % 2 == 1;
  }

  lemma BitOrEven(r: nat)
    ensures BitOr(2 * r, 2 * r + 1) == 1 + 2 * BitOr(r, r)
  {
    assert (2 * r) / 2 == r && (2 * r + 1) / 2 == r;
    assert (2 * r + 1) % 2 == 1;
  }

  /** The value of a grown row, as bits, is the grown value of the row. */
  lemma GrowBits(bs: seq<bool>, grow: bool)
    ensures Value(if grow then SetLowestClear(bs) else bs) == GrownValue(Value(bs), |bs|, grow)
  {
    if grow {
      AllOnesValue(bs);
      if AllOnes(bs) {
        SetLowestClearAllOnes(bs);
      } else {
        SetLowestClearValue(bs);
      }
    }
  }

  /** Rows grow as thermometer codes: 2^t - 1 grows to 2^(t+1) - 1 while
      there is a clear bit left. */
  lemma {:induction false} BitOrPow2(t: nat)
    ensures BitOr(Pow2(t) - 1, Pow2(t)) == Pow2(t + 1) - 1
  {
    if t > 0 {
      BitOrPow2(t - 1);
      assert (Pow2(t) - 1) / 2 == Pow2(t - 1) - 1;
      assert Pow2(t) / 2 == Pow2(t - 1);
    }
  }

  lemma Thermometer(t: nat, ncol: nat)
    requires t < ncol
    ensures GrownValue(Pow2(t) - 1, ncol, true) == Pow2(t + 1) - 1
  {
    BitOrPow2(t);
    assert Pow2(t + 1) <= Pow2(ncol) by { Pow2Monotone(t + 1, ncol); }
  }

  lemma {:induction false} Pow2Monotone(a: nat, b: nat)
    requires a <= b
    ensures Pow2(a) <= Pow2(b)
  {
    if a < b {
      Pow2Monotone(a, b - 1);
    }
  }

  /** On an even row the carry meets a clear bit 0, so growing a selected
      even row adds one, as an increment would. */
  lemma EvenGrowth(r: nat, ncol: nat)
    requires 2 * r + 1 < Pow2(ncol)
    ensures GrownValue(2 * r, ncol, true) == 2 * r + 1
  {
    BitOrEven(r);
    BitOrSelf(r);
  }

  /** Growing is not a binary increment: a 2-bit row holding 1 becomes 3, not
      2, and a 2-bit row holding 3 stays 3 instead of wrapping to 0. */
  lemma NotAnIncrement()
    ensures GrownValue(1, 2, true) == 3 != (1 + 1) % Pow2(2)
    ensures GrownValue(3, 2, true) == 3 != (3 + 1) % Pow2(2)
  {
    assert Pow2(2) == 4;
    assert BitOr(1, 2) == 1 + 2 * BitOr(0, 1) == 3;
  }

  /** Growing a 15-bit row of value 0 four times gives 15, where four
      increments would give 4. */
  lemma FourGrowths()
    ensures GrownValue(GrownValue(GrownValue(GrownValue(0, 15, true), 15, true), 15, true), 15, true) == 15
  {
    assert Pow2(1) == 2 && Pow2(2) == 4 && Pow2(3) == 8 && Pow2(4) == 16;
    Thermometer(0, 15);
    assert GrownValue(0, 15, true) == 1;
    Thermometer(1, 15);
    assert GrownValue(1, 15, true) == 3;
    Thermometer(2, 15);
    assert GrownValue(3, 15, true) == 7;
    Thermometer(3, 15);
  }
}
