/** Machine words, the bits inside them, and the index arithmetic shared by
    bit columns and bit matrices. The word width NBIT_PER_BITWORD is fixed
    at 64 bits. */
module Words {

  /** A BitWord. */
  type Word = bv64

  /** NBIT_PER_BITWORD. */
  const W: nat := 64

  /** Failures that the constructors and grow1rows report through `error()`. */
  datatype Error = InvalidArgument | IncompatibleShape

  datatype Result<T> = Ok(value: T) | Err(error: Error)

  datatype Outcome = Pass | Fail(error: Error)

  /** Number of words that hold nbit bits: the quotient of nbit by W, plus
      one when the division leaves a remainder (ceil(nbit / W)). */
  function NWords(nbit: nat): (n: nat)
    ensures n * W >= nbit
    ensures nbit > 0 ==> 0 < n && (n - 1) * W < nbit
  {
    var q := nbit / W;
    if nbit % W != 0 then q + 1 else q
  }

  /** Bit x of word w, `(w >> x) & 1`, for a shift amount x below 64: the
      bv8-indexed form the bit-vector lemmas are stated on, which keeps the
      solver's work small. BitOf is the same bit indexed by a nat. */
  predicate Lane(w: Word, x: bv8)
    requires x < 64
  {
    (w >> x) & 1 == 1
  }

  /** Bit r of word w, read as `(w >> r) & 1`. */
  predicate BitOf(w: Word, r: nat)
    requires r < W
  {
    ShiftAmount(r);
    Lane(w, r as bv8)
  }

  /** Word w with bit r set when bit is non-zero and cleared otherwise. */
  function SetWordBit(w: Word, r: nat, bit: int): (v: Word)
    requires r < W
    ensures BitOf(v, r) == (bit != 0)
  {
    ShiftAmount(r);
    SetLaneSpec(w, r as bv8, bit != 0, r as bv8);
    SetLane(w, r as bv8, bit != 0)
  }

  /** The bv8-indexed form of SetWordBit, which the bit-vector lemmas are
      stated on: word w with bit x set (`w | mask`) or cleared (`w & ~mask`), where
      mask is `1 << x`. */
  function SetLane(w: Word, x: bv8, on: bool): Word
    requires x < 64
  {
    var mask: Word := 1 << x;
    if on then w | mask else w & !mask
  }

  /** A bit position below W is a shift amount below 64 that converts back
      to the same position. */
  lemma ShiftAmount(r: nat)
    requires r < W
    ensures (r as bv8) < 64 && (r as bv8) as int == r
  {
  }

  /** Distinct bit positions are distinct shift amounts. */
  lemma ShiftDistinct(r: nat, r': nat)
    requires r < W && r' < W
    ensures (r as bv8) < 64 && (r' as bv8) < 64
    ensures (r == r') == ((r as bv8) == (r' as bv8))
  {
    ShiftAmount(r);
    ShiftAmount(r');
  }

  lemma SetLaneOn(w: Word, x: bv8, y: bv8)
    requires x < 64 && y < 64
    ensures Lane(w | (1 << x), y) == (x == y || Lane(w, y))
  {
  }

  lemma SetLaneOff(w: Word, x: bv8, y: bv8)
    requires x < 64 && y < 64
    ensures Lane(w & !(1 << x), y) == (x != y && Lane(w, y))
  {
  }

  /** Lane y of a word after lane x is set or cleared. */
  lemma SetLaneSpec(w: Word, x: bv8, on: bool, y: bv8)
    requires x < 64 && y < 64
    ensures Lane(SetLane(w, x, on), y) == if x == y then on else Lane(w, y)
  {
    if on {
      SetLaneOn(w, x, y);
    } else {
      SetLaneOff(w, x, y);
    }
  }

  /** Setting or clearing bit r of a word gives bit r the requested value
      and leaves every other bit of the word as it was. */
  lemma SetWordBitSpec(w: Word, r: nat, bit: int, r': nat)
    requires r < W && r' < W
    ensures BitOf(SetWordBit(w, r, bit), r') == if r' == r then bit != 0 else BitOf(w, r')
  {
    ShiftDistinct(r, r');
    SetLaneSpec(w, r as bv8, bit != 0, r' as bv8);
  }

  /** Setting a clear bit and clearing it again gives back the word. */
  lemma SetWordBitRestore(w: Word, r: nat)
    requires r < W && !BitOf(w, r)
    ensures SetWordBit(SetWordBit(w, r, 1), r, 0) == w
  {
    ShiftAmount(r);
    SetLaneRestore(w, r as bv8);
  }

  lemma SetLaneRestore(w: Word, x: bv8)
    requires x < 64 && !Lane(w, x)
    ensures SetLane(SetLane(w, x, true), x, false) == w
  {
  }

  lemma OrAndLane(a: Word, b: Word, x: bv8)
    requires x < 64
    ensures Lane(a | b, x) == (Lane(a, x) || Lane(b, x))
    ensures Lane(a & b, x) == (Lane(a, x) && Lane(b, x))
  {
  }

  /** Every bit of c = a | b is the OR of the two bits. */
  lemma OrLane(c: Word, a: Word, b: Word, r: nat)
    requires c == a | b && r < W
    ensures BitOf(c, r) == (BitOf(a, r) || BitOf(b, r))
  {
    ShiftAmount(r);
    OrAndLane(a, b, r as bv8);
  }

  /** Every bit of c = a & b is the AND of the two bits. */
  lemma AndLane(c: Word, a: Word, b: Word, r: nat)
    requires c == a & b && r < W
    ensures BitOf(c, r) == (BitOf(a, r) && BitOf(b, r))
  {
    ShiftAmount(r);
    OrAndLane(a, b, r as bv8);
  }
}
