/** BitMatrix: nrow x ncol bits stored column by column in one buffer of
    ncol * nword_per_col words, where nword_per_col = ceil(nrow / W).
    Column j occupies the words [j * nword_per_col, (j + 1) * nword_per_col)
    and is itself a packed bit vector of nrow bits. Read across the columns,
    row i is an ncol-bit unsigned integer whose bit j is bit (i, j). */
module BitMatrices {
  import opened Words
  import opened RowValues
  import BV = BitVectors

  datatype BitMatrix = BitMatrix(words: array<Word>, nwordPerCol: nat, nrow: nat, ncol: nat)
  {
    /** A well-formed BitMatrix: at least one row and one column, each column
        ceil(nrow / W) words long, and a buffer of exactly ncol columns. */
    predicate Valid()
    {
      0 < nrow && 0 < ncol && nwordPerCol == NWords(nrow) && words.Length == ncol * nwordPerCol
    }
  }

  /** The first word of column j, j * nword_per_col, counted one column at
      a time. */
  function ColStart(npc: nat, j: nat): nat
  {
    if j == 0 then 0 else ColStart(npc, j - 1) + npc
  }

  /** Word x of column j. */
  function Slot(npc: nat, j: nat, x: nat): nat
  {
    ColStart(npc, j) + x
  }

  lemma {:induction false} ColStartIsProduct(npc: nat, j: nat)
    ensures ColStart(npc, j) == j * npc
  {
    if j > 0 {
      ColStartIsProduct(npc, j - 1);
      assert (j - 1) * npc + npc == j * npc;
    }
  }

  /** Later columns start after the end of earlier ones. */
  lemma {:induction false} ColStartMonotone(npc: nat, j: nat, j': nat)
    requires j < j'
    ensures ColStart(npc, j) + npc <= ColStart(npc, j')
  {
    if j + 1 < j' {
      ColStartMonotone(npc, j, j' - 1);
    }
  }

  /** Distinct (column, word) pairs address distinct words of the buffer. */
  lemma SlotDistinct(npc: nat, j: nat, x: nat, j': nat, x': nat)
    requires x < npc && x' < npc
    ensures (Slot(npc, j, x) == Slot(npc, j', x')) == (j == j' && x == x')
  {
    if j < j' {
      ColStartMonotone(npc, j, j');
    } else if j' < j {
      ColStartMonotone(npc, j', j);
    }
  }

  /** The column and the word within it of word k of a buffer of n columns. */
  function Locate(npc: nat, n: nat, k: nat): (p: (nat, nat))
    requires k < ColStart(npc, n)
    ensures p.0 < n && p.1 < npc && k == Slot(npc, p.0, p.1)
  {
    if k < ColStart(npc, n - 1) then Locate(npc, n - 1, k) else (n - 1, k - ColStart(npc, n - 1))
  }

  /** Locate finds the one column and word that address k. */
  lemma LocateSlot(npc: nat, n: nat, j: nat, x: nat)
    requires j < n && x < npc
    ensures Slot(npc, j, x) < ColStart(npc, n) && Locate(npc, n, Slot(npc, j, x)) == (j, x)
  {
    ColStartMonotone(npc, j, n);
    var p := Locate(npc, n, Slot(npc, j, x));
    SlotDistinct(npc, p.0, p.1, j, x);
  }

  /** The buffer holds exactly ncol columns. */
  lemma BufferColumns(m: BitMatrix)
    requires m.Valid()
    ensures m.words.Length == ColStart(m.nwordPerCol, m.ncol)
  {
    ColStartIsProduct(m.nwordPerCol, m.ncol);
  }

  /** Column j lies inside the buffer, and so does the word holding bit (i, j). */
  lemma CellInRange(m: BitMatrix, i: nat, j: nat)
    requires m.Valid() && i < m.nrow && j < m.ncol
    ensures i / W < m.nwordPerCol
    ensures ColStart(m.nwordPerCol, j) + m.nwordPerCol <= m.words.Length
  {
    BufferColumns(m);
    ColStartMonotone(m.nwordPerCol, j, m.ncol);
  }

  /** Bit (i, j) of the buffer contents s: bit i of the column whose first
      word is s[j * nword_per_col]. */
  predicate Cell(m: BitMatrix, s: seq<Word>, i: nat, j: nat)
    requires m.Valid() && |s| == m.words.Length && i < m.nrow && j < m.ncol
  {
    CellInRange(m, i, j);
    BV.ColBit(s, ColStart(m.nwordPerCol, j), i)
  }

  /** Row i of the buffer contents s, column 0 first. */
  ghost function RowBits(m: BitMatrix, s: seq<Word>, i: nat): (bs: seq<bool>)
    requires m.Valid() && |s| == m.words.Length && i < m.nrow
    ensures |bs| == m.ncol
  {
    seq(m.ncol, j requires 0 <= j < m.ncol => Cell(m, s, i, j))
  }

  /** The integer value of row i, the sum of 2^j over the set bits (i, j),
      as BitMatrix_tr computes it. */
  ghost function RowValue(m: BitMatrix, s: seq<Word>, i: nat): (v: nat)
    requires m.Valid() && |s| == m.words.Length && i < m.nrow
    ensures v < Pow2(m.ncol)
  {
    Value(RowBits(m, s, i))
  }

  /** The buffer contents s after bit (i, j) is set (bit non-zero) or
      cleared (bit zero): the same change as setting bit i of column j. */
  function SetCell(m: BitMatrix, s: seq<Word>, i: nat, j: nat, bit: int): (t: seq<Word>)
    requires m.Valid() && |s| == m.words.Length && i < m.nrow && j < m.ncol
    ensures |t| == |s|
    ensures forall k | 0 <= k < |s| && k != Slot(m.nwordPerCol, j, i / W) :: t[k] == s[k]
  {
    CellInRange(m, i, j);
    BV.SetColBit(s, ColStart(m.nwordPerCol, j), i, bit)
  }

  /** Setting a clear bit (i, j) and clearing it again leaves the buffer
      as it was. */
  lemma SetCellRestore(m: BitMatrix, s: seq<Word>, i: nat, j: nat)
    requires m.Valid() && |s| == m.words.Length && i < m.nrow && j < m.ncol
    requires !Cell(m, s, i, j)
    ensures SetCell(m, SetCell(m, s, i, j, 1), i, j, 0) == s
  {
    CellInRange(m, i, j);
    BV.SetBitRestore(s, ColStart(m.nwordPerCol, j), i);
  }

  /** Setting bit (i, j) and reading it back gives the value written (1 for
      any non-zero bit); every other bit of the matrix, in this column or
      any other, reads as before. */
  lemma SetCellThenGet(m: BitMatrix, s: seq<Word>, i: nat, j: nat, bit: int, i': nat, j': nat)
    requires m.Valid() && |s| == m.words.Length
    requires i < m.nrow && j < m.ncol && i' < m.nrow && j' < m.ncol
    ensures Cell(m, SetCell(m, s, i, j, bit), i', j') == if i' == i && j' == j then bit != 0 else Cell(m, s, i', j')
  {
    var npc := m.nwordPerCol;
    CellInRange(m, i, j);
    CellInRange(m, i', j');
    if j' == j {
      BV.SetThenGet(s, ColStart(npc, j), i, bit, i');
    } else {
      SlotDistinct(npc, j', i' / W, j, i / W);
    }
  }

  /** The carry word entering word k of the ripple in grow1rows: the mask
      word of k's slot for column 0, and for a later column the carry into
      the same slot of the previous column ANDed with that slot's word. The
      carry k = ncol * nword_per_col + i1 is the one leaving the last column. */
  function CarryAt(s: seq<Word>, mw: seq<Word>, npc: nat, k: nat): Word
    requires 0 < npc && |mw| == npc && k < |s| + npc
    decreases k
  {
    if k < npc then mw[k] else CarryAt(s, mw, npc, k - npc) & s[k - npc]
  }

  /** The buffer contents after grow1rows with mask words mw: every word
      ORed with the carry that enters it. */
  function GrowWords(s: seq<Word>, mw: seq<Word>, npc: nat): (t: seq<Word>)
    requires 0 < npc && |mw| == npc
    ensures |t| == |s|
  {
    seq(|s|, k requires 0 <= k < |s| => s[k] | CarryAt(s, mw, npc, k))
  }

  /** With a mask that selects no row, every carry is zero. */
  lemma {:induction false} CarryZero(s: seq<Word>, mw: seq<Word>, npc: nat, k: nat)
    requires 0 < npc && |mw| == npc && k < |s| + npc
    requires forall x | 0 <= x < npc :: mw[x] == 0
    ensures CarryAt(s, mw, npc, k) == 0
    decreases k
  {
    if k >= npc {
      CarryZero(s, mw, npc, k - npc);
    }
  }

  /** grow1rows with a mask that selects no row leaves the buffer as it was. */
  lemma GrowZeroMask(s: seq<Word>, mw: seq<Word>, npc: nat)
    requires 0 < npc && |mw| == npc
    requires forall x | 0 <= x < npc :: mw[x] == 0
    ensures GrowWords(s, mw, npc) == s
  {
    forall k | 0 <= k < |s| ensures GrowWords(s, mw, npc)[k] == s[k] {
      CarryZero(s, mw, npc, k);
    }
  }

  lemma GrowWordAt(s: seq<Word>, mw: seq<Word>, npc: nat, k: nat)
    requires 0 < npc && |mw| == npc && k < |s|
    ensures GrowWords(s, mw, npc)[k] == s[k] | CarryAt(s, mw, npc, k)
  {
  }

  lemma RippleOr(s: seq<Word>, mw: seq<Word>, npc: nat, k: nat, w: Word, c: Word, grown: Word)
    requires 0 < npc && |mw| == npc && k < |s|
    requires w == s[k] && c == CarryAt(s, mw, npc, k) && grown == GrowWords(s, mw, npc)[k]
    ensures w | c == grown
  {
    GrowWordAt(s, mw, npc, k);
  }

  lemma RippleAnd(s: seq<Word>, mw: seq<Word>, npc: nat, k: nat, w: Word, c: Word, next: Word)
    requires 0 < npc && |mw| == npc && k < |s|
    requires w == s[k] && c == CarryAt(s, mw, npc, k) && next == CarryAt(s, mw, npc, k + npc)
    ensures w & c == next
  {
    CarryAtNext(s, mw, npc, k);
  }

  /** Mask bit i, for mask words mw. */
  predicate MaskBit(mw: seq<Word>, i: nat)
    requires i / W < |mw|
  {
    BV.ColBit(mw, 0, i)
  }

  /** In lane i the carry entering column j is set exactly when mask bit i is
      set and bits (i, 0) .. (i, j - 1) are all set. */
  lemma {:induction false} CarryLane(m: BitMatrix, s: seq<Word>, mw: seq<Word>, i: nat, j: nat)
    requires m.Valid() && |s| == m.words.Length && |mw| == m.nwordPerCol
    requires i < m.nrow && j < m.ncol
    ensures i / W < m.nwordPerCol && Slot(m.nwordPerCol, j, i / W) < |s|
    ensures BitOf(CarryAt(s, mw, m.nwordPerCol, Slot(m.nwordPerCol, j, i / W)), i % W)
            == (MaskBit(mw, i) && OnesBelow(RowBits(m, s, i), j))
  {
    CellInRange(m, i, j);
    if j > 0 {
      CarryLane(m, s, mw, i, j - 1);
      CarryStep(m, s, mw, i, j);
      OnesBelowStep(RowBits(m, s, i), j);
    }
  }

  /** Bit j of row i is bit i mod W of word i div W of column j. */
  lemma RowBitsAt(m: BitMatrix, s: seq<Word>, i: nat, j: nat)
    requires m.Valid() && |s| == m.words.Length && i < m.nrow && j < m.ncol
    ensures i / W < m.nwordPerCol && Slot(m.nwordPerCol, j, i / W) < |s|
    ensures RowBits(m, s, i)[j] == BitOf(s[Slot(m.nwordPerCol, j, i / W)], i % W)
  {
    CellInRange(m, i, j);
  }

  /** One column of the ripple: in lane i, the carry leaving column j - 1 is
      the carry entering it ANDed with bit (i, j - 1). */
  lemma CarryStep(m: BitMatrix, s: seq<Word>, mw: seq<Word>, i: nat, j: nat)
    requires m.Valid() && |s| == m.words.Length && |mw| == m.nwordPerCol
    requires i < m.nrow && 0 < j < m.ncol
    ensures i / W < m.nwordPerCol && Slot(m.nwordPerCol, j, i / W) < |s|
    ensures BitOf(CarryAt(s, mw, m.nwordPerCol, Slot(m.nwordPerCol, j, i / W)), i % W)
            == (BitOf(CarryAt(s, mw, m.nwordPerCol, Slot(m.nwordPerCol, j - 1, i / W)), i % W) && RowBits(m, s, i)[j - 1])
  {
    var npc := m.nwordPerCol;
    CellInRange(m, i, j);
    var k' := Slot(npc, j - 1, i / W);
    assert Slot(npc, j, i / W) == k' + npc;
    RowBitsAt(m, s, i, j - 1);
    CarryAtStep(s, mw, npc, k', i % W);
  }

  /** Bit r of the carry one column further on is bit r of the current
      carry ANDed with bit r of the current word. */
  lemma CarryAtStep(s: seq<Word>, mw: seq<Word>, npc: nat, k: nat, r: nat)
    requires 0 < npc && |mw| == npc && k < |s| && r < W
    ensures BitOf(CarryAt(s, mw, npc, k + npc), r) == (BitOf(CarryAt(s, mw, npc, k), r) && BitOf(s[k], r))
  {
    CarryAtNext(s, mw, npc, k);
    AndLane(CarryAt(s, mw, npc, k + npc), CarryAt(s, mw, npc, k), s[k], r);
  }

  lemma CarryAtNext(s: seq<Word>, mw: seq<Word>, npc: nat, k: nat)
    requires 0 < npc && |mw| == npc && k < |s|
    ensures CarryAt(s, mw, npc, k + npc) == CarryAt(s, mw, npc, k) & s[k]
  {
  }

  /** grow1rows, lane by lane: a row whose mask bit is set gets its lowest
      clear bit set; a row whose mask bit is clear is unchanged. */
  lemma GrowRowBits(m: BitMatrix, s: seq<Word>, mw: seq<Word>, i: nat)
    requires m.Valid() && |s| == m.words.Length && |mw| == m.nwordPerCol && i < m.nrow
    ensures i / W < |mw|
    ensures RowBits(m, GrowWords(s, mw, m.nwordPerCol), i)
            == if MaskBit(mw, i) then SetLowestClear(RowBits(m, s, i)) else RowBits(m, s, i)
  {
    var before := RowBits(m, s, i);
    var after := RowBits(m, GrowWords(s, mw, m.nwordPerCol), i);
    CellInRange(m, i, 0);
    forall j | 0 <= j < m.ncol
      ensures after[j] == (before[j] || (MaskBit(mw, i) && OnesBelow(before, j)))
    {
      GrowCell(m, s, mw, i, j);
    }
    if MaskBit(mw, i) {
      forall j | 0 <= j < m.ncol ensures after[j] == SetLowestClear(before)[j] {
        SetLowestClearAt(before, j);
      }
    }
  }

  /** Bit (i, j) after grow1rows: set when it was set before, or when the
      mask bit of row i and bits (i, 0) .. (i, j - 1) were all set. */
  lemma GrowCell(m: BitMatrix, s: seq<Word>, mw: seq<Word>, i: nat, j: nat)
    requires m.Valid() && |s| == m.words.Length && |mw| == m.nwordPerCol && i < m.nrow && j < m.ncol
    ensures i / W < |mw|
    ensures RowBits(m, GrowWords(s, mw, m.nwordPerCol), i)[j]
            == (RowBits(m, s, i)[j] || (MaskBit(mw, i) && OnesBelow(RowBits(m, s, i), j)))
  {
    var npc := m.nwordPerCol;
    CarryLane(m, s, mw, i, j);
    GrowBitAt(s, mw, npc, Slot(npc, j, i / W), i % W);
  }

  /** Bit r of a grown word is the old bit r ORed with bit r of its carry. */
  lemma GrowBitAt(s: seq<Word>, mw: seq<Word>, npc: nat, k: nat, r: nat)
    requires 0 < npc && |mw| == npc && k < |s| && r < W
    ensures BitOf(GrowWords(s, mw, npc)[k], r) == (BitOf(s[k], r) || BitOf(CarryAt(s, mw, npc, k), r))
  {
    GrowWordAt(s, mw, npc, k);
    OrLane(GrowWords(s, mw, npc)[k], s[k], CarryAt(s, mw, npc, k), r);
  }

  /** grow1rows on row values: a row whose mask bit is clear keeps its value
      r; a row whose mask bit is set becomes r | (r + 1) when r < 2^ncol - 1
      and stays at 2^ncol - 1 otherwise. */
  lemma GrowRowValue(m: BitMatrix, s: seq<Word>, mw: seq<Word>, i: nat)
    requires m.Valid() && |s| == m.words.Length && |mw| == m.nwordPerCol && i < m.nrow
    ensures i / W < |mw|
    ensures RowValue(m, GrowWords(s, mw, m.nwordPerCol), i)
            == GrownValue(RowValue(m, s, i), m.ncol, MaskBit(mw, i))
  {
    GrowRowBits(m, s, mw, i);
    GrowBits(RowBits(m, s, i), MaskBit(mw, i));
  }

  /** A freshly allocated nrow x ncol BitMatrix whose every word is val;
      nrow <= 0 or ncol <= 0 is rejected and nothing is allocated. */
  method NewBitMatrix(nrow: int, ncol: int, val: Word) returns (r: Result<BitMatrix>)
    ensures r.Err? <==> nrow <= 0 || ncol <= 0
    ensures r.Err? ==> r.error == InvalidArgument
    ensures r.Ok? ==> r.value.Valid() && fresh(r.value.words)
    ensures r.Ok? ==> r.value.nrow == nrow && r.value.ncol == ncol
    ensures r.Ok? ==> forall k | 0 <= k < r.value.words.Length :: r.value.words[k] == val
  {
    if nrow <= 0 || ncol <= 0 {
      return Err(InvalidArgument);
    }
    var q := nrow / W;
    var nwordPerCol := q;
    if nrow % W != 0 {
      nwordPerCol := nwordPerCol + 1;
    }
    var nword := nwordPerCol * ncol;
    var words := new Word[nword];
    var m := BitMatrix(words, nwordPerCol, nrow, ncol);
    SetVal(m, val);
    return Ok(m);
  }

  /** Sets every word of the buffer to val, column by column. */
  method SetVal(m: BitMatrix, val: Word)
    requires m.Valid()
    modifies m.words
    ensures forall k | 0 <= k < m.words.Length :: m.words[k] == val
  {
    var q := m.nrow / W;
    if m.nrow % W != 0 {
      q := q + 1;
    }
    var j := 0;
    var word0 := 0;
    while j < m.ncol
      invariant q == m.nwordPerCol && 0 <= j <= m.ncol && word0 == ColStart(q, j)
      invariant forall k | 0 <= k < m.words.Length :: m.words[k] == if k < word0 then val else old(m.words[k])
    {
      CellInRange(m, 0, j);
      var i1 := 0;
      while i1 < q
        invariant 0 <= i1 <= q
        invariant forall k | 0 <= k < m.words.Length :: m.words[k] == if k < word0 + i1 then val else old(m.words[k])
      {
        m.words[word0 + i1] := val;
        i1 := i1 + 1;
      }
      j := j + 1;
      word0 := word0 + m.nwordPerCol;
    }
    BufferColumns(m);
  }

  /** The fill pattern seen bit by bit: after every word is set to val,
      bit (i, j) is bit i mod W of val. */
  lemma FillCells(m: BitMatrix, s: seq<Word>, val: Word, i: nat, j: nat)
    requires m.Valid() && |s| == m.words.Length && i < m.nrow && j < m.ncol
    requires forall k | 0 <= k < |s| :: s[k] == val
    ensures Cell(m, s, i, j) == BitOf(val, i % W)
  {
    CellInRange(m, i, j);
  }

  /** Bit (i, j), as 0 or 1. */
  function GetBit(m: BitMatrix, i: int, j: int): (bit: int)
    requires m.Valid() && 0 <= i < m.nrow && 0 <= j < m.ncol
    reads m.words
    ensures bit == 0 || bit == 1
    ensures bit == 1 <==> Cell(m, m.words[..], i, j)
  {
    CellInRange(m, i, j);
    ColStartIsProduct(m.nwordPerCol, j);
    var w := m.words[j * m.nwordPerCol + i / W];
    if BitOf(w, i % W) then 1 else 0
  }

  /** Sets bit (i, j) when bit is non-zero and clears it otherwise. */
  method SetBit(m: BitMatrix, i: int, j: int, bit: int)
    requires m.Valid() && 0 <= i < m.nrow && 0 <= j < m.ncol
    modifies m.words
    ensures m.words[..] == SetCell(m, old(m.words[..]), i, j, bit)
  {
    CellInRange(m, i, j);
    ColStartIsProduct(m.nwordPerCol, j);
    var k := j * m.nwordPerCol + i / W;
    m.words[k] := SetWordBit(m.words[k], i % W, bit);
  }

  /** The zero-copy view of column j: a BitCol of nrow bits whose words are
      the matrix's own buffer from word j * nword_per_col on. Reading bit i
      through it reads bit (i, j). */
  function GetCol(m: BitMatrix, j: int): (c: BV.BitCol)
    requires m.Valid() && 0 <= j < m.ncol
    reads m.words
    ensures c.Valid() && c.words == m.words
    ensures c.offset == j * m.nwordPerCol && c.nword == m.nwordPerCol && c.nbit == m.nrow
    ensures forall i | 0 <= i < m.nrow :: BV.GetBit(c, i) == GetBit(m, i, j)
  {
    CellInRange(m, 0, j);
    ColStartIsProduct(m.nwordPerCol, j);
    BV.BitCol(m.words, j * m.nwordPerCol, m.nwordPerCol, m.nrow)
  }

  /** Setting bit i through the view of column j: the same change to the
      matrix as setting bit (i, j). */
  method SetBitThroughCol(m: BitMatrix, i: int, j: int, bit: int)
    requires m.Valid() && 0 <= i < m.nrow && 0 <= j < m.ncol
    modifies m.words
    ensures m.words[..] == SetCell(m, old(m.words[..]), i, j, bit)
  {
    var c := GetCol(m, j);
    ColStartIsProduct(m.nwordPerCol, j);
    BV.SetBit(c, i, bit);
  }

  /** Filling the matrix column view by column view: the same final buffer
      as SetVal. */
  method SetValByCols(m: BitMatrix, val: Word)
    requires m.Valid()
    modifies m.words
    ensures forall k | 0 <= k < m.words.Length :: m.words[k] == val
  {
    var j := 0;
    while j < m.ncol
      invariant 0 <= j <= m.ncol
      invariant forall k | 0 <= k < m.words.Length :: m.words[k] == if k < ColStart(m.nwordPerCol, j) then val else old(m.words[k])
    {
      var c := GetCol(m, j);
      ColStartIsProduct(m.nwordPerCol, j);
      BV.SetVal(c, val);
      j := j + 1;
    }
    BufferColumns(m);
  }

  /** The buffer part-way through grow1rows: word x of every column has
      been grown for x < x1, and word x1 has been grown in columns j < j1;
      every other word still holds its old value. */
  ghost function Rippled(s: seq<Word>, g: seq<Word>, npc: nat, n: nat, x1: nat, j1: nat): (t: seq<Word>)
    requires |g| == |s| == ColStart(npc, n)
    ensures |t| == |s|
  {
    seq(|s|, k requires 0 <= k < |s| =>
      var p := Locate(npc, n, k);
      if p.1 < x1 || (p.1 == x1 && p.0 < j1) then g[k] else s[k])
  }

  lemma RippledStart(s: seq<Word>, g: seq<Word>, npc: nat, n: nat)
    requires |g| == |s| == ColStart(npc, n)
    ensures Rippled(s, g, npc, n, 0, 0) == s
  {
  }

  lemma RippledEnd(s: seq<Word>, g: seq<Word>, npc: nat, n: nat)
    requires |g| == |s| == ColStart(npc, n)
    ensures Rippled(s, g, npc, n, npc, 0) == g
  {
  }

  /** Finishing word x1 in the last column moves on to word x1 + 1. */
  lemma RippledNextWord(s: seq<Word>, g: seq<Word>, npc: nat, n: nat, x1: nat)
    requires |g| == |s| == ColStart(npc, n)
    ensures Rippled(s, g, npc, n, x1, n) == Rippled(s, g, npc, n, x1 + 1, 0)
  {
  }

  /** Word x1 of column j1 is still untouched. */
  lemma RippledAt(s: seq<Word>, g: seq<Word>, npc: nat, n: nat, x1: nat, j1: nat, j: nat)
    requires |g| == |s| == ColStart(npc, n)
    requires j1 <= j < n && x1 < npc
    ensures Slot(npc, j, x1) < |s| && Rippled(s, g, npc, n, x1, j1)[Slot(npc, j, x1)] == s[Slot(npc, j, x1)]
  {
    LocateSlot(npc, n, j, x1);
  }

  /** Growing word x1 of column j1 is the next step. */
  lemma RippledStep(s: seq<Word>, g: seq<Word>, npc: nat, n: nat, x1: nat, j1: nat)
    requires |g| == |s| == ColStart(npc, n)
    requires j1 < n && x1 < npc
    ensures Slot(npc, j1, x1) < |s|
    ensures Rippled(s, g, npc, n, x1, j1 + 1)
            == Rippled(s, g, npc, n, x1, j1)[Slot(npc, j1, x1) := g[Slot(npc, j1, x1)]]
  {
    var k1 := Slot(npc, j1, x1);
    LocateSlot(npc, n, j1, x1);
    forall k | 0 <= k < |s| && k != k1
      ensures Rippled(s, g, npc, n, x1, j1 + 1)[k] == Rippled(s, g, npc, n, x1, j1)[k]
    {
      var p := Locate(npc, n, k);
      SlotDistinct(npc, p.0, p.1, j1, x1);
    }
  }

  /** One step of the ripple, `ret = *Lword & Rword; *Lword |= Rword;`: ORs
      the carry c into word k, the word x1 of column j1 of the part-way
      buffer, and returns the carry for the next column. */
  method RippleWord(a: array<Word>, k: nat, c: Word, ghost s: seq<Word>, ghost mw: seq<Word>,
                    ghost npc: nat, ghost n: nat, ghost x1: nat, ghost j1: nat) returns (ret: Word)
    requires a.Length == |s| == ColStart(npc, n) && 0 < npc && |mw| == npc
    requires j1 < n && x1 < npc && k == Slot(npc, j1, x1) && k < |s|
    requires a[..] == Rippled(s, GrowWords(s, mw, npc), npc, n, x1, j1)
    requires c == CarryAt(s, mw, npc, k)
    modifies a
    ensures a[..] == Rippled(s, GrowWords(s, mw, npc), npc, n, x1, j1 + 1)
    ensures ret == CarryAt(s, mw, npc, k + npc)
  {
    ghost var g := GrowWords(s, mw, npc);
    RippledAt(s, g, npc, n, x1, j1, j1);
    RippledStep(s, g, npc, n, x1, j1);
    var w := a[k];
    assert w == s[k];
    RippleOr(s, mw, npc, k, w, c, g[k]);
    RippleAnd(s, mw, npc, k, w, c, CarryAt(s, mw, npc, k + npc));
    ret := w & c;
    var v := w | c;
    a[k] := v;
  }

  /** Reads word x1 of the mask, `bitcol->words[i1]`, part-way through
      grow1rows: it is still the old mask word, also when the mask is
      column j0 of the buffer being grown, because word x1 of every column
      is untouched until the ripple through word x1 starts. */
  method MaskWord(mask: BV.BitCol, a: array<Word>, x1: nat, ghost s: seq<Word>, ghost mw: seq<Word>,
                  ghost npc: nat, ghost n: nat, ghost j0: nat) returns (w: Word)
    requires a.Length == |s| == ColStart(npc, n) && |mw| == npc && x1 < npc
    requires mask.offset + npc <= mask.words.Length
    requires a[..] == Rippled(s, GrowWords(s, mw, npc), npc, n, x1, 0)
    requires mask.words != a ==> mask.words[mask.offset..mask.offset + npc] == mw
    requires mask.words == a ==> j0 < n && mask.offset == ColStart(npc, j0)
                                 && s[ColStart(npc, j0)..ColStart(npc, j0) + npc] == mw
    ensures w == CarryAt(s, mw, npc, x1)
  {
    w := mask.words[mask.offset + x1];
    if mask.words == a {
      RippledAt(s, GrowWords(s, mw, npc), npc, n, x1, 0, j0);
      assert w == s[ColStart(npc, j0) + x1];
    }
    assert w == mw[x1];
  }

  /** The inner loop of grow1rows: ripples the carry c, which enters word x1
      of column 0, through word x1 of every column. */
  method RippleSlot(m: BitMatrix, lword0: nat, c: Word, ghost s: seq<Word>, ghost mw: seq<Word>, ghost x1: nat)
    requires m.Valid() && |s| == m.words.Length == ColStart(m.nwordPerCol, m.ncol)
    requires |mw| == m.nwordPerCol && x1 < m.nwordPerCol
    requires lword0 == x1 && c == CarryAt(s, mw, m.nwordPerCol, x1)
    requires m.words[..] == Rippled(s, GrowWords(s, mw, m.nwordPerCol), m.nwordPerCol, m.ncol, x1, 0)
    modifies m.words
    ensures m.words[..] == Rippled(s, GrowWords(s, mw, m.nwordPerCol), m.nwordPerCol, m.ncol, x1 + 1, 0)
  {
    var npc := m.nwordPerCol;
    ghost var n := m.ncol;
    ghost var g := GrowWords(s, mw, npc);
    BufferColumns(m);
    var lword := lword0;
    var rword := c;
    var j := 0;
    while j < m.ncol
      invariant 0 <= j <= m.ncol && lword == Slot(npc, j, x1) && lword < |s| + npc
      invariant rword == CarryAt(s, mw, npc, lword)
      invariant m.words[..] == Rippled(s, g, npc, n, x1, j)
    {
      LocateSlot(npc, n, j, x1);
      var ret := RippleWord(m.words, lword, rword, s, mw, npc, n, x1, j);
      rword := ret;
      lword := lword + npc;
      j := j + 1;
    }
    RippledNextWord(s, g, npc, n, x1);
  }

  /** The two loops of grow1rows: for each word slot x1, the carry that
      enters column 0 is mask word x1, and it ripples up through word x1 of
      every column. Afterwards the buffer is the grown buffer. */
  method RippleAll(m: BitMatrix, mask: BV.BitCol, ghost s: seq<Word>, ghost mw: seq<Word>, ghost j0: nat)
    requires m.Valid() && m.words[..] == s && |mw| == m.nwordPerCol
    requires mask.offset + m.nwordPerCol <= mask.words.Length
    requires mask.words != m.words ==> mask.words[mask.offset..mask.offset + m.nwordPerCol] == mw
    requires mask.words == m.words ==> j0 < m.ncol && mask.offset == ColStart(m.nwordPerCol, j0)
                                       && s[ColStart(m.nwordPerCol, j0)..ColStart(m.nwordPerCol, j0) + m.nwordPerCol] == mw
    modifies m.words
    ensures m.words[..] == GrowWords(s, mw, m.nwordPerCol)
  {
    var npc := m.nwordPerCol;
    ghost var g := GrowWords(s, mw, npc);
    ghost var n := m.ncol;
    BufferColumns(m);
    RippledStart(s, g, npc, n);
    var i1 := 0;
    while i1 < npc
      invariant 0 <= i1 <= npc
      invariant m.words[..] == Rippled(s, g, npc, n, i1, 0)
    {
      var rword := MaskWord(mask, m.words, i1, s, mw, npc, n, j0);
      RippleSlot(m, i1, rword, s, mw, i1);
      i1 := i1 + 1;
    }
    RippledEnd(s, g, npc, n);
  }

  /** grow1rows: for every row whose mask bit is set, sets the row's lowest
      clear bit, by a word-parallel ripple over the columns. Fails, changing
      nothing, when the mask does not have nrow bits. The mask may be a
      column view of the matrix itself. */
  method Grow1Rows(m: BitMatrix, mask: BV.BitCol) returns (r: Outcome)
    requires m.Valid() && mask.Valid()
    requires mask.words == m.words ==> exists j0 | 0 <= j0 < m.ncol :: mask.offset == j0 * m.nwordPerCol
    modifies m.words
    ensures r.Fail? <==> mask.nbit != m.nrow
    ensures r.Fail? ==> r.error == IncompatibleShape && m.words[..] == old(m.words[..])
    ensures r.Pass? ==> mask.nword == m.nwordPerCol
    ensures r.Pass? ==> m.words[..] == GrowWords(old(m.words[..]), old(mask.words[mask.offset..mask.offset + mask.nword]), m.nwordPerCol)
    ensures r.Pass? ==> forall i | 0 <= i < m.nrow ::
      RowValue(m, m.words[..], i) == GrownValue(RowValue(m, old(m.words[..]), i), m.ncol, old(BV.GetBit(mask, i)) == 1)
    ensures mask.words != m.words ==> mask.words[..] == old(mask.words[..])
  {
    if m.nrow != mask.nbit {
      return Fail(IncompatibleShape);
    }
    var npc := m.nwordPerCol;
    ghost var s0 := m.words[..];
    ghost var mw := mask.words[mask.offset..mask.offset + mask.nword];
    BufferColumns(m);
    ghost var j0: nat := 0;
    if mask.words == m.words {
      j0 :| 0 <= j0 < m.ncol && mask.offset == j0 * npc;
      ColStartIsProduct(npc, j0);
      CellInRange(m, 0, j0);
    }
    RippleAll(m, mask, s0, mw, j0);
    forall i | 0 <= i < m.nrow
      ensures RowValue(m, m.words[..], i) == GrownValue(RowValue(m, s0, i), m.ncol, old(BV.GetBit(mask, i)) == 1)
    {
      GrowRowValue(m, s0, mw, i);
      assert MaskBit(mw, i) == (old(BV.GetBit(mask, i)) == 1);
    }
    return Pass;
  }
}
