/** BitCol: a vector of nbit bits packed into nword = ceil(nbit / W) words.
    Bit i lives in word i div W, at bit position i mod W. A BitCol holds a
    pointer to its first word; here that pointer is an array together with
    an offset into it, so that a column view of a BitMatrix is a BitCol
    whose words are the matrix's own array. */
module BitVectors {
  import opened Words

  datatype BitCol = BitCol(words: array<Word>, offset: nat, nword: nat, nbit: nat)
  {
    /** A well-formed BitCol: at least one bit, as many words as its bits
        need, all of them inside the array. */
    predicate Valid()
    {
      0 < nbit && nword == NWords(nbit) && offset + nword <= words.Length
    }
  }

  /** Bit i of the packed bits whose first word is s[offset]. */
  predicate ColBit(s: seq<Word>, offset: nat, i: nat)
    requires offset + i / W < |s|
  {
    BitOf(s[offset + i / W], i % W)
  }

  /** The words s with the n words from s[offset] on overwritten by val. */
  function FillWords(s: seq<Word>, offset: nat, n: nat, val: Word): (t: seq<Word>)
    requires offset + n <= |s|
    ensures |t| == |s|
    ensures forall k | 0 <= k < |s| :: t[k] == if offset <= k < offset + n then val else s[k]
  {
    s[..offset] + seq(n, _ => val) + s[offset + n..]
  }

  /** The words s after bit i of the packed bits starting at s[offset] is
      set (bit non-zero) or cleared (bit zero): only one word changes, and
      in it only the one bit. */
  function SetColBit(s: seq<Word>, offset: nat, i: nat, bit: int): (t: seq<Word>)
    requires offset + i / W < |s|
    ensures |t| == |s|
    ensures forall k | 0 <= k < |s| && k != offset + i / W :: t[k] == s[k]
  {
    s[offset + i / W := SetWordBit(s[offset + i / W], i % W, bit)]
  }

  /** A freshly allocated BitCol of nbit bits whose every word is val;
      nbit <= 0 is rejected and nothing is allocated. */
  method NewBitCol(nbit: int, val: Word) returns (r: Result<BitCol>)
    ensures r.Err? <==> nbit <= 0
    ensures r.Err? ==> r.error == InvalidArgument
    ensures r.Ok? ==> r.value.Valid() && fresh(r.value.words)
    ensures r.Ok? ==> r.value.nbit == nbit && r.value.offset == 0 && r.value.words.Length == r.value.nword
    ensures r.Ok? ==> forall k | 0 <= k < r.value.nword :: r.value.words[k] == val
  {
    if nbit <= 0 {
      return Err(InvalidArgument);
    }
    var q := nbit / W;
    var nword := q;
    if nbit % W != 0 {
      nword := nword + 1;
    }
    var words := new Word[nword];
    var c := BitCol(words, 0, nword, nbit);
    SetVal(c, val);
    return Ok(c);
  }

  /** Sets every word of the BitCol to val; nothing outside its words changes. */
  method SetVal(c: BitCol, val: Word)
    requires c.Valid()
    modifies c.words
    ensures c.words[..] == FillWords(old(c.words[..]), c.offset, c.nword, val)
  {
    var q := c.nbit / W;
    if c.nbit % W != 0 {
      q := q + 1;
    }
    var i1 := 0;
    while i1 < q
      invariant q == c.nword && 0 <= i1 <= q
      invariant forall k | 0 <= k < c.words.Length ::
        c.words[k] == if c.offset <= k < c.offset + i1 then val else old(c.words[k])
    {
      c.words[c.offset + i1] := val;
      i1 := i1 + 1;
    }
  }

  /** Bit i of the BitCol, as 0 or 1. */
  function GetBit(c: BitCol, i: int): (bit: int)
    requires c.Valid() && 0 <= i < c.nbit
    reads c.words
    ensures bit == 0 || bit == 1
    ensures bit == 1 <==> ColBit(c.words[..], c.offset, i)
  {
    var w := c.words[c.offset + i / W];
    if BitOf(w, i % W) then 1 else 0
  }

  /** Sets bit i of the BitCol when bit is non-zero and clears it otherwise. */
  method SetBit(c: BitCol, i: int, bit: int)
    requires c.Valid() && 0 <= i < c.nbit
    modifies c.words
    ensures c.words[..] == SetColBit(old(c.words[..]), c.offset, i, bit)
  {
    var k := c.offset + i / W;
    c.words[k] := SetWordBit(c.words[k], i % W, bit);
  }

  /** Filling with val makes bit i equal to bit i mod W of val, for every
      bit of the BitCol. */
  lemma FillBits(s: seq<Word>, offset: nat, nbit: nat, val: Word, i: nat)
    requires offset + NWords(nbit) <= |s| && i < nbit
    ensures ColBit(FillWords(s, offset, NWords(nbit), val), offset, i) == BitOf(val, i % W)
  {
  }

  /** Reading back a bit just written gives the value written (1 for any
      non-zero bit), and every other bit reads as before. */
  lemma SetThenGet(s: seq<Word>, offset: nat, i: nat, bit: int, i': nat)
    requires offset + i / W < |s| && offset + i' / W < |s|
    ensures ColBit(SetColBit(s, offset, i, bit), offset, i') == if i' == i then bit != 0 else ColBit(s, offset, i')
  {
    SetWordBitSpec(s[offset + i / W], i % W, bit, i' % W);
  }

  /** Setting a clear bit and clearing it again leaves the words as they were. */
  lemma SetBitRestore(s: seq<Word>, offset: nat, i: nat)
    requires offset + i / W < |s| && !ColBit(s, offset, i)
    ensures SetColBit(SetColBit(s, offset, i, 1), offset, i, 0) == s
  {
    var k := offset + i / W;
    SetWordBitRestore(s[k], i % W);
    assert s[k := s[k]] == s;
  }
}
