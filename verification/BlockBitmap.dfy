/** The bitmap block of an allocation group: 32-bit words, changed a mask at a time. */
module BlockBitmap {

  const WORD_BITS := 32
  const ALL_BLOCKS := 0xffff       // stands for all blocks behind the first

  /** A word, lowest bit first. */
  type Word = w: seq<bool> | |w| == WORD_BITS witness seq(WORD_BITS, _ => false)

  function Or(a: Word, b: Word): Word {
    seq(WORD_BITS, i requires 0 <= i < WORD_BITS => a[i] || b[i])
  }

  function AndNot(a: Word, b: Word): Word {
    seq(WORD_BITS, i requires 0 <= i < WORD_BITS => a[i] && !b[i])
  }

  predicate Holds(words: seq<Word>, numBits: int) {
    0 < numBits <= WORD_BITS * |words|
  }

  function Bit(words: seq<Word>, b: int): bool
    requires 0 <= b < WORD_BITS * |words|
  {
    words[b / WORD_BITS][b % WORD_BITS]
  }

  /** The bits as one sequence. */
  function Bits(words: seq<Word>, numBits: int): (r: seq<bool>)
    requires Holds(words, numBits)
    ensures |r| == numBits
  {
    seq(numBits, b requires 0 <= b < numBits => Bit(words, b))
  }

  /** Bits `s` to `s + n` set to `v`. */
  function Fill(bits: seq<bool>, s: int, n: int, v: bool): (r: seq<bool>)
    ensures |r| == |bits|
    ensures forall b :: 0 <= b < |r| ==> r[b] == if s <= b < s + n then v else bits[b]
  {
    seq(|bits|, b requires 0 <= b < |bits| => if s <= b < s + n then v else bits[b])
  }

  /** Bits `from` to `to` of a word. */
  function Mask(from: int, to: int): Word {
    seq(WORD_BITS, i requires 0 <= i < WORD_BITS => from <= i < to)
  }

  function Masked(words: seq<Word>, block: int, mask: Word, v: bool): (r: seq<Word>)
    requires 0 <= block < |words|
    ensures |r| == |words|
  {
    words[block := if v then Or(words[block], mask) else AndNot(words[block], mask)]
  }

  /** One mask changes the bits of one word. */
  lemma {:induction false} MaskFills(words: seq<Word>, numBits: int, block: int, from: int, to: int, v: bool)
    requires Holds(words, numBits) && 0 <= block < |words| && 0 <= from <= to <= WORD_BITS
    ensures Bits(Masked(words, block, Mask(from, to), v), numBits)
            == Fill(Bits(words, numBits), WORD_BITS * block + from, to - from, v)
  {
    var words' := Masked(words, block, Mask(from, to), v);
    forall b | 0 <= b < numBits
      ensures Bit(words', b) == Fill(Bits(words, numBits), WORD_BITS * block + from, to - from, v)[b]
    {
      assert b == WORD_BITS * (b / WORD_BITS) + b % WORD_BITS;
    }
  }

  lemma {:induction false} FillTwice(bits: seq<bool>, s: int, n: int, m: int, v: bool)
    requires 0 <= n && 0 <= m
    ensures Fill(Fill(bits, s, n, v), s + n, m, v) == Fill(bits, s, n + m, v)
  {
  }

  class AllocationBlock {
    var words: seq<Word>
    var numBits: int

    constructor (words: seq<Word>, numBits: int)
      ensures this.words == words && this.numBits == numBits
    {
      this.words, this.numBits := words, numBits;
    }

    /** How many blocks are meant. */
    function Amount(start: int, numBlocks: int): (n: int)
      requires 0 <= start < numBits
      reads this
    {
      if numBlocks == ALL_BLOCKS || start + numBlocks > numBits then numBits - start else numBlocks
    }

    /** Marks blocks as used (`v`) or free, a word at a time. */
    method Mark(start0: int, numBlocks0: int, v: bool)
      requires Holds(words, numBits) && 0 <= start0 && 0 <= numBlocks0
      modifies this`words
      ensures |words| == |old(words)| && Holds(words, numBits)
      ensures Bits(words, numBits)
              == Fill(Bits(old(words), numBits), start0 % numBits, Amount(start0 % numBits, numBlocks0), v)
    {
      var start := start0 % numBits;
      var numBlocks := numBlocks0;
      if numBlocks == ALL_BLOCKS {
        numBlocks := numBits - start;
      } else if start + numBlocks > numBits {
        numBlocks := numBits - start;
      }
      MarkFrom(start, numBlocks, v);
    }

    /** The same for blocks that are all there. */
    method MarkFrom(start: int, count: int, v: bool)
      requires Holds(words, numBits) && 0 <= start < numBits && 0 <= count <= numBits - start
      modifies this`words
      ensures |words| == |old(words)| && Holds(words, numBits)
      ensures Bits(words, numBits) == Fill(Bits(old(words), numBits), start, count, v)
    {
      ghost var before := Bits(words, numBits);
      var numBlocks := count;
      var block, low := start / WORD_BITS, start % WORD_BITS;
      assert Fill(before, start, 0, v) == before;
      hide Bits, Fill, Masked, Mask;
      while numBlocks > 0
        invariant 0 <= numBlocks <= count && |words| == |old(words)| && Holds(words, numBits)
        invariant 0 <= block && 0 <= low < WORD_BITS
        invariant numBlocks > 0 ==> WORD_BITS * block + low == start + (count - numBlocks)
        invariant Bits(words, numBits) == Fill(before, start, count - numBlocks, v)
      {
        var mask, end := BuildMask(low, numBlocks);
        MaskFills(words, numBits, block, low, end, v);
        FillTwice(before, start, count - numBlocks, end - low, v);
        words := Masked(words, block, mask, v);
        numBlocks := numBlocks - (end - low);
        block, low := block + 1, 0;
      }
    }

    /** The mask for `n` bits from `low` on, as far as the word goes. */
    static method BuildMask(low: int, n: int) returns (mask: Word, end: int)
      requires 0 <= low < WORD_BITS && 0 < n
      ensures end == (if low + n < WORD_BITS then low + n else WORD_BITS) && mask == Mask(low, end)
    {
      mask, end := Mask(low, low), low;
      var left := n;
      while end < WORD_BITS && left > 0
        invariant low <= end <= WORD_BITS && 0 <= left && end - low == n - left
        invariant mask == Mask(low, end)
      {
        mask := mask[end := true];
        end, left := end + 1, left - 1;
      }
    }

    method Allocate(start: int, numBlocks: int)
      requires Holds(words, numBits) && 0 <= start && 0 <= numBlocks
      modifies this`words
      ensures |words| == |old(words)| && Holds(words, numBits)
      ensures Bits(words, numBits)
              == Fill(Bits(old(words), numBits), start % numBits, Amount(start % numBits, numBlocks), true)
    {
      Mark(start, numBlocks, true);
    }

    method Free(start: int, numBlocks: int)
      requires Holds(words, numBits) && 0 <= start && 0 <= numBlocks
      modifies this`words
      ensures |words| == |old(words)| && Holds(words, numBits)
      ensures Bits(words, numBits)
              == Fill(Bits(old(words), numBits), start % numBits, Amount(start % numBits, numBlocks), false)
    {
      Mark(start, numBlocks, false);
    }

    /** Blocks behind the last one count as used. */
    method IsUsed(block: int) returns (used: bool)
      requires Holds(words, numBits) && 0 <= block < WORD_BITS * |words|
      ensures block < numBits ==> used == Bits(words, numBits)[block]
      ensures block > numBits ==> used
    {
      if block > numBits {
        return true;
      }
      used := words[block / WORD_BITS][block % WORD_BITS];
    }
  }
}
