/** The on-disk form of one log entry.

An entry is written as the block array (a count followed by that many block
numbers, padded to whole blocks) and then the logged blocks themselves, one log
block each. */
module LogEntryFormat {
  import opened Options
  import opened LogRing
  import opened Overlay

  const WORD_SIZE := 8   // sizeof(off_t)

  datatype Geometry = Geometry(logSize: nat, wordsPerBlock: nat) {
    predicate Valid() {
      logSize > 0 && wordsPerBlock > 0
    }

    function BlockSize(): nat {
      wordsPerBlock * WORD_SIZE
    }

    /** Blocks that an array of `count` numbers and its count word need: one, and one
        more for every block that is full before the last word. */
    function ArrayBlocks(count: nat): (n: nat)
      requires Valid()
      ensures n >= 1
    {
      1 + Lap(wordsPerBlock, count)
    }

    /** Log blocks taken by an entry with `count` logged blocks. */
    function EntrySize(count: nat): nat
      requires Valid()
    {
      count + ArrayBlocks(count)
    }
  }

  /** Rounding the bytes up to whole blocks counts the array blocks. */
  lemma {:induction false} RoundedUp(g: Geometry, count: nat)
    requires g.Valid()
    ensures ((count + 1) * WORD_SIZE + g.BlockSize() - 1) / g.BlockSize() == g.ArrayBlocks(count)
  {
    var v, q := g.wordsPerBlock, Lap(g.wordsPerBlock, count);
    LapAndSlot(v, count);
    LapsIsProduct(v, q);
    var r := Slot(v, count) * WORD_SIZE + WORD_SIZE - 1;
    assert (q + 1) * g.BlockSize() == (q * v) * WORD_SIZE + g.BlockSize();
    DivUnique(g.BlockSize(), (count + 1) * WORD_SIZE + g.BlockSize() - 1, q + 1, r);
  }

  /** How the reader moves on to the next block of the block array.  The shipped
      code leaves the log area by one block before it wraps; `Modular` is the way
      the writer goes. */
  datatype Wrap = AsWritten | Modular

  function ArrayBlockAt(g: Geometry, wrap: Wrap, start: nat, i: nat): (p: nat)
    requires g.Valid() && start < g.logSize
    ensures p <= g.logSize
    ensures wrap.Modular? ==> p < g.logSize
  {
    match wrap
    case Modular => Slot(g.logSize, start + i)
    case AsWritten => Slot(g.logSize + 1, start + i)
  }

  /** The log area and the disk block right behind it. */
  datatype LogArea = LogArea(blocks: seq<Block>, behind: Block) {
    predicate Valid(g: Geometry) {
      && g.Valid()
      && |blocks| == g.logSize
      && |behind| == g.wordsPerBlock
      && forall i :: 0 <= i < |blocks| ==> |blocks[i]| == g.wordsPerBlock
    }

    function At(p: nat): Block
      requires p <= |blocks|
    {
      if p == |blocks| then behind else blocks[p]
    }
  }

  /** Word `i` of the block array of the entry at `start`. */
  function ArrayWord(g: Geometry, wrap: Wrap, log: LogArea, start: nat, i: nat): int
    requires log.Valid(g) && start < g.logSize
  {
    log.At(ArrayBlockAt(g, wrap, start, Lap(g.wordsPerBlock, i)))[Slot(g.wordsPerBlock, i)]
  }

  /** The writes the reader finds in the entry at `start`. */
  function Decode(g: Geometry, wrap: Wrap, log: LogArea, start: nat): (r: Option<seq<(int, Block)>>)
    requires log.Valid(g) && start < g.logSize
    ensures r.Some? ==> 1 <= |r.value| < g.logSize
  {
    var count := ArrayWord(g, wrap, log, start, 0);
    if count < 1 || count >= g.logSize then None
    else Some(seq(count, i requires 0 <= i < count =>
                    (ArrayWord(g, wrap, log, start, i + 1),
                     log.blocks[Slot(g.logSize, start + g.ArrayBlocks(count) + i)])))
  }

  /** The words of the block array as the writer has them in memory; `slack` is
      whatever stands behind the last number in its last block. */
  function ArrayWords(numbers: seq<int>, slack: seq<int>): seq<int> {
    [|numbers|] + numbers + slack
  }

  predicate Padded(g: Geometry, numbers: seq<int>, slack: seq<int>)
    requires g.Valid()
  {
    |ArrayWords(numbers, slack)| == Laps(g.wordsPerBlock, g.ArrayBlocks(|numbers|))
  }

  /** Block `i` of a buffer of `n` whole blocks. */
  function Chunk(g: Geometry, words: seq<int>, n: nat, i: nat): (b: Block)
    requires g.Valid() && |words| == Laps(g.wordsPerBlock, n) && i < n
    ensures |b| == g.wordsPerBlock
  {
    LapsMonotone(g.wordsPerBlock, i, n);
    words[Laps(g.wordsPerBlock, i)..][..g.wordsPerBlock]
  }

  function Chunks(g: Geometry, words: seq<int>, n: nat): (r: seq<Block>)
    requires g.Valid() && |words| == Laps(g.wordsPerBlock, n)
    ensures |r| == n
  {
    seq(n, i requires 0 <= i < n => Chunk(g, words, n, i))
  }

  /** The log blocks of a whole entry. */
  function Encode(g: Geometry, numbers: seq<int>, contents: seq<Block>, slack: seq<int>): (r: seq<Block>)
    requires g.Valid() && |numbers| == |contents| && Padded(g, numbers, slack)
    ensures |r| == g.EntrySize(|numbers|)
  {
    Chunks(g, ArrayWords(numbers, slack), g.ArrayBlocks(|numbers|)) + contents
  }

  /** The log holds an entry for `numbers` and `contents` from position `pos` on. */
  ghost predicate EntryAt(g: Geometry, log: seq<Block>, pos: nat, numbers: seq<int>, contents: seq<Block>)
    requires g.Valid() && |log| == g.logSize && |numbers| == |contents|
  {
    exists slack :: Padded(g, numbers, slack) && StoredAt(g, log, pos, Encode(g, numbers, contents, slack))
  }

  ghost predicate StoredAt(g: Geometry, log: seq<Block>, pos: nat, blocks: seq<Block>)
    requires g.Valid() && |log| == g.logSize
  {
    forall i :: 0 <= i < |blocks| ==> log[Slot(g.logSize, pos + i)] == blocks[i]
  }

  /** Storing the encoded entry puts it there. */
  lemma {:induction false} PutStoresEntry(g: Geometry, log: seq<Block>, pos: nat, numbers: seq<int>, contents: seq<Block>, slack: seq<int>)
    requires g.Valid() && |log| == g.logSize && |numbers| == |contents| && Padded(g, numbers, slack)
    requires g.EntrySize(|numbers|) <= g.logSize
    ensures EntryAt(g, Put(log, g.logSize, pos, Encode(g, numbers, contents, slack)), pos, numbers, contents)
  {
    var blocks := Encode(g, numbers, contents, slack);
    var log' := Put(log, g.logSize, pos, blocks);
    forall i | 0 <= i < |blocks|
      ensures log'[Slot(g.logSize, pos + i)] == blocks[i]
    {
      PutStored(log, g.logSize, pos, blocks, i);
    }
    assert StoredAt(g, log', pos, blocks);
  }

  /** An entry that lies in front of the place written to is still there. */
  lemma {:induction false} PutKeepsEntry(g: Geometry, log: seq<Block>, pos: nat, blocks: seq<Block>,
                      first: nat, numbers: seq<int>, contents: seq<Block>)
    requires g.Valid() && |log| == g.logSize && |numbers| == |contents|
    requires EntryAt(g, log, first, numbers, contents)
    requires first + g.EntrySize(|numbers|) <= pos && pos + |blocks| <= first + g.logSize
    ensures EntryAt(g, Put(log, g.logSize, pos, blocks), first, numbers, contents)
  {
    var slack :| Padded(g, numbers, slack) && StoredAt(g, log, first, Encode(g, numbers, contents, slack));
    var entry := Encode(g, numbers, contents, slack);
    var log' := Put(log, g.logSize, pos, blocks);
    forall i | 0 <= i < |entry|
      ensures log'[Slot(g.logSize, first + i)] == entry[i]
    {
      PutKeeps(log, g.logSize, pos, blocks, first + i);
    }
    assert StoredAt(g, log', first, entry);
  }

  /** Word `i` of a buffer is found in the chunk of its lap. */
  lemma {:induction false} WordInChunk(g: Geometry, words: seq<int>, n: nat, i: nat)
    requires g.Valid() && |words| == Laps(g.wordsPerBlock, n) && i < |words|
    ensures Lap(g.wordsPerBlock, i) < n
    ensures Chunks(g, words, n)[Lap(g.wordsPerBlock, i)][Slot(g.wordsPerBlock, i)] == words[i]
  {
    var v := g.wordsPerBlock;
    var k := Lap(v, i);
    LapAndSlot(v, i);
    if k >= n {
      LapsMonotone(v, n, k);
    }
    LapsMonotone(v, k, n);
    assert Chunks(g, words, n)[k] == words[Laps(v, k)..][..v];
  }

  /** The reader passes the log blocks the writer used for an array of `n` blocks
      exactly if the array does not reach past the end of the log area. */
  lemma {:induction false} ReaderFollowsWriter(g: Geometry, start: nat, n: nat)
    requires g.Valid() && start < g.logSize && 1 <= n <= g.logSize
    ensures (forall i {:trigger ArrayBlockAt(g, AsWritten, start, i)} :: 0 <= i < n ==>
               ArrayBlockAt(g, AsWritten, start, i) == ArrayBlockAt(g, Modular, start, i))
       <==> start + n <= g.logSize
  {
    if start + n <= g.logSize {
      forall i {:trigger ArrayBlockAt(g, AsWritten, start, i)} | 0 <= i < n
        ensures ArrayBlockAt(g, AsWritten, start, i) == ArrayBlockAt(g, Modular, start, i)
      {
      }
    } else {
      var i := g.logSize - start;
      assert ArrayBlockAt(g, AsWritten, start, i) != ArrayBlockAt(g, Modular, start, i);
    }
  }

  ghost predicate ReadsArrayOf(g: Geometry, wrap: Wrap, start: nat, count: nat)
    requires g.Valid()
  {
    wrap.Modular? || start + g.ArrayBlocks(count) <= g.logSize
  }

  function Pairs(numbers: seq<int>, contents: seq<Block>): seq<(int, Block)>
    requires |numbers| == |contents|
  {
    seq(|numbers|, i requires 0 <= i < |numbers| => (numbers[i], contents[i]))
  }

  lemma {:induction false} ArrayWordStored(g: Geometry, wrap: Wrap, log: LogArea, pos: nat,
                        numbers: seq<int>, contents: seq<Block>, slack: seq<int>, i: nat)
    requires log.Valid(g) && |numbers| == |contents| && Padded(g, numbers, slack)
    requires g.EntrySize(|numbers|) <= g.logSize
    requires StoredAt(g, log.blocks, pos, Encode(g, numbers, contents, slack))
    requires ReadsArrayOf(g, wrap, Slot(g.logSize, pos), |numbers|)
    requires i <= |numbers|
    ensures ArrayWord(g, wrap, log, Slot(g.logSize, pos), i) == if i == 0 then |numbers| else numbers[i - 1]
  {
    var n := g.ArrayBlocks(|numbers|);
    var words := ArrayWords(numbers, slack);
    var start, k := Slot(g.logSize, pos), Lap(g.wordsPerBlock, i);
    WordInChunk(g, words, n, i);
    assert Encode(g, numbers, contents, slack)[k] == Chunks(g, words, n)[k];
    SlotStep(g.logSize, pos, k);
    assert ArrayBlockAt(g, wrap, start, k) == Slot(g.logSize, pos + k) by {
      if wrap.AsWritten? {
        ReaderFollowsWriter(g, start, n);
        assert ArrayBlockAt(g, AsWritten, start, k) == ArrayBlockAt(g, Modular, start, k);
      }
    }
  }

  lemma {:induction false} ContentStored(g: Geometry, log: LogArea, pos: nat,
                      numbers: seq<int>, contents: seq<Block>, slack: seq<int>, i: nat)
    requires log.Valid(g) && |numbers| == |contents| && Padded(g, numbers, slack)
    requires StoredAt(g, log.blocks, pos, Encode(g, numbers, contents, slack))
    requires i < |numbers|
    ensures log.blocks[Slot(g.logSize, Slot(g.logSize, pos) + g.ArrayBlocks(|numbers|) + i)] == contents[i]
  {
    var n := g.ArrayBlocks(|numbers|);
    SlotStep(g.logSize, pos, n + i);
    assert Slot(g.logSize, pos) + n + i == Slot(g.logSize, pos) + (n + i);
    assert Encode(g, numbers, contents, slack)[n + i] == contents[i];
  }

  /** Round trip: reading the entry back gives exactly the logged numbers and
      contents, wherever in the ring it stands. */
  lemma {:induction false} DecodeEncoded(g: Geometry, wrap: Wrap, log: LogArea, pos: nat, numbers: seq<int>, contents: seq<Block>)
    requires log.Valid(g) && |numbers| == |contents|
    requires 1 <= |numbers| && g.EntrySize(|numbers|) <= g.logSize
    requires EntryAt(g, log.blocks, pos, numbers, contents)
    requires ReadsArrayOf(g, wrap, Slot(g.logSize, pos), |numbers|)
    ensures Decode(g, wrap, log, Slot(g.logSize, pos)) == Some(Pairs(numbers, contents))
  {
    var slack :| Padded(g, numbers, slack) && StoredAt(g, log.blocks, pos, Encode(g, numbers, contents, slack));
    ArrayWordStored(g, wrap, log, pos, numbers, contents, slack, 0);
    var read := Decode(g, wrap, log, Slot(g.logSize, pos)).value;
    forall i | 0 <= i < |numbers|
      ensures read[i].0 == numbers[i] && read[i].1 == contents[i]
    {
      ArrayWordStored(g, wrap, log, pos, numbers, contents, slack, i + 1);
      ContentStored(g, log, pos, numbers, contents, slack, i);
    }
    assert read == Pairs(numbers, contents);
  }
}
