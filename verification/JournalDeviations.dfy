/** Where the journal as shipped departs from the design proved in JournalRuns, and
exactly when the difference shows. */
module JournalDeviations {
  import opened Options
  import opened LogRing
  import opened Overlay
  import opened LogEntryFormat
  import opened JournalState
  import opened JournalSafety
  import opened JournalRuns

  // ---------- an entry that fills the log ----------

  /** The space test lets an entry take all free blocks.  The log then looks empty, and
      it does so only then. */
  lemma {:induction false} FullLogLooksEmpty(g: Geometry, s: State, h: History, slack: seq<int>)
    requires Inv(g, s, h) && s.numbers != [] && Padded(g, s.numbers, slack)
    requires TransactionSize(g, s) <= FreeLogBlocks(g, s)
    ensures var s' := WriteEntry(g, s, slack);
            s'.logStart == s'.logEnd <==> TransactionSize(g, s) == FreeLogBlocks(g, s)
  {
    var size := TransactionSize(g, s);
    FreeIsRest(g, s, h);
    SlotStep(g.logSize, h.end, size);
    if size == FreeLogBlocks(g, s) {
      SlotLap(g.logSize, h.Start());
    } else {
      DistinctInLap(g.logSize, h.Start(), h.end + size);
    }
  }

  lemma {:induction false} SlotLap(size: nat, p: nat)
    requires size > 0
    ensures Slot(size, p + size) == Slot(size, p)
  {
  }

  /** The replay then restores nothing: it yields the home blocks as they are, which
      is the committed volume only if they already hold the transaction. */
  lemma {:induction false} FullLogReplaysNothing(g: Geometry, s: State, h: History, slack: seq<int>, home': map<int, Block>)
    requires Inv(g, s, h) && s.numbers != [] && Padded(g, s.numbers, slack)
    requires TransactionSize(g, s) == FreeLogBlocks(g, s)
    ensures var s' := WriteEntry(g, s, slack);
            ReplaysTo(g, Modular, s'.log, s'.home, s'.logEnd, s'.logEnd, home') <==> home' == s.home
    ensures WriteEntry(g, s, slack).logStart == WriteEntry(g, s, slack).logEnd
  {
    FullLogLooksEmpty(g, s, h, slack);
  }

  /** Such a transaction exists: one block, in a log of two blocks. */
  lemma {:induction false} FullLogLosesTransaction() returns (g: Geometry, s: State, h: History)
    ensures Inv(g, s, h) && s.numbers != [] && Padded(g, s.numbers, [])
    ensures TransactionSize(g, s) == FreeLogBlocks(g, s)
    ensures HistoryAfterWrite(g, s, h).committed != s.home
  {
    g := Geometry(2, 2);
    s := State(map[7 := [0, 0]], LogArea([[0, 0], [0, 0]], [0, 0]), 0, 0, [7], map[7 := [1, 1]], [], [], 0, 0);
    h := History(s.home, [], 0);
    assert Lap(2, 1) == 0 && Laps(2, 1) == 2;
    assert TransactionInv(g, s.numbers, s.locked);
    var ws := TransactionWrites(s);
    assert ws == [Write(7, [1, 1], 0)] && ws[..0] == [];
    assert Apply(h.committed, ws)[7] == [1, 1] && s.home[7] == [0, 0];
  }

  // ---------- the array of an entry that runs over the end ----------

  /** The first number in the array block that wraps around. */
  function WrappedNumber(g: Geometry, start: nat): nat
    requires g.Valid() && start < g.logSize
  {
    Laps(g.wordsPerBlock, g.logSize - start) - 1
  }

  /** The reader leaves the log area before it wraps: if the block array of an entry runs
      over the end, the number that was written at the start of the log area is taken
      from the block behind the log instead, and the logged block is restored there. */
  lemma {:induction false} ArrayOverEndMisread(g: Geometry, log: LogArea, pos: nat, numbers: seq<int>, contents: seq<Block>)
    requires log.Valid(g) && |numbers| == |contents| && 1 <= |numbers| && g.EntrySize(|numbers|) <= g.logSize
    requires EntryAt(g, log.blocks, pos, numbers, contents)
    requires Slot(g.logSize, pos) + g.ArrayBlocks(|numbers|) > g.logSize
    ensures var start := Slot(g.logSize, pos);
            var m := WrappedNumber(g, start);
            && m < |numbers|
            && Decode(g, AsWritten, log, start).Some? && |Decode(g, AsWritten, log, start).value| == |numbers|
            && Decode(g, AsWritten, log, start).value[m] == (log.behind[0], contents[m])
            && Decode(g, Modular, log, start).value[m] == (numbers[m], contents[m])
  {
    hide EntryAt, Slot;
    var start, v := Slot(g.logSize, pos), g.wordsPerBlock;
    assert start < g.logSize by {
      SlotInside(g.logSize, pos);
    }
    var k := g.logSize - start;
    DecodeEncoded(g, Modular, log, pos, numbers, contents);
    assert ArrayWord(g, AsWritten, log, start, 0) == ArrayWord(g, Modular, log, start, 0);
    LapAndSlot(v, |numbers|);
    LapsMonotone(v, k, Lap(v, |numbers|));
    WordPosition(v, k, 0);
    assert ArrayBlockAt(g, AsWritten, start, k) == g.logSize;
    assert ArrayWord(g, AsWritten, log, start, Laps(v, k)) == log.behind[0];
    var m := WrappedNumber(g, start);
    assert m < |numbers| && m + 1 == Laps(v, k);
    var read, right := Decode(g, AsWritten, log, start).value, Decode(g, Modular, log, start).value;
    assert right[m] == (numbers[m], contents[m]);
    assert read[m].0 == ArrayWord(g, AsWritten, log, start, m + 1) && read[m].1 == right[m].1;
  }

  // ---------- flushing before the end pointer moves ----------

  /** Everything the cache holds goes home. */
  function FlushAll(g: Geometry, s: State): State
    requires g.Valid()
    decreases |s.pending|
  {
    if s.pending == [] then s else FlushAll(g, FlushBlock(g, s, 0))
  }

  /** The order of the shipped code: when the entry wraps, the device is flushed after
      the entry was put in the list but before the end pointer moves. */
  function WriteEntryAsCoded(g: Geometry, s: State, slack: seq<int>): State
    requires s.log.Valid(g) && ArrayLocked(s) && Padded(g, s.numbers, slack)
  {
    var logPosition := Slot(g.logSize, s.logEnd + TransactionSize(g, s));
    var published := Published(g, s, slack);
    var flushed := if logPosition < s.logEnd then FlushAll(g, published) else published;
    flushed.(logEnd := logPosition)
  }

  lemma {:induction false} FlushFirst(g: Geometry, s: State, records: seq<Record>)
    requires g.Valid() && s.entries == Live(g, records, s.pending) && s.pending != [] && Covered(s.pending, records)
    requires forall a, b :: 0 <= a < b < |records| ==> records[a].id < records[b].id
    ensures var s' := FlushBlock(g, s, 0);
            && s'.entries == Live(g, records, s'.pending) && Covered(s'.pending, records)
            && s'.logEnd == s.logEnd
            && s.entries != []
            && (s'.entries == [] ==> s'.logStart == s.logEnd)
  {
    hide Count, LiveEntry, TotalLength;
    var s', id := FlushBlock(g, s, 0), s.pending[0].entry;
    FlushFields(g, s, 0);
    assert OwnedBy(s.pending[0], records);
    OwnerListed(g, records, s.pending, 0);
    LiveAfterFlush(g, records, s.pending, 0);
    assert s'.pending == s.pending[1..];
  }

  /** When everything is home the list is empty, and the start pointer is where the end
      pointer was. */
  lemma {:induction false} FlushAllEndsAtEnd(g: Geometry, s: State, records: seq<Record>)
    requires g.Valid() && s.entries == Live(g, records, s.pending) && Covered(s.pending, records)
    requires forall a, b :: 0 <= a < b < |records| ==> records[a].id < records[b].id
    ensures FlushAll(g, s).entries == []
    ensures s.entries != [] ==> FlushAll(g, s).logStart == s.logEnd
    ensures s.entries == [] ==> FlushAll(g, s).logStart == s.logStart
    ensures FlushAll(g, s).logEnd == s.logEnd
    decreases |s.pending|
  {
    if s.pending == [] {
      LiveOfNothing(g, records);
    } else {
      FlushFirst(g, s, records);
      assert FlushBlock(g, s, 0).pending == s.pending[1..] by {
        FlushFields(g, s, 0);
      }
      FlushAllEndsAtEnd(g, FlushBlock(g, s, 0), records);
    }
  }

  lemma {:induction false} LiveOfNothing(g: Geometry, records: seq<Record>)
    requires g.Valid()
    ensures Live(g, records, []) == []
    decreases |records|
  {
    if records != [] {
      LiveOfNothing(g, records[..|records| - 1]);
    }
  }

  lemma {:induction false} WrappedEntryFlushed(g: Geometry, s: State, h: History, slack: seq<int>)
    requires Inv(g, s, h) && s.numbers != [] && Padded(g, s.numbers, slack)
    requires TransactionSize(g, s) < FreeLogBlocks(g, s)
    ensures FlushAll(g, Published(g, s, slack)).entries == []
    ensures FlushAll(g, Published(g, s, slack)).logStart == s.logEnd
  {
    var h', published := HistoryAfterWrite(g, s, h), Published(g, s, slack);
    assert published.entries == Live(g, h'.records, published.pending) by {
      WriteKeepsList(g, s, h);
    }
    assert Covered(published.pending, h'.records) by {
      WriteKeepsVolume(g, s, h);
    }
    assert Identified(h'.records, s.nextId + 1) by {
      WriteKeepsLog(g, s, h, slack);
    }
    FlushAllEndsAtEnd(g, published, h'.records);
  }

  /** As shipped, the start pointer is right after an entry was written exactly if the
      entry did not wrap around the end of the log area. */
  lemma {:induction false} WrapLeavesStartBehind(g: Geometry, s: State, h: History, slack: seq<int>)
    requires Inv(g, s, h) && s.numbers != [] && Padded(g, s.numbers, slack)
    requires TransactionSize(g, s) < FreeLogBlocks(g, s)
    ensures PointersExact(WriteEntryAsCoded(g, s, slack))
       <==> s.logEnd + TransactionSize(g, s) < g.logSize
  {
    var size := TransactionSize(g, s);
    assert size < g.logSize by {
      FreeIsRest(g, s, h);
    }
    assert Slot(g.logSize, s.logEnd + size) < s.logEnd <==> s.logEnd + size >= g.logSize;
    if s.logEnd + size < g.logSize {
      assert PointersExact(WriteEntry(g, s, slack)) by {
        WriteKeeps(g, s, h, slack);
        InvPointersExact(g, WriteEntry(g, s, slack), HistoryAfterWrite(g, s, h));
      }
    } else {
      WrappedEntryFlushed(g, s, h, slack);
    }
  }

  /** One block in an empty log whose end is the last block: the entry wraps around, and the
      start pointer stays at the old end. */
  lemma {:induction false} WrappedEntry() returns (g: Geometry, s: State, h: History)
    ensures Inv(g, s, h) && s.numbers != [] && Padded(g, s.numbers, [])
    ensures TransactionSize(g, s) < FreeLogBlocks(g, s)
    ensures !PointersExact(WriteEntryAsCoded(g, s, []))
  {
    g := Geometry(4, 2);
    var empty := [0, 0];
    s := State(map[7 := empty], LogArea([empty, empty, empty, empty], empty), 3, 3, [7], map[7 := [1, 1]], [], [], 0, 0);
    h := History(s.home, [], 3);
    assert Lap(2, 1) == 0 && Laps(2, 1) == 2;
    assert TransactionInv(g, s.numbers, s.locked);
    assert Inv(g, s, h);
    WrapLeavesStartBehind(g, s, h, []);
  }

  /** A start pointer that is not at the head of the list stays wrong: when the head is
      complete and another entry follows, it does not reach that entry. */
  lemma {:induction false} StaleStartStays(g: Geometry, s: State)
    requires g.Valid() && |s.entries| > 1
    requires 0 <= s.logStart < g.logSize
    requires s.entries[0].start < g.logSize && s.entries[1].start < g.logSize
    ensures StartBehindHead(g, s) == s.entries[1].start <==> s.logStart == s.entries[0].start
  {
    var x := s.logStart + (s.entries[1].start - s.entries[0].start);
    if x >= g.logSize {
      assert Slot(g.logSize, x) == x - g.logSize;
    }
  }
}
