/** Crash safety over whole runs of the journal. */
module JournalRuns {
  import opened Options
  import opened SortedArrays
  import opened LogRing
  import opened Overlay
  import opened LogEntryFormat
  import opened JournalState
  import opened JournalSafety

  // ---------- replay ----------

  lemma {:induction false} ApplyPairsIsApply(home: map<int, Block>, ws: seq<Write>)
    ensures ApplyPairs(home, Pairs(Numbers(ws), Contents(ws))) == Apply(home, ws)
    decreases |ws|
  {
    var pairs := Pairs(Numbers(ws), Contents(ws));
    if ws != [] {
      var n := |ws| - 1;
      ApplyPairsIsApply(home, ws[..n]);
      assert pairs[..n] == Pairs(Numbers(ws[..n]), Contents(ws[..n]));
    }
  }

  /** The reader finds the block array of every entry. */
  ghost predicate Readable(g: Geometry, wrap: Wrap, records: seq<Record>)
    requires g.Valid()
  {
    forall i :: 0 <= i < |records| ==>
      ReadsArrayOf(g, wrap, Slot(g.logSize, records[i].pos), |records[i].writes|)
  }

  /** One round of the replay loop at the first entry. */
  lemma {:induction false} ReplayFirst(g: Geometry, wrap: Wrap, log: LogArea, records: seq<Record>, end: nat)
    requires log.Valid(g) && records != [] && Chained(g, records, end) && Stored(g, log, records)
    requires Readable(g, wrap, records) && end < records[0].pos + g.logSize
    ensures var start, ws := Slot(g.logSize, records[0].pos), records[0].writes;
            && start != Slot(g.logSize, end)
            && Decode(g, wrap, log, start) == Some(Pairs(Numbers(ws), Contents(ws)))
            && Slot(g.logSize, start + g.EntrySize(|ws|)) == Slot(g.logSize, StartOf(records[1..], end))
            && Slot(g.logSize, start + g.EntrySize(|ws|)) != start
  {
    hide Decode, EntryAt, Slot, Numbers, Contents;
    var r := records[0];
    assert Linked(g, records, end, 0);
    ChainOrdered(g, records, end, 0, 0);
    DistinctInLap(g.logSize, r.pos, end);
    DistinctInLap(g.logSize, r.pos, r.pos + g.EntrySize(|r.writes|));
    SlotStep(g.logSize, r.pos, g.EntrySize(|r.writes|));
    DecodeEncoded(g, wrap, log, r.pos, Numbers(r.writes), Contents(r.writes));
  }

  /** The replay of a log with another entry in front. */
  lemma {:induction false} ReplayStep(g: Geometry, wrap: Wrap, log: LogArea, home: map<int, Block>,
                                      start: nat, end: nat, pairs: seq<(int, Block)>, home': map<int, Block>)
    requires log.Valid(g) && start < g.logSize && start != end
    requires Decode(g, wrap, log, start) == Some(pairs)
    requires Slot(g.logSize, start + g.EntrySize(|pairs|)) != start
    ensures ReplaysTo(g, wrap, log, home, start, end, home')
       <==> ReplaysTo(g, wrap, log, ApplyPairs(home, pairs), Slot(g.logSize, start + g.EntrySize(|pairs|)), end, home')
  {
    hide Decode, ApplyPairs, Slot;
  }

  /** The log behind its first entry is again a log. */
  lemma {:induction false} BehindFirst(g: Geometry, wrap: Wrap, log: LogArea, records: seq<Record>, end: nat)
    requires log.Valid(g) && records != [] && Chained(g, records, end) && Stored(g, log, records)
    requires Readable(g, wrap, records) && end < records[0].pos + g.logSize
    ensures var rest := records[1..];
            && Chained(g, rest, end) && Stored(g, log, rest) && Readable(g, wrap, rest)
            && end < StartOf(rest, end) + g.logSize
  {
    var rest := records[1..];
    forall i: nat | i < |rest|
      ensures Linked(g, rest, end, i)
    {
      assert Linked(g, records, end, i + 1);
    }
    if rest != [] {
      ChainOrdered(g, records, end, 0, 1);
    }
  }

  lemma {:induction false} ApplyFirst(home: map<int, Block>, records: seq<Record>)
    requires records != []
    ensures Apply(home, AllWrites(records)) == Apply(Apply(home, records[0].writes), AllWrites(records[1..]))
  {
    var r, rest := records[0], records[1..];
    assert records == [r] + rest;
    AllWritesConcat([r], rest);
    assert AllWrites([r]) == r.writes by {
      assert [r][..0] == [];
    }
    ApplyConcat(home, r.writes, AllWrites(rest));
  }

  lemma {:induction false} PairsCounted(ws: seq<Write>)
    ensures |Numbers(ws)| == |Contents(ws)| && |Pairs(Numbers(ws), Contents(ws))| == |ws|
  {
  }

  lemma {:induction false} SlotInside(size: nat, p: nat)
    requires size > 0
    ensures Slot(size, p) < size
  {
  }

  /** The replay of the whole log is the replay of its first entry and then of the rest. */
  lemma {:induction false} ReplayFirstStep(g: Geometry, wrap: Wrap, log: LogArea, home: map<int, Block>,
                                           records: seq<Record>, end: nat, home': map<int, Block>)
    requires log.Valid(g) && records != [] && Chained(g, records, end) && Stored(g, log, records)
    requires Readable(g, wrap, records) && end < records[0].pos + g.logSize
    ensures LogReplays(g, wrap, log, home, records, end, home')
       <==> LogReplays(g, wrap, log, Apply(home, records[0].writes), records[1..], end, home')
  {
    hide Decode, ReplaysTo, Chained, Stored, Readable, Apply, ApplyPairs, Slot;
    var ws := records[0].writes;
    ReplayFirst(g, wrap, log, records, end);
    assert StartOf(records, end) == records[0].pos;
    PairsCounted(ws);
    assert Slot(g.logSize, records[0].pos) < g.logSize by {
      SlotInside(g.logSize, records[0].pos);
    }
    ReplayStep(g, wrap, log, home, Slot(g.logSize, records[0].pos), Slot(g.logSize, end),
               Pairs(Numbers(ws), Contents(ws)), home');
    ApplyPairsIsApply(home, ws);
  }

  ghost predicate LogReplays(g: Geometry, wrap: Wrap, log: LogArea, home: map<int, Block>,
                             records: seq<Record>, end: nat, home': map<int, Block>)
    requires g.Valid()
  {
    ReplaysTo(g, wrap, log, home, Slot(g.logSize, StartOf(records, end)), Slot(g.logSize, end), home')
  }

  /** Replaying the log applies the writes of all its entries in order, and gives
      nothing else. */
  lemma {:induction false} ReplayAppliesLog(g: Geometry, wrap: Wrap, log: LogArea, home: map<int, Block>,
                                            records: seq<Record>, end: nat, home': map<int, Block>)
    requires log.Valid(g) && Chained(g, records, end) && Stored(g, log, records) && Readable(g, wrap, records)
    requires end < StartOf(records, end) + g.logSize
    ensures LogReplays(g, wrap, log, home, records, end, home') <==> home' == Apply(home, AllWrites(records))
    decreases |records|
  {
    if records != [] {
      BehindFirst(g, wrap, log, records, end);
      ReplayFirstStep(g, wrap, log, home, records, end, home');
      ReplayAppliesLog(g, wrap, log, Apply(home, records[0].writes), records[1..], end, home');
      ApplyFirst(home, records);
    }
  }

  /** In every state that keeps the invariant the replay restores the committed volume
      and nothing else. */
  lemma {:induction false} ReplayRestores(g: Geometry, wrap: Wrap, s: State, h: History, home': map<int, Block>)
    requires Inv(g, s, h) && Readable(g, wrap, h.records)
    ensures ReplaysTo(g, wrap, s.log, s.home, s.logStart, s.logEnd, home') <==> home' == h.committed
  {
    ReplayAppliesLog(g, wrap, s.log, s.home, h.records, h.end, home');
  }

  // ---------- a replay that is cut short ----------

  /** The replay from `start` has made its first `k` block writes, or all if there are less. */
  ghost predicate CutReplay(g: Geometry, wrap: Wrap, log: LogArea, home: map<int, Block>, start: nat, end: nat, k: nat,
                            home': map<int, Block>)
    decreases k
  {
    if k == 0 || start == end then home' == home
    else
      && log.Valid(g) && start < g.logSize && Decode(g, wrap, log, start).Some?
      && var pairs := Decode(g, wrap, log, start).value;
         if k <= |pairs| then home' == ApplyPairs(home, pairs[..k])
         else pairs != [] && CutReplay(g, wrap, log, ApplyPairs(home, pairs), Slot(g.logSize, start + g.EntrySize(|pairs|)), end,
                                       k - |pairs|, home')
  }

  /** The replay is begun again after every cut, and done to the end at last. */
  ghost predicate ReplaysAfterCuts(g: Geometry, wrap: Wrap, log: LogArea, home: map<int, Block>, start: nat, end: nat,
                                   cuts: seq<nat>, home': map<int, Block>)
    decreases |cuts|
  {
    if cuts == [] then ReplaysTo(g, wrap, log, home, start, end, home')
    else exists partly :: CutReplay(g, wrap, log, home, start, end, cuts[0], partly)
                          && ReplaysAfterCuts(g, wrap, log, partly, start, end, cuts[1..], home')
  }

  function Min(a: nat, b: nat): nat {
    if a < b then a else b
  }

  lemma {:induction false} PairsOfFront(ws: seq<Write>, k: nat)
    requires k <= |ws|
    ensures |Pairs(Numbers(ws), Contents(ws))| == |ws|
    ensures Pairs(Numbers(ws), Contents(ws))[..k] == Pairs(Numbers(ws[..k]), Contents(ws[..k]))
  {
  }

  lemma {:induction false} FirstWrites(records: seq<Record>)
    requires records != []
    ensures AllWrites(records) == records[0].writes + AllWrites(records[1..])
  {
    assert records == [records[0]] + records[1..];
    AllWritesConcat([records[0]], records[1..]);
    assert [records[0]][..0] == [];
  }

  /** Writes of the first entry, then of the rest. */
  lemma {:induction false} FrontWrites(records: seq<Record>, k: nat)
    requires records != [] && k <= |AllWrites(records)|
    ensures var ws, rest := records[0].writes, AllWrites(records[1..]);
            && |AllWrites(records)| == |ws| + |rest|
            && (k <= |ws| ==> AllWrites(records)[..k] == ws[..k])
            && (k >= |ws| ==> AllWrites(records)[..k] == ws + rest[..k - |ws|])
  {
    FirstWrites(records);
    hide AllWrites;
  }

  /** What a cut replay has done: the first writes of the log. */
  lemma {:induction false} CutReplayIs(g: Geometry, wrap: Wrap, log: LogArea, home: map<int, Block>,
                                       records: seq<Record>, end: nat, k: nat, home': map<int, Block>)
    requires log.Valid(g) && Chained(g, records, end) && Stored(g, log, records) && Readable(g, wrap, records)
    requires end < StartOf(records, end) + g.logSize
    ensures CutReplay(g, wrap, log, home, Slot(g.logSize, StartOf(records, end)), Slot(g.logSize, end), k, home')
       <==> home' == Apply(home, AllWrites(records)[..Min(k, |AllWrites(records)|)])
    decreases |records|
  {
    hide Decode, Readable, Stored, Chained, Slot, Apply, ApplyPairs;
    if records == [] {
      assert Apply(home, []) == home by {
        ApplyNothing(home);
      }
      assert AllWrites(records)[..Min(k, 0)] == [];
    } else {
      CutReplayStep(g, wrap, log, home, records, end, k, home');
      BehindFirst(g, wrap, log, records, end);
      var ws := records[0].writes;
      FrontWrites(records, Min(k, |AllWrites(records)|));
      if k > |ws| {
        CutReplayIs(g, wrap, log, Apply(home, ws), records[1..], end, k - |ws|, home');
        ApplyConcat(home, ws, AllWrites(records[1..])[..Min(k - |ws|, |AllWrites(records[1..])|)]);
      }
    }
  }

  lemma {:induction false} ApplyNothing(home: map<int, Block>)
    ensures Apply(home, []) == home
  {
  }

  lemma {:induction false} FirstNotEmpty(g: Geometry, records: seq<Record>, end: nat)
    requires g.Valid() && records != [] && Chained(g, records, end)
    ensures records[0].writes != []
  {
    assert Linked(g, records, end, 0);
  }

  /** A cut in the first entry, or behind it. */
  lemma {:induction false} CutReplayStep(g: Geometry, wrap: Wrap, log: LogArea, home: map<int, Block>,
                                         records: seq<Record>, end: nat, k: nat, home': map<int, Block>)
    requires log.Valid(g) && records != [] && Chained(g, records, end) && Stored(g, log, records)
    requires Readable(g, wrap, records) && end < records[0].pos + g.logSize
    ensures CutReplay(g, wrap, log, home, Slot(g.logSize, StartOf(records, end)), Slot(g.logSize, end), k, home')
       <==> if k <= |records[0].writes| then home' == Apply(home, records[0].writes[..k])
            else CutReplay(g, wrap, log, Apply(home, records[0].writes), Slot(g.logSize, StartOf(records[1..], end)),
                           Slot(g.logSize, end), k - |records[0].writes|, home')
  {
    hide Decode, Chained, Stored, Readable, Apply, ApplyPairs, Slot, Numbers, Contents, Pairs;
    var ws := records[0].writes;
    ReplayFirst(g, wrap, log, records, end);
    assert StartOf(records, end) == records[0].pos;
    FirstNotEmpty(g, records, end);
    assert Slot(g.logSize, records[0].pos) < g.logSize by {
      SlotInside(g.logSize, records[0].pos);
    }
    PairsOfFront(ws, Min(k, |ws|));
    ApplyPairsIsApply(home, ws[..Min(k, |ws|)]);
    ApplyPairsIsApply(home, ws);
    if k == 0 {
      ApplyNothing(home);
    }
  }

  /** However often a replay is cut short, the last one restores the committed volume: the
      log is still there, and doing the first writes again changes nothing. */
  lemma {:induction false} ReplayInterrupted(g: Geometry, wrap: Wrap, log: LogArea, home: map<int, Block>,
                                             records: seq<Record>, end: nat, cuts: seq<nat>, home': map<int, Block>)
    requires log.Valid(g) && Chained(g, records, end) && Stored(g, log, records) && Readable(g, wrap, records)
    requires end < StartOf(records, end) + g.logSize
    ensures ReplaysAfterCuts(g, wrap, log, home, Slot(g.logSize, StartOf(records, end)), Slot(g.logSize, end), cuts, home')
       <==> home' == Apply(home, AllWrites(records))
    decreases |cuts|
  {
    hide ReplaysTo, CutReplay, Readable, Stored, Chained, Slot, Apply, StartOf;
    if cuts == [] {
      ReplayAppliesLog(g, wrap, log, home, records, end, home');
    } else {
      var ws := AllWrites(records);
      var k := Min(cuts[0], |ws|);
      var partly := Apply(home, ws[..k]);
      ApplyPrefixAgain(home, ws, k);
      CutReplayIs(g, wrap, log, home, records, end, cuts[0], partly);
      ReplayInterrupted(g, wrap, log, partly, records, end, cuts[1..], home');
      forall other | CutReplay(g, wrap, log, home, Slot(g.logSize, StartOf(records, end)), Slot(g.logSize, end), cuts[0], other)
        ensures other == partly
      {
        CutReplayIs(g, wrap, log, home, records, end, cuts[0], other);
      }
    }
  }

  /** The reader as shipped manages every log whose entries have a one-block array. */
  lemma {:induction false} ShortEntriesReadable(g: Geometry, wrap: Wrap, records: seq<Record>)
    requires g.Valid()
    requires forall i :: 0 <= i < |records| ==> |records[i].writes| < g.wordsPerBlock
    ensures Readable(g, wrap, records)
  {
  }

  // ---------- runs ----------

  datatype Step =
    | Log(block: int, content: Block)
    | Modify(block: int, content: Block)
    | WriteLogEntry(slack: seq<int>)
    | Flush(index: nat)
    | CrashAndReplay(cuts: seq<nat>)
    | CrashWhileWriting(slack: seq<int>, written: nat, cuts: seq<nat>)

  /** The log area after the first `written` blocks of an entry. */
  function LogTorn(g: Geometry, s: State, slack: seq<int>, written: nat): LogArea
    requires s.log.Valid(g) && ArrayLocked(s) && Padded(g, s.numbers, slack) && written <= TransactionSize(g, s)
  {
    var blocks := Encode(g, s.numbers, Contents(TransactionWrites(s)), slack);
    s.log.(blocks := Put(s.log.blocks, g.logSize, s.logEnd, blocks[..written]))
  }

  /** A step of the journal or its surroundings.  Entries leave at least one block of
      the log free, and replay goes round the log as the writer does.  A crash may come
      between two block writes of an entry, whose end pointer has not moved then, and any
      number of times in a replay. */
  ghost predicate Next(g: Geometry, s: State, step: Step, s': State)
    requires g.Valid()
  {
    match step
    case Log(block, content) => |content| == g.wordsPerBlock && s' == LogBlock(s, block, content)
    case Modify(block, content) =>
      |content| == g.wordsPerBlock && block in s.numbers && s' == ModifyLocked(s, block, content)
    case WriteLogEntry(slack) =>
      && s.log.Valid(g) && ArrayLocked(s) && s.numbers != [] && Padded(g, s.numbers, slack)
      && TransactionSize(g, s) < FreeLogBlocks(g, s)
      && s' == WriteEntry(g, s, slack)
    case Flush(index) => Flushable(s, index) && s' == FlushBlock(g, s, index)
    case CrashAndReplay(cuts) => Recovers(g, s, cuts, s')
    case CrashWhileWriting(slack, written, cuts) =>
      && s.log.Valid(g) && ArrayLocked(s) && s.numbers != [] && Padded(g, s.numbers, slack)
      && TransactionSize(g, s) <= FreeLogBlocks(g, s) && written <= TransactionSize(g, s)
      && Recovers(g, s.(log := LogTorn(g, s, slack, written)), cuts, s')
  }

  ghost predicate Recovers(g: Geometry, s: State, cuts: seq<nat>, s': State) {
    s.logStart >= 0
    && exists home :: ReplaysAfterCuts(g, Modular, s.log, s.home, s.logStart, s.logEnd, cuts, home) && s' == Recovered(s, home)
  }

  /** A mounted clean volume. */
  ghost predicate Init(g: Geometry, s: State) {
    && s.log.Valid(g)
    && s.logStart == s.logEnd < g.logSize
    && s.numbers == [] && s.locked == map[]
    && s.entries == [] && s.pending == [] && s.used == 0
  }

  /** Transactions become part of the volume when their log entry is written. */
  function Committed(s: State, step: Step, committed: map<int, Block>): map<int, Block> {
    if step.WriteLogEntry? && ArrayLocked(s) then Apply(committed, TransactionWrites(s)) else committed
  }

  function CommittedAt(states: seq<State>, steps: seq<Step>, k: nat): map<int, Block>
    requires k < |states| && k <= |steps|
  {
    if k == 0 then states[0].home
    else Committed(states[k - 1], steps[k - 1], CommittedAt(states, steps, k - 1))
  }

  ghost predicate Run(g: Geometry, states: seq<State>, steps: seq<Step>) {
    && g.Valid()
    && |states| == |steps| + 1
    && Init(g, states[0])
    && forall k: nat :: k < |steps| ==> StepAt(g, states, steps, k)
  }

  ghost predicate StepAt(g: Geometry, states: seq<State>, steps: seq<Step>, k: nat)
    requires g.Valid() && k < |steps| && k + 1 < |states|
  {
    Next(g, states[k], steps[k], states[k + 1])
  }

  lemma {:induction false} InitInv(g: Geometry, s: State)
    requires Init(g, s)
    ensures Inv(g, s, History(s.home, [], s.logEnd))
  {
  }

  lemma {:induction false} RecoveredInv(g: Geometry, s: State, h: History)
    requires Inv(g, s, h)
    ensures Inv(g, Recovered(s, h.committed), History(h.committed, [], h.end))
  {
    var s', h' := Recovered(s, h.committed), History(h.committed, [], h.end);
    assert LogInv(g, s'.log, s'.logStart, s'.logEnd, s'.nextId, h');
    assert VolumeInv(s'.home, s'.pending, h');
  }

  /** One step keeps the invariant and does to the committed volume what it should. */
  lemma {:induction false} NextKeeps(g: Geometry, s: State, h: History, step: Step, s': State) returns (h': History)
    requires Inv(g, s, h) && Next(g, s, step, s')
    ensures Inv(g, s', h') && h'.committed == Committed(s, step, h.committed)
  {
    hide LogInv, ListInv, VolumeInv, TransactionInv, LogBlock, WriteEntry, FlushBlock, Apply, TransactionSize, FreeLogBlocks;
    h' := h;
    match step
    case Log(block, content) => LogBlockKeeps(g, s, h, block, content);
    case Modify(block, content) => ModifyKeeps(g, s, h, block, content);
    case WriteLogEntry(slack) =>
      WriteKeeps(g, s, h, slack);
      h' := HistoryAfterWrite(g, s, h);
    case Flush(index) =>
      FlushKeeps(g, s, h, index);
      h' := HistoryAfterFlush(s, h, index);
    case CrashAndReplay(cuts) =>
      RecoversInv(g, s, h, cuts, s');
      h' := History(h.committed, [], h.end);
    case CrashWhileWriting(slack, written, cuts) =>
      TornInv(g, s, h, slack, written);
      RecoversInv(g, s.(log := LogTorn(g, s, slack, written)), h, cuts, s');
      h' := History(h.committed, [], h.end);
  }

  /** An entry written in part, with its end pointer not moved, is as good as none. */
  lemma {:induction false} TornInv(g: Geometry, s: State, h: History, slack: seq<int>, written: nat)
    requires Inv(g, s, h) && s.numbers != [] && Padded(g, s.numbers, slack)
    requires TransactionSize(g, s) <= FreeLogBlocks(g, s) && written <= TransactionSize(g, s)
    ensures Inv(g, s.(log := LogTorn(g, s, slack, written)), h)
  {
    hide Chained, Identified, Stored, Count, Live, TotalLength, Apply, AllWrites, Covered, Put, Encode;
    var blocks := Encode(g, s.numbers, Contents(TransactionWrites(s)), slack);
    assert |blocks| == TransactionSize(g, s) && forall i :: 0 <= i < |blocks| ==> |blocks[i]| == g.wordsPerBlock by {
      EncodedBlocks(g, s, slack);
    }
    PutBehindEnd(g, s, h, blocks[..written]);
  }

  lemma {:induction false} EncodedBlocks(g: Geometry, s: State, slack: seq<int>)
    requires g.Valid() && TransactionInv(g, s.numbers, s.locked) && Padded(g, s.numbers, slack)
    ensures var blocks := Encode(g, s.numbers, Contents(TransactionWrites(s)), slack);
            |blocks| == TransactionSize(g, s) && forall i :: 0 <= i < |blocks| ==> |blocks[i]| == g.wordsPerBlock
  {
  }

  lemma {:induction false} RecoversInv(g: Geometry, s: State, h: History, cuts: seq<nat>, s': State)
    requires Inv(g, s, h) && Recovers(g, s, cuts, s')
    ensures Inv(g, s', History(h.committed, [], h.end))
  {
    hide LogInv, ListInv, VolumeInv, TransactionInv, ReplaysAfterCuts;
    var home :| ReplaysAfterCuts(g, Modular, s.log, s.home, s.logStart, s.logEnd, cuts, home) && s' == Recovered(s, home);
    RecoveryRestores(g, Modular, s, h, cuts, home);
    RecoveredInv(g, s, h);
  }

  /** In every state that keeps the invariant a replay, cut short as often as may be,
      restores the committed volume and nothing else. */
  lemma {:induction false} RecoveryRestores(g: Geometry, wrap: Wrap, s: State, h: History, cuts: seq<nat>, home': map<int, Block>)
    requires Inv(g, s, h) && Readable(g, wrap, h.records)
    ensures ReplaysAfterCuts(g, wrap, s.log, s.home, s.logStart, s.logEnd, cuts, home') <==> home' == h.committed
  {
    hide ReplaysAfterCuts, Stored, Chained, Apply, AllWrites, Count, Live, TotalLength, Covered, Identified;
    ReplayInterrupted(g, wrap, s.log, s.home, h.records, h.end, cuts, home');
  }

  lemma {:induction false} RunInv(g: Geometry, states: seq<State>, steps: seq<Step>, k: nat) returns (h: History)
    requires Run(g, states, steps) && k < |states|
    ensures Inv(g, states[k], h) && h.committed == CommittedAt(states, steps, k)
    decreases k
  {
    if k == 0 {
      InitInv(g, states[0]);
      h := History(states[0].home, [], states[0].logEnd);
    } else {
      var prev := RunInv(g, states, steps, k - 1);
      assert StepAt(g, states, steps, k - 1);
      h := NextKeeps(g, states[k - 1], prev, steps[k - 1], states[k]);
    }
  }

  // ---------- what should be on the volume ----------

  /** The volume with all transactions written so far, and the contents of the blocks of the
      running one. */
  datatype Account = Account(volume: map<int, Block>, running: map<int, Block>)

  /** What a step is for: the first contents a block is logged with count, then those it is
      modified to; writing the entry puts them on the volume, and a crash drops them. */
  function Booked(a: Account, step: Step): Account {
    match step
    case Log(block, content) => if block in a.running then a else a.(running := a.running[block := content])
    case Modify(block, content) => a.(running := a.running[block := content])
    case WriteLogEntry(_) => Account(a.volume + a.running, map[])
    case Flush(_) => a
    case CrashAndReplay(_) => a.(running := map[])
    case CrashWhileWriting(_, _, _) => a.(running := map[])
  }

  /** The account of a run, from its steps and the volume it began with. */
  function AccountOf(home: map<int, Block>, steps: seq<Step>): Account {
    if steps == [] then Account(home, map[])
    else Booked(AccountOf(home, steps[..|steps| - 1]), steps[|steps| - 1])
  }

  /** The running transaction holds what the account says. */
  ghost predicate Running(s: State, running: map<int, Block>) {
    && s.locked == running
    && forall b :: b in s.numbers <==> b in running
  }

  lemma {:induction false} InsertedNumber(numbers: seq<int>, block: int)
    ensures forall b :: b in SortedInsert(numbers, block) <==> b in numbers || b == block
  {
    var p := InsertionPoint(numbers, block);
    var r := SortedInsert(numbers, block);
    forall b | b in numbers
      ensures b in r
    {
      var j :| 0 <= j < |numbers| && numbers[j] == b;
      assert r[if j < p then j else j + 1] == b;
    }
    assert r[p] == block;
  }

  lemma {:induction false} NextRunning(g: Geometry, s: State, step: Step, s': State, a: Account)
    requires g.Valid() && Next(g, s, step, s') && Running(s, a.running)
    ensures Running(s', Booked(a, step).running)
  {
    hide ReplaysAfterCuts, LogWritten, LogTorn, SortedInsert;
    match step
    case Log(block, content) => InsertedNumber(s.numbers, block);
    case Flush(index) => FlushFields(g, s, index);
    case _ =>
  }

  /** Applying the writes of a transaction puts its blocks over the others. */
  lemma {:induction false} ApplyOver(home: map<int, Block>, ws: seq<Write>, over: map<int, Block>)
    requires forall i :: 0 <= i < |ws| ==> ws[i].block in over && ws[i].content == over[ws[i].block]
    requires forall b :: b in over ==> exists i :: 0 <= i < |ws| && ws[i].block == b
    ensures Apply(home, ws) == home + over
  {
    var r := Apply(home, ws);
    forall b
      ensures b in r <==> b in home + over
      ensures b in r ==> r[b] == (home + over)[b]
    {
      ApplyLookup(home, ws, b);
      LatestIs(ws, over, b);
    }
  }

  lemma {:induction false} LatestIs(ws: seq<Write>, over: map<int, Block>, b: int)
    requires forall i :: 0 <= i < |ws| ==> ws[i].block in over && ws[i].content == over[ws[i].block]
    ensures Latest(ws, b).Some? ==> b in over && Latest(ws, b).value == over[b]
  {
    if ws != [] {
      LatestIs(ws[..|ws| - 1], over, b);
    }
  }

  lemma {:induction false} NextBooked(g: Geometry, s: State, step: Step, s': State, a: Account)
    requires g.Valid() && Next(g, s, step, s') && Running(s, a.running)
    ensures Committed(s, step, a.volume) == Booked(a, step).volume
  {
    hide ReplaysAfterCuts, Apply, LogWritten, LogTorn, WriteEntry, LogBlock, FlushBlock;
    if step.WriteLogEntry? {
      var ws := TransactionWrites(s);
      forall b | b in a.running
        ensures exists i :: 0 <= i < |ws| && ws[i].block == b
      {
        var i :| 0 <= i < |s.numbers| && s.numbers[i] == b;
        assert ws[i].block == b;
      }
      ApplyOver(a.volume, ws, a.running);
    }
  }

  /** What is committed in a run depends on its steps and its first volume alone. */
  lemma {:induction false} CommittedIsBooked(g: Geometry, states: seq<State>, steps: seq<Step>, k: nat)
    requires Run(g, states, steps) && k < |states|
    ensures CommittedAt(states, steps, k) == AccountOf(states[0].home, steps[..k]).volume
    ensures Running(states[k], AccountOf(states[0].home, steps[..k]).running)
  {
    hide Next, Committed, Booked;
    if k > 0 {
      CommittedIsBooked(g, states, steps, k - 1);
      assert StepAt(g, states, steps, k - 1);
      assert steps[..k][..k - 1] == steps[..k - 1];
      var a := AccountOf(states[0].home, steps[..k - 1]);
      NextRunning(g, states[k - 1], steps[k - 1], states[k], a);
      NextBooked(g, states[k - 1], steps[k - 1], states[k], a);
    }
  }

  /** Crash safety: whenever the machine stops, replaying the log found on the disk, with
      any number of further crashes on the way, gives exactly the volume with all
      transactions written so far and no others. */
  lemma {:induction false} CrashSafety(g: Geometry, states: seq<State>, steps: seq<Step>, k: nat, cuts: seq<nat>,
                                       home': map<int, Block>)
    requires Run(g, states, steps) && k < |states|
    ensures states[k].logStart >= 0
    ensures ReplaysAfterCuts(g, Modular, states[k].log, states[k].home, states[k].logStart, states[k].logEnd, cuts, home')
       <==> home' == AccountOf(states[0].home, steps[..k]).volume
  {
    hide ReplaysAfterCuts, ListInv, VolumeInv, TransactionInv;
    var h := RunInv(g, states, steps, k);
    CommittedIsBooked(g, states, steps, k);
    RecoveryRestores(g, Modular, states[k], h, cuts, home');
  }

  /** The same while an entry is being written: between any two of its block writes the
      disk still gives the volume without the transaction. */
  lemma {:induction false} CrashSafetyWhileWriting(g: Geometry, states: seq<State>, steps: seq<Step>, k: nat, slack: seq<int>,
                                                   written: nat, cuts: seq<nat>, home': map<int, Block>)
    requires Run(g, states, steps) && k < |states|
    requires var s := states[k];
             && s.log.Valid(g) && ArrayLocked(s) && s.numbers != [] && Padded(g, s.numbers, slack)
             && TransactionSize(g, s) <= FreeLogBlocks(g, s) && written <= TransactionSize(g, s)
    ensures states[k].logStart >= 0
    ensures ReplaysAfterCuts(g, Modular, LogTorn(g, states[k], slack, written), states[k].home,
                             states[k].logStart, states[k].logEnd, cuts, home')
       <==> home' == AccountOf(states[0].home, steps[..k]).volume
  {
    hide ReplaysAfterCuts, ListInv, VolumeInv, TransactionInv, LogTorn;
    var h := RunInv(g, states, steps, k);
    CommittedIsBooked(g, states, steps, k);
    TornInv(g, states[k], h, slack, written);
    RecoveryRestores(g, Modular, states[k].(log := LogTorn(g, states[k], slack, written)), h, cuts, home');
  }

  /** The log starts at the oldest entry that waits for blocks, or at its end. */
  ghost predicate PointersExact(s: State) {
    s.logStart == if s.entries == [] then s.logEnd else s.entries[0].start
  }

  lemma {:induction false} InvPointersExact(g: Geometry, s: State, h: History)
    requires Inv(g, s, h)
    ensures PointersExact(s)
  {
    if h.records != [] {
      LiveHead(g, h.records, s.pending);
      assert s.entries[0] == LiveEntry(g, h.records[0], s.pending)[0];
    }
  }

  /** In every state of every run the log starts at the oldest live entry, `used` is
      the sum of the live lengths, and the live entries keep off the free blocks. */
  lemma {:induction false} RunPointersExact(g: Geometry, states: seq<State>, steps: seq<Step>, k: nat)
    requires Run(g, states, steps) && k < |states|
    ensures PointersExact(states[k])
    ensures states[k].used == TotalLength(states[k].entries) <= g.logSize - FreeLogBlocks(g, states[k])
  {
    var h := RunInv(g, states, steps, k);
    InvPointersExact(g, states[k], h);
    FreeIsRest(g, states[k], h);
    LiveFits(g, h.records, h.end, states[k].pending);
  }

  lemma {:induction false} LiveFits(g: Geometry, records: seq<Record>, end: nat, p: seq<Write>)
    requires g.Valid() && Chained(g, records, end)
    ensures TotalLength(Live(g, records, p)) <= end - StartOf(records, end)
    decreases |records|
  {
    if records != [] {
      var n := |records| - 1;
      var front, last := records[..n], records[n];
      forall i: nat | i < n
        ensures Linked(g, front, last.pos, i)
      {
        assert Linked(g, records, end, i);
      }
      LiveFits(g, front, last.pos, p);
      assert Linked(g, records, end, n);
      TotalConcat(Live(g, front, p), LiveEntry(g, last, p));
      if LiveEntry(g, last, p) != [] {
        TotalOne(LiveEntry(g, last, p)[0]);
      }
    }
  }

  /** Two entries of the log never share a log block. */
  lemma {:induction false} EntriesDisjoint(g: Geometry, s: State, h: History, a: nat, i: nat, b: nat, j: nat)
    requires Inv(g, s, h) && a < b < |h.records|
    requires i < g.EntrySize(|h.records[a].writes|) && j < g.EntrySize(|h.records[b].writes|)
    ensures Slot(g.logSize, h.records[a].pos + i) != Slot(g.logSize, h.records[b].pos + j)
  {
    var ra, rb := h.records[a], h.records[b];
    assert ra.pos + i < rb.pos by {
      assert Linked(g, h.records, h.end, a);
      ChainOrdered(g, h.records, h.end, a + 1, b);
    }
    assert rb.pos + j < ra.pos + i + g.logSize by {
      ChainOrdered(g, h.records, h.end, 0, a);
      ChainOrdered(g, h.records, h.end, b, b);
    }
    DistinctInLap(g.logSize, ra.pos + i, rb.pos + j);
  }

  /** No entry of the log uses a block that is counted as free. */
  lemma {:induction false} FreeBlocksUnused(g: Geometry, s: State, h: History, a: nat, i: nat, j: nat)
    requires Inv(g, s, h) && a < |h.records|
    requires i < g.EntrySize(|h.records[a].writes|) && j < FreeLogBlocks(g, s)
    ensures Slot(g.logSize, h.records[a].pos + i) != Slot(g.logSize, s.logEnd + j)
  {
    FreeIsRest(g, s, h);
    ChainOrdered(g, h.records, h.end, 0, a);
    SlotStep(g.logSize, h.end, j);
    DistinctInLap(g.logSize, h.records[a].pos + i, h.end + j);
  }
}
