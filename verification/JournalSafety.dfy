/** Every step of the journal keeps its invariant, and replaying the log restores
exactly the committed volume. */
module JournalSafety {
  import opened Options
  import opened Sequences
  import opened SortedArrays
  import opened LogRing
  import opened Overlay
  import opened LogEntryFormat
  import opened JournalState

  // ---------- lists of records ----------

  lemma {:induction false} AllWritesConcat(a: seq<Record>, b: seq<Record>)
    ensures AllWrites(a + b) == AllWrites(a) + AllWrites(b)
    decreases |b|
  {
    if b == [] {
      assert a + b == a;
    } else {
      AllWritesConcat(a, b[..|b| - 1]);
      assert (a + b)[..|a + b| - 1] == a + b[..|b| - 1];
      Associative(AllWrites(a), AllWrites(b[..|b| - 1]), b[|b| - 1].writes);
    }
  }

  lemma {:induction false} AllWritesHolds(records: seq<Record>, k: nat, w: Write)
    requires k < |records| && w in records[k].writes
    ensures w in AllWrites(records)
    decreases |records|
  {
    if k < |records| - 1 {
      AllWritesHolds(records[..|records| - 1], k, w);
    }
  }

  lemma {:induction false} LiveConcat(g: Geometry, a: seq<Record>, b: seq<Record>, pending: seq<Write>)
    requires g.Valid()
    ensures Live(g, a + b, pending) == Live(g, a, pending) + Live(g, b, pending)
    decreases |b|
  {
    if b == [] {
      assert a + b == a;
    } else {
      LiveConcat(g, a, b[..|b| - 1], pending);
      assert (a + b)[..|a + b| - 1] == a + b[..|b| - 1];
      Associative(Live(g, a, pending), Live(g, b[..|b| - 1], pending), LiveEntry(g, b[|b| - 1], pending));
    }
  }

  /** Only the number of waiting blocks of each entry matters. */
  lemma {:induction false} LiveFrame(g: Geometry, records: seq<Record>, p: seq<Write>, p': seq<Write>)
    requires g.Valid()
    requires forall i :: 0 <= i < |records| ==> Count(p, records[i].id) == Count(p', records[i].id)
    ensures Live(g, records, p) == Live(g, records, p')
    decreases |records|
  {
    if records != [] {
      LiveFrame(g, records[..|records| - 1], p, p');
    }
  }

  lemma {:induction false} LiveIds(g: Geometry, records: seq<Record>, p: seq<Write>, i: nat)
    requires g.Valid() && i < |Live(g, records, p)|
    ensures exists k :: 0 <= k < |records| && Live(g, records, p)[i].id == records[k].id
    decreases |records|
  {
    if records != [] {
      var n := |records| - 1;
      var front := Live(g, records[..n], p);
      if i < |front| {
        LiveIds(g, records[..n], p, i);
        var k :| 0 <= k < n && front[i].id == records[..n][k].id;
        assert Live(g, records, p)[i].id == records[k].id;
      } else {
        assert Live(g, records, p)[i].id == records[n].id;
      }
    }
  }

  lemma {:induction false} DeadAlone(g: Geometry, r: Record, p: seq<Write>)
    requires g.Valid() && Count(p, r.id) == 0
    ensures Live(g, [r], p) == []
  {
    assert [r][..0] == [];
  }

  /** Entries in front that wait for nothing do not show. */
  lemma {:induction false} LiveDropDead(g: Geometry, records: seq<Record>, p: seq<Write>, k: nat)
    requires g.Valid() && k <= |records|
    requires forall i :: 0 <= i < k ==> Count(p, records[i].id) == 0
    ensures Live(g, records, p) == Live(g, records[k..], p)
    decreases k
  {
    if k == 0 {
      assert records[0..] == records;
    } else {
      LiveDropDead(g, records, p, k - 1);
      var r := records[k - 1];
      DeadAlone(g, r, p);
      hide Live;
      assert records[k - 1..] == [r] + records[k..];
      LiveConcat(g, [r], records[k..], p);
      assert [] + Live(g, records[k..], p) == Live(g, records[k..], p);
    }
  }

  lemma {:induction false} LiveHead(g: Geometry, records: seq<Record>, p: seq<Write>)
    requires g.Valid() && records != [] && Count(p, records[0].id) > 0
    ensures Live(g, records, p) == LiveEntry(g, records[0], p) + Live(g, records[1..], p)
  {
    assert records == [records[0]] + records[1..];
    LiveConcat(g, [records[0]], records[1..], p);
    assert [records[0]][..0] == [];
    assert Live(g, [records[0]], p) == LiveEntry(g, records[0], p);
  }

  /** How many entries in front wait for nothing. */
  function DeadPrefix(records: seq<Record>, p: seq<Write>): (k: nat)
    ensures k <= |records|
    ensures forall i :: 0 <= i < k ==> Count(p, records[i].id) == 0
    ensures k < |records| ==> Count(p, records[k].id) > 0
  {
    if records == [] || Count(p, records[0].id) > 0 then 0
    else
      var k := DeadPrefix(records[1..], p);
      assert forall i :: 1 <= i < k + 1 ==> records[i] == records[1..][i - 1];
      1 + k
  }

  // ---------- counting waiting blocks ----------

  lemma {:induction false} CountConcat(a: seq<Write>, b: seq<Write>, id: nat)
    ensures Count(a + b, id) == Count(a, id) + Count(b, id)
    decreases |b|
  {
    if b == [] {
      assert a + b == a;
    } else {
      CountConcat(a, b[..|b| - 1], id);
      assert (a + b)[..|a + b| - 1] == a + b[..|b| - 1];
    }
  }

  lemma {:induction false} CountWithout(p: seq<Write>, i: nat, id: nat)
    requires i < |p|
    ensures Count(p, id) == Count(p[..i] + p[i + 1..], id) + if p[i].entry == id then 1 else 0
  {
    assert p == p[..i] + [p[i]] + p[i + 1..];
    CountConcat(p[..i] + [p[i]], p[i + 1..], id);
    CountConcat(p[..i], [p[i]], id);
    CountConcat(p[..i], p[i + 1..], id);
    assert [p[i]][..0] == [];
  }

  lemma {:induction false} CountPositive(p: seq<Write>, i: nat)
    requires i < |p|
    ensures Count(p, p[i].entry) > 0
    decreases |p|
  {
    if i < |p| - 1 {
      CountPositive(p[..|p| - 1], i);
    }
  }

  lemma {:induction false} CountAbsent(p: seq<Write>, id: nat)
    requires forall i :: 0 <= i < |p| ==> p[i].entry != id
    ensures Count(p, id) == 0
    decreases |p|
  {
    if p != [] {
      CountAbsent(p[..|p| - 1], id);
    }
  }

  lemma {:induction false} CountAll(ws: seq<Write>, id: nat)
    requires forall i :: 0 <= i < |ws| ==> ws[i].entry == id
    ensures Count(ws, id) == |ws|
    decreases |ws|
  {
    if ws != [] {
      CountAll(ws[..|ws| - 1], id);
    }
  }

  // ---------- the entry list under a callback ----------

  lemma {:induction false} NotifyListAbsent(entries: seq<LogEntry>, id: nat)
    requires IndexOf(entries, id) == |entries|
    ensures NotifyList(entries, id) == entries
  {
    if entries != [] {
      NotifyListAbsent(entries[1..], id);
    }
  }

  lemma {:induction false} NotifyListConcat(a: seq<LogEntry>, b: seq<LogEntry>, id: nat)
    ensures NotifyList(a + b, id) == if IndexOf(a, id) < |a| then NotifyList(a, id) + b else a + NotifyList(b, id)
    decreases |a|
  {
    if a == [] {
      assert a + b == b;
    } else {
      var first, rest := [a[0]], a[1..];
      assert (a + b)[1..] == rest + b && a == first + rest;
      if a[0].id == id {
        Associative(NotifyEntry(a[0]), rest, b);
      } else {
        NotifyListConcat(rest, b, id);
        Associative(first, NotifyList(rest, id), b);
        Associative(first, rest, NotifyList(b, id));
      }
    }
  }

  /** The last entry under the callback for one of its own or another's blocks. */
  lemma {:induction false} NotifyLast(g: Geometry, r: Record, p: seq<Write>, i: nat)
    requires g.Valid() && i < |p|
    ensures NotifyList(LiveEntry(g, r, p), p[i].entry) == LiveEntry(g, r, p[..i] + p[i + 1..])
    ensures r.id != p[i].entry ==> LiveEntry(g, r, p[..i] + p[i + 1..]) == LiveEntry(g, r, p)
  {
    CountWithout(p, i, r.id);
    var live := LiveEntry(g, r, p);
    if live != [] {
      assert live == [live[0]] && live[1..] == [];
    }
  }

  /** One block of an entry going home changes the list of live entries just as the
      callback does. */
  lemma {:induction false} LiveAfterFlush(g: Geometry, records: seq<Record>, p: seq<Write>, i: nat)
    requires g.Valid() && i < |p|
    requires forall a, b :: 0 <= a < b < |records| ==> records[a].id < records[b].id
    ensures Live(g, records, p[..i] + p[i + 1..]) == NotifyList(Live(g, records, p), p[i].entry)
    decreases |records|
  {
    if records != [] {
      var n, id := |records| - 1, p[i].entry;
      var front, last := records[..n], records[n];
      LiveAfterFlush(g, front, p, i);
      NotifyLast(g, last, p, i);
      NotifyListConcat(Live(g, front, p), LiveEntry(g, last, p), id);
      if last.id == id {
        NotInFront(g, front, p, id);
      }
      if IndexOf(Live(g, front, p), id) == |Live(g, front, p)| {
        NotifyListAbsent(Live(g, front, p), id);
      }
    }
  }

  lemma {:induction false} NotInFront(g: Geometry, front: seq<Record>, p: seq<Write>, id: nat)
    requires g.Valid() && forall k :: 0 <= k < |front| ==> front[k].id != id
    ensures IndexOf(Live(g, front, p), id) == |Live(g, front, p)|
  {
    var k := IndexOf(Live(g, front, p), id);
    if k < |Live(g, front, p)| {
      LiveIds(g, front, p, k);
    }
  }

  // ---------- single steps ----------

  lemma {:induction false} LogBlockLocks(g: Geometry, numbers: seq<int>, locked: map<int, Block>, block: int, content: Block)
    requires TransactionInv(g, numbers, locked) && |content| == g.wordsPerBlock && block !in numbers
    ensures TransactionInv(g, SortedInsert(numbers, block), locked[block := content])
  {
    IncreasingInsert(numbers, block);
    var i := InsertionPoint(numbers, block);
    var numbers' := SortedInsert(numbers, block);
    forall j | 0 <= j < |numbers'|
      ensures numbers'[j] in locked[block := content]
    {
      assert numbers'[j] == if j < i then numbers[j] else if j == i then block else numbers[j - 1];
    }
  }

  lemma {:induction false} IncreasingInsert(numbers: seq<int>, block: int)
    requires Increasing(numbers) && block !in numbers
    ensures Increasing(SortedInsert(numbers, block))
  {
    var p := InsertionPoint(numbers, block);
    forall i, j | 0 <= i < j < |numbers| + 1
      ensures SortedInsert(numbers, block)[i] < SortedInsert(numbers, block)[j]
    {
      assert p < |numbers| && j > p + 1 ==> numbers[p] < numbers[j - 1];
    }
  }

  lemma {:induction false} LogBlockKeeps(g: Geometry, s: State, h: History, block: int, content: Block)
    requires Inv(g, s, h) && |content| == g.wordsPerBlock
    ensures Inv(g, LogBlock(s, block, content), h)
  {
    if block !in s.numbers {
      LogBlockLocks(g, s.numbers, s.locked, block, content);
    }
  }

  lemma {:induction false} ModifyKeeps(g: Geometry, s: State, h: History, block: int, content: Block)
    requires Inv(g, s, h) && |content| == g.wordsPerBlock && block in s.numbers
    ensures Inv(g, ModifyLocked(s, block, content), h)
  {
    var s' := ModifyLocked(s, block, content);
    assert TransactionInv(g, s'.numbers, s'.locked);
  }

  /** The pointers leave free what the entries do not use. */
  lemma {:induction false} FreeIsRest(g: Geometry, s: State, h: History)
    requires LogInv(g, s.log, s.logStart, s.logEnd, s.nextId, h)
    ensures FreeLogBlocks(g, s) == g.logSize - (h.end - h.Start())
  {
    var d := h.end - h.Start();
    SlotStep(g.logSize, h.Start(), d);
    if s.logStart + d < g.logSize {
    } else {
    }
  }

  lemma {:induction false} PutWrapped(log: seq<Block>, size: nat, pos: nat, blocks: seq<Block>)
    requires 0 < size <= |log|
    ensures Put(log, size, Slot(size, pos), blocks) == Put(log, size, pos, blocks)
    decreases |blocks|
  {
    if blocks != [] {
      PutWrapped(log, size, pos, blocks[..|blocks| - 1]);
      SlotStep(size, pos, |blocks| - 1);
    }
  }

  lemma {:induction false} PutValid(g: Geometry, log: LogArea, pos: nat, blocks: seq<Block>)
    requires log.Valid(g) && forall i :: 0 <= i < |blocks| ==> |blocks[i]| == g.wordsPerBlock
    ensures log.(blocks := Put(log.blocks, g.logSize, pos, blocks)).Valid(g)
    decreases |blocks|
  {
    if blocks != [] {
      PutValid(g, log, pos, blocks[..|blocks| - 1]);
    }
  }

  /** Blocks that are written behind the end of the log leave all its entries as they are. */
  lemma {:induction false} PutBehindEnd(g: Geometry, s: State, h: History, blocks: seq<Block>)
    requires LogInv(g, s.log, s.logStart, s.logEnd, s.nextId, h)
    requires |blocks| <= FreeLogBlocks(g, s) && forall i :: 0 <= i < |blocks| ==> |blocks[i]| == g.wordsPerBlock
    ensures var log := s.log.(blocks := Put(s.log.blocks, g.logSize, s.logEnd, blocks));
            log.Valid(g) && Stored(g, log, h.records)
  {
    var log := s.log.(blocks := Put(s.log.blocks, g.logSize, s.logEnd, blocks));
    FreeIsRest(g, s, h);
    PutValid(g, s.log, s.logEnd, blocks);
    PutWrapped(s.log.blocks, g.logSize, h.end, blocks);
    forall i | 0 <= i < |h.records|
      ensures EntryAt(g, log.blocks, h.records[i].pos, Numbers(h.records[i].writes), Contents(h.records[i].writes))
    {
      ChainOrdered(g, h.records, h.end, 0, i);
      ChainOrdered(g, h.records, h.end, i, |h.records| - 1);
      PutKeepsEntry(g, s.log.blocks, h.end, blocks, h.records[i].pos,
                    Numbers(h.records[i].writes), Contents(h.records[i].writes));
    }
  }

  lemma {:induction false} WriteKeepsStored(g: Geometry, s: State, h: History, slack: seq<int>)
    requires LogInv(g, s.log, s.logStart, s.logEnd, s.nextId, h) && TransactionInv(g, s.numbers, s.locked) && Padded(g, s.numbers, slack)
    requires s.numbers != [] && TransactionSize(g, s) <= FreeLogBlocks(g, s)
    ensures LogWritten(g, s, slack).Valid(g)
    ensures Stored(g, LogWritten(g, s, slack), HistoryAfterWrite(g, s, h).records)
  {
    var ws := TransactionWrites(s);
    var blocks := Encode(g, s.numbers, Contents(ws), slack);
    PutWrapped(s.log.blocks, g.logSize, h.end, blocks);
    PutBehindEnd(g, s, h, blocks);
    PutStoresEntry(g, s.log.blocks, h.end, s.numbers, Contents(ws), slack);
  }

  lemma {:induction false} ChainOrdered(g: Geometry, records: seq<Record>, end: nat, i: nat, j: nat)
    requires g.Valid() && Chained(g, records, end) && i <= j < |records|
    ensures records[i].pos <= records[j].pos
    ensures records[i].pos + g.EntrySize(|records[i].writes|) <= records[j].pos + g.EntrySize(|records[j].writes|)
    ensures records[j].pos + g.EntrySize(|records[j].writes|) <= end
    decreases |records| - i
  {
    assert Linked(g, records, end, i);
    if i < j {
      ChainOrdered(g, records, end, i + 1, j);
    } else if j + 1 < |records| {
      ChainOrdered(g, records, end, i + 1, j + 1);
    }
  }

  lemma {:induction false} WriteKeepsCounts(s: State, ws: seq<Write>, records: seq<Record>)
    requires Identified(records, s.nextId) && Covered(s.pending, records)
    requires forall i :: 0 <= i < |ws| ==> ws[i].entry == s.nextId
    ensures forall i :: 0 <= i < |records| ==> Count(s.pending + ws, records[i].id) == Count(s.pending, records[i].id)
    ensures Count(s.pending + ws, s.nextId) == |ws|
  {
    forall i | 0 <= i < |records|
      ensures Count(s.pending + ws, records[i].id) == Count(s.pending, records[i].id)
    {
      CountConcat(s.pending, ws, records[i].id);
      CountAbsent(ws, records[i].id);
    }
    CountConcat(s.pending, ws, s.nextId);
    CountAll(ws, s.nextId);
    forall i | 0 <= i < |s.pending|
      ensures s.pending[i].entry != s.nextId
    {
      assert OwnedBy(s.pending[i], records);
    }
    CountAbsent(s.pending, s.nextId);
  }

  lemma {:induction false} WriteKeepsList(g: Geometry, s: State, h: History)
    requires g.Valid() && s.logEnd == Slot(g.logSize, h.end) && ArrayLocked(s) && s.numbers != []
    requires Identified(h.records, s.nextId) && Covered(s.pending, h.records)
    requires ListInv(g, s.entries, s.used, s.pending, h.records)
    ensures var h', ws := HistoryAfterWrite(g, s, h), TransactionWrites(s);
            var e := LogEntry(s.nextId, s.logEnd, TransactionSize(g, s), |s.numbers|);
            ListInv(g, s.entries + [e], s.used + TransactionSize(g, s), s.pending + ws, h'.records)
  {
    var ws := TransactionWrites(s);
    var r := Record(s.nextId, h.end, ws);
    var e := LogEntry(s.nextId, s.logEnd, TransactionSize(g, s), |s.numbers|);
    var records' := h.records + [r];
    WriteKeepsCounts(s, ws, h.records);
    LiveFrame(g, h.records, s.pending, s.pending + ws);
    assert records'[..|h.records|] == h.records && records'[|h.records|] == r;
    assert LiveEntry(g, r, s.pending + ws) == [e];
    TotalConcat(s.entries, [e]);
    TotalOne(e);
    assert records'[0] == if h.records == [] then r else h.records[0];
  }

  lemma {:induction false} WriteKeepsVolume(g: Geometry, s: State, h: History)
    requires g.Valid() && ArrayLocked(s) && VolumeInv(s.home, s.pending, h)
    ensures VolumeInv(s.home, s.pending + TransactionWrites(s), HistoryAfterWrite(g, s, h))
  {
    var ws := TransactionWrites(s);
    var r := Record(s.nextId, h.end, ws);
    AllWritesConcat(h.records, [r]);
    assert AllWrites([r]) == ws by {
      assert [r][..0] == [];
    }
    ApplyConcat(s.home, AllWrites(h.records), ws);
    ApplyConcat(s.home, s.pending, ws);
    CoverAppend(s.pending, h.records, ws, r);
  }

  lemma {:induction false} ChainAppend(g: Geometry, records: seq<Record>, end: nat, r: Record)
    requires g.Valid() && Chained(g, records, end) && Identified(records, r.id)
    requires r.pos == end && r.writes != [] && forall k :: 0 <= k < |r.writes| ==> r.writes[k].entry == r.id
    ensures Chained(g, records + [r], end + g.EntrySize(|r.writes|))
    ensures Identified(records + [r], r.id + 1)
  {
    var records' := records + [r];
    var end' := end + g.EntrySize(|r.writes|);
    forall i: nat | i < |records'|
      ensures Linked(g, records', end', i)
    {
      if i < |records| {
        assert Linked(g, records, end, i);
        assert records'[i] == records[i] && NextPos(records', end', i) == NextPos(records, end, i);
      }
    }
  }

  /** What the log is after an entry was stored that leaves at least one block free. */
  lemma {:induction false} LogAppend(g: Geometry, log: LogArea, log': LogArea, logStart: int, logEnd: nat,
                                     h: History, h': History, r: Record)
    requires LogInv(g, log, logStart, logEnd, r.id, h)
    requires r.pos == h.end && r.writes != [] && forall k :: 0 <= k < |r.writes| ==> r.writes[k].entry == r.id
    requires h'.records == h.records + [r] && h'.end == h.end + g.EntrySize(|r.writes|)
    requires h'.end < h.Start() + g.logSize
    requires log'.Valid(g) && Stored(g, log', h'.records)
    ensures LogInv(g, log', logStart, Slot(g.logSize, logEnd + g.EntrySize(|r.writes|)), r.id + 1, h')
  {
    ChainAppend(g, h.records, h.end, r);
    SlotStep(g.logSize, h.end, g.EntrySize(|r.writes|));
    assert h'.Start() == h.Start();
  }

  lemma {:induction false} WriteKeepsLog(g: Geometry, s: State, h: History, slack: seq<int>)
    requires LogInv(g, s.log, s.logStart, s.logEnd, s.nextId, h)
    requires TransactionInv(g, s.numbers, s.locked) && Padded(g, s.numbers, slack)
    requires s.numbers != [] && TransactionSize(g, s) < FreeLogBlocks(g, s)
    ensures LogInv(g, LogWritten(g, s, slack), s.logStart, Slot(g.logSize, s.logEnd + TransactionSize(g, s)),
                   s.nextId + 1, HistoryAfterWrite(g, s, h))
  {
    WriteKeepsStored(g, s, h, slack);
    FreeIsRest(g, s, h);
    LogAppend(g, s.log, LogWritten(g, s, slack), s.logStart, s.logEnd, h, HistoryAfterWrite(g, s, h),
              Record(s.nextId, h.end, TransactionWrites(s)));
  }

  /** Writing a log entry commits the transaction and keeps everything else. */
  lemma {:induction false} WriteKeeps(g: Geometry, s: State, h: History, slack: seq<int>)
    requires Inv(g, s, h) && Padded(g, s.numbers, slack)
    requires s.numbers != [] && TransactionSize(g, s) < FreeLogBlocks(g, s)
    ensures Inv(g, WriteEntry(g, s, slack), HistoryAfterWrite(g, s, h))
  {
    hide Chained, Identified, Stored, Covered, Live, Count, TotalLength, Apply, AllWrites, Padded, LogArea.Valid;
    var s', h' := WriteEntry(g, s, slack), HistoryAfterWrite(g, s, h);
    assert LogInv(g, s'.log, s'.logStart, s'.logEnd, s'.nextId, h') by {
      WriteKeepsLog(g, s, h, slack);
    }
    assert ListInv(g, s'.entries, s'.used, s'.pending, h'.records) by {
      WriteKeepsList(g, s, h);
    }
    assert VolumeInv(s'.home, s'.pending, h') by {
      WriteKeepsVolume(g, s, h);
    }
  }

  lemma {:induction false} CoverAppend(pending: seq<Write>, records: seq<Record>, ws: seq<Write>, r: Record)
    requires Covered(pending, records) && r.writes == ws
    requires forall i :: 0 <= i < |ws| ==> ws[i].entry == r.id
    ensures Covered(pending + ws, records + [r])
  {
    var records' := records + [r];
    forall i | 0 <= i < |pending + ws|
      ensures OwnedBy((pending + ws)[i], records')
    {
      if i < |pending| {
        var k :| 0 <= k < |records| && records[k].id == pending[i].entry && pending[i] in records[k].writes;
        assert records'[k] == records[k];
      } else {
        assert records'[|records|] == r && (pending + ws)[i] == ws[i - |pending|];
      }
    }
  }

  // ---------- a block goes home ----------

  lemma {:induction false} VolumeAfterFlush(home: map<int, Block>, pending: seq<Write>, h: History, i: nat)
    requires VolumeInv(home, pending, h) && i < |pending|
    requires forall j :: 0 <= j < i ==> pending[j].block != pending[i].block
    ensures VolumeInv(home[pending[i].block := pending[i].content], pending[..i] + pending[i + 1..], h)
  {
    var w, p' := pending[i], pending[..i] + pending[i + 1..];
    var home' := home[w.block := w.content];
    ApplyEarly(home, pending, i);
    forall j | 0 <= j < |p'|
      ensures OwnedBy(p'[j], h.records)
    {
      assert p'[j] == if j < i then pending[j] else pending[j + 1];
    }
    assert OwnedBy(w, h.records);
    var k :| 0 <= k < |h.records| && h.records[k].id == w.entry && w in h.records[k].writes;
    AllWritesHolds(h.records, k, w);
    assert Latest(AllWrites(h.records), w.block).Some?;
    ApplyAgree(home, home', AllWrites(h.records));
  }

  lemma {:induction false} OwnedByRest(w: Write, records: seq<Record>, p: seq<Write>, k: nat)
    requires k <= |records| && OwnedBy(w, records) && Count(p, w.entry) > 0
    requires forall i :: 0 <= i < k ==> Count(p, records[i].id) == 0
    ensures OwnedBy(w, records[k..])
  {
    var j :| 0 <= j < |records| && records[j].id == w.entry && w in records[j].writes;
    assert records[k..][j - k] == records[j];
  }

  /** Entries in front that wait for nothing can be dropped from the log. */
  lemma {:induction false} VolumeAfterDrop(home: map<int, Block>, pending: seq<Write>, h: History, k: nat)
    requires VolumeInv(home, pending, h) && k <= |h.records|
    requires forall i :: 0 <= i < k ==> Count(pending, h.records[i].id) == 0
    ensures VolumeInv(home, pending, h.(records := h.records[k..]))
  {
    var rest := h.records[k..];
    forall i | 0 <= i < |pending|
      ensures OwnedBy(pending[i], rest)
    {
      CountPositive(pending, i);
      OwnedByRest(pending[i], h.records, pending, k);
    }
    assert h.records == h.records[..k] + rest;
    AllWritesConcat(h.records[..k], rest);
    forall b | true
      ensures b in Apply(home, AllWrites(rest)) <==> b in h.committed
      ensures b in h.committed ==> Apply(home, AllWrites(rest))[b] == h.committed[b]
    {
      LatestConcat(AllWrites(h.records[..k]), AllWrites(rest), b);
      ApplyLookup(home, AllWrites(rest), b);
      ApplyLookup(home, AllWrites(h.records), b);
      ApplyLookup(home, pending, b);
      if Latest(AllWrites(rest), b).None? && Latest(pending, b).Some? {
        PendingInRest(pending, rest, b);
      }
    }
  }

  lemma {:induction false} PendingInRest(pending: seq<Write>, rest: seq<Record>, b: int)
    requires Covered(pending, rest) && Latest(pending, b).Some?
    ensures Latest(AllWrites(rest), b).Some?
  {
    var i :| 0 <= i < |pending| && pending[i].block == b;
    assert OwnedBy(pending[i], rest);
    var k :| 0 <= k < |rest| && rest[k].id == pending[i].entry && pending[i] in rest[k].writes;
    AllWritesHolds(rest, k, pending[i]);
  }

  lemma {:induction false} LogAfterDrop(g: Geometry, log: LogArea, logStart: int, logEnd: nat, nextId: nat, h: History, k: nat)
    requires LogInv(g, log, logStart, logEnd, nextId, h) && k <= |h.records|
    ensures var h' := h.(records := h.records[k..]);
            LogInv(g, log, Slot(g.logSize, h'.Start()), logEnd, nextId, h')
  {
    var h' := h.(records := h.records[k..]);
    forall i: nat | i < |h'.records|
      ensures Linked(g, h'.records, h'.end, i)
    {
      assert Linked(g, h.records, h.end, k + i);
    }
    if k < |h.records| {
      ChainOrdered(g, h.records, h.end, 0, k);
    }
  }

  // ---------- the list when a block goes home ----------

  lemma {:induction false} LiveContains(g: Geometry, records: seq<Record>, p: seq<Write>, k: nat)
    requires g.Valid() && k < |records| && Count(p, records[k].id) > 0
    ensures IndexOf(Live(g, records, p), records[k].id) < |Live(g, records, p)|
  {
    var front, back := records[..k], records[k..];
    assert records == front + back;
    LiveConcat(g, front, back, p);
    LiveHead(g, back, p);
    assert Live(g, records, p)[|Live(g, front, p)|].id == records[k].id;
  }

  lemma {:induction false} TotalConcat(a: seq<LogEntry>, b: seq<LogEntry>)
    ensures TotalLength(a + b) == TotalLength(a) + TotalLength(b)
    decreases |a|
  {
    if a == [] {
      assert a + b == b;
    } else {
      TotalConcat(a[1..], b);
      assert (a + b)[1..] == a[1..] + b;
    }
  }

  lemma {:induction false} TotalOne(e: LogEntry)
    ensures TotalLength([e]) == e.length
  {
    assert [e][1..] == [];
  }

  /** A callback takes the length of its entry off the sum when it completes it. */
  lemma {:induction false} NotifyKeepsTotal(entries: seq<LogEntry>, id: nat)
    ensures var k := IndexOf(entries, id);
            TotalLength(NotifyList(entries, id))
              == TotalLength(entries) - if k < |entries| && entries[k].cachedBlocks <= 1 then entries[k].length else 0
  {
    if entries != [] {
      if entries[0].id == id {
        TotalConcat(NotifyEntry(entries[0]), entries[1..]);
        if entries[0].cachedBlocks > 1 {
          TotalOne(NotifyEntry(entries[0])[0]);
        }
      } else {
        NotifyKeepsTotal(entries[1..], id);
        TotalConcat([entries[0]], NotifyList(entries[1..], id));
        TotalOne(entries[0]);
      }
    }
  }

  /** The entry of a waiting block is in the list. */
  lemma {:induction false} OwnerListed(g: Geometry, records: seq<Record>, p: seq<Write>, i: nat)
    requires g.Valid() && i < |p| && OwnedBy(p[i], records)
    ensures IndexOf(Live(g, records, p), p[i].entry) < |Live(g, records, p)|
  {
    var k :| 0 <= k < |records| && records[k].id == p[i].entry && p[i] in records[k].writes;
    CountPositive(p, i);
    LiveContains(g, records, p, k);
  }

  /** The entries that are left in the log after block `i` went home. */
  function Rest(records: seq<Record>, p: seq<Write>, i: nat): seq<Record>
    requires i < |p|
  {
    records[DeadPrefix(records, p[..i] + p[i + 1..])..]
  }

  lemma {:induction false} RestLive(g: Geometry, records: seq<Record>, p: seq<Write>, i: nat)
    requires g.Valid() && i < |p|
    requires forall a, b :: 0 <= a < b < |records| ==> records[a].id < records[b].id
    ensures var p', rest := p[..i] + p[i + 1..], Rest(records, p, i);
            && (rest != [] ==> Count(p', rest[0].id) > 0)
            && Live(g, rest, p') == NotifyList(Live(g, records, p), p[i].entry)
  {
    var p' := p[..i] + p[i + 1..];
    LiveDropDead(g, records, p', DeadPrefix(records, p'));
    LiveAfterFlush(g, records, p, i);
  }

  /** If the callback does not complete the head, no entry leaves the log. */
  lemma {:induction false} HeadStays(g: Geometry, records: seq<Record>, p: seq<Write>, i: nat)
    requires g.Valid() && i < |p| && records != [] && Count(p, records[0].id) > 0
    requires p[i].entry != records[0].id || Count(p, records[0].id) > 1
    ensures Rest(records, p, i) == records
  {
    CountWithout(p, i, records[0].id);
  }

  /** The position of the oldest entry, or the end of the log. */
  function StartOf(records: seq<Record>, end: nat): nat {
    if records == [] then end else records[0].pos
  }

  /** When the head is complete, the log start moves to the oldest entry that waits. */
  lemma {:induction false} HeadCompletes(g: Geometry, s: State, records: seq<Record>, end: nat, i: nat)
    requires g.Valid() && i < |s.pending| && records != []
    requires forall a, b :: 0 <= a < b < |records| ==> records[a].id < records[b].id
    requires s.entries == Live(g, records, s.pending)
    requires Count(s.pending, records[0].id) == 1 && s.pending[i].entry == records[0].id
    requires s.logStart == Slot(g.logSize, records[0].pos) && s.logEnd == Slot(g.logSize, end)
    ensures s.entries != [] && s.entries[0].id == records[0].id && s.entries[0].cachedBlocks == 1
    ensures StartBehindHead(g, s) == Slot(g.logSize, StartOf(Rest(records, s.pending, i), end))
  {
    var p', rest := s.pending[..i] + s.pending[i + 1..], Rest(records, s.pending, i);
    LiveHead(g, records, s.pending);
    assert s.entries[0] == LiveEntry(g, records[0], s.pending)[0];
    RestLive(g, records, s.pending, i);
    assert NotifyList(s.entries, records[0].id) == s.entries[1..];
    assert Live(g, rest, p') == s.entries[1..];
    if rest != [] {
      LiveHead(g, rest, p');
      assert s.entries[1] == LiveEntry(g, rest[0], p')[0];
      assert s.entries[1].start == Slot(g.logSize, rest[0].pos);
    }
  }

  /** Where the callback leaves the log start: at the oldest entry that waits. */
  lemma {:induction false} NotifyMovesStart(g: Geometry, s: State, records: seq<Record>, end: nat, i: nat)
    requires g.Valid() && i < |s.pending| && records != []
    requires forall a, b :: 0 <= a < b < |records| ==> records[a].id < records[b].id
    requires s.entries == Live(g, records, s.pending) && Count(s.pending, records[0].id) > 0
    requires s.logStart == Slot(g.logSize, records[0].pos) && s.logEnd == Slot(g.logSize, end)
    ensures Notify(g, s, s.pending[i].entry).logStart == Slot(g.logSize, StartOf(Rest(records, s.pending, i), end))
  {
    hide Live, NotifyList, Rest;
    var id := s.pending[i].entry;
    if id == records[0].id && Count(s.pending, id) == 1 {
      HeadCompletes(g, s, records, end, i);
      assert IndexOf(s.entries, id) == 0;
    } else {
      HeadStays(g, records, s.pending, i);
      assert Notify(g, s, id).logStart == s.logStart by {
        LiveHead(g, records, s.pending);
        assert s.entries[0] == LiveEntry(g, records[0], s.pending)[0];
      }
    }
  }

  lemma {:induction false} FlushKeepsList(g: Geometry, s: State, records: seq<Record>, i: nat)
    requires g.Valid() && i < |s.pending|
    requires forall a, b :: 0 <= a < b < |records| ==> records[a].id < records[b].id
    requires ListInv(g, s.entries, s.used, s.pending, records)
    ensures var s' := Notify(g, s, s.pending[i].entry);
            ListInv(g, s'.entries, s'.used, s.pending[..i] + s.pending[i + 1..], Rest(records, s.pending, i))
  {
    NotifyKeepsTotal(s.entries, s.pending[i].entry);
    if IndexOf(s.entries, s.pending[i].entry) == |s.entries| {
      NotifyListAbsent(s.entries, s.pending[i].entry);
    }
    RestLive(g, records, s.pending, i);
  }

  /** The history after block `i` went home. */
  function HistoryAfterFlush(s: State, h: History, i: nat): History
    requires i < |s.pending|
  {
    h.(records := Rest(h.records, s.pending, i))
  }

  /** A flush writes one block and does what its callback does. */
  lemma {:induction false} FlushFields(g: Geometry, s: State, i: nat)
    requires g.Valid() && Flushable(s, i)
    ensures var w := s.pending[i];
            FlushBlock(g, s, i) == Notify(g, s, w.entry).(home := s.home[w.block := w.content],
                                                          pending := s.pending[..i] + s.pending[i + 1..])
  {
  }

  lemma {:induction false} FlushKeepsVolume(s: State, h: History, i: nat)
    requires VolumeInv(s.home, s.pending, h) && Flushable(s, i)
    ensures VolumeInv(s.home[s.pending[i].block := s.pending[i].content], s.pending[..i] + s.pending[i + 1..],
                      HistoryAfterFlush(s, h, i))
  {
    var p' := s.pending[..i] + s.pending[i + 1..];
    VolumeAfterFlush(s.home, s.pending, h, i);
    VolumeAfterDrop(s.home[s.pending[i].block := s.pending[i].content], p', h, DeadPrefix(h.records, p'));
  }

  lemma {:induction false} FlushKeepsLog(g: Geometry, s: State, h: History, i: nat)
    requires LogInv(g, s.log, s.logStart, s.logEnd, s.nextId, h) && i < |s.pending| && h.records != []
    requires ListInv(g, s.entries, s.used, s.pending, h.records)
    ensures LogInv(g, s.log, Notify(g, s, s.pending[i].entry).logStart, s.logEnd, s.nextId, HistoryAfterFlush(s, h, i))
  {
    LogAfterDrop(g, s.log, s.logStart, s.logEnd, s.nextId, h,
                 DeadPrefix(h.records, s.pending[..i] + s.pending[i + 1..]));
    NotifyMovesStart(g, s, h.records, h.end, i);
  }

  /** A block going home keeps the invariant; the committed volume stays the same. */
  lemma {:induction false} FlushKeeps(g: Geometry, s: State, h: History, i: nat)
    requires Inv(g, s, h) && Flushable(s, i)
    ensures Inv(g, FlushBlock(g, s, i), HistoryAfterFlush(s, h, i))
  {
    hide Chained, Stored, Live, Count, TotalLength, Apply, AllWrites;
    FlushFields(g, s, i);
    assert OwnedBy(s.pending[i], h.records);
    var h', s' := HistoryAfterFlush(s, h, i), FlushBlock(g, s, i);
    assert VolumeInv(s'.home, s'.pending, h') by {
      FlushKeepsVolume(s, h, i);
    }
    assert LogInv(g, s'.log, s'.logStart, s'.logEnd, s'.nextId, h') by {
      FlushKeepsLog(g, s, h, i);
    }
    assert ListInv(g, s'.entries, s'.used, s'.pending, h'.records) by {
      FlushKeepsList(g, s, h.records, i);
    }
  }
}
