/** The journal as a state machine: what is on the disk, what the cache still has
to bring there, and the list of log entries that wait for it. */
module JournalState {
  import opened Options
  import opened SortedArrays
  import opened LogRing
  import opened Overlay
  import opened LogEntryFormat

  /** A `log_entry`; `id` stands for its address. */
  datatype LogEntry = LogEntry(id: nat, start: nat, length: nat, cachedBlocks: nat)

  /** `home` holds the blocks at their final places, `log` the log area; both are
      on disk, as are `logStart` and `logEnd`.  `numbers` and `locked` are the blocks
      of the running transaction and their locked cache contents.  `pending` are the
      logged block versions the cache has not brought home yet, oldest first. */
  datatype State = State(
    home: map<int, Block>,
    log: LogArea,
    logStart: int,
    logEnd: nat,
    numbers: seq<int>,
    locked: map<int, Block>,
    entries: seq<LogEntry>,
    pending: seq<Write>,
    used: int,
    nextId: nat)

  // ---------- sizes ----------

  function TransactionSize(g: Geometry, s: State): nat
    requires g.Valid()
  {
    g.EntrySize(|s.numbers|)
  }

  function FreeLogBlocks(g: Geometry, s: State): int {
    if s.logStart <= s.logEnd then g.logSize - s.logEnd + s.logStart else s.logStart - s.logEnd
  }

  // ---------- steps ----------

  /** Puts one block under the control of the running transaction; a block that is
      there already keeps its cache contents. */
  function LogBlock(s: State, block: int, content: Block): State {
    if block in s.numbers then s
    else s.(numbers := SortedInsert(s.numbers, block), locked := s.locked[block := content])
  }

  /** A change made directly in a locked cache block. */
  function ModifyLocked(s: State, block: int, content: Block): State
    requires block in s.numbers
  {
    s.(locked := s.locked[block := content])
  }

  /** The transaction's blocks with the contents they have in the cache. */
  predicate ArrayLocked(s: State) {
    forall i :: 0 <= i < |s.numbers| ==> s.numbers[i] in s.locked
  }

  function TransactionWrites(s: State): (ws: seq<Write>)
    requires ArrayLocked(s)
    ensures |ws| == |s.numbers|
    ensures Numbers(ws) == s.numbers
    ensures forall i :: 0 <= i < |ws| ==> ws[i].entry == s.nextId
  {
    seq(|s.numbers|, i requires 0 <= i < |s.numbers| => Write(s.numbers[i], s.locked[s.numbers[i]], s.nextId))
  }

  function Numbers(ws: seq<Write>): (r: seq<int>)
    ensures |r| == |ws|
  {
    seq(|ws|, i requires 0 <= i < |ws| => ws[i].block)
  }

  function Contents(ws: seq<Write>): (r: seq<Block>)
    ensures |r| == |ws|
  {
    seq(|ws|, i requires 0 <= i < |ws| => ws[i].content)
  }

  /** The log area after the transaction was written behind `logEnd`. */
  function LogWritten(g: Geometry, s: State, slack: seq<int>): (log: LogArea)
    requires s.log.Valid(g) && ArrayLocked(s) && Padded(g, s.numbers, slack)
  {
    var ws := TransactionWrites(s);
    s.log.(blocks := Put(s.log.blocks, g.logSize, s.logEnd, Encode(g, s.numbers, Contents(ws), slack)))
  }

  /** Writes the running transaction as a log entry: the log blocks, the entry in
      the list, the callbacks in the cache, and then the end pointer. */
  function WriteEntry(g: Geometry, s: State, slack: seq<int>): State
    requires s.log.Valid(g) && ArrayLocked(s) && Padded(g, s.numbers, slack)
  {
    Published(g, s, slack).(logEnd := Slot(g.logSize, s.logEnd + TransactionSize(g, s)))
  }

  /** The same with the end pointer not moved yet. */
  function Published(g: Geometry, s: State, slack: seq<int>): State
    requires s.log.Valid(g) && ArrayLocked(s) && Padded(g, s.numbers, slack)
  {
    var size := TransactionSize(g, s);
    s.(log := LogWritten(g, s, slack),
       numbers := [],
       locked := map[],
       entries := s.entries + [LogEntry(s.nextId, s.logEnd, size, |s.numbers|)],
       pending := s.pending + TransactionWrites(s),
       used := s.used + size,
       nextId := s.nextId + 1)
  }

  function IndexOf(entries: seq<LogEntry>, id: nat): (i: nat)
    ensures i <= |entries|
    ensures i < |entries| ==> entries[i].id == id
    ensures forall j :: 0 <= j < i ==> entries[j].id != id
  {
    if entries == [] || entries[0].id == id then 0
    else
      var i := IndexOf(entries[1..], id);
      assert forall j :: 1 <= j < i + 1 ==> entries[j] == entries[1..][j - 1];
      1 + i
  }

  /** Integer remainder with the sign of the dividend. */
  function Rem(x: int, n: nat): int
    requires n > 0
  {
    if x >= 0 then Slot(n, x) else -(Slot(n, -x) as int)
  }

  /** What the callback leaves of its entry: nothing once its last block is home. */
  function NotifyEntry(e: LogEntry): seq<LogEntry> {
    if e.cachedBlocks > 1 then [e.(cachedBlocks := e.cachedBlocks - 1)] else []
  }

  /** The list after the callback for a block of entry `id`. */
  function NotifyList(entries: seq<LogEntry>, id: nat): seq<LogEntry> {
    if entries == [] then []
    else if entries[0].id == id then NotifyEntry(entries[0]) + entries[1..]
    else [entries[0]] + NotifyList(entries[1..], id)
  }

  /** Where the log starts when the head of the list is complete. */
  function StartBehindHead(g: Geometry, s: State): int
    requires g.Valid() && s.entries != []
  {
    if |s.entries| > 1 then Rem(s.logStart + (s.entries[1].start - s.entries[0].start), g.logSize)
    else s.logEnd
  }

  /** The callback for one block of entry `id` that went home: when it was the last
      one, the entry leaves the list, and the log start moves on if it was the head. */
  function Notify(g: Geometry, s: State, id: nat): State
    requires g.Valid()
  {
    var k := IndexOf(s.entries, id);
    if k == |s.entries| then s
    else
      var e := s.entries[k];
      var complete := e.cachedBlocks <= 1;
      s.(logStart := if complete && k == 0 then StartBehindHead(g, s) else s.logStart,
         used := if complete then s.used - e.length else s.used,
         entries := NotifyList(s.entries, id))
  }

  /** The cache may bring version `i` home: no older version of the block waits. */
  predicate Flushable(s: State, i: nat) {
    i < |s.pending| && forall j :: 0 <= j < i ==> s.pending[j].block != s.pending[i].block
  }

  function FlushBlock(g: Geometry, s: State, i: nat): State
    requires g.Valid() && Flushable(s, i)
  {
    var w := s.pending[i];
    Notify(g,
           s.(home := s.home[w.block := w.content], pending := s.pending[..i] + s.pending[i + 1..]),
           w.entry)
  }

  /** Replaying entry after entry from `start` to `end` turns `home` into `home'`. */
  least predicate ReplaysTo[nat](g: Geometry, wrap: Wrap, log: LogArea, home: map<int, Block>, start: nat, end: nat,
                                 home': map<int, Block>)
  {
    || (start == end && home' == home)
    || (start != end && log.Valid(g) && start < g.logSize
        && Decode(g, wrap, log, start).Some?
        && var pairs := Decode(g, wrap, log, start).value;
           var next := Slot(g.logSize, start + g.EntrySize(|pairs|));
           next != start && ReplaysTo(g, wrap, log, ApplyPairs(home, pairs), next, end, home'))
  }

  function ApplyPairs(home: map<int, Block>, pairs: seq<(int, Block)>): map<int, Block>
    decreases |pairs|
  {
    if pairs == [] then home
    else
      var n := |pairs| - 1;
      ApplyPairs(home, pairs[..n])[pairs[n].0 := pairs[n].1]
  }

  /** After a crash and the replay only the disk is left, with an empty log. */
  function Recovered(s: State, home: map<int, Block>): State {
    s.(home := home, logStart := s.logEnd, numbers := [], locked := map[], entries := [], pending := [], used := 0)
  }

  // ---------- invariant ----------

  /** A log entry between log start and log end, complete or not. */
  datatype Record = Record(id: nat, pos: nat, writes: seq<Write>)

  /** What the run has made of the volume so far: the committed blocks and the
      entries in the log. */
  datatype History = History(committed: map<int, Block>, records: seq<Record>, end: nat) {
    function Start(): nat {
      if records == [] then end else records[0].pos
    }
  }

  function AllWrites(records: seq<Record>): seq<Write> {
    if records == [] then [] else AllWrites(records[..|records| - 1]) + records[|records| - 1].writes
  }

  /** How many of the waiting blocks belong to entry `id`. */
  function Count(pending: seq<Write>, id: nat): nat
    decreases |pending|
  {
    if pending == [] then 0
    else
      var n := |pending| - 1;
      Count(pending[..n], id) + if pending[n].entry == id then 1 else 0
  }

  /** The entries that still wait for blocks, in the order they were written. */
  function Live(g: Geometry, records: seq<Record>, pending: seq<Write>): seq<LogEntry>
    requires g.Valid()
  {
    if records == [] then []
    else
      var r := records[|records| - 1];
      Live(g, records[..|records| - 1], pending) + LiveEntry(g, r, pending)
  }

  function LiveEntry(g: Geometry, r: Record, pending: seq<Write>): seq<LogEntry>
    requires g.Valid()
  {
    var c := Count(pending, r.id);
    if c == 0 then [] else [LogEntry(r.id, Slot(g.logSize, r.pos), g.EntrySize(|r.writes|), c)]
  }

  function TotalLength(entries: seq<LogEntry>): nat {
    if entries == [] then 0 else entries[0].length + TotalLength(entries[1..])
  }

  /** Where the entry behind entry `i` starts. */
  function NextPos(records: seq<Record>, end: nat, i: nat): nat
    requires i < |records|
  {
    if i + 1 < |records| then records[i + 1].pos else end
  }

  ghost predicate Linked(g: Geometry, records: seq<Record>, end: nat, i: nat)
    requires g.Valid() && i < |records|
  {
    records[i].writes != [] && records[i].pos + g.EntrySize(|records[i].writes|) == NextPos(records, end, i)
  }

  /** The entries stand one behind the other and fill the log from start to end. */
  ghost predicate Chained(g: Geometry, records: seq<Record>, end: nat)
    requires g.Valid()
  {
    forall i: nat :: i < |records| ==> Linked(g, records, end, i)
  }

  ghost predicate Identified(records: seq<Record>, nextId: nat) {
    && (forall i, j :: 0 <= i < j < |records| ==> records[i].id < records[j].id)
    && (forall i :: 0 <= i < |records| ==> records[i].id < nextId)
    && (forall i, k :: 0 <= i < |records| && 0 <= k < |records[i].writes| ==>
         records[i].writes[k].entry == records[i].id)
  }

  ghost predicate Stored(g: Geometry, log: LogArea, records: seq<Record>)
    requires log.Valid(g)
  {
    forall i :: 0 <= i < |records| ==>
      EntryAt(g, log.blocks, records[i].pos, Numbers(records[i].writes), Contents(records[i].writes))
  }

  /** The write belongs to one of the entries. */
  ghost predicate OwnedBy(w: Write, records: seq<Record>) {
    exists k :: 0 <= k < |records| && records[k].id == w.entry && w in records[k].writes
  }

  ghost predicate Covered(pending: seq<Write>, records: seq<Record>) {
    forall i :: 0 <= i < |pending| ==> OwnedBy(pending[i], records)
  }

  /** The log area and its two pointers. */
  ghost predicate LogInv(g: Geometry, log: LogArea, logStart: int, logEnd: nat, nextId: nat, h: History) {
    && log.Valid(g)
    && Chained(g, h.records, h.end)
    && Identified(h.records, nextId)
    && Stored(g, log, h.records)
    && h.Start() <= h.end < h.Start() + g.logSize
    && logStart == Slot(g.logSize, h.Start())
    && logEnd == Slot(g.logSize, h.end)
  }

  /** The list of entries that are not complete; the oldest entry is one of them. */
  ghost predicate ListInv(g: Geometry, entries: seq<LogEntry>, used: int, pending: seq<Write>, records: seq<Record>)
    requires g.Valid()
  {
    && (records != [] ==> Count(pending, records[0].id) > 0)
    && entries == Live(g, records, pending)
    && used == TotalLength(entries)
  }

  /** Nothing committed is lost: the home blocks give the committed volume both under
      the log entries and under the versions that wait in the cache. */
  ghost predicate VolumeInv(home: map<int, Block>, pending: seq<Write>, h: History) {
    && Covered(pending, h.records)
    && Apply(home, AllWrites(h.records)) == h.committed
    && Apply(home, pending) == h.committed
  }

  /** The numbers of a block array: each once, in ascending order. */
  predicate Increasing(numbers: seq<int>) {
    forall i, j :: 0 <= i < j < |numbers| ==> numbers[i] < numbers[j]
  }

  ghost predicate TransactionInv(g: Geometry, numbers: seq<int>, locked: map<int, Block>) {
    && Increasing(numbers)
    && (forall i :: 0 <= i < |numbers| ==> numbers[i] in locked)
    && (forall b :: b in locked ==> |locked[b]| == g.wordsPerBlock)
  }

  ghost predicate Inv(g: Geometry, s: State, h: History) {
    && LogInv(g, s.log, s.logStart, s.logEnd, s.nextId, h)
    && ListInv(g, s.entries, s.used, s.pending, h.records)
    && VolumeInv(s.home, s.pending, h)
    && TransactionInv(g, s.numbers, s.locked)
  }

  // ---------- the run's own account of what was committed ----------

  /** The history after the running transaction was written. */
  function HistoryAfterWrite(g: Geometry, s: State, h: History): History
    requires g.Valid() && ArrayLocked(s)
  {
    var ws := TransactionWrites(s);
    History(Apply(h.committed, ws),
            h.records + [Record(s.nextId, h.end, ws)],
            h.end + TransactionSize(g, s))
  }
}
