/** The journal object: its loops over log blocks, proved against the state machine. */
module Journal {
  import opened Options
  import opened Sequences
  import opened SortedArrays
  import opened LogRing
  import opened Overlay
  import opened LogEntryFormat
  import opened JournalState
  import opened JournalSafety
  import opened JournalRuns

  datatype Status = Ok | DeviceFull | BadData | Error

  /** The blocks put one after the other under the control of the transaction. */
  function LogAll(s: State, block: int, contents: seq<Block>): State
    decreases |contents|
  {
    if contents == [] then s
    else
      var n := |contents| - 1;
      LogBlock(LogAll(s, block, contents[..n]), block + n, contents[n])
  }

  /** Which blocks are under the control of the transaction afterwards. */
  lemma {:induction false} LogAllNumbers(s: State, block: int, contents: seq<Block>, b: int)
    ensures b in LogAll(s, block, contents).numbers <==> b in s.numbers || block <= b < block + |contents|
    decreases |contents|
  {
    hide SortedInsert;
    if contents != [] {
      var n := |contents| - 1;
      LogAllNumbers(s, block, contents[..n], b);
      InsertedNumber(LogAll(s, block, contents[..n]).numbers, block + n);
    }
  }

  /** What they hold: a block that is new to the transaction the contents it is logged with,
      every other what it held before. */
  lemma {:induction false} LogAllContents(s: State, block: int, contents: seq<Block>, b: int)
    ensures var locked := LogAll(s, block, contents).locked;
            if b !in s.numbers && block <= b < block + |contents| then b in locked && locked[b] == contents[b - block]
            else (b in locked <==> b in s.locked) && (b in locked ==> locked[b] == s.locked[b])
    decreases |contents|
  {
    hide SortedInsert;
    if contents != [] {
      var n := |contents| - 1;
      LogAllNumbers(s, block, contents[..n], b);
      LogAllContents(s, block, contents[..n], b);
    }
  }

  /** The callback changes the list at the place of its entry only. */
  lemma {:induction false} NotifyListAt(entries: seq<LogEntry>, id: nat, k: nat)
    requires k == IndexOf(entries, id) < |entries|
    ensures NotifyList(entries, id) == entries[..k] + (NotifyEntry(entries[k]) + entries[k + 1..])
    decreases k
  {
    var kept, back := NotifyEntry(entries[k]), entries[k + 1..];
    if k == 0 {
      assert entries[..0] + (kept + back) == kept + back;
    } else {
      var first, rest := [entries[0]], entries[1..];
      NotifyListAt(rest, id, k - 1);
      assert rest[k..] == back && rest[k - 1] == entries[k];
      Associative(first, rest[..k - 1], kept + back);
      assert first + rest[..k - 1] == entries[..k];
    }
  }

  /** From this size on a batch of transactions is written; unsigned 32-bit arithmetic. */
  function MaxTransactionSize(logSize: nat): nat {
    var quarter := (logSize / 4 - 5) % 0x1_0000_0000;
    if quarter > logSize / 2 then (logSize / 2 - 5) % 0x1_0000_0000 else quarter
  }

  /** A quarter of the log and a little less; in a log of less than twenty blocks that wraps
      around, and a batch may have half the log, or any size if the log has less than ten. */
  lemma MaxTransactionSizeIs(logSize: nat)
    requires logSize < 0x1_0000_0000
    ensures MaxTransactionSize(logSize)
            == if logSize >= 20 then logSize / 4 - 5
               else if logSize >= 10 then logSize / 2 - 5
               else 0x1_0000_0000 + logSize / 2 - 5
  {
  }

  class Journal {
    const g: Geometry
    var home: map<int, Block>
    var log: LogArea
    var logStart: int
    var logEnd: nat
    var hasArray: bool          // fArray != NULL
    var numbers: seq<int>
    var locked: map<int, Block>
    var entries: seq<LogEntry>
    var pending: seq<Write>
    var used: int
    var nextId: nat
    var transactionsInEntry: nat

    ghost function Snapshot(): State
      reads this
    {
      State(home, log, logStart, logEnd, numbers, locked, entries, pending, used, nextId)
    }

    ghost predicate Valid()
      reads this
    {
      log.Valid(g) && TransactionInv(g, numbers, locked) && logEnd < g.logSize && (numbers != [] ==> hasArray)
    }

    constructor (g: Geometry, home: map<int, Block>, log: LogArea, end: nat)
      requires log.Valid(g) && end < g.logSize
      ensures this.g == g && Valid() && Init(g, Snapshot()) && this.home == home && this.log == log
    {
      this.g, this.home, this.log := g, home, log;
      logStart, logEnd := end, end;
      hasArray, numbers, locked := false, [], map[];
      entries, pending, used, nextId := [], [], 0, 0;
      transactionsInEntry := 0;
    }

    method BlocksUsed() returns (n: nat)
      requires g.Valid()
      ensures n == if hasArray then g.ArrayBlocks(|numbers|) else 0
    {
      n := if hasArray then ((|numbers| + 1) * WORD_SIZE + g.BlockSize() - 1) / g.BlockSize() else 0;
      RoundedUp(g, |numbers|);
    }

    /** The room the running transaction needs in the log. */
    method SizeOfTransaction() returns (size: nat)
      requires g.Valid()
      ensures size == if hasArray then TransactionSize(g, Snapshot()) else |numbers|
    {
      size := BlocksUsed();
      size := |numbers| + size;
    }

    /** Puts one block under the control of the running transaction unless it is. */
    method LogOne(block: int, content: Block)
      requires Valid() && |content| == g.wordsPerBlock
      modifies this`numbers, this`locked, this`hasArray
      ensures Valid() && Snapshot() == LogBlock(old(Snapshot()), block, content)
    {
      if block !in numbers {
        LogBlockLocks(g, numbers, locked, block, content);
        numbers := SortedInsert(numbers, block);
        locked := locked[block := content];
        hasArray := true;
      }
    }

    /** Puts blocks under the control of the running transaction. */
    method LogBlocks(blockNumber: int, buffers: seq<Block>) returns (status: Status)
      requires Valid() && forall i :: 0 <= i < |buffers| ==> |buffers[i]| == g.wordsPerBlock
      modifies this`numbers, this`locked, this`hasArray
      ensures Valid() && Increasing(numbers)
      ensures status == DeviceFull <==>
                old(if hasArray then TransactionSize(g, Snapshot()) else |numbers|) + |buffers| + 1 > g.logSize
      ensures status == DeviceFull || status == Ok
      ensures Snapshot() == if status == Ok then LogAll(old(Snapshot()), blockNumber, buffers) else old(Snapshot())
      ensures status == Ok ==>
                forall b :: b in numbers <==> b in old(numbers) || blockNumber <= b < blockNumber + |buffers|
      ensures status == Ok ==>
                forall b :: b !in old(numbers) && blockNumber <= b < blockNumber + |buffers| ==>
                  b in locked && locked[b] == buffers[b - blockNumber]
      ensures status == Ok ==>
                forall b :: b in old(numbers) || !(blockNumber <= b < blockNumber + |buffers|) ==>
                  (b in locked <==> b in old(locked)) && (b in locked ==> locked[b] == old(locked)[b])
    {
      var size := SizeOfTransaction();
      if size + |buffers| + 1 > g.logSize {
        return DeviceFull;
      }
      forall b
        ensures b in LogAll(Snapshot(), blockNumber, buffers).numbers
           <==> b in numbers || blockNumber <= b < blockNumber + |buffers|
        ensures var locked' := LogAll(Snapshot(), blockNumber, buffers).locked;
                if b !in numbers && blockNumber <= b < blockNumber + |buffers|
                then b in locked' && locked'[b] == buffers[b - blockNumber]
                else (b in locked' <==> b in locked) && (b in locked' ==> locked'[b] == locked[b])
      {
        LogAllNumbers(Snapshot(), blockNumber, buffers, b);
        LogAllContents(Snapshot(), blockNumber, buffers, b);
      }
      LogEach(blockNumber, buffers);
      status := Ok;
    }

    method LogEach(blockNumber: int, buffers: seq<Block>)
      requires Valid() && forall i :: 0 <= i < |buffers| ==> |buffers[i]| == g.wordsPerBlock
      modifies this`numbers, this`locked, this`hasArray
      ensures Valid() && Snapshot() == LogAll(old(Snapshot()), blockNumber, buffers)
    {
      hide LogBlock, TransactionInv, LogArea.Valid;
      ghost var s := Snapshot();
      var i := 0;
      assert buffers[..0] == [];
      while i < |buffers|
        invariant 0 <= i <= |buffers|
        invariant Valid()
        invariant Snapshot() == LogAll(s, blockNumber, buffers[..i])
      {
        assert buffers[..i + 1][..i] == buffers[..i];
        LogOne(blockNumber + i, buffers[i]);
        assert Snapshot() == LogAll(s, blockNumber, buffers[..i + 1]);
        i := i + 1;
      }
      assert buffers[..|buffers|] == buffers;
    }

    /** Writes the running transaction to the log; `slack` is what the buffer of the
        block array holds behind the last number. */
    method WriteLogEntry(slack: seq<int>) returns (status: Status)
      requires Valid() && Padded(g, numbers, slack)
      modifies this
      ensures status == BadData <==> old(numbers != [] && TransactionSize(g, Snapshot()) > FreeLogBlocks(g, Snapshot()))
      ensures status == Ok || status == BadData
      ensures Snapshot() == if status == Ok && old(numbers) != [] then WriteEntry(g, old(Snapshot()), slack)
                            else old(Snapshot())
    {
      hide LogWritten, Slot;
      transactionsInEntry := 0;
      if numbers == [] {
        return Ok;
      }
      var arrayBlocks := BlocksUsed();
      var size := |numbers| + arrayBlocks;
      var free := if logStart <= logEnd then g.logSize - logEnd + logStart else logStart - logEnd;
      if size > free {
        return BadData;
      }
      var position := WriteBlocks(arrayBlocks, slack);
      Publish(size);
      logEnd := position;
      status := Ok;
    }

    /** The end of a transaction: small ones are batched, and stay in memory together until
        the batch is large enough to be written as one entry. */
    method TransactionDone(slack: seq<int>) returns (status: Status)
      requires Valid() && Padded(g, numbers, slack)
      modifies this
      ensures var size := old(if hasArray then TransactionSize(g, Snapshot()) else |numbers|);
              if size < MaxTransactionSize(g.logSize) then
                status == Ok && Snapshot() == old(Snapshot()) && transactionsInEntry == old(transactionsInEntry) + 1
              else
                && (status == BadData <==> old(numbers != [] && TransactionSize(g, Snapshot()) > FreeLogBlocks(g, Snapshot())))
                && (status == Ok || status == BadData)
                && Snapshot() == if status == Ok && old(numbers) != [] then WriteEntry(g, old(Snapshot()), slack)
                                 else old(Snapshot())
    {
      var size := SizeOfTransaction();
      if size < MaxTransactionSize(g.logSize) {
        transactionsInEntry := transactionsInEntry + 1;
        return Ok;
      }
      status := WriteLogEntry(slack);
    }

    /** Both loops: the whole entry goes to the log behind the end pointer. */
    method WriteBlocks(arrayBlocks: nat, slack: seq<int>) returns (position: nat)
      requires Valid() && Padded(g, numbers, slack) && arrayBlocks == g.ArrayBlocks(|numbers|)
      modifies this`log
      ensures log == LogWritten(g, old(Snapshot()), slack)
      ensures position == Slot(g.logSize, logEnd + TransactionSize(g, old(Snapshot())))
    {
      ghost var blocks := Encode(g, numbers, Contents(TransactionWrites(Snapshot())), slack);
      position := WriteArray(blocks, logEnd, arrayBlocks, ArrayWords(numbers, slack));
      position := WriteContents(old(log), blocks, logEnd, arrayBlocks, position);
    }

    /** The first loop: the blocks of the buffer go to the log behind `start`. */
    method WriteArray(ghost blocks: seq<Block>, start: nat, n: nat, buffer: seq<int>) returns (position: nat)
      requires g.Valid() && |log.blocks| == g.logSize
      requires |buffer| == Laps(g.wordsPerBlock, n) && n <= |blocks| && blocks[..n] == Chunks(g, buffer, n)
      modifies this`log
      ensures log == old(log).(blocks := Put(old(log).blocks, g.logSize, start, blocks[..n]))
      ensures position == Slot(g.logSize, start + n)
    {
      position := Wrapped(start);
      var k, offset := 0, 0;
      while k < n
        invariant 0 <= k <= n
        invariant offset == Laps(g.wordsPerBlock, k)
        invariant position == Slot(g.logSize, start + k)
        invariant log == old(log).(blocks := Put(old(log).blocks, g.logSize, start, blocks[..k]))
      {
        LapsMonotone(g.wordsPerBlock, k, n);
        var block := buffer[offset..][..g.wordsPerBlock];
        assert block == Chunk(g, buffer, n, k) == blocks[..n][k];
        position := Store(old(log), blocks, start, k, position, block);
        offset := offset + g.wordsPerBlock;
        k := k + 1;
      }
    }

    /** The second loop: the logged blocks follow, with their contents in the cache. */
    method WriteContents(ghost before: LogArea, ghost blocks: seq<Block>, start: nat, n: nat, position: nat)
      returns (next: nat)
      requires g.Valid() && TransactionInv(g, numbers, locked) && |before.blocks| == g.logSize
      requires |blocks| == n + |numbers|
      requires forall i :: 0 <= i < |numbers| ==> blocks[n + i] == locked[numbers[i]]
      requires log == before.(blocks := Put(before.blocks, g.logSize, start, blocks[..n]))
      requires position == Slot(g.logSize, start + n)
      modifies this`log
      ensures log == before.(blocks := Put(before.blocks, g.logSize, start, blocks))
      ensures next == Slot(g.logSize, start + |blocks|)
    {
      hide Put, Slot;
      next := position;
      var i := 0;
      while i < |numbers|
        invariant 0 <= i <= |numbers|
        invariant next == Slot(g.logSize, start + (n + i))
        invariant log == before.(blocks := Put(before.blocks, g.logSize, start, blocks[..n + i]))
      {
        next := Store(before, blocks, start, n + i, next, locked[numbers[i]]);
        i := i + 1;
      }
      assert blocks[..n + i] == blocks;
    }

    /** The entry joins the list, and the cache learns whom to call for its blocks. */
    method Publish(size: nat)
      requires TransactionInv(g, numbers, locked)
      modifies this`numbers, this`locked, this`entries, this`pending, this`used, this`nextId
      ensures numbers == [] && locked == map[] && nextId == old(nextId) + 1 && used == old(used) + size
      ensures entries == old(entries) + [LogEntry(old(nextId), logEnd, size, old(|numbers|))]
      ensures pending == old(pending) + TransactionWrites(old(Snapshot()))
    {
      var writes := [];
      var i := 0;
      while i < |numbers|
        invariant 0 <= i <= |numbers|
        invariant writes == TransactionWrites(Snapshot())[..i]
      {
        writes := writes + [Write(numbers[i], locked[numbers[i]], nextId)];
        i := i + 1;
      }
      entries := entries + [LogEntry(nextId, logEnd, size, |numbers|)];
      pending := pending + writes;
      used, nextId := used + size, nextId + 1;
      numbers, locked := [], map[];
    }

    /** The block of the log area a position stands for. */
    method Wrapped(position: nat) returns (p: nat)
      requires g.Valid()
      ensures p == Slot(g.logSize, position)
    {
      p := position % g.logSize;
      SlotIsRemainder(g.logSize, position);
    }

    /** One block further round the log area. */
    method StepOn(ghost position: nat, p: nat) returns (next: nat)
      requires g.Valid() && p == Slot(g.logSize, position)
      ensures next == Slot(g.logSize, position + 1)
    {
      next := Wrapped(p + 1);
      SlotStep(g.logSize, position, 1);
    }

    /** Writes one block of the entry and steps on. */
    method Store(ghost before: LogArea, ghost blocks: seq<Block>, ghost start: nat, ghost n: nat, position: nat, block: Block)
      returns (next: nat)
      requires g.Valid() && |before.blocks| == g.logSize && n < |blocks| && block == blocks[n]
      requires position == Slot(g.logSize, start + n)
      requires log == before.(blocks := Put(before.blocks, g.logSize, start, blocks[..n]))
      modifies this`log
      ensures log == before.(blocks := Put(before.blocks, g.logSize, start, blocks[..n + 1]))
      ensures next == Slot(g.logSize, start + (n + 1))
    {
      assert blocks[..n + 1][..n] == blocks[..n];
      log := log.(blocks := log.blocks[position := block]);
      next := StepOn(start + n, position);
      assert start + n + 1 == start + (n + 1);
    }

    /** The callback of the cache for one block of entry `id`. */
    method BlockNotify(id: nat)
      requires g.Valid()
      modifies this`entries, this`logStart, this`used
      ensures Snapshot() == Notify(g, old(Snapshot()), id)
    {
      var k := FindEntry(id);
      if k == |entries| {
        NotifyListAbsent(entries, id);
        return;
      }
      NotifyListAt(entries, id, k);
      var e := entries[k];
      if e.cachedBlocks > 1 {
        entries := entries[..k] + ([e.(cachedBlocks := e.cachedBlocks - 1)] + entries[k + 1..]);
        return;
      }
      if k == 0 {
        if |entries| > 1 {
          var length := entries[1].start - e.start;
          logStart := Rem(logStart + length, g.logSize);
        } else {
          logStart := logEnd;
        }
      }
      used := used - e.length;
      entries := entries[..k] + entries[k + 1..];
      assert [] + old(entries)[k + 1..] == old(entries)[k + 1..];
    }

    method FindEntry(id: nat) returns (k: nat)
      ensures k == IndexOf(entries, id)
    {
      k := 0;
      assert entries[0..] == entries;
      while k < |entries| && entries[k].id != id
        invariant k <= |entries|
        invariant IndexOf(entries, id) == k + IndexOf(entries[k..], id)
      {
        assert entries[k..][1..] == entries[k + 1..];
        k := k + 1;
      }
    }

    /** The cache brings version `i` home and calls back. */
    method FlushOne(i: nat)
      requires g.Valid() && Flushable(Snapshot(), i)
      modifies this`home, this`pending, this`entries, this`logStart, this`used
      ensures Snapshot() == FlushBlock(g, old(Snapshot()), i)
    {
      var w := pending[i];
      home := home[w.block := w.content];
      pending := pending[..i] + pending[i + 1..];
      BlockNotify(w.entry);
    }

    // ---------- replay ----------

    /** The next block of the block array. */
    method NextArrayBlock(wrap: Wrap, ghost start: nat, ghost k: nat, p: nat) returns (next: nat)
      requires g.Valid() && start < g.logSize && p == ArrayBlockAt(g, wrap, start, k)
      ensures next == ArrayBlockAt(g, wrap, start, k + 1)
    {
      match wrap {
        case Modular =>
          next := StepOn(start + k, p);
        case AsWritten =>
          next := p + 1;
          if next > g.logSize {
            next := 0;
          }
          SlotStep(g.logSize + 1, start + k, 1);
      }
      assert start + k + 1 == start + (k + 1);
    }

    /** Word `index + x` is the number of pair `j + x`, whose block follows in the log. */
    static ghost predicate Names(g: Geometry, log: LogArea, words: Block, index: nat,
                                 pairs: seq<(int, Block)>, j: nat, base: nat, x: nat)
      requires g.Valid() && |log.blocks| == g.logSize && index + x < |words| && j + x < |pairs|
    {
      pairs[j + x] == (words[index + x], log.blocks[Slot(g.logSize, base + (j + x))])
    }

    static ghost predicate NamesAll(g: Geometry, log: LogArea, words: Block, index: nat,
                                    pairs: seq<(int, Block)>, j: nat, base: nat, n: nat)
      requires g.Valid() && |log.blocks| == g.logSize && j + n <= |pairs|
    {
      forall x: nat :: x < n && index + x < |words| ==> Names(g, log, words, index, pairs, j, base, x)
    }

    /** Restores the blocks whose numbers stand in one block of the block array. */
    method RestoreFrom(words: Block, index: nat, remaining: nat, blockNumber: nat,
                       ghost before: map<int, Block>, ghost pairs: seq<(int, Block)>, ghost j: nat, ghost base: nat)
      returns (left: nat, next: nat)
      requires g.Valid() && |log.blocks| == g.logSize && |words| == g.wordsPerBlock && index <= |words|
      requires j + remaining == |pairs| && home == ApplyPairs(before, pairs[..j])
      requires blockNumber == Slot(g.logSize, base + j)
      requires NamesAll(g, log, words, index, pairs, j, base, remaining)
      modifies this`home
      ensures left == if index + remaining <= |words| then 0 else remaining - (|words| - index)
      ensures home == ApplyPairs(before, pairs[..|pairs| - left])
      ensures next == Slot(g.logSize, base + (|pairs| - left))
    {
      hide Slot;
      left, next := remaining, blockNumber;
      var i := index;
      while i < |words| && left > 0
        invariant index <= i <= |words| && 0 <= left <= remaining && i - index == remaining - left
        invariant home == ApplyPairs(before, pairs[..|pairs| - left])
        invariant next == Slot(g.logSize, base + (|pairs| - left))
      {
        ghost var x := i - index;
        assert Names(g, log, words, index, pairs, j, base, x);
        assert pairs[..j + x + 1][..j + x] == pairs[..j + x];
        home := home[words[i] := log.blocks[next]];
        next := StepOn(base + (j + x), next);
        assert base + (j + x) + 1 == base + (j + x + 1);
        left := left - 1;
        i := i + 1;
      }
    }

    /** The numbers in block `k` of the block array are those of the entry. */
    lemma {:induction false} ArrayBlockHolds(wrap: Wrap, start: nat, pairs: seq<(int, Block)>, k: nat, index: nat, j: nat, x: nat)
      requires log.Valid(g) && start < g.logSize && Decode(g, wrap, log, start) == Some(pairs)
      requires index + x < g.wordsPerBlock && j + x < |pairs| && Laps(g.wordsPerBlock, k) + index == j + 1
      ensures Names(g, log, log.At(ArrayBlockAt(g, wrap, start, k)), index, pairs, j, start + g.ArrayBlocks(|pairs|), x)
    {
      WordPosition(g.wordsPerBlock, k, index + x);
      assert Laps(g.wordsPerBlock, k) + (index + x) == j + x + 1;
    }

    lemma {:induction false} ArrayBlockNames(wrap: Wrap, start: nat, pairs: seq<(int, Block)>, k: nat,
                                             words: Block, index: nat, j: nat, base: nat)
      requires log.Valid(g) && start < g.logSize && Decode(g, wrap, log, start) == Some(pairs) && j <= |pairs|
      requires words == log.At(ArrayBlockAt(g, wrap, start, k)) && base == start + g.ArrayBlocks(|pairs|)
      requires Laps(g.wordsPerBlock, k) + index == j + 1
      ensures NamesAll(g, log, words, index, pairs, j, base, |pairs| - j)
    {
      forall x: nat | x < |pairs| - j && index + x < |words|
        ensures Names(g, log, words, index, pairs, j, base, x)
      {
        ArrayBlockHolds(wrap, start, pairs, k, index, j, x);
      }
    }

    /** Restores the blocks of the entry at `start` and returns where it ends. */
    method ReplayLogEntry(wrap: Wrap, start: nat) returns (status: Status, end: nat)
      requires log.Valid(g) && start < g.logSize
      modifies this`home
      ensures status == if Decode(g, wrap, log, start).Some? then Ok else BadData
      ensures status == BadData ==> home == old(home)
      ensures status == Ok ==> home == ApplyPairs(old(home), Decode(g, wrap, log, start).value)
      ensures status == Ok ==> end == start + g.EntrySize(|Decode(g, wrap, log, start).value|)
    {
      var count := log.At(start)[0];
      assert count == ArrayWord(g, wrap, log, start, 0);
      if count < 1 || count >= g.logSize {
        return BadData, start;
      }
      end := RestoreBlocks(wrap, start, count, Decode(g, wrap, log, start).value);
      status := Ok;
    }

    /** All numbers are restored behind the last block of the array. */
    static lemma {:induction false} LastArrayBlock(g: Geometry, count: nat, k: nat)
      requires g.Valid() && k > 0 && Laps(g.wordsPerBlock, k - 1) <= count == NumbersIn(g, count, k)
      ensures g.ArrayBlocks(count) == k
    {
      WordPosition(g.wordsPerBlock, k - 1, count - Laps(g.wordsPerBlock, k - 1));
    }

    /** How many of `count` numbers stand in the first `k` blocks of the array. */
    static function NumbersIn(g: Geometry, count: nat, k: nat): (n: nat)
      requires g.Valid()
      ensures n <= count
    {
      if k == 0 then 0 else Min(count, Laps(g.wordsPerBlock, k) - 1)
    }

    /** One round of the outer loop: block `k` of the block array. */
    method RestoreRound(wrap: Wrap, ghost start: nat, ghost k: nat, arrayBlock: nat, index: nat, remaining: nat,
                        blockNumber: nat, ghost before: map<int, Block>, ghost pairs: seq<(int, Block)>)
      returns (left: nat, next: nat)
      requires log.Valid(g) && start < g.logSize && Decode(g, wrap, log, start) == Some(pairs)
      requires arrayBlock == ArrayBlockAt(g, wrap, start, k) && index == (if k == 0 then 1 else 0)
      requires 0 < remaining == |pairs| - NumbersIn(g, |pairs|, k)
      requires home == ApplyPairs(before, pairs[..|pairs| - remaining])
      requires blockNumber == Slot(g.logSize, start + g.ArrayBlocks(|pairs|) + (|pairs| - remaining))
      modifies this`home
      ensures left == |pairs| - NumbersIn(g, |pairs|, k + 1) && left < remaining + index
      ensures Laps(g.wordsPerBlock, k) <= |pairs|
      ensures home == ApplyPairs(before, pairs[..|pairs| - left])
      ensures next == Slot(g.logSize, start + g.ArrayBlocks(|pairs|) + (|pairs| - left))
    {
      hide Decode, Slot, ApplyPairs;
      ghost var j, base := |pairs| - remaining, start + g.ArrayBlocks(|pairs|);
      var words := log.At(arrayBlock);
      ArrayBlockNames(wrap, start, pairs, k, words, index, j, base);
      left, next := RestoreFrom(words, index, remaining, blockNumber, before, pairs, j, base);
    }

    method RestoreBlocks(wrap: Wrap, start: nat, count: nat, ghost pairs: seq<(int, Block)>) returns (end: nat)
      requires log.Valid(g) && start < g.logSize && count >= 1
      requires Decode(g, wrap, log, start) == Some(pairs) && |pairs| == count
      modifies this`home
      ensures home == ApplyPairs(old(home), pairs)
      ensures end == start + g.EntrySize(count)
    {
      hide Decode, Slot, Laps;
      ghost var before := home;
      var numArrayBlocks := NumArrayBlocks(count);
      var blockNumber := Wrapped(start + numArrayBlocks);
      var arrayBlock, index, remaining := start, 1, count;
      end := start + count;
      ghost var k := 0;
      while remaining > 0
        invariant 0 <= remaining <= count
        invariant arrayBlock == ArrayBlockAt(g, wrap, start, k)
        invariant end == start + count + k
        invariant index == if k == 0 then 1 else 0
        invariant remaining == count - NumbersIn(g, count, k)
        invariant k > 0 ==> Laps(g.wordsPerBlock, k - 1) <= count
        invariant home == ApplyPairs(before, pairs[..count - remaining])
        invariant blockNumber == Slot(g.logSize, start + numArrayBlocks + (count - remaining))
        decreases remaining + index
      {
        remaining, blockNumber := RestoreRound(wrap, start, k, arrayBlock, index, remaining, blockNumber, before, pairs);
        index := 0;
        end := end + 1;
        arrayBlock := NextArrayBlock(wrap, start, k, arrayBlock);
        k := k + 1;
      }
      LastArrayBlock(g, count, k);
      assert pairs[..count] == pairs;
    }

    method NumArrayBlocks(count: nat) returns (n: nat)
      requires g.Valid()
      ensures n == g.ArrayBlocks(count)
    {
      n := ((count + 1) * WORD_SIZE + g.BlockSize() - 1) / g.BlockSize();
      RoundedUp(g, count);
    }

    static function Min(a: int, b: int): int {
      if a < b then a else b
    }

    /** One round of the replay loop. */
    method ReplayOne(wrap: Wrap, start: nat, ghost records: seq<Record>, ghost end: nat)
      returns (status: Status, next: nat)
      requires log.Valid(g) && records != [] && Chained(g, records, end) && Stored(g, log, records)
      requires Readable(g, wrap, records) && end < records[0].pos + g.logSize
      requires start == Slot(g.logSize, records[0].pos)
      modifies this`home
      ensures status == Ok && next == Slot(g.logSize, StartOf(records[1..], end)) != start
      ensures home == Apply(old(home), records[0].writes)
    {
      hide Decode, Slot, StartOf, Apply, ApplyPairs, Chained, Stored, Readable, Contents, Numbers;
      ReplayFirst(g, wrap, log, records, end);
      ApplyPairsIsApply(home, records[0].writes);
      assert |Pairs(Numbers(records[0].writes), Contents(records[0].writes))| == |records[0].writes| by {
        PairsCounted(records[0].writes);
      }
      status, next := ReplayLogEntry(wrap, start);
      next := Wrapped(next);
    }

    /** Restores all entries of the log; the log is empty afterwards. */
    method ReplayLog(wrap: Wrap, ghost h: History) returns (status: Status)
      requires Inv(g, Snapshot(), h) && Readable(g, wrap, h.records)
      modifies this`home, this`logStart
      ensures status == Ok && home == h.committed && logStart == logEnd
    {
      var start, lastStart := logStart, -1;
      ghost var records := h.records;
      while start != logEnd
        invariant Chained(g, records, h.end) && Stored(g, log, records) && Readable(g, wrap, records)
        invariant h.end < StartOf(records, h.end) + g.logSize
        invariant start == Slot(g.logSize, StartOf(records, h.end))
        invariant Apply(home, AllWrites(records)) == h.committed
        invariant lastStart == -1 || lastStart != start
        decreases |records|
      {
        if start == lastStart {
          return Error;
        }
        lastStart := start;
        BehindFirst(g, wrap, log, records, h.end);
        ApplyFirst(home, records);
        var entryStatus, next := ReplayOne(wrap, start, records, h.end);
        if entryStatus != Ok {
          return Error;
        }
        start := next;
        records := records[1..];
      }
      EmptyLog(h, records);
      logStart := logEnd;
      status := Ok;
    }

    lemma {:induction false} EmptyLog(h: History, records: seq<Record>)
      requires g.Valid() && Chained(g, records, h.end) && h.end < StartOf(records, h.end) + g.logSize
      requires Slot(g.logSize, StartOf(records, h.end)) == Slot(g.logSize, h.end)
      ensures records == []
    {
      if records != [] {
        ChainOrdered(g, records, h.end, 0, 0);
        DistinctInLap(g.logSize, records[0].pos, h.end);
      }
    }
  }
}
