/** The blocks a stream holds: what growing, cutting and writing do to them. */
module StreamBlocks {
  import opened Sequences
  import opened BlockUnits
  import opened BlockRuns
  import opened StreamShape
  import opened StreamLookup
  import opened StreamDouble
  import opened StreamAccess
  import opened StreamChange

  ghost function Set(addrs: seq<Addr>): set<Addr> {
    set x | x in addrs
  }

  lemma {:induction false} SetConcat(a: seq<Addr>, b: seq<Addr>)
    ensures Set(a + b) == Set(a) + Set(b)
  {
  }

  /** All blocks of a stream: those with the bytes of the file and those with runs. */
  function Held(d: Data): seq<Addr> {
    FileBlocks(d) + RunAddrs(d.indirect)
  }

  lemma {:induction false} NoTable(d: Data)
    requires d.table == []
    ensures Addrs(Rows(d.table)) == [] && FileBlocks(d) == Addrs(Runs(d.direct)) + Addrs(AllRuns(d.arrays))
  {
  }

  lemma {:induction false} NoneLeft(a: seq<Addr>, b: seq<Addr>)
    ensures Set(a[|a|..]) == {} && Set(b[|b|..]) == {}
  {
  }

  /** Where FreeStreamArray stands before entry `i`. */
  ghost predicate TrimState(g: Geometry, before: seq<Run>, a: seq<Run>, i: nat, m: nat, kept: nat, o: nat, size: int,
                            offset: int, max0: int, max: int, used0: set<Addr>, used: set<Addr>) {
    && i <= |before| && Trimmed(g, before, a, i, m, kept)
    && var done := |Addrs(before[..i])|;
       && offset == Bytes(g.blockSize, o + done)
       && Enough(g.blockSize, o, done, size, kept)
       && max == (if kept < done then Min(max0, Bytes(g.blockSize, o + kept)) else max0)
       && used == used0 - Set(Addrs(before[..i])[kept..])
  }

  lemma {:induction false} TrimStart(g: Geometry, a: seq<Run>, o: nat, size: int, max: int, used: set<Addr>)
    requires g.Valid()
    ensures TrimState(g, a, a, 0, 0, 0, o, size, Bytes(g.blockSize, o), max, max, used, used)
  {
    hide Bytes, RunOk;
    assert a[..0] == [] && Addrs([]) == [];
  }

  /** A run in front of the size: all runs before it are complete. */
  lemma {:induction false} TrimKeeps(g: Geometry, before: seq<Run>, a: seq<Run>, i: nat, m: nat, kept: nat, o: nat, size: int,
                                     offset: int, max0: int, max: int, used0: set<Addr>, used: set<Addr>)
    requires g.Valid() && TrimState(g, before, a, i, m, kept, o, size, offset, max0, max, used0, used)
    requires i < Used(before) && RunOk(g, before[i]) && offset + Bytes(g.blockSize, before[i].length) <= size
    ensures kept == |Addrs(before[..i])| && before[i].length > 0
    ensures TrimState(g, before, a, i + 1, i + 1, kept + before[i].length, o, size,
                      offset + Bytes(g.blockSize, before[i].length), max0, max, used0, used)
  {
    hide Bytes, RunAddrs, Used, Set, Addrs;
    AllComplete(g, before, o, size, offset, |Addrs(before[..i])|, kept, before[i]);
    BytesAdd(g.blockSize, o + kept, before[i].length);
    BytesOrder(g.blockSize, o + kept + before[i].length, o);
    KeepRun(g, before, a, i, kept);
    SetEmpty(Addrs(before[..i]), Addrs(before[..i + 1]), kept, kept + before[i].length);
  }

  /** Nothing has been given up before a run that begins in front of the size. */
  lemma {:induction false} AllComplete(g: Geometry, before: seq<Run>, o: nat, size: int, offset: int, done: nat, kept: nat, run: Run)
    requires g.Valid() && offset == Bytes(g.blockSize, o + done) && Enough(g.blockSize, o, done, size, kept) && RunOk(g, run)
    requires offset < size || offset + Bytes(g.blockSize, run.length) <= size
    ensures kept == done
  {
    hide Bytes;
    BytesOrder(g.blockSize, o + done, o + kept);
    BytesAdd(g.blockSize, 0, 1);
    BytesOrder(g.blockSize, 1, run.length);
  }

  lemma {:induction false} SetEmpty(a: seq<Addr>, b: seq<Addr>, n: nat, m: nat)
    requires |a| == n && |b| == m
    ensures Set(a[n..]) == {} && Set(b[m..]) == {}
  {
  }

  /** The run that the size falls into keeps `c` blocks. */
  lemma {:induction false} TrimCuts(g: Geometry, before: seq<Run>, a: seq<Run>, i: nat, m: nat, kept: nat, o: nat, size: int,
                                    offset: int, max0: int, max: int, used0: set<Addr>, used: set<Addr>)
    requires g.Valid() && TrimState(g, before, a, i, m, kept, o, size, offset, max0, max, used0, used)
    requires i < Used(before) && RunOk(g, before[i]) && offset < size < offset + Bytes(g.blockSize, before[i].length)
    requires max0 >= offset + Bytes(g.blockSize, before[i].length)
    ensures kept == |Addrs(before[..i])|
    ensures var run, c := before[i], Whole(g.blockSize, size - offset) + 1;
            && 1 <= c <= run.length
            && TrimState(g, before, a[i := run.(length := c)], i + 1, i + 1, kept + c, o, size,
                         offset + Bytes(g.blockSize, run.length), max0,
                         if c < run.length then offset + Bytes(g.blockSize, c) else max,
                         used0, if c < run.length then used - Set(RunAddrs(Run(run.group, run.start + c, run.length - c))) else used)
  {
    hide Bytes, RunAddrs, Used, Set, Addrs, Whole;
    var bs, run := g.blockSize, before[i];
    AllComplete(g, before, o, size, offset, |Addrs(before[..i])|, kept, run);
    Divide(bs, size - offset);
    var c := Whole(bs, size - offset) + 1;
    BytesAdd(bs, c - 1, 1);
    BytesOrder(bs, run.length, c - 1);
    BytesAdd(bs, o + kept, c);
    BytesAdd(bs, o + kept, run.length);
    BytesOrder(bs, c, run.length);
    CutRun(g, before, a, i, kept, c);
    SetEmpty(Addrs(before[..i]), Addrs(before[..i]), kept, kept);
    var all := Addrs(before[..i + 1]);
    assert all[kept + c..] == all[kept + c..kept + run.length];
    if c == run.length {
      SetEmpty(Addrs(before[..i]), all, kept, kept + c);
    }
  }

  /** A run behind the size is given up. */
  lemma {:induction false} TrimDrops(g: Geometry, before: seq<Run>, a: seq<Run>, i: nat, m: nat, kept: nat, o: nat, size: int,
                                     offset: int, max0: int, max: int, used0: set<Addr>, used: set<Addr>)
    requires g.Valid() && TrimState(g, before, a, i, m, kept, o, size, offset, max0, max, used0, used)
    requires i < Used(before) && RunOk(g, before[i]) && size <= offset
    ensures TrimState(g, before, a[i := ZERO], i + 1, m, kept, o, size, offset + Bytes(g.blockSize, before[i].length), max0,
                      Min(max, offset), used0, used - Set(RunAddrs(before[i])))
  {
    hide Bytes, RunAddrs, Used, Addrs;
    var bs, run, done := g.blockSize, before[i], |Addrs(before[..i])|;
    DropRun(g, before, a, i, m, kept);
    BytesAdd(bs, o + done, run.length);
    BytesOrder(bs, o + kept, o + done);
    var all := Addrs(before[..i + 1]);
    Join(all, kept, done, |all|);
    SetConcat(all[kept..done], all[done..]);
    assert all[kept..] == all[kept..|all|] && all[done..] == all[done..|all|];
  }

  /** What is left of the blocks of the two ranges and of the blocks with runs. */
  function KeptBlocks(a: seq<Addr>, b: seq<Addr>, c: seq<Addr>, keptA: nat, keptB: nat, dropped: bool): seq<Addr>
    requires keptA <= |a| && keptB <= |b|
  {
    a[..keptA] + b[..keptB] + if dropped then [] else c
  }

  lemma {:induction false} DistinctSets(a: seq<Addr>, b: seq<Addr>)
    requires Distinct(a + b)
    ensures Distinct(a) && Distinct(b) && Set(a) !! Set(b)
  {
    var ab := a + b;
    forall i, j | 0 <= i < |a| && 0 <= j < |b|
      ensures a[i] != b[j]
    {
      assert ab[i] != ab[|a| + j];
    }
    forall i, j | 0 <= i < j < |b|
      ensures b[i] != b[j]
    {
      assert ab[|a| + i] != ab[|a| + j];
    }
    forall i, j | 0 <= i < j < |a|
      ensures a[i] != a[j]
    {
      assert ab[i] != ab[j];
    }
  }

  lemma {:induction false} SetsDistinct(a: seq<Addr>, b: seq<Addr>)
    requires Distinct(a) && Distinct(b) && Set(a) !! Set(b)
    ensures Distinct(a + b)
  {
    forall i, j | 0 <= i < |a| && 0 <= j < |b|
      ensures a[i] != b[j]
    {
      assert a[i] in Set(a) && b[j] in Set(b);
    }
  }

  lemma {:induction false} SplitSet(a: seq<Addr>, n: nat)
    requires n <= |a| && Distinct(a)
    ensures Distinct(a[..n]) && Set(a[..n]) == Set(a) - Set(a[n..]) && Set(a[n..]) <= Set(a)
  {
    assert a == a[..n] + a[n..];
    DistinctSets(a[..n], a[n..]);
    SetConcat(a[..n], a[n..]);
  }

  /** Freeing exactly what is not kept leaves exactly what is kept. */
  lemma {:induction false} ShrunkBlocks(a: seq<Addr>, b: seq<Addr>, c: seq<Addr>, keptA: nat, keptB: nat, dropped: bool,
                                        used: set<Addr>, others: set<Addr>)
    requires keptA <= |a| && keptB <= |b| && Distinct(a + b + c)
    requires used == others + Set(a + b + c) && others !! Set(a + b + c)
    ensures var kept := KeptBlocks(a, b, c, keptA, keptB, dropped);
            && Distinct(kept) && others !! Set(kept)
            && used - Set(b[keptB..]) - (if dropped then Set(c) else {}) - Set(a[keptA..]) == others + Set(kept)
  {
    hide Set, Distinct;
    DistinctSets(a + b, c);
    DistinctSets(a, b);
    SetConcat(a + b, c);
    SetConcat(a, b);
    SplitSet(a, keptA);
    SplitSet(b, keptB);
    var a', b' := a[..keptA], b[..keptB];
    SetsDistinct(a', b');
    SetConcat(a', b');
    var c' := if dropped then [] else c;
    EmptyDistinct();
    SetsDistinct(a' + b', c');
    SetConcat(a' + b', c');
  }

  lemma {:induction false} NoArrays(g: Geometry)
    ensures ArraysOk(g, []) && Addrs(AllRuns([])) == []
  {
  }

  lemma {:induction false} EmptyDistinct()
    ensures Distinct([]) && Set([]) == {}
  {
  }

  /** A stream cut to its first blocks is well formed. */
  lemma {:induction false} ShrunkStream(g: Geometry, d: Data, d': Data, keptA: nat, keptB: nat, dropped: bool)
    requires StreamOk(g, d) && d.table == [] && d'.table == [] && d'.maxDouble == d.maxDouble
    requires |d'.direct| == NUM_DIRECT_BLOCKS && ArrayOk(g, d'.direct) && ArraysOk(g, d'.arrays)
    requires keptA <= |Addrs(Runs(d.direct))| && Addrs(Runs(d'.direct)) == Addrs(Runs(d.direct))[..keptA]
    requires keptB <= |Addrs(AllRuns(d.arrays))| && Addrs(AllRuns(d'.arrays)) == Addrs(AllRuns(d.arrays))[..keptB]
    requires d'.maxDirect == Bytes(g.blockSize, keptA) && (keptA < |Addrs(Runs(d.direct))| ==> keptB == 0)
    requires if dropped || d.indirect.IsZero() then d'.indirect.IsZero() && d'.arrays == [] && d'.maxIndirect == 0
             else d'.indirect == d.indirect && |d'.arrays| == |d.arrays| && d'.maxIndirect == Bytes(g.blockSize, keptA + keptB)
                  && d'.maxDirect > 0
    requires 0 <= d'.size <= Bytes(g.blockSize, keptA + keptB)
    ensures StreamOk(g, d') && FileBlocks(d') == FileBlocks(d)[..keptA + keptB]
    ensures FileBlocks(d) == Addrs(Runs(d.direct)) + Addrs(AllRuns(d.arrays))
    ensures FileBlocks(d') == Addrs(Runs(d.direct))[..keptA] + Addrs(AllRuns(d.arrays))[..keptB]
  {
    hide Bytes, Addrs, ArraysOk, ArrayOk, AllRuns, Runs, RunOk;
    NoTable(d);
    NoTable(d');
    BytesAdd(g.blockSize, keptA, keptB);
  }

  lemma {:induction false} SetCount(a: seq<Addr>)
    requires Distinct(a)
    ensures |Set(a)| == |a|
  {
    if a == [] {
      EmptyDistinct();
    } else {
      var n := |a| - 1;
      SetCount(a[..n]);
      assert a == a[..n] + [a[n]];
      SetConcat(a[..n], [a[n]]);
      assert Set([a[n]]) == {a[n]};
      DistinctSets(a[..n], [a[n]]);
    }
  }

  /** The blocks that hold the first `size` bytes are the same. */
  ghost predicate SamePrefix(bs: int, a: seq<Addr>, b: seq<Addr>, size: int) {
    exists n: nat :: n <= |a| && n <= |b| && a[..n] == b[..n] && size <= Bytes(bs, n)
  }

  lemma {:induction false} PrefixOf(bs: int, a: seq<Addr>, b: seq<Addr>, n: nat, size: int)
    requires n <= |a| && n <= |b| && a[..n] == b[..n] && size <= Bytes(bs, n)
    ensures SamePrefix(bs, a, b, size)
  {
  }

  lemma {:induction false} PrefixTwice(bs: int, a: seq<Addr>, b: seq<Addr>, c: seq<Addr>, size: int)
    requires SamePrefix(bs, a, b, size) && SamePrefix(bs, b, c, size)
    ensures SamePrefix(bs, a, c, size)
  {
    var n: nat :| n <= |a| && n <= |b| && a[..n] == b[..n] && size <= Bytes(bs, n);
    var m: nat :| m <= |b| && m <= |c| && b[..m] == c[..m] && size <= Bytes(bs, m);
    var k := if n < m then n else m;
    assert a[..k] == a[..n][..k] == b[..k] == b[..m][..k] == c[..k];
  }

  // ---------- growing ----------

  /** Another run in the direct range. */
  lemma {:induction false} GrownDirect(g: Geometry, d: Data, run: Run, size: int)
    requires StreamOk(g, d) && d.table == [] && d.indirect.IsZero() && Used(d.direct) < NUM_DIRECT_BLOCKS && RunOk(g, run)
    requires 0 <= size <= d.maxDirect + Bytes(g.blockSize, run.length)
    ensures var d' := d.(direct := AddRun(d.direct, run), maxDirect := d.maxDirect + Bytes(g.blockSize, run.length), size := size);
            StreamOk(g, d') && FileBlocks(d') == FileBlocks(d) + RunAddrs(run)
  {
    RunLength(run);
    hide Bytes, Addrs, ArraysOk, ArrayOk, AllRuns, Runs, RunOk, AddRun, RunAddrs;
    var d' := d.(direct := AddRun(d.direct, run), maxDirect := d.maxDirect + Bytes(g.blockSize, run.length), size := size);
    AddRunBlocks(g, d.direct, run);
    RunNotEmpty(g, run);
    NoArrays(g);
    NoTable(d);
    NoTable(d');
    BytesAdd(g.blockSize, |Addrs(Runs(d.direct))|, run.length);
  }

  /** The blocks for the runs of the indirect range, all of them empty. */
  function NoRuns(g: Geometry): (r: seq<seq<Run>>)
    ensures |r| == 4
  {
    seq(4, _ => seq(g.runsPerBlock, _ => ZERO))
  }

  lemma {:induction false} NoRunsOk(g: Geometry)
    requires g.Valid()
    ensures ArraysOk(g, NoRuns(g)) && Addrs(AllRuns(NoRuns(g))) == [] && FirstFree(g, NoRuns(g), 0)
  {
    var r := NoRuns(g);
    forall i | 0 <= i < 4
      ensures Used(r[i]) == 0
    {
      UsedIs(r[i], 0);
    }
    EmptyArrays(r);
  }

  /** Another run in the indirect range; `d` may be about to begin that range. */
  lemma {:induction false} GrownIndirect(g: Geometry, d: Data, i: nat, run: Run, size: int)
    requires g.Valid() && |d.direct| == NUM_DIRECT_BLOCKS && ArrayOk(g, d.direct) && ArraysOk(g, d.arrays) && d.table == []
    requires RangesOk(g, d) && !d.indirect.IsZero() && FirstFree(g, d.arrays, i) && RunOk(g, run)
    requires 0 <= size <= d.maxIndirect + Bytes(g.blockSize, run.length)
    ensures var d' := d.(arrays := d.arrays[i := AddRun(d.arrays[i], run)], maxIndirect := d.maxIndirect + Bytes(g.blockSize, run.length),
                         size := size);
            StreamOk(g, d') && FileBlocks(d') == FileBlocks(d) + RunAddrs(run)
  {
    RunLength(run);
    assert Used(d.arrays[i]) < |d.arrays[i]|;
    hide Bytes, Addrs, ArraysOk, ArrayOk, AllRuns, Runs, RunOk, AddRun, RunAddrs, Used;
    var arrays' := d.arrays[i := AddRun(d.arrays[i], run)];
    var d' := d.(arrays := arrays', maxIndirect := d.maxIndirect + Bytes(g.blockSize, run.length), size := size);
    AddToArrays(g, d.arrays, i, run);
    RunNotEmpty(g, run);
    NoTable(d);
    NoTable(d');
    NoTable(d'.(size := 0));
    var a, b, b' := Addrs(Runs(d.direct)), Addrs(AllRuns(d.arrays)), Addrs(AllRuns(arrays'));
    Associative(a, b, RunAddrs(run));
    BytesAdd(g.blockSize, |b|, run.length);
    BytesAdd(g.blockSize, |a|, |b'|);
    assert TableOk(g, d'.table);
  }

  /** New blocks beside those the stream holds. */
  lemma {:induction false} HeldMore(blocks: seq<Addr>, more: seq<Addr>, runs: seq<Addr>, others: set<Addr>, used: set<Addr>)
    requires Distinct(blocks + runs) && used == others + Set(blocks + runs) && others !! Set(blocks + runs)
    requires Distinct(more) && Set(more) !! used
    ensures Distinct(blocks + more + runs) && others !! Set(blocks + more + runs)
    ensures used + Set(more) == others + Set(blocks + more + runs)
  {
    hide Set, Distinct;
    DistinctSets(blocks, runs);
    SetConcat(blocks, runs);
    SetConcat(blocks, more);
    SetsDistinct(blocks, more);
    SetConcat(blocks + more, runs);
    SetsDistinct(blocks + more, runs);
  }

  lemma {:induction false} RunDistinct(run: Run)
    ensures Distinct(RunAddrs(run))
  {
  }

  // ---------- contents ----------

  /** Every block of the volume can be read. */
  ghost predicate DiskOk(g: Geometry, disk: Disk) {
    forall x: Addr :: 0 <= x.group < g.groups && 0 <= x.index < g.groupSize ==> x in disk && |disk[x]| == g.blockSize
  }

  predicate DataOnDisk(g: Geometry, disk: Disk, d: Data) {
    OnDisk(g.blockSize, disk, FileBlocks(d)) && 0 <= d.size <= |Flat(g.blockSize, disk, FileBlocks(d))|
  }

  /** The bytes of the file. */
  function Contents(g: Geometry, disk: Disk, d: Data): seq<int>
    requires DataOnDisk(g, disk, d)
  {
    Flat(g.blockSize, disk, FileBlocks(d))[..d.size]
  }

  predicate IsOverwritten(before: seq<int>, after: seq<int>, pos: int, bytes: seq<int>) {
    && 0 <= pos && pos + |bytes| <= |after| && |before| <= |after|
    && after[pos..pos + |bytes|] == bytes
    && forall i :: 0 <= i < |before| && !(pos <= i < pos + |bytes|) ==> after[i] == before[i]
  }

  function Max(a: int, b: int): int {
    if a < b then b else a
  }

  lemma {:induction false} RunsOnDisk(g: Geometry, disk: Disk, runs: seq<Run>)
    requires DiskOk(g, disk) && forall i :: 0 <= i < |runs| ==> RunOk(g, runs[i])
    ensures OnDisk(g.blockSize, disk, Addrs(runs))
  {
    if runs != [] {
      RunsOnDisk(g, disk, runs[..|runs| - 1]);
    }
  }

  lemma {:induction false} AllRunsOk(g: Geometry, arrays: seq<seq<Run>>)
    requires ArraysOk(g, arrays)
    ensures forall i :: 0 <= i < |AllRuns(arrays)| ==> RunOk(g, AllRuns(arrays)[i])
  {
    hide RunOk, Used;
    if arrays != [] {
      AllRunsOk(g, arrays[..|arrays| - 1]);
    }
  }

  /** The blocks of a stream are on the disk. */
  lemma {:induction false} StreamOnDisk(g: Geometry, disk: Disk, d: Data)
    requires StreamOk(g, d) && DiskOk(g, disk)
    ensures DataOnDisk(g, disk, d) && |Flat(g.blockSize, disk, FileBlocks(d))| == Bytes(g.blockSize, |FileBlocks(d)|)
  {
    hide RunOk, Bytes, Used, Addrs;
    RunsOnDisk(g, disk, Runs(d.direct));
    AllRunsOk(g, d.arrays);
    RunsOnDisk(g, disk, AllRuns(d.arrays));
    RowsEqual(g, d.table);
    RunsOnDisk(g, disk, Rows(d.table));
    FlatLength(g.blockSize, disk, FileBlocks(d));
  }

  lemma {:induction false} HeldDistinct(d: Data)
    requires Distinct(Held(d))
    ensures Distinct(FileBlocks(d))
  {
    hide FileBlocks, RunAddrs;
    DistinctSets(FileBlocks(d), RunAddrs(d.indirect));
  }

  lemma {:induction false} ArraysStart(g: Geometry, arrays: seq<seq<Run>>, o: nat, size: int)
    ensures ArraysTrimmed(g, arrays, arrays, 0, 0, o, size) && Addrs(AllRuns(arrays[..0])) == []
    ensures Set(Addrs(AllRuns(arrays[..0]))) == {}
  {
    assert arrays[..0] == [];
    assert AllRuns([]) == [] && Addrs([]) == [];
  }

  lemma {:induction false} ArrayAtHand(g: Geometry, before: seq<seq<Run>>, arrays: seq<seq<Run>>, i: nat, kept: nat, o: nat, size: int)
    requires g.Valid() && ArraysOk(g, before) && ArraysTrimmed(g, before, arrays, i, kept, o, size) && i < |before|
    ensures arrays[i] == before[i] && ArrayOk(g, before[i]) && |before[i]| == g.runsPerBlock
    ensures var done := |Addrs(AllRuns(before[..i]))|;
            && done + |Addrs(Runs(before[i]))| <= |Addrs(AllRuns(before))| && Enough(g.blockSize, o, done, size, kept)
            && (size > Bytes(g.blockSize, o + done) ==>
                  kept == done && Bytes(g.blockSize, o + done + |Addrs(Runs(before[i]))|) <= Bytes(g.blockSize, o + |Addrs(AllRuns(before))|))
  {
    hide Bytes, Addrs, AllRuns, Runs;
    var done := |Addrs(AllRuns(before[..i]))|;
    BytesOrder(g.blockSize, o + kept, o + done);
    AllRunsOneMore(before, i);
    AllRunsSplit(before, i + 1);
    BytesOrder(g.blockSize, o + done + |Addrs(Runs(before[i]))|, o + |Addrs(AllRuns(before))|);
  }

  lemma {:induction false} NextMaximum(g: Geometry, o: nat, done: nat, n: nat, total: nat, size: int, kept: nat, more: nat, max0: int, max: int)
    requires g.Valid() && kept <= done && more <= n && (kept == done || more == 0) && done + n <= total
    requires max0 == Bytes(g.blockSize, o + total)
    requires max == if kept < done then Bytes(g.blockSize, o + kept) else max0
    ensures (if more < n then Min(max, Bytes(g.blockSize, o + done + more)) else max)
            == if kept + more < done + n then Bytes(g.blockSize, o + kept + more) else max0
  {
    hide Bytes;
    BytesOrder(g.blockSize, o + kept, o + done);
    BytesOrder(g.blockSize, o + done + more, o + total);
  }

  lemma {:induction false} SetMore(a: seq<Addr>, b: seq<Addr>, kept: nat, more: nat)
    requires kept <= |a| && more <= |b| && (kept == |a| || more == 0)
    ensures Set((a + b)[kept + more..]) == Set(a[kept..]) + Set(b[more..])
  {
    if kept == |a| {
      assert (a + b)[kept + more..] == b[more..];
      assert a[kept..] == [];
    } else {
      assert (a + b)[kept..] == a[kept..] + b;
      assert b[0..] == b;
    }
  }

  lemma {:induction false} ArraysDone(g: Geometry, before: seq<seq<Run>>, arrays: seq<seq<Run>>, kept: nat, o: nat, size: int)
    requires ArraysTrimmed(g, before, arrays, |before|, kept, o, size)
    ensures ArraysOk(g, arrays) && Enough(g.blockSize, o, |Addrs(AllRuns(before))|, size, kept)
    ensures kept <= |Addrs(AllRuns(before))| && Addrs(AllRuns(arrays)) == Addrs(AllRuns(before))[..kept]
    ensures before[..|before|] == before
  {
    hide Addrs, AllRuns;
    assert before[..|before|] == before && arrays[..|before|] == arrays;
  }
}
