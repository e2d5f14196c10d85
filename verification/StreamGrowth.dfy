/** What growing a stream does, run by run: which blocks are taken from the volume, where
they go, and when a run finds no place and is lost. */
module StreamGrowth {
  import opened Sequences
  import opened BlockUnits
  import opened BlockRuns
  import opened StreamShape
  import opened StreamLookup
  import opened StreamDouble
  import opened StreamAccess
  import opened StreamChange
  import opened StreamBlocks

  /** What the allocator has to offer: the next run it has found, cut to what is asked for. */
  function Offer(offers: seq<Run>, blocks: int): Run
    requires offers != []
  {
    offers[0].(length := Min(offers[0].length, blocks))
  }

  predicate CanAllocate(g: Geometry, used: set<Addr>, offers: seq<Run>, blocks: int, minimum: int) {
    && offers != []
    && var run := Offer(offers, blocks);
       RunOk(g, run) && run.length >= minimum && forall i :: 0 <= i < |RunAddrs(run)| ==> RunAddrs(run)[i] !in used
  }

  function Rest(offers: seq<Run>): seq<Run> {
    if offers == [] then [] else offers[1..]
  }

  /** The stream, the blocks in use, and what the allocator will find. */
  datatype Stage = Stage(data: Data, used: set<Addr>, offers: seq<Run>)

  /** The stage with the next run allocated and not placed. */
  ghost function Taken(s: Stage, blocks: int): Stage
    requires s.offers != []
  {
    Stage(s.data, s.used + Set(RunAddrs(Offer(s.offers, blocks))), s.offers[1..])
  }

  /** The number of the first array of runs with a free entry. */
  function FirstRoom(g: Geometry, arrays: seq<seq<Run>>): (i: nat)
    ensures i <= |arrays|
    ensures i < |arrays| ==> Used(arrays[i]) != g.runsPerBlock
    ensures forall j :: 0 <= j < i ==> Used(arrays[j]) == g.runsPerBlock
  {
    if arrays == [] || Used(arrays[0]) != g.runsPerBlock then 0
    else
      var i := FirstRoom(g, arrays[1..]);
      assert forall j :: 1 <= j < i + 1 ==> arrays[j] == arrays[1..][j - 1];
      1 + i
  }

  lemma {:induction false} FirstRoomIs(g: Geometry, arrays: seq<seq<Run>>, i: nat)
    requires i <= |arrays| && (i < |arrays| ==> Used(arrays[i]) != g.runsPerBlock)
    requires forall j :: 0 <= j < i ==> Used(arrays[j]) == g.runsPerBlock
    ensures FirstRoom(g, arrays) == i
  {
  }

  predicate TakesDirect(d: Data) {
    d.size <= d.maxDirect && Used(d.direct) < NUM_DIRECT_BLOCKS
  }

  /** A run that has been allocated finds no place: the direct range does not take it, and
      all blocks of the indirect range are full, or there is no such range and no four
      blocks for it. */
  predicate NoPlace(g: Geometry, s: Stage) {
    && !TakesDirect(s.data)
    && if s.data.indirect.IsZero() then !CanAllocate(g, s.used, s.offers, 4, 4)
       else FirstRoom(g, s.data.arrays) == |s.data.arrays|
  }

  function PlaceStatus(g: Geometry, s: Stage): Status {
    if !NoPlace(g, s) then Ok else if s.data.indirect.IsZero() then DeviceFull else TooBig
  }

  /** The stream with a run in its direct range; `left` blocks are still needed. */
  function InDirect(g: Geometry, d: Data, run: Run, left: int, size: int): Data
    requires Used(d.direct) < |d.direct|
  {
    var max := d.maxDirect + Bytes(g.blockSize, run.length);
    d.(direct := AddRun(d.direct, run), maxDirect := max, size := if left > 0 then max else size)
  }

  /** The same for array `i` of the indirect range. */
  function InArray(g: Geometry, d: Data, i: nat, run: Run, left: int, size: int): Data
    requires i < |d.arrays| && Used(d.arrays[i]) < |d.arrays[i]|
  {
    var max := d.maxIndirect + Bytes(g.blockSize, run.length);
    d.(arrays := d.arrays[i := AddRun(d.arrays[i], run)], maxIndirect := max, size := if left > 0 then max else size)
  }

  /** The stream with an empty indirect range. */
  function WithIndirect(g: Geometry, d: Data, indirect: Run): Data {
    d.(indirect := indirect, arrays := NoRuns(g), maxIndirect := d.maxDirect)
  }

  /** The stage after a run was placed, or was not. */
  ghost function Placed(g: Geometry, s: Stage, run: Run, left: int, size: int): Stage
    requires StreamOk(g, s.data)
  {
    var d := s.data;
    if TakesDirect(d) then s.(data := InDirect(g, d, run, left, size))
    else if d.indirect.IsZero() then
      if CanAllocate(g, s.used, s.offers, 4, 4) then
        NoRunsOk(g);
        var begun := WithIndirect(g, d, Offer(s.offers, 4));
        assert Used(begun.arrays[0]) < |begun.arrays[0]|;
        Taken(s, 4).(data := InArray(g, begun, 0, run, left, size))
      else s.(offers := Rest(s.offers))
    else
      var i := FirstRoom(g, d.arrays);
      if i == |d.arrays| then s
      else
        assert |d.arrays[i]| == g.runsPerBlock;
        s.(data := InArray(g, d, i, run, left, size))
  }

  /** How growing ends. */
  datatype Growth = Growth(stage: Stage, lost: Run, status: Status)

  /** The loop of Inode::GrowStream from a point where `needed` blocks are missing and
      `blocks` will be asked for. */
  ghost function GrowBy(g: Geometry, s: Stage, blocks: int, needed: int, size: int): Growth
    decreases needed
  {
    if needed <= 0 || !StreamOk(g, s.data) then Growth(s.(data := s.data.(size := size)), ZERO, Ok)
    else if !CanAllocate(g, s.used, s.offers, blocks, 1) then Growth(s.(offers := Rest(s.offers)), ZERO, DeviceFull)
    else
      var run := Offer(s.offers, blocks);
      var t, left := Taken(s, blocks), needed - run.length;
      if NoPlace(g, t) then
        Growth(Placed(g, t, run, left, size), run, PlaceStatus(g, t))
      else GrowBy(g, Placed(g, t, run, left, size), left, left, size)
  }

  lemma {:induction false} GrowDone(g: Geometry, s: Stage, blocks: int, needed: int, size: int)
    requires needed <= 0
    ensures GrowBy(g, s, blocks, needed, size) == Growth(s.(data := s.data.(size := size)), ZERO, Ok)
  {
  }

  /** How many blocks the new size needs beyond those there are, and how many are asked for
      first: at least 64 KB, if the volume has more than 128 free blocks. */
  function Needed(g: Geometry, d: Data, size: int): int
    requires g.Valid()
  {
    Whole(g.blockSize, size - Bytes(g.blockSize, |FileBlocks(d)|) + g.blockSize - 1)
  }

  function Request(g: Geometry, needed: int, free: int): int
    requires g.Valid()
  {
    if needed < Whole(g.blockSize, 65536) && free > 128 then Whole(g.blockSize, 65536) else needed
  }

  /** Inode::GrowStream. */
  ghost function Grow(g: Geometry, s: Stage, size: int, free: int): Growth
    requires g.Valid()
  {
    var d := s.data;
    if size < d.maxDirect || size < d.maxIndirect || size < d.maxDouble then Growth(s.(data := d.(size := size)), ZERO, Ok)
    else
      var needed := Needed(g, d, size);
      if needed > free then Growth(s, ZERO, DeviceFull)
      else GrowBy(g, s, Request(g, needed, free), needed, size)
  }

  /** Nothing is lost if the direct range has an entry for every block that is needed. */
  lemma {:induction false} FreeEntriesSuffice(g: Geometry, s: Stage, blocks: int, needed: int, size: int)
    requires StreamOk(g, s.data) && s.data.table == [] && s.data.indirect.IsZero()
    requires Used(s.data.direct) + needed <= NUM_DIRECT_BLOCKS
    ensures GrowBy(g, s, blocks, needed, size).lost == ZERO
    decreases needed
  {
    hide Used, CanAllocate, AddRun, Bytes, RunAddrs, Addrs, Set;
    if needed > 0 && CanAllocate(g, s.used, s.offers, blocks, 1) {
      Allocated(g, s, blocks);
      var run := Offer(s.offers, blocks);
      var t, left := Taken(s, blocks), needed - run.length;
      DirectTakes(g, s.data);
      assert TakesDirect(t.data);
      if left > 0 {
        BytesOrder(g.blockSize, 0, run.length);
        BytesAdd(g.blockSize, 0, 0);
        RangeLengths(g, s.data);
        GrownDirect(g, s.data, run, s.data.maxDirect + Bytes(g.blockSize, run.length));
        AddRunBlocks(g, s.data.direct, run);
        FreeEntriesSuffice(g, Placed(g, t, run, left, size), left, left, size);
      }
    }
  }

  lemma {:induction false} Allocated(g: Geometry, s: Stage, blocks: int)
    requires CanAllocate(g, s.used, s.offers, blocks, 1)
    ensures s.offers != [] && RunOk(g, Offer(s.offers, blocks)) && Offer(s.offers, blocks).length >= 1
  {
  }

  lemma {:induction false} DirectTakes(g: Geometry, d: Data)
    requires StreamOk(g, d) && d.table == [] && d.indirect.IsZero()
    ensures d.size <= d.maxDirect
  {
    hide Bytes, Addrs;
    RangeLengths(g, d);
    NoTable(d);
  }

  /** Growing inside the blocks there are needs nothing. */
  lemma {:induction false} GrowsInside(g: Geometry, s: Stage, size: int, free: int)
    requires StreamOk(g, s.data) && s.data.table == [] && s.data.size < size < Bytes(g.blockSize, |FileBlocks(s.data)|)
    ensures Grow(g, s, size, free) == Growth(s.(data := s.data.(size := size)), ZERO, Ok)
  {
    hide Bytes, Addrs, Whole;
    RangeLengths(g, s.data);
    NoTable(s.data);
  }

  /** Growing succeeds if the volume has room and one run that is offered is long enough for
      the direct range, and the file ends with that run. */
  lemma {:induction false} GrowsInOneRun(g: Geometry, s: Stage, size: int, free: int)
    requires StreamOk(g, s.data) && s.data.table == [] && s.data.indirect.IsZero() && Used(s.data.direct) < NUM_DIRECT_BLOCKS
    requires size > Bytes(g.blockSize, |FileBlocks(s.data)|) && Needed(g, s.data, size) <= free
    requires var blocks := Request(g, Needed(g, s.data, size), free);
             CanAllocate(g, s.used, s.offers, blocks, 1) && Offer(s.offers, blocks).length >= Needed(g, s.data, size)
    ensures var run := Offer(s.offers, Request(g, Needed(g, s.data, size), free));
            var r := Grow(g, s, size, free);
            && r.status == Ok && r.lost == ZERO && r.stage.data.size == size
            && r.stage.used == s.used + Set(RunAddrs(run))
            && FileBlocks(r.stage.data) == FileBlocks(s.data) + RunAddrs(run)
  {
    hide Bytes, Addrs, CanAllocate, Used, AddRun, RunAddrs, Set, Whole, Needed, Request;
    var blocks, needed := Request(g, Needed(g, s.data, size), free), Needed(g, s.data, size);
    RangeLengths(g, s.data);
    NoTable(s.data);
    DirectTakes(g, s.data);
    BytesAdd(g.blockSize, 0, 0);
    NeededSome(g, s.data, size);
    Allocated(g, s, blocks);
    var run := Offer(s.offers, blocks);
    BytesAdd(g.blockSize, |FileBlocks(s.data)|, run.length);
    BytesOrder(g.blockSize, |FileBlocks(s.data)| + needed, |FileBlocks(s.data)| + run.length);
    GrownDirect(g, s.data, run, size);
    GrowDone(g, Placed(g, Taken(s, blocks), run, needed - run.length, size), needed - run.length, needed - run.length, size);
  }

  lemma {:induction false} NeededSome(g: Geometry, d: Data, size: int)
    requires g.Valid() && size > Bytes(g.blockSize, |FileBlocks(d)|)
    ensures Needed(g, d, size) > 0 && size <= Bytes(g.blockSize, |FileBlocks(d)| + Needed(g, d, size))
  {
    hide Bytes, Whole;
    var bs, n, k := g.blockSize, |FileBlocks(d)|, Needed(g, d, size);
    Divide(bs, size - Bytes(bs, n) + bs - 1);
    BytesAdd(bs, n, k);
    BytesAdd(bs, k, 1);
    BytesAdd(bs, 0, 0);
    BytesOrder(bs, k + 1, 1);
  }

  /** Small requests are raised to 64 KB on a volume with more than 128 free blocks, and no
      other; in any case enough is asked for. */
  lemma {:induction false} RequestIs(g: Geometry, needed: int, free: int)
    requires g.Valid() && g.blockSize <= 65536
    ensures Request(g, needed, free) >= needed
    ensures Request(g, needed, free) > needed <==> free > 128 && Bytes(g.blockSize, needed + 1) <= 65536
    ensures Request(g, needed, free) > needed ==>
              Bytes(g.blockSize, Request(g, needed, free)) <= 65536 < Bytes(g.blockSize, Request(g, needed, free) + 1)
  {
    hide Bytes, Whole;
    Divide(g.blockSize, 65536);
    var k := Whole(g.blockSize, 65536);
    BytesAdd(g.blockSize, k, 1);
    BytesOrder(g.blockSize, needed + 1, k);
    BytesOrder(g.blockSize, k + 1, needed + 1);
  }

  // ---------- a run that is lost ----------

  lemma {:induction false} SingleBlocks(runs: seq<Run>)
    requires forall i :: 0 <= i < |runs| ==> runs[i].length == 1
    ensures |Addrs(runs)| == |runs|
    ensures forall i :: 0 <= i < |runs| ==> Addrs(runs)[i] == Addr(runs[i].group, runs[i].start)
  {
    if runs != [] {
      var n := |runs| - 1;
      SingleBlocks(runs[..n]);
      assert RunAddrs(runs[n]) == [Addr(runs[n].group, runs[n].start)];
    }
  }

  const SMALL := Geometry(1024, 128, 1, 1000)

  /** A file of twelve blocks, each in a run of its own. */
  function Scattered(): Data {
    Data(seq(12, i requires 0 <= i < 12 => Run(0, 2 * i, 1)), 12288, ZERO, [], 0, [], 0, 12288)
  }

  lemma {:induction false} ScatteredBlocks()
    ensures Used(Scattered().direct) == NUM_DIRECT_BLOCKS && ArrayOk(SMALL, Scattered().direct)
    ensures |FileBlocks(Scattered())| == 12 && Held(Scattered()) == FileBlocks(Scattered())
    ensures forall i :: 0 <= i < 12 ==> FileBlocks(Scattered())[i] == Addr(0, 2 * i)
  {
    ScatteredRuns();
    hide Addrs, AllRuns, Rows, RunAddrs, Used, Runs, ArrayOk;
    var d := Scattered();
    SingleBlocks(d.direct);
    NoIndirect(d);
  }

  lemma {:induction false} ScatteredRuns()
    ensures var a := Scattered().direct; Used(a) == NUM_DIRECT_BLOCKS && ArrayOk(SMALL, a) && Runs(a) == a
  {
    UsedIs(Scattered().direct, 12);
  }

  lemma {:induction false} NoIndirect(d: Data)
    requires d.indirect == ZERO && d.arrays == [] && d.table == []
    ensures Held(d) == FileBlocks(d) == Addrs(Runs(d.direct))
  {
    hide Runs;
  }

  lemma {:induction false} ScatteredOk()
    ensures StreamOk(SMALL, Scattered()) && Distinct(Held(Scattered()))
    ensures |FileBlocks(Scattered())| == |Held(Scattered())| == 12
    ensures Set(Held(Scattered())) == set i | 0 <= i < 12 :: Addr(0, 2 * i)
  {
    ScatteredBlocks();
    var d := Scattered();
    NoArrays(SMALL);
    hide Used, Runs, AllRuns, RunAddrs, FileBlocks, Held;
    assert |Addrs(Runs(d.direct))| == 12 by {
      NoTable(d);
      hide Scattered;
      RangeCount(d);
    }
  }

  lemma {:induction false} RangeCount(d: Data)
    requires d.table == [] && d.arrays == []
    ensures |Addrs(Runs(d.direct))| == |FileBlocks(d)|
  {
    hide Runs;
    assert Addrs(AllRuns([])) == [] && Addrs(Rows([])) == [];
  }

  /** One more block, and no four for the indirect range: the block is lost. */
  lemma {:induction false} BlockLost(used: set<Addr>)
    requires Addr(0, 100) !in used
    ensures var s := Stage(Scattered(), used, [Run(0, 100, 1)]);
            Grow(SMALL, s, 13312, 100) == Growth(Stage(Scattered(), used + {Addr(0, 100)}, []), Run(0, 100, 1), DeviceFull)
  {
    var s, run := Stage(Scattered(), used, [Run(0, 100, 1)]), Run(0, 100, 1);
    ScatteredBlocks();
    ScatteredOk();
    hide StreamOk, Scattered, FileBlocks, Used;
    assert Needed(SMALL, s.data, 13312) == 1;
    assert Offer(s.offers, 1) == run && RunAddrs(run) == [Addr(0, 100)];
    assert CanAllocate(SMALL, used, s.offers, 1, 1);
    assert Set(RunAddrs(run)) == {Addr(0, 100)};
    assert Taken(s, 1) == Stage(Scattered(), used + {Addr(0, 100)}, []);
    assert NoPlace(SMALL, Taken(s, 1));
  }
}
