/** The block allocator as a stream sees it: what the bitmaps say is the set of blocks in
use, and every answer of the allocator is one a stream can be offered. */
module VolumeBlocks {
  import opened BlockRuns
  import opened StreamShape
  import opened StreamBlocks
  import opened StreamGrowth
  import opened BlockBitmap
  import opened BlockGroups
  import opened BlockAllocator

  // ---------- the blocks in use ----------

  function UsedIn(group: int, bits: seq<bool>): set<Addr> {
    set i | 0 <= i < |bits| && bits[i] :: Addr(group, i)
  }

  lemma {:induction false} UsedInCount(group: int, bits: seq<bool>)
    ensures |UsedIn(group, bits)| == |bits| - FreeIn(bits)
  {
    if bits != [] {
      var n := |bits| - 1;
      UsedInCount(group, bits[..n]);
      assert UsedIn(group, bits) == UsedIn(group, bits[..n]) + if bits[n] then {Addr(group, n)} else {};
    }
  }

  /** The blocks whose bits are set. */
  function UsedBlocks(groups: seq<Group>, bitmaps: seq<seq<Word>>): set<Addr>
    requires GroupsOk(groups, bitmaps)
  {
    set g, i | 0 <= g < |groups| && 0 <= i < groups[g].numBits && GroupBits(groups, bitmaps, g)[i] :: Addr(g, i)
  }

  lemma {:induction false} IsUsedBlock(groups: seq<Group>, bitmaps: seq<seq<Word>>, a: Addr)
    requires GroupsOk(groups, bitmaps)
    ensures a in UsedBlocks(groups, bitmaps) <==> InUse(groups, bitmaps, a)
  {
    hide GroupsOk, GroupBits;
  }

  /** The blocks of the first groups. */
  function UsedUpTo(groups: seq<Group>, bitmaps: seq<seq<Word>>, n: nat): set<Addr>
    requires GroupsOk(groups, bitmaps) && n <= |groups|
  {
    if n == 0 then {} else UsedUpTo(groups, bitmaps, n - 1) + UsedIn(n - 1, GroupBits(groups, bitmaps, n - 1))
  }

  lemma {:induction false} UsedUpToHas(groups: seq<Group>, bitmaps: seq<seq<Word>>, n: nat, a: Addr)
    requires GroupsOk(groups, bitmaps) && n <= |groups|
    ensures a in UsedUpTo(groups, bitmaps, n) <==> InUse(groups, bitmaps, a) && a.group < n
  {
    hide GroupBits, GroupsOk;
    if n > 0 {
      UsedUpToHas(groups, bitmaps, n - 1, a);
      assert a in UsedIn(n - 1, GroupBits(groups, bitmaps, n - 1))
        <==> a.group == n - 1 && 0 <= a.index < |GroupBits(groups, bitmaps, n - 1)| && GroupBits(groups, bitmaps, n - 1)[a.index];
    }
  }

  lemma {:induction false} UsedUpToCount(groups: seq<Group>, bitmaps: seq<seq<Word>>, n: nat)
    requires GroupsOk(groups, bitmaps) && n <= |groups|
    ensures |UsedUpTo(groups, bitmaps, n)| == UsedTotal(groups[..n])
  {
    hide GroupBits, GroupsOk, InUse;
    if n > 0 {
      UsedUpToCount(groups, bitmaps, n - 1);
      UsedInCount(n - 1, GroupBits(groups, bitmaps, n - 1));
      assert groups[..n][..n - 1] == groups[..n - 1];
      CounterIs(groups, bitmaps, n - 1);
      var before, here := UsedUpTo(groups, bitmaps, n - 1), UsedIn(n - 1, GroupBits(groups, bitmaps, n - 1));
      forall a | a in before
        ensures a !in here
      {
        UsedUpToHas(groups, bitmaps, n - 1, a);
      }
    }
  }

  lemma {:induction false} CounterIs(groups: seq<Group>, bitmaps: seq<seq<Word>>, i: nat)
    requires GroupsOk(groups, bitmaps) && i < |groups|
    ensures groups[i].freeBits == FreeIn(GroupBits(groups, bitmaps, i)) && |GroupBits(groups, bitmaps, i)| == groups[i].numBits
  {
    assert GroupOk(groups[i], bitmaps[i]);
  }

  /** The number of used blocks in the super block is the number of set bits. */
  lemma {:induction false} UsedBlocksCount(groups: seq<Group>, bitmaps: seq<seq<Word>>)
    requires GroupsOk(groups, bitmaps)
    ensures |UsedBlocks(groups, bitmaps)| == UsedTotal(groups)
  {
    hide GroupBits, GroupsOk, UsedUpTo, UsedBlocks;
    UsedUpToCount(groups, bitmaps, |groups|);
    assert groups[..|groups|] == groups;
    forall a
      ensures a in UsedUpTo(groups, bitmaps, |groups|) <==> a in UsedBlocks(groups, bitmaps)
    {
      UsedUpToHas(groups, bitmaps, |groups|, a);
      IsUsedBlock(groups, bitmaps, a);
    }
    assert UsedUpTo(groups, bitmaps, |groups|) == UsedBlocks(groups, bitmaps);
  }

  /** A run has changed, and no other block. */
  lemma {:induction false} RunChanged(groups: seq<Group>, bitmaps: seq<seq<Word>>, groups': seq<Group>, bitmaps': seq<seq<Word>>,
                                      run: Run, v: bool)
    requires OnlyRun(groups, bitmaps, groups', bitmaps', run, v)
    requires 0 <= run.start && run.start + run.length <= groups[run.group].numBits
    ensures UsedBlocks(groups', bitmaps')
         == if v then UsedBlocks(groups, bitmaps) + Set(RunAddrs(run)) else UsedBlocks(groups, bitmaps) - Set(RunAddrs(run))
  {
    hide GroupsOk, GroupBits, UsedBlocks;
    forall a
      ensures a in UsedBlocks(groups', bitmaps')
         <==> if v then a in UsedBlocks(groups, bitmaps) || a in Set(RunAddrs(run))
              else a in UsedBlocks(groups, bitmaps) && a !in Set(RunAddrs(run))
    {
      IsUsedBlock(groups, bitmaps, a);
      IsUsedBlock(groups', bitmaps', a);
      InRun(run, a);
      if 0 <= a.group < |groups| && a.group != run.group {
        SameGroup(groups, bitmaps, groups', bitmaps', a.group);
      }
    }
  }

  lemma {:induction false} InRun(run: Run, a: Addr)
    ensures a in Set(RunAddrs(run)) <==> a.group == run.group && run.start <= a.index < run.start + run.length
  {
    if a.group == run.group && run.start <= a.index < run.start + run.length {
      assert RunAddrs(run)[a.index - run.start] == a;
    }
  }

  lemma {:induction false} BlocksAre(run: Run)
    ensures Blocks(run) == Set(RunAddrs(run))
  {
    forall a
      ensures a in Blocks(run) <==> a in Set(RunAddrs(run))
    {
      InRun(run, a);
    }
  }

  // ---------- the calls of a stream ----------

  /** The geometry is that of the allocator. */
  predicate Describes(g: Geometry, groups: seq<Group>) {
    g.groups == |groups| && forall i :: 0 <= i < |groups| ==> groups[i].numBits <= g.groupSize
  }

  /** Volume::Allocate: the stream is offered what the allocator finds, and if it finds
      nothing there is nothing on offer. */
  method Allocate(allocator: BlockAllocator, g: Geometry, group: int, start: int, blocks: int, minimum: int)
    returns (found: bool, run: Run, ghost offers: seq<Run>)
    requires allocator.Valid() && Describes(g, allocator.groups) && 0 <= group && 0 <= start && 1 <= minimum <= blocks
    modifies allocator
    ensures allocator.Valid() && GroupsOk(old(allocator.groups), old(allocator.bitmaps)) && Describes(g, allocator.groups)
    ensures var used := UsedBlocks(old(allocator.groups), old(allocator.bitmaps));
            && (found <==> CanAllocate(g, used, offers, blocks, minimum))
            && (found ==> offers != [] && run == Offer(offers, blocks))
            && UsedBlocks(allocator.groups, allocator.bitmaps) == if found then used + Set(RunAddrs(run)) else used
    ensures allocator.live == if found then old(allocator.live) + Set(RunAddrs(run)) else old(allocator.live)
  {
    hide GroupsOk, LiveOk, Blocks, GroupBits, UsedTotal, FreeRun;
    var status;
    status, run := allocator.AllocateBlocks(group, start, blocks, minimum);
    found := status == Ok;
    if found {
      offers := [run];
      BlocksAre(run);
      RunFits(old(allocator.groups), old(allocator.bitmaps), run);
      RunChanged(old(allocator.groups), old(allocator.bitmaps), allocator.groups, allocator.bitmaps, run, true);
      RunWasFree(old(allocator.groups), old(allocator.bitmaps), run);
    } else {
      offers := [];
    }
  }

  lemma {:induction false} RunFits(groups: seq<Group>, bitmaps: seq<seq<Word>>, run: Run)
    requires GroupsOk(groups, bitmaps) && 0 <= run.group < |groups|
    requires FreeRun(GroupBits(groups, bitmaps, run.group), run.start, run.length)
    ensures 0 <= run.start && run.start + run.length <= groups[run.group].numBits
  {
    hide GroupsOk, Bits;
  }

  lemma {:induction false} RunWasFree(groups: seq<Group>, bitmaps: seq<seq<Word>>, run: Run)
    requires GroupsOk(groups, bitmaps) && 0 <= run.group < |groups|
    requires FreeRun(GroupBits(groups, bitmaps, run.group), run.start, run.length)
    ensures forall i :: 0 <= i < |RunAddrs(run)| ==> RunAddrs(run)[i] !in UsedBlocks(groups, bitmaps)
  {
    hide GroupsOk, GroupBits, UsedBlocks;
    forall i | 0 <= i < |RunAddrs(run)|
      ensures RunAddrs(run)[i] !in UsedBlocks(groups, bitmaps)
    {
      IsUsedBlock(groups, bitmaps, RunAddrs(run)[i]);
    }
  }

  /** Volume::Free: the blocks of a run a stream gives back. */
  method Free(allocator: BlockAllocator, g: Geometry, run: Run)
    requires allocator.Valid() && Describes(g, allocator.groups)
    requires RunOk(g, run) && allocator.ValidRun(run) && Set(RunAddrs(run)) <= allocator.live
    modifies allocator
    ensures allocator.Valid() && GroupsOk(old(allocator.groups), old(allocator.bitmaps)) && Describes(g, allocator.groups)
    ensures UsedBlocks(allocator.groups, allocator.bitmaps)
         == UsedBlocks(old(allocator.groups), old(allocator.bitmaps)) - Set(RunAddrs(run))
    ensures allocator.live == old(allocator.live) - Set(RunAddrs(run))
  {
    hide GroupsOk, LiveOk, GroupBits, UsedTotal, Blocks;
    BlocksAre(run);
    var _ := allocator.Free(run);
    RunChanged(old(allocator.groups), old(allocator.bitmaps), allocator.groups, allocator.bitmaps, run, false);
  }
}
