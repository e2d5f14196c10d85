/** The block allocator, with one bitmap block for each allocation group. */
module BlockAllocator {
  import opened BlockRuns
  import opened BlockBitmap
  import opened BlockGroups

  datatype Status = Ok | BadValue | DeviceFull

  function UsedTotal(groups: seq<Group>): int {
    if groups == [] then 0
    else UsedTotal(groups[..|groups| - 1]) + groups[|groups| - 1].numBits - groups[|groups| - 1].freeBits
  }

  lemma {:induction false} UsedTotalChange(groups: seq<Group>, i: nat, group: Group)
    requires i < |groups| && group.numBits == groups[i].numBits
    ensures UsedTotal(groups[i := group]) == UsedTotal(groups) + groups[i].freeBits - group.freeBits
  {
    var n := |groups| - 1;
    if i == n {
      assert groups[i := group][..n] == groups[..n];
    } else {
      UsedTotalChange(groups[..n], i, group);
      assert groups[i := group][..n] == groups[..n][i := group];
    }
  }

  predicate GroupsOk(groups: seq<Group>, bitmaps: seq<seq<Word>>) {
    && |groups| == |bitmaps| > 0
    && forall i :: 0 <= i < |groups| ==> GroupOk(groups[i], bitmaps[i])
  }

  /** The bits of group `i`. */
  function GroupBits(groups: seq<Group>, bitmaps: seq<seq<Word>>, i: int): (r: seq<bool>)
    requires GroupsOk(groups, bitmaps) && 0 <= i < |groups|
    ensures |r| == groups[i].numBits
  {
    Bits(bitmaps[i], groups[i].numBits)
  }

  /** The blocks of a run. */
  function Blocks(run: Run): set<Addr> {
    set i | run.start <= i < run.start + run.length :: Addr(run.group, i)
  }

  predicate InUse(groups: seq<Group>, bitmaps: seq<seq<Word>>, a: Addr)
    requires GroupsOk(groups, bitmaps)
  {
    0 <= a.group < |groups| && 0 <= a.index < groups[a.group].numBits && GroupBits(groups, bitmaps, a.group)[a.index]
  }

  /** The blocks that were handed out and not given back are all in use. */
  ghost predicate LiveOk(groups: seq<Group>, bitmaps: seq<seq<Word>>, live: set<Addr>)
    requires GroupsOk(groups, bitmaps)
  {
    forall a :: a in live ==> InUse(groups, bitmaps, a)
  }

  /** Exactly the blocks of `run` have changed to `v`. */
  ghost predicate OnlyRun(groups: seq<Group>, bitmaps: seq<seq<Word>>, groups': seq<Group>, bitmaps': seq<seq<Word>>, run: Run, v: bool) {
    && GroupsOk(groups, bitmaps) && GroupsOk(groups', bitmaps') && |groups'| == |groups| && 0 <= run.group < |groups|
    && (forall i :: 0 <= i < |groups| ==> groups'[i].numBits == groups[i].numBits)
    && GroupBits(groups', bitmaps', run.group) == Fill(GroupBits(groups, bitmaps, run.group), run.start, run.length, v)
    && (forall i :: 0 <= i < |groups| && i != run.group ==> groups'[i] == groups[i] && bitmaps'[i] == bitmaps[i])
  }

  /** A run that was free shares no block with what was handed out. */
  lemma {:induction false} FreeNotLive(groups: seq<Group>, bitmaps: seq<seq<Word>>, live: set<Addr>, run: Run)
    requires GroupsOk(groups, bitmaps) && LiveOk(groups, bitmaps, live) && 0 <= run.group < |groups|
    requires FreeRun(GroupBits(groups, bitmaps, run.group), run.start, run.length)
    ensures Blocks(run) !! live
  {
    hide GroupBits, GroupsOk;
    forall a | a in live
      ensures a !in Blocks(run)
    {
      assert InUse(groups, bitmaps, a);
    }
  }

  lemma {:induction false} LiveMore(groups: seq<Group>, bitmaps: seq<seq<Word>>, groups': seq<Group>, bitmaps': seq<seq<Word>>,
                                    live: set<Addr>, run: Run)
    requires OnlyRun(groups, bitmaps, groups', bitmaps', run, true) && LiveOk(groups, bitmaps, live)
    requires FreeRun(GroupBits(groups, bitmaps, run.group), run.start, run.length)
    ensures LiveOk(groups', bitmaps', live + Blocks(run))
  {
    hide GroupBits, GroupsOk;
    forall a | a in live + Blocks(run)
      ensures InUse(groups', bitmaps', a)
    {
      if a in live {
        assert InUse(groups, bitmaps, a);
      }
      if a.group != run.group {
        SameGroup(groups, bitmaps, groups', bitmaps', a.group);
      }
    }
  }

  lemma {:induction false} SameGroup(groups: seq<Group>, bitmaps: seq<seq<Word>>, groups': seq<Group>, bitmaps': seq<seq<Word>>, i: int)
    requires GroupsOk(groups, bitmaps) && GroupsOk(groups', bitmaps') && 0 <= i < |groups| && |groups'| == |groups|
    requires groups'[i] == groups[i] && bitmaps'[i] == bitmaps[i]
    ensures GroupBits(groups', bitmaps', i) == GroupBits(groups, bitmaps, i)
  {
  }

  lemma {:induction false} LiveLess(groups: seq<Group>, bitmaps: seq<seq<Word>>, groups': seq<Group>, bitmaps': seq<seq<Word>>,
                                    live: set<Addr>, run: Run)
    requires OnlyRun(groups, bitmaps, groups', bitmaps', run, false) && LiveOk(groups, bitmaps, live)
    ensures LiveOk(groups', bitmaps', live - Blocks(run))
  {
    hide GroupBits, GroupsOk;
    forall a | a in live - Blocks(run)
      ensures InUse(groups', bitmaps', a)
    {
      assert InUse(groups, bitmaps, a);
      if a.group != run.group {
        SameGroup(groups, bitmaps, groups', bitmaps', a.group);
      } else {
        assert !(run.start <= a.index < run.start + run.length);
      }
    }
  }

  /** The blocks of a run that were handed out are in use. */
  lemma {:induction false} LiveRun(groups: seq<Group>, bitmaps: seq<seq<Word>>, live: set<Addr>, run: Run)
    requires GroupsOk(groups, bitmaps) && LiveOk(groups, bitmaps, live) && Blocks(run) <= live
    requires 0 <= run.group < |groups| && 0 <= run.start && run.start + run.length <= groups[run.group].numBits
    ensures UsedRun(GroupBits(groups, bitmaps, run.group), run.start, run.length)
  {
    hide GroupsOk, Bits;
    forall b | run.start <= b < run.start + run.length
      ensures GroupBits(groups, bitmaps, run.group)[b]
    {
      assert Addr(run.group, b) in Blocks(run);
      assert InUse(groups, bitmaps, Addr(run.group, b));
    }
  }

  /** A group after `run` has been taken from it. */
  lemma {:induction false} GroupTaken(group: Group, words: seq<Word>, words': seq<Word>, start: int, length: int)
    requires GroupOk(group, words) && FreeRun(Bits(words, group.numBits), start, length) && 0 < length
    requires Holds(words', group.numBits) && Bits(words', group.numBits) == Fill(Bits(words, group.numBits), start, length, true)
    ensures GroupOk(group.(firstFree := if start == group.firstFree then start + length else group.firstFree,
                           freeBits := group.freeBits - length), words')
  {
    hide Bits, FreeIn;
    FillCounts(Bits(words, group.numBits), start, length, true);
  }

  /** A group after blocks have been given back. */
  lemma {:induction false} GroupGiven(group: Group, words: seq<Word>, words': seq<Word>, start: int, length: int)
    requires GroupOk(group, words) && UsedRun(Bits(words, group.numBits), start, length) && 0 < length
    requires Holds(words', group.numBits) && Bits(words', group.numBits) == Fill(Bits(words, group.numBits), start, length, false)
    ensures GroupOk(group.(firstFree := if group.firstFree > start then start else group.firstFree,
                           freeBits := group.freeBits + length), words')
  {
    hide Bits, FreeIn;
    FillCounts(Bits(words, group.numBits), start, length, false);
  }

  lemma {:induction false} NotFull(group: Group, words: seq<Word>)
    requires GroupOk(group, words) && group.freeBits != 0
    ensures group.firstFree < group.numBits
  {
    hide Bits;
    if group.firstFree == group.numBits {
      AllUsed(Bits(words, group.numBits));
    }
  }

  lemma {:induction false} AllUsed(bits: seq<bool>)
    requires forall b :: 0 <= b < |bits| ==> bits[b]
    ensures FreeIn(bits) == 0
  {
    if bits != [] {
      AllUsed(bits[..|bits| - 1]);
    }
  }

  lemma {:induction false} NoRunBefore(bits: seq<bool>, start0: int, start: int, end: int, n: int)
    requires 0 <= start0 <= start <= |bits| && 0 < n && NoRun(bits, start, end, n)
    requires start0 < start ==> forall b :: 0 <= b < start ==> bits[b]
    ensures NoRun(bits, start0, end, n)
  {
    forall s | start0 <= s && s + n <= end
      ensures !FreeRun(bits, s, n)
    {
      if s < start {
        assert bits[s];
      }
    }
  }

  /** Blocks in front of the first free one make no difference. */
  lemma {:induction false} FromStart(bits: seq<bool>, start0: int, start: int, s: int, range: int, maximum: int, need: int)
    requires 0 <= start0 <= start <= |bits| && 0 < need && FirstPlace(bits, start, s, need) && WholeRange(bits, start, s, range, maximum)
    requires start0 < start ==> forall b :: 0 <= b < start ==> bits[b]
    ensures FirstPlace(bits, start0, s, need) && WholeRange(bits, start0, s, range, maximum)
  {
    forall t | start0 <= t < s
      ensures !FreeRun(bits, t, need)
    {
      if t < start {
        assert bits[t];
      }
    }
  }

  // ---------- going through the groups ----------

  /** The group that is looked at in round `i`, beginning with group `first`. */
  function Turn(first: int, i: int, n: int): int {
    if first + i < n then first + i else if first + i < 2 * n then first + i - n else first + i - 2 * n
  }

  /** Group `g` has been looked at in the first `k` rounds of a pass. */
  predicate Visited(first: int, k: int, n: int, g: int) {
    first <= g < first + k || g < first + k - n
  }

  lemma {:induction false} NextTurn(first: int, i: int, n: int)
    requires 0 <= first < n && 0 <= i < 2 * n
    ensures 0 <= Turn(first, i, n) < n && (Turn(first, i, n) + 1) % n == if i + 1 < 2 * n then Turn(first, i + 1, n) else first
  {
    Remainder(Turn(first, i, n) + 1, n);
  }

  lemma {:induction false} Remainder(x: int, n: int)
    requires 0 <= x <= n && 0 < n
    ensures x % n == if x == n then 0 else x
  {
    if x == n {
      assert n == n * 1 + 0;
    }
  }

  /** The round of a pass in which group `g` is looked at. */
  function RoundOf(first: int, g: int, n: int): int {
    if g >= first then g - first else g - first + n
  }

  lemma {:induction false} RoundOfTurn(first: int, i: int, n: int)
    requires 0 <= first < n && 0 <= i < 2 * n
    ensures RoundOf(first, Turn(first, i, n), n) == if i < n then i else i - n
    ensures forall g, k :: 0 <= g < n && 0 <= k <= n ==> (Visited(first, k, n, g) <==> RoundOf(first, g, n) < k)
  {
  }

  /** Where the search in group `g` began on the first pass. */
  function Begin(first: int, start: int, g: int): int {
    if g == first then start else 0
  }

  /** What `i` rounds without success say. */
  ghost predicate NotFound(groups: seq<Group>, bitmaps: seq<seq<Word>>, first: int, start: int, i: int, maximum: int, minimum: int)
    requires GroupsOk(groups, bitmaps)
  {
    var n := |groups|;
    && (forall g :: 0 <= g < n && Visited(first, i, n, g) ==>
          NoRun(GroupBits(groups, bitmaps, g), Begin(first, start, g), groups[g].numBits, maximum))
    && (forall g :: 0 <= g < n && Visited(first, i - n, n, g) ==>
          NoRun(GroupBits(groups, bitmaps, g), 0, groups[g].numBits, minimum))
  }

  lemma {:induction false} OneMoreRound(groups: seq<Group>, bitmaps: seq<seq<Word>>, first: int, start: int, i: int,
                                        maximum: int, minimum: int)
    requires GroupsOk(groups, bitmaps) && 0 <= first < |groups| && 0 <= i < 2 * |groups|
    requires NotFound(groups, bitmaps, first, start, i, maximum, minimum)
    requires var n := |groups|; var g := Turn(first, i, n);
             && 0 <= g < n
             && NoRun(GroupBits(groups, bitmaps, g), if i == 0 then start else 0, groups[g].numBits, if i < n then maximum else minimum)
    ensures NotFound(groups, bitmaps, first, start, i + 1, maximum, minimum)
  {
    hide GroupsOk, GroupBits, NoRun;
    var n := |groups|;
    var i', k, k' := i + 1, i - n, i + 1 - n;
    assert forall g :: 0 <= g < n && Visited(first, i', n, g) ==> Visited(first, i, n, g) || (i < n && g == Turn(first, i, n));
    assert forall g :: 0 <= g < n && Visited(first, k', n, g) ==> Visited(first, k, n, g) || (i >= n && g == Turn(first, i, n));
  }

  /** A group that is skipped has nothing to offer. */
  lemma {:induction false} Skipped(groups: seq<Group>, bitmaps: seq<seq<Word>>, g: int, start: int, need: int)
    requires GroupsOk(groups, bitmaps) && 0 <= g < |groups| && 0 <= start && 1 <= need
    requires start >= groups[g].numBits || groups[g].freeBits == 0
    ensures NoRun(GroupBits(groups, bitmaps, g), start, groups[g].numBits, need)
  {
    hide Bits;
    var bits := GroupBits(groups, bitmaps, g);
    assert GroupOk(groups[g], bitmaps[g]);
    if start < groups[g].numBits {
      NoneFree(bits);
      forall s | start <= s && s + need <= groups[g].numBits
        ensures !FreeRun(bits, s, need)
      {
        assert bits[s];
      }
    }
  }

  /** No place is left that would do. */
  ghost predicate NoPlace(groups: seq<Group>, bitmaps: seq<seq<Word>>, first: int, start: int, maximum: int, minimum: int)
    requires GroupsOk(groups, bitmaps)
  {
    forall g, s :: 0 <= g < |groups| && FreeRun(GroupBits(groups, bitmaps, g), s, minimum) ==>
      minimum == maximum && g == first && s < start
  }

  /** The answer of the first pass: `maximum` blocks in the first group in turn that has so
      many, at the first place there. */
  ghost predicate FullAnswer(groups: seq<Group>, bitmaps: seq<seq<Word>>, first: int, start: int, maximum: int, run: Run)
    requires GroupsOk(groups, bitmaps)
  {
    var n := |groups|;
    && 0 <= run.group < n && run.length == maximum
    && FirstPlace(GroupBits(groups, bitmaps, run.group), Begin(first, start, run.group), run.start, maximum)
    && forall g :: 0 <= g < n && RoundOf(first, g, n) < RoundOf(first, run.group, n) ==>
         NoRun(GroupBits(groups, bitmaps, g), Begin(first, start, g), groups[g].numBits, maximum)
  }

  /** That of the second pass, if no group has so many: the first free range of at least
      `minimum` blocks, in the first group in turn that has one, with its whole length. */
  ghost predicate PartAnswer(groups: seq<Group>, bitmaps: seq<seq<Word>>, first: int, start: int, maximum: int, minimum: int, run: Run)
    requires GroupsOk(groups, bitmaps)
  {
    var n := |groups|;
    && (forall g :: 0 <= g < n ==> NoRun(GroupBits(groups, bitmaps, g), Begin(first, start, g), groups[g].numBits, maximum))
    && 0 <= run.group < n && minimum <= run.length
    && FirstPlace(GroupBits(groups, bitmaps, run.group), 0, run.start, minimum)
    && WholeRange(GroupBits(groups, bitmaps, run.group), 0, run.start, run.length, maximum)
    && forall g :: 0 <= g < n && RoundOf(first, g, n) < RoundOf(first, run.group, n) ==>
         NoRun(GroupBits(groups, bitmaps, g), 0, groups[g].numBits, minimum)
  }

  lemma {:induction false} FoundInRound(groups: seq<Group>, bitmaps: seq<seq<Word>>, first: int, start: int, i: int,
                                        maximum: int, minimum: int, run: Run)
    requires GroupsOk(groups, bitmaps) && 0 <= first < |groups| && 0 <= i < 2 * |groups|
    requires NotFound(groups, bitmaps, first, start, i, maximum, minimum)
    requires run.group == Turn(first, i, |groups|) && 0 <= run.group < |groups| && minimum <= run.length
    requires i < |groups| ==> run.length == maximum
    requires FirstPlace(GroupBits(groups, bitmaps, run.group), if i == 0 then start else 0, run.start, if i < |groups| then maximum else minimum)
    requires WholeRange(GroupBits(groups, bitmaps, run.group), if i == 0 then start else 0, run.start, run.length, maximum)
    ensures if i < |groups| then FullAnswer(groups, bitmaps, first, start, maximum, run)
            else PartAnswer(groups, bitmaps, first, start, maximum, minimum, run)
  {
    hide GroupsOk, GroupBits, NoRun, FirstPlace, WholeRange;
    var n := |groups|;
    RoundOfTurn(first, i, n);
    assert i >= n ==> forall g :: 0 <= g < n ==> Visited(first, i, n, g);
  }

  lemma {:induction false} NowhereFound(groups: seq<Group>, bitmaps: seq<seq<Word>>, first: int, start: int, i: int, maximum: int, minimum: int)
    requires GroupsOk(groups, bitmaps) && 0 <= first < |groups| && NotFound(groups, bitmaps, first, start, i, maximum, minimum)
    requires (i >= |groups| && maximum == minimum) || i == 2 * |groups|
    ensures NoPlace(groups, bitmaps, first, start, maximum, minimum)
  {
    hide GroupsOk, Bits;
    var n := |groups|;
    forall g, s | 0 <= g < n && FreeRun(GroupBits(groups, bitmaps, g), s, minimum)
      ensures minimum == maximum && g == first && s < start
    {
      assert Visited(first, i, n, g);
      assert i == 2 * n ==> Visited(first, i - n, n, g);
    }
  }

  class BlockAllocator {
    var groups: seq<Group>
    var bitmaps: seq<seq<Word>>
    var usedBlocks: int           // in the super block
    const reserved: int           // the first block of group 0 behind the log
    ghost var live: set<Addr>

    ghost predicate Valid()
      reads this
    {
      && GroupsOk(groups, bitmaps) && usedBlocks == UsedTotal(groups)
      && LiveOk(groups, bitmaps, live)
    }

    /** The state after mounting: the bitmaps as they are on the disk.  `held` are blocks
        that files have from before.  A group of less than four blocks is not looked at, and
        is right all the same exactly if it has no free block. */
    constructor (bitmaps: seq<seq<Word>>, sizes: seq<int>, reserved: int, ghost held: set<Addr>)
      requires |sizes| == |bitmaps| > 0
      requires forall i :: 0 <= i < |sizes| ==> sizes[i] < ALL_BLOCKS && Holds(bitmaps[i], sizes[i])
      requires forall i :: 0 <= i < |sizes| ==> sizes[i] >= 4 || FreeIn(Bits(bitmaps[i], sizes[i])) == 0
      requires forall a :: a in held ==>
                 0 <= a.group < |sizes| && 0 <= a.index < sizes[a.group] && Bits(bitmaps[a.group], sizes[a.group])[a.index]
      ensures Valid() && live == held && this.reserved == reserved && this.bitmaps == bitmaps && |groups| == |sizes|
      ensures forall i :: 0 <= i < |sizes| ==>
                groups[i].numBits == sizes[i] && Summary(Bits(bitmaps[i], sizes[i]), groups[i], sizes[i])
    {
      hide FreeIn, NoRun, FreeRun, Bits;
      var all: seq<Group> := [];
      var used := 0;
      var i := 0;
      while i < |sizes|
        invariant 0 <= i <= |sizes| && |all| == i && used == UsedTotal(all)
        invariant forall j :: 0 <= j < i ==> all[j].numBits == sizes[j] && Summary(Bits(bitmaps[j], sizes[j]), all[j], sizes[j])
      {
        var g := ScanGroup(bitmaps[i], sizes[i]);
        if sizes[i] < 4 {
          FullSummary(bitmaps[i], sizes[i]);
        }
        assert (all + [g])[..i] == all;
        all := all + [g];
        used := used + (sizes[i] - g.freeBits);
        i := i + 1;
      }
      groups, this.bitmaps, usedBlocks, this.reserved, live := all, bitmaps, used, reserved, held;
      assert forall j :: 0 <= j < |sizes| ==> GroupOk(all[j], bitmaps[j]) by {
        forall j | 0 <= j < |sizes|
          ensures GroupOk(all[j], bitmaps[j])
        {
          SummaryOk(bitmaps[j], all[j]);
        }
      }
    }

    /** The part of AllocateBlocks that looks through one group and takes what it finds. */
    method AllocateInGroup(group: int, start0: int, maximum: int, minimum: int, second: bool) returns (found: bool, run: Run)
      requires Valid() && 0 <= group < |groups| && 0 <= start0 < groups[group].numBits && 1 <= minimum <= maximum
      requires groups[group].freeBits != 0
      modifies this
      ensures Valid()
      ensures found ==>
                && run.group == group && start0 <= run.start && minimum <= run.length <= maximum && (!second ==> run.length == maximum)
                && GroupsOk(old(groups), old(bitmaps))
                && FirstPlace(GroupBits(old(groups), old(bitmaps), group), start0, run.start, if second then minimum else maximum)
                && WholeRange(GroupBits(old(groups), old(bitmaps), group), start0, run.start, run.length, maximum)
                && FreeRun(GroupBits(old(groups), old(bitmaps), group), run.start, run.length)
                && OnlyRun(old(groups), old(bitmaps), groups, bitmaps, run, true)
                && live == old(live) + Blocks(run) && usedBlocks == old(usedBlocks) + run.length
      ensures !found ==>
                && groups == old(groups) && bitmaps == old(bitmaps) && live == old(live) && usedBlocks == old(usedBlocks)
                && NoRun(GroupBits(groups, bitmaps, group), start0, groups[group].numBits, if second then minimum else maximum)
    {
      found, run := false, ZERO;
      var start := start0;
      if start < groups[group].firstFree {
        start := groups[group].firstFree;
      }
      NotFull(groups[group], bitmaps[group]);
      var range, rangeStart := FindRange(bitmaps[group], groups[group].numBits, start, maximum, minimum, second);
      var numBlocks := if second then minimum else maximum;
      if range < numBlocks {
        NoRunBefore(GroupBits(groups, bitmaps, group), start0, start, groups[group].numBits, numBlocks);
        return;
      }
      if numBlocks < maximum {
        numBlocks := range;
      }
      FromStart(GroupBits(groups, bitmaps, group), start0, start, rangeStart, range, maximum, if second then minimum else maximum);
      Take(group, rangeStart, numBlocks);
      return true, Run(group, rangeStart, numBlocks);
    }

    /** Marks a free run as used. */
    method Take(group: int, start: int, length: int)
      requires Valid() && 0 <= group < |groups| && 0 < length
      requires FreeRun(GroupBits(groups, bitmaps, group), start, length)
      modifies this
      ensures Valid() && OnlyRun(old(groups), old(bitmaps), groups, bitmaps, Run(group, start, length), true)
      ensures live == old(live) + Blocks(Run(group, start, length)) && usedBlocks == old(usedBlocks) + length
    {
      hide Bits, Fill, UsedTotal, LiveOk;
      var g := groups[group];
      var block := new AllocationBlock(bitmaps[group], g.numBits);
      Remainder(start, g.numBits);
      block.Allocate(start, length);
      GroupTaken(g, bitmaps[group], block.words, start, length);
      var g' := g.(firstFree := if start == g.firstFree then start + length else g.firstFree, freeBits := g.freeBits - length);
      UsedTotalChange(groups, group, g');
      ghost var groups0, bitmaps0 := groups, bitmaps;
      groups := groups[group := g'];
      bitmaps := bitmaps[group := block.words];
      usedBlocks := usedBlocks + length;
      live := live + Blocks(Run(group, start, length));
      LiveMore(groups0, bitmaps0, groups, bitmaps, old(live), Run(group, start, length));
    }
  
    /** Searches the groups in turn, twice: first for `maximum` blocks, then for `minimum`.
        Nothing is found exactly when there are no `minimum` consecutive free blocks in
        any group; only if the minimum is the maximum, blocks of the first group in front
        of `start0` do not count. */
    method AllocateBlocks(group0: int, start0: int, maximum: int, minimum: int) returns (status: Status, run: Run)
      requires Valid() && 0 <= group0 && 0 <= start0 && 1 <= minimum <= maximum
      modifies this
      ensures Valid()
      ensures status == Ok || status == DeviceFull
      ensures status == Ok ==>
                && minimum <= run.length <= maximum
                && GroupsOk(old(groups), old(bitmaps)) && OnlyRun(old(groups), old(bitmaps), groups, bitmaps, run, true)
                && FreeRun(GroupBits(old(groups), old(bitmaps), run.group), run.start, run.length)
                && (FullAnswer(old(groups), old(bitmaps), group0 % |old(groups)|, start0, maximum, run)
                    || PartAnswer(old(groups), old(bitmaps), group0 % |old(groups)|, start0, maximum, minimum, run))
                && Blocks(run) !! old(live) && live == old(live) + Blocks(run) && usedBlocks == old(usedBlocks) + run.length
      ensures status == DeviceFull ==>
                && groups == old(groups) && bitmaps == old(bitmaps) && live == old(live) && usedBlocks == old(usedBlocks)
      ensures status == DeviceFull <==> NoPlace(old(groups), old(bitmaps), group0 % |old(groups)|, start0, maximum, minimum)
    {
      hide GroupOk, GroupBits, LiveOk, UsedTotal, NoRun, NoPlace, NotFound, FreeRun, Blocks, FirstPlace, WholeRange, FullAnswer, PartAnswer;
      var n := |groups|;
      var group, start := group0, start0;
      ghost var first := group0 % n;
      var i := 0;
      StartSearch(groups, bitmaps, first, start0, maximum, minimum);
      while i < 2 * n
        invariant 0 <= i <= 2 * n && Valid() && 0 <= group
        invariant groups == old(groups) && bitmaps == old(bitmaps) && live == old(live) && usedBlocks == old(usedBlocks)
        invariant i < 2 * n ==> group % n == Turn(first, i, n)
        invariant start == if i == 0 then start0 else 0
        invariant NotFound(groups, bitmaps, first, start0, i, maximum, minimum)
        decreases 2 * n - i
      {
        NextTurn(first, i, n);
        group := group % n;
        if start >= groups[group].numBits || groups[group].freeBits == 0 {
          Skipped(groups, bitmaps, group, start, if i < n then maximum else minimum);
        } else {
          if i >= n && maximum == minimum {
            NowhereFound(groups, bitmaps, first, start0, i, maximum, minimum);
            return DeviceFull, ZERO;
          }
          var found;
          found, run := AllocateInGroup(group, start, maximum, minimum, i >= n);
          if found {
            FoundInRound(old(groups), old(bitmaps), first, start0, i, maximum, minimum, run);
            SomePlace(old(groups), old(bitmaps), first, start0, i, maximum, minimum, run);
            FreeNotLive(old(groups), old(bitmaps), old(live), run);
            return Ok, run;
          }
        }
        OneMoreRound(groups, bitmaps, first, start0, i, maximum, minimum);
        i, group, start := i + 1, group + 1, 0;
      }
      NowhereFound(groups, bitmaps, first, start0, i, maximum, minimum);
      return DeviceFull, ZERO;
    }

    static lemma {:induction false} StartSearch(groups: seq<Group>, bitmaps: seq<seq<Word>>, first: int, start: int, maximum: int, minimum: int)
      requires GroupsOk(groups, bitmaps) && 0 <= first < |groups|
      ensures NotFound(groups, bitmaps, first, start, 0, maximum, minimum)
    {
      hide NoRun, GroupsOk;
    }

    static lemma {:induction false} SomePlace(groups: seq<Group>, bitmaps: seq<seq<Word>>, first: int, start: int, i: int,
                                              maximum: int, minimum: int, run: Run)
      requires GroupsOk(groups, bitmaps) && 0 <= first < |groups| && 0 <= i < 2 * |groups|
      requires run.group == Turn(first, i, |groups|) && 0 <= run.group < |groups| && minimum <= run.length
      requires FreeRun(GroupBits(groups, bitmaps, run.group), run.start, run.length)
      requires run.start >= if i == 0 then start else 0
      requires i < |groups| || minimum < maximum
      ensures !NoPlace(groups, bitmaps, first, start, maximum, minimum)
    {
      hide GroupsOk, GroupBits, FreeRun;
      ShorterIsFree(GroupBits(groups, bitmaps, run.group), run.start, run.length, minimum);
    }

    /** Gives back a run, or any part of one, or runs joined.  A run that reaches beyond its group, is empty, or lies in the
        reserved blocks at the beginning of the volume is refused. */
    method Free(run: Run) returns (status: Status)
      requires Valid() && 0 <= run.start && 0 <= run.length
      requires ValidRun(run) ==> Blocks(run) <= live
      modifies this
      ensures Valid()
      ensures status == if old(ValidRun(run)) then Ok else BadValue
      ensures status == BadValue ==> groups == old(groups) && bitmaps == old(bitmaps) && live == old(live) && usedBlocks == old(usedBlocks)
      ensures status == Ok ==> OnlyRun(old(groups), old(bitmaps), groups, bitmaps, run, false)
      ensures status == Ok ==> live == old(live) - Blocks(run) && usedBlocks == old(usedBlocks) - run.length
    {
      hide GroupOk, Bits, Fill, UsedTotal, LiveOk, Blocks;
      var group, start, length := run.group, run.start, run.length;
      if group < 0 || group >= |groups| || start > groups[group].numBits || start + length > groups[group].numBits || length == 0 {
        return BadValue;
      }
      if group == 0 && start < reserved {
        return BadValue;
      }
      LiveRun(groups, bitmaps, live, run);
      Give(group, start, length);
      status := Ok;
    }

    /** Marks a run as free that is used. */
    method Give(group: int, start: int, length: int)
      requires Valid() && 0 <= group < |groups| && 0 < length
      requires UsedRun(GroupBits(groups, bitmaps, group), start, length)
      modifies this
      ensures Valid() && OnlyRun(old(groups), old(bitmaps), groups, bitmaps, Run(group, start, length), false)
      ensures live == old(live) - Blocks(Run(group, start, length)) && usedBlocks == old(usedBlocks) - length
    {
      hide Bits, Fill, UsedTotal, LiveOk, Blocks;
      var g := groups[group];
      var block := new AllocationBlock(bitmaps[group], g.numBits);
      Remainder(start, g.numBits);
      block.Free(start, length);
      GroupGiven(g, bitmaps[group], block.words, start, length);
      var g' := g.(firstFree := if g.firstFree > start then start else g.firstFree, freeBits := g.freeBits + length);
      UsedTotalChange(groups, group, g');
      ghost var groups0, bitmaps0 := groups, bitmaps;
      groups := groups[group := g'];
      bitmaps := bitmaps[group := block.words];
      usedBlocks := usedBlocks - length;
      live := live - Blocks(Run(group, start, length));
      LiveLess(groups0, bitmaps0, groups, bitmaps, old(live), Run(group, start, length));
    }

    predicate ValidRun(run: Run)
      reads this
    {
      && 0 <= run.group < |groups| && run.length != 0 && run.start + run.length <= groups[run.group].numBits
      && !(run.group == 0 && run.start < reserved)
    }
  }
}
