/** How the lists of runs change when a stream grows or shrinks. */
module StreamChange {
  import opened Sequences
  import opened BlockUnits
  import opened BlockRuns
  import opened StreamShape
  import opened StreamLookup

  // ---------- one more run ----------

  /** Puts a run into the first free entry, or joins it to the one before. */
  function AddRun(a: seq<Run>, run: Run): (r: seq<Run>)
    requires Used(a) < |a|
    ensures |r| == |a|
  {
    var free := Used(a);
    if free > 0 && a[free - 1].group == run.group && a[free - 1].start + a[free - 1].length == run.start
    then a[free - 1 := a[free - 1].(length := a[free - 1].length + run.length)]
    else a[free := run]
  }

  lemma {:induction false} JoinRuns(a: Run, b: Run)
    requires a.group == b.group && a.start + a.length == b.start && a.length >= 0 && b.length >= 0
    ensures RunAddrs(a.(length := a.length + b.length)) == RunAddrs(a) + RunAddrs(b)
  {
  }

  lemma {:induction false} AddRunBlocks(g: Geometry, a: seq<Run>, run: Run)
    requires ArrayOk(g, a) && RunOk(g, run) && Used(a) < |a|
    ensures ArrayOk(g, AddRun(a, run)) && Used(AddRun(a, run)) > 0
    ensures Addrs(Runs(AddRun(a, run))) == Addrs(Runs(a)) + RunAddrs(run)
    ensures Used(a) <= Used(AddRun(a, run)) <= Used(a) + 1
  {
    hide RunAddrs, Used, Addrs;
    var free := Used(a);
    var r := AddRun(a, run);
    if free > 0 && a[free - 1].group == run.group && a[free - 1].start + a[free - 1].length == run.start {
      var last := r[free - 1];
      assert RunOk(g, a[free - 1]);
      UsedIs(r, free);
      JoinRuns(a[free - 1], run);
      assert Runs(a) == a[..free - 1] + [a[free - 1]];
      assert Runs(r) == a[..free - 1] + [last];
      AddrsOneMore(a[..free - 1], a[free - 1]);
      AddrsOneMore(a[..free - 1], last);
      Associative(Addrs(a[..free - 1]), RunAddrs(a[free - 1]), RunAddrs(run));
    } else {
      UsedIs(r, free + 1);
      assert Runs(r) == Runs(a) + [run];
      AddrsOneMore(Runs(a), run);
    }
  }

  /** The first array with a free entry. */
  predicate FirstFree(g: Geometry, arrays: seq<seq<Run>>, i: nat) {
    i < |arrays| && Used(arrays[i]) < g.runsPerBlock && forall j :: 0 <= j < i ==> Used(arrays[j]) == g.runsPerBlock
  }

  lemma {:induction false} EmptyArrays(arrays: seq<seq<Run>>)
    requires forall i :: 0 <= i < |arrays| ==> Used(arrays[i]) == 0
    ensures AllRuns(arrays) == [] && Addrs(AllRuns(arrays)) == []
  {
    if arrays != [] {
      EmptyArrays(arrays[..|arrays| - 1]);
    }
  }

  lemma {:induction false} AddToArrays(g: Geometry, arrays: seq<seq<Run>>, i: nat, run: Run)
    requires g.Valid() && ArraysOk(g, arrays) && RunOk(g, run) && FirstFree(g, arrays, i)
    ensures var arrays' := arrays[i := AddRun(arrays[i], run)];
            ArraysOk(g, arrays') && Addrs(AllRuns(arrays')) == Addrs(AllRuns(arrays)) + RunAddrs(run)
  {
    hide RunAddrs, AddRun, AllRuns, Runs, ArrayOk, Addrs;
    var arrays' := arrays[i := AddRun(arrays[i], run)];
    AddRunBlocks(g, arrays[i], run);
    forall j | i < j < |arrays|
      ensures Used(arrays[j]) == 0
    {
    }
    EmptyArrays(arrays[i + 1..]);
    assert arrays'[i + 1..] == arrays[i + 1..] && arrays'[..i] == arrays[..i];
    AllRunsSplit(arrays, i + 1);
    AllRunsSplit(arrays', i + 1);
    AllRunsOneMore(arrays, i);
    AllRunsOneMore(arrays', i);
    Associative(Addrs(AllRuns(arrays[..i])), Addrs(Runs(arrays[i])), RunAddrs(run));
  }

  // ---------- giving up the runs behind a size ----------

  /** The first `i` entries have been looked at: `kept` of their blocks are left, in the
      first `m` entries, and the others are zero. */
  ghost predicate Trimmed(g: Geometry, before: seq<Run>, a: seq<Run>, i: nat, m: nat, kept: nat) {
    && m <= i <= Used(before) && |a| == |before|
    && (forall j :: 0 <= j < m ==> RunOk(g, a[j]))
    && (forall j :: m <= j < i ==> a[j] == ZERO)
    && (forall j :: i <= j < |a| ==> a[j] == before[j])
    && kept <= |Addrs(before[..i])| && Addrs(a[..m]) == Addrs(before[..i])[..kept]
    && (kept == |Addrs(before[..i])| ==> m == i && a == before)
  }

  /** How many blocks are kept: all of them, or enough for the size and at most one more. */
  predicate Enough(bs: int, o: nat, total: nat, size: int, kept: nat) {
    && kept <= total
    && (kept < total ==> size <= Bytes(bs, o + kept))
    && (size <= Bytes(bs, o) ==> kept == 0)
    && (kept == 0 || Bytes(bs, o + kept) <= size + bs)
  }

  /** The next run is kept as a whole. */
  lemma {:induction false} KeepRun(g: Geometry, before: seq<Run>, a: seq<Run>, i: nat, kept: nat)
    requires Trimmed(g, before, a, i, i, kept) && kept == |Addrs(before[..i])| && i < Used(before) && RunOk(g, before[i])
    ensures |Addrs(before[..i + 1])| == kept + before[i].length
    ensures Trimmed(g, before, a, i + 1, i + 1, kept + before[i].length)
  {
    hide RunOk, RunAddrs, Used;
    RunNotEmpty(g, before[i]);
    RunLength(before[i]);
    OneMore(before, i);
    OneMore(a, i);
  }

  lemma {:induction false} RunLength(run: Run)
    ensures run.length >= 0 ==> |RunAddrs(run)| == run.length
  {
  }

  lemma {:induction false} OneMore(a: seq<Run>, i: nat)
    requires i < |a|
    ensures Addrs(a[..i + 1]) == Addrs(a[..i]) + RunAddrs(a[i])
  {
    assert a[..i + 1][..i] == a[..i];
  }

  /** The first `c` blocks of the next run are kept. */
  lemma {:induction false} CutRun(g: Geometry, before: seq<Run>, a: seq<Run>, i: nat, kept: nat, c: int)
    requires Trimmed(g, before, a, i, i, kept) && kept == |Addrs(before[..i])| && i < Used(before) && RunOk(g, before[i])
    requires 0 < c <= before[i].length
    ensures |Addrs(before[..i + 1])| == kept + before[i].length
    ensures Trimmed(g, before, a[i := before[i].(length := c)], i + 1, i + 1, kept + c)
    ensures RunAddrs(Run(before[i].group, before[i].start + c, before[i].length - c))
            == Addrs(before[..i + 1])[kept + c..kept + before[i].length]
  {
    hide Used;
    var run := before[i];
    var a' := a[i := run.(length := c)];
    OneMore(before, i);
    OneMore(a', i);
    assert a'[..i] == a[..i];
    SplitRun(run, c);
    var all := Addrs(before[..i + 1]);
    assert all[..kept + c] == Addrs(before[..i]) + RunAddrs(run)[..c];
    assert all[kept + c..] == RunAddrs(run)[c..];
  }

  lemma {:induction false} SplitRun(run: Run, c: int)
    requires 0 <= c <= run.length
    ensures RunAddrs(run.(length := c)) == RunAddrs(run)[..c]
    ensures RunAddrs(Run(run.group, run.start + c, run.length - c)) == RunAddrs(run)[c..]
  {
  }

  /** The next run is given up as a whole. */
  lemma {:induction false} DropRun(g: Geometry, before: seq<Run>, a: seq<Run>, i: nat, m: nat, kept: nat)
    requires Trimmed(g, before, a, i, m, kept) && i < Used(before) && RunOk(g, before[i])
    ensures |Addrs(before[..i + 1])| == |Addrs(before[..i])| + before[i].length
    ensures Trimmed(g, before, a[i := ZERO], i + 1, m, kept)
    ensures RunAddrs(before[i]) == Addrs(before[..i + 1])[|Addrs(before[..i])|..]
    ensures Addrs(before[..i + 1])[kept..|Addrs(before[..i])|] == Addrs(before[..i])[kept..]
  {
    hide RunOk, RunAddrs, Used;
    RunLength(before[i]);
    OneMore(before, i);
    assert a[i := ZERO][..m] == a[..m];
    assert before[i].length > 0 by {
      RunNotEmpty(g, before[i]);
    }
  }

  lemma {:induction false} RunNotEmpty(g: Geometry, run: Run)
    requires RunOk(g, run)
    ensures run.length > 0
  {
  }

  /** What is left at the end is an array again. */
  lemma {:induction false} TrimmedArray(g: Geometry, before: seq<Run>, a: seq<Run>, m: nat, kept: nat)
    requires ArrayOk(g, before) && Trimmed(g, before, a, Used(before), m, kept)
    ensures kept == |Addrs(Runs(before))| ==> a == before
    ensures ArrayOk(g, a) && Used(a) == m && Addrs(Runs(a)) == Addrs(Runs(before))[..kept]
  {
    assert forall j :: 0 <= j < m ==> RunOk(g, a[j]);
    hide Addrs;
    UsedIs(a, m);
  }

  // ---------- the same for all arrays of the indirect range ----------

  /** The first `i` arrays have been looked at; `kept` of their blocks are left. */
  ghost predicate ArraysTrimmed(g: Geometry, before: seq<seq<Run>>, arrays: seq<seq<Run>>, i: nat, kept: nat, o: nat, size: int) {
    && |arrays| == |before| && i <= |before|
    && (forall j :: i <= j < |arrays| ==> arrays[j] == before[j])
    && (forall j :: 0 <= j < i ==> |arrays[j]| == g.runsPerBlock && ArrayOk(g, arrays[j]))
    && (forall j, k :: 0 <= j < k < i && Used(arrays[k]) > 0 ==> Used(arrays[j]) == g.runsPerBlock)
    && (kept == |Addrs(AllRuns(before[..i]))| ==> arrays[..i] == before[..i])
    && Enough(g.blockSize, o, |Addrs(AllRuns(before[..i]))|, size, kept)
    && Addrs(AllRuns(arrays[..i])) == Addrs(AllRuns(before[..i]))[..kept]
  }

  lemma {:induction false} NothingLeft(g: Geometry, a: seq<Run>)
    requires ArrayOk(g, a)
    ensures Used(a) == 0 <==> Addrs(Runs(a)) == []
  {
    if Used(a) > 0 {
      AddrsAt(Runs(a), 0);
      RunNotEmpty(g, a[0]);
      RunLength(a[0]);
    }
  }

  /** Keeping all blocks of an array leaves it as it was. */
  lemma {:induction false} NextArray(g: Geometry, before: seq<seq<Run>>, arrays: seq<seq<Run>>, i: nat, kept: nat, o: nat, size: int,
                                     a: seq<Run>, more: nat)
    requires g.Valid() && ArraysOk(g, before) && ArraysTrimmed(g, before, arrays, i, kept, o, size) && i < |before|
    requires ArrayOk(g, a) && |a| == g.runsPerBlock
    requires Enough(g.blockSize, o + |Addrs(AllRuns(before[..i]))|, |Addrs(Runs(before[i]))|, size, more)
    requires Addrs(Runs(a)) == Addrs(Runs(before[i]))[..more]
    requires more == |Addrs(Runs(before[i]))| ==> a == before[i]
    ensures kept == |Addrs(AllRuns(before[..i]))| || more == 0
    ensures ArraysTrimmed(g, before, arrays[i := a], i + 1, kept + more, o, size)
    ensures Addrs(AllRuns(before[..i + 1])) == Addrs(AllRuns(before[..i])) + Addrs(Runs(before[i]))
  {
    hide Bytes, ArrayOk, Addrs, AllRuns, Runs;
    var done := |Addrs(AllRuns(before[..i]))|;
    var arrays' := arrays[i := a];
    BytesOrder(g.blockSize, o + kept, o + done);
    assert kept == done || more == 0;
    assert more == 0 ==> Addrs(Runs(a)) == [];
    NothingLeft(g, a);
    NothingLeft(g, before[i]);
    AllRunsOneMore(before, i);
    AllRunsOneMore(arrays', i);
    assert arrays'[..i] == arrays[..i];
    if kept + more == done + |Addrs(Runs(before[i]))| {
      assert arrays'[..i + 1] == arrays[..i] + [a];
      assert before[..i + 1] == before[..i] + [before[i]];
    }
    assert (Addrs(AllRuns(before[..i])) + Addrs(Runs(before[i])))[..kept + more]
        == Addrs(AllRuns(before[..i]))[..kept] + Addrs(Runs(before[i]))[..more];
  }
}
