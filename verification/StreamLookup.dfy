/** Finding the block run that holds a position of a file. */
module StreamLookup {
  import opened Sequences
  import opened BlockUnits
  import opened BlockRuns
  import opened StreamShape

  /** `run` stands at place `at` of the blocks and `pos` is in it; `offset` is where the run
      begins in the file. */
  predicate Covers(bs: int, addrs: seq<Addr>, pos: int, run: Run, offset: int, at: nat) {
    && run.length > 0 && at + run.length <= |addrs| && addrs[at..at + run.length] == RunAddrs(run)
    && offset == Bytes(bs, at) && offset <= pos < offset + Bytes(bs, run.length)
  }

  /** The same blocks further back in a longer list. */
  lemma {:induction false} CoversBehind(bs: int, front: seq<Addr>, addrs: seq<Addr>, back: seq<Addr>, pos: int, run: Run, offset: int, at: nat)
    requires Covers(bs, addrs, pos - Bytes(bs, |front|), run, offset - Bytes(bs, |front|), at)
    ensures Covers(bs, front + addrs + back, pos, run, offset, |front| + at)
  {
    hide Bytes;
    BytesAdd(bs, |front|, at);
    var all := front + addrs + back;
    assert all[|front| + at..|front| + at + run.length] == addrs[at..at + run.length];
  }

  /** Looks through one array of runs; `end` is where its first run begins in the file. */
  method FindInArray(g: Geometry, a: seq<Run>, begin: int, pos: int) returns (found: bool, run: Run, offset: int, end: int, ghost at: nat)
    requires g.Valid() && ArrayOk(g, a) && begin <= pos
    ensures found ==> RunOk(g, run) && begin <= offset
                      && Covers(g.blockSize, Addrs(Runs(a)), pos - begin, run, offset - begin, at)
    ensures !found ==> end == begin + Bytes(g.blockSize, |Addrs(Runs(a))|) <= pos
  {
    hide Bytes, RunAddrs;
    run, offset, end, at := ZERO, 0, begin, 0;
    BytesAdd(g.blockSize, 0, 0);
    var current := 0;
    while current < |a| && !a[current].IsZero()
      invariant 0 <= current <= Used(a)
      invariant end == begin + Bytes(g.blockSize, |Addrs(a[..current])|) <= pos
    {
      ghost var runs := Runs(a);
      assert runs[..current] == a[..current] && runs[..current + 1] == a[..current + 1];
      AddrsAt(runs, current);
      at := |Addrs(a[..current])|;
      BytesAdd(g.blockSize, at, a[current].length);
      assert RunOk(g, a[current]);
      end := end + Bytes(g.blockSize, a[current].length);
      if end > pos {
        run := a[current];
        offset := end - Bytes(g.blockSize, run.length);
        BytesOrder(g.blockSize, 0, at);
        return true, run, offset, end, at;
      }
      current := current + 1;
    }
    assert a[..current] == Runs(a);
    found := false;
  }

  lemma {:induction false} AllRunsOneMore(arrays: seq<seq<Run>>, i: nat)
    requires i < |arrays|
    ensures AllRuns(arrays[..i + 1]) == AllRuns(arrays[..i]) + Runs(arrays[i])
    ensures Addrs(AllRuns(arrays[..i + 1])) == Addrs(AllRuns(arrays[..i])) + Addrs(Runs(arrays[i]))
  {
    assert arrays[..i + 1][..i] == arrays[..i];
    AddrsConcat(AllRuns(arrays[..i]), Runs(arrays[i]));
  }

  lemma {:induction false} AllRunsConcat(a: seq<seq<Run>>, b: seq<seq<Run>>)
    ensures AllRuns(a + b) == AllRuns(a) + AllRuns(b)
    decreases |b|
  {
    hide Runs;
    if b == [] {
      assert a + b == a;
    } else {
      var n := |b| - 1;
      AllRunsConcat(a, b[..n]);
      assert (a + b)[..|a + b| - 1] == a + b[..n];
      Associative(AllRuns(a), AllRuns(b[..n]), Runs(b[n]));
    }
  }

  lemma {:induction false} AllRunsSplit(arrays: seq<seq<Run>>, i: nat)
    requires i <= |arrays|
    ensures Addrs(AllRuns(arrays)) == Addrs(AllRuns(arrays[..i])) + Addrs(AllRuns(arrays[i..]))
  {
    hide AllRuns;
    AllRunsConcat(arrays[..i], arrays[i..]);
    assert arrays == arrays[..i] + arrays[i..];
    AddrsConcat(AllRuns(arrays[..i]), AllRuns(arrays[i..]));
  }

  /** Where array `i` begins in the file. */
  function ArrayBegin(bs: int, begin: int, arrays: seq<seq<Run>>, i: nat): int
    requires i <= |arrays|
  {
    begin + Bytes(bs, |Addrs(AllRuns(arrays[..i]))|)
  }

  lemma {:induction false} ArrayEnds(bs: int, begin: int, arrays: seq<seq<Run>>, i: nat)
    requires i < |arrays|
    ensures ArrayBegin(bs, begin, arrays, 0) == begin
    ensures ArrayBegin(bs, begin, arrays, i + 1) == ArrayBegin(bs, begin, arrays, i) + Bytes(bs, |Addrs(Runs(arrays[i]))|)
  {
    hide Runs;
    AllRunsOneMore(arrays, i);
    BytesAdd(bs, |Addrs(AllRuns(arrays[..i]))|, |Addrs(Runs(arrays[i]))|);
    assert arrays[..0] == [];
  }

  lemma {:induction false} FoundInArray(bs: int, begin: int, arrays: seq<seq<Run>>, i: nat, pos: int, run: Run, offset: int, at: nat)
    requires i < |arrays|
    requires var b := ArrayBegin(bs, begin, arrays, i);
             Covers(bs, Addrs(Runs(arrays[i])), pos - b, run, offset - b, at)
    ensures Covers(bs, Addrs(AllRuns(arrays)), pos - begin, run, offset - begin, |Addrs(AllRuns(arrays[..i]))| + at)
  {
    hide Bytes, Covers, Addrs, AllRuns, Runs;
    var front := Addrs(AllRuns(arrays[..i]));
    AllRunsOneMore(arrays, i);
    AllRunsSplit(arrays, i + 1);
    CoversBehind(bs, front, Addrs(Runs(arrays[i])), Addrs(AllRuns(arrays[i + 1..])), pos - begin, run, offset - begin, at);
  }

  /** Looks through the arrays of the indirect blocks. */
  method FindIndirect(g: Geometry, arrays: seq<seq<Run>>, begin: int, pos: int)
    returns (found: bool, run: Run, offset: int, ghost at: nat)
    requires g.Valid() && ArraysOk(g, arrays) && begin <= pos
    ensures found ==> RunOk(g, run) && Covers(g.blockSize, Addrs(AllRuns(arrays)), pos - begin, run, offset - begin, at)
    ensures !found ==> begin + Bytes(g.blockSize, |Addrs(AllRuns(arrays))|) <= pos
  {
    run, offset, at := ZERO, 0, 0;
    var i, end := 0, begin;
    assert ArrayBegin(g.blockSize, begin, arrays, 0) == begin by {
      assert arrays[..0] == [];
    }
    while i < |arrays|
      invariant 0 <= i <= |arrays|
      invariant end == ArrayBegin(g.blockSize, begin, arrays, i) <= pos
    {
      hide Bytes, ArrayOk, Covers, Addrs, AllRuns, Runs, RunOk, Used, ArrayBegin;
      ArrayEnds(g.blockSize, begin, arrays, i);
      found, run, offset, end, at := FindInArray(g, arrays[i], end, pos);
      if found {
        FoundInArray(g.blockSize, begin, arrays, i, pos, run, offset, at);
        at := |Addrs(AllRuns(arrays[..i]))| + at;
        return;
      }
      i := i + 1;
    }
    assert arrays[..i] == arrays;
    found := false;
  }
}
