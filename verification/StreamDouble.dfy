/** The double indirect range: tables of runs of four blocks each, found by division. */
module StreamDouble {
  import opened Sequences
  import opened BlockUnits
  import opened BlockRuns
  import opened StreamShape
  import opened StreamLookup

  /** Truncation to a 32-bit signed integer. */
  function Wrap32(x: int): int {
    (x + 0x8000_0000) % 0x1_0000_0000 - 0x8000_0000
  }

  /** The bytes one entry of the second level stands for. */
  function DirectSize(g: Geometry): int {
    Bytes(g.blockSize, DOUBLE_RUN)
  }

  /** The bytes one entry of the first level stands for. */
  function IndirectSize(g: Geometry): int {
    Bytes(g.blockSize, 16) * g.runsPerBlock
  }

  /** The place of an entry in both levels and the position it begins at, as computed. */
  function DoubleIndex(g: Geometry, start: int): int
    requires g.Valid()
  {
    SizesOk(g);
    Whole(IndirectSize(g), start)
  }

  function DoubleCurrent(g: Geometry, start: int): int
    requires g.Valid()
  {
    SizesOk(g);
    Whole(DirectSize(g), Part(IndirectSize(g), start))
  }

  function DoubleOffset(g: Geometry, begin: int, start: int): int
    requires g.Valid()
  {
    begin + Wrap32(DoubleIndex(g, start) * IndirectSize(g)) + Wrap32(DoubleCurrent(g, start) * DirectSize(g))
  }

  lemma {:induction false} SizesOk(g: Geometry)
    requires g.Valid()
    ensures DirectSize(g) > 0 && IndirectSize(g) == Bytes(DirectSize(g), RowLength(g)) > 0
  {
    var bs, n := g.blockSize, g.runsPerBlock;
    assert 16 * bs * n == 4 * n * (4 * bs);
    BytesOrder(bs, 4, 0);
    assert (16 * bs) * n > 0;
  }

  /** Dividing twice finds the entry that dividing once would find in one long table. */
  lemma {:induction false} TwoLevels(g: Geometry, start: int)
    requires g.Valid() && start >= 0
    ensures var e := Whole(DirectSize(g), start);
            && RowLength(g) > 0 && DirectSize(g) > 0
            && DoubleIndex(g, start) == Whole(RowLength(g), e) >= 0
            && DoubleCurrent(g, start) == Part(RowLength(g), e) >= 0
            && DoubleIndex(g, start) * IndirectSize(g) + DoubleCurrent(g, start) * DirectSize(g) == Bytes(DirectSize(g), e)
  {
    SizesOk(g);
    var d, n := DirectSize(g), RowLength(g);
    var e := Whole(d, start);
    Divide(d, start);
    Divide(n, e);
    Nested(d, n, Whole(n, e), Part(n, e), start - Bytes(d, e));
    var rest := Bytes(d, Part(n, e)) + Part(d, start);
    assert start == Bytes(Bytes(d, n), Whole(n, e)) + rest;
    WholeIs(Bytes(d, n), start, Whole(n, e));
    WholeIs(d, rest, Part(n, e));
  }

  lemma {:induction false} Nested(d: int, n: int, i: int, c: int, p: int)
    requires d > 0 && 0 <= c < n && 0 <= p < d
    ensures Bytes(d, Bytes(n, i) + c) == Bytes(Bytes(d, n), i) + Bytes(d, c)
    ensures 0 <= Bytes(d, c) + p < Bytes(d, n)
  {
    Products(d, n, i);
    hide Bytes;
    BytesAdd(d, Bytes(n, i), c);
    BytesOrder(d, 0, c);
    BytesAdd(d, 0, 0);
    BytesOrder(d, c + 1, n);
    BytesAdd(d, c, 1);
  }

  lemma {:induction false} Products(d: int, n: int, i: int)
    ensures Bytes(d, Bytes(n, i)) == Bytes(Bytes(d, n), i)
  {
    assert (i * n) * d == i * (n * d);
  }

  /** The size of a first level entry fits 32 bits, as it does for blocks of up to 16384
      bytes. */
  predicate SizesFit(g: Geometry) {
    IndirectSize(g) < 0x8000_0000
  }

  /** The products are kept in 32 bits.  The position comes out right exactly as long as
      the entries of the first level in front make less than two gigabytes; otherwise the
      run seems to end before the position. */
  lemma {:induction false} DoubleOffsetRight(g: Geometry, begin: int, start: int)
    requires g.Valid() && start >= 0 && SizesFit(g)
    ensures DirectSize(g) > 0
    ensures DoubleOffset(g, begin, start) == begin + Bytes(DirectSize(g), Whole(DirectSize(g), start))
            <==> DoubleIndex(g, start) * IndirectSize(g) < 0x8000_0000
    ensures DoubleIndex(g, start) * IndirectSize(g) >= 0x8000_0000 ==>
              DoubleOffset(g, begin, start) + DirectSize(g) <= begin + start
  {
    SizesOk(g);
    TwoLevels(g, start);
    var d, n := DirectSize(g), RowLength(g);
    var e := Whole(d, start);
    hide Whole, Part, DoubleIndex, DoubleCurrent, IndirectSize, DirectSize;
    Divide(n, e);
    Nested(d, n, 0, Part(n, e), 0);
    Divide(d, start);
    BytesOrder(d, 1, n);
    BytesAdd(d, 0, 1);
    var a, b := DoubleIndex(g, start) * IndirectSize(g), DoubleCurrent(g, start) * d;
    assert 0 <= b < 0x8000_0000;
    assert a >= 0;
  }

  /** The first position that is too far with blocks of 1024 bytes: the run there seems to
      begin four gigabytes earlier. */
  lemma {:induction false} TooFar(g: Geometry, begin: int)
    requires g.Valid() && g.blockSize == 1024 && g.runsPerBlock == 128
    ensures DoubleOffset(g, begin, 0x8000_0000) == begin + 0x8000_0000 - 0x1_0000_0000
  {
    assert IndirectSize(g) == 0x20_0000 && DirectSize(g) == 0x1000;
    WholeIs(IndirectSize(g), 0x8000_0000, 1024);
    WholeIs(DirectSize(g), 0, 0);
  }

  // ---------- the entries in one list ----------

  lemma {:induction false} RowsBefore(g: Geometry, table: seq<seq<Run>>)
    requires TableOk(g, table) && |table| > 0
    ensures |Rows(table[..|table| - 1])| == Bytes(RowLength(g), |table| - 1)
    decreases |table|
  {
    hide Bytes, RunOk;
    var n := |table| - 1;
    BytesAdd(RowLength(g), n - 1, 1);
    if n > 0 {
      RowsBefore(g, table[..n]);
      assert table[..n][..n - 1] == table[..n - 1];
    }
  }

  /** An entry of the list stands where the division says. */
  lemma {:induction false} RowsLocate(g: Geometry, table: seq<seq<Run>>, e: nat)
    requires g.Valid() && TableOk(g, table) && e < |Rows(table)|
    ensures var i, c := Whole(RowLength(g), e), Part(RowLength(g), e);
            0 <= i < |table| && 0 <= c < |table[i]| && Rows(table)[e] == table[i][c]
    decreases |table|
  {
    hide Bytes, Whole, Part, RunOk;
    var n, l := |table| - 1, RowLength(g);
    RowsBefore(g, table);
    if e < |Rows(table[..n])| {
      RowsLocate(g, table[..n], e);
    } else {
      WholeIs(l, e, n);
    }
  }

  lemma {:induction false} EqualRuns(runs: seq<Run>)
    requires forall i :: 0 <= i < |runs| ==> runs[i].length == DOUBLE_RUN
    ensures |Addrs(runs)| == DOUBLE_RUN * |runs|
  {
    if runs != [] {
      EqualRuns(runs[..|runs| - 1]);
    }
  }

  lemma {:induction false} RowsEqual(g: Geometry, table: seq<seq<Run>>)
    requires TableOk(g, table)
    ensures forall e :: 0 <= e < |Rows(table)| ==> RunOk(g, Rows(table)[e]) && Rows(table)[e].length == DOUBLE_RUN
    decreases |table|
  {
    hide RunOk;
    if table != [] {
      RowsEqual(g, table[..|table| - 1]);
    }
  }

  /** The run found for this position begins where it should. */
  predicate PositionOk(g: Geometry, d: Data, pos: int)
    requires g.Valid()
  {
    d.table != [] && pos >= d.maxIndirect ==> DoubleIndex(g, pos - d.maxIndirect) * IndirectSize(g) < 0x8000_0000
  }

  /** All positions of a range can be found. */
  ghost predicate InReach(g: Geometry, d: Data, pos: int, length: int)
    requires g.Valid()
  {
    && (d.table != [] ==> SizesFit(g))
    && PositionOk(g, d, pos)
    && forall p :: pos <= p < pos + length ==> PositionOk(g, d, p)
  }

  /** A double indirect range of up to two gigabytes is in reach as a whole. */
  lemma {:induction false} SmallInReach(g: Geometry, d: Data, pos: int, length: int)
    requires g.Valid() && (d.table != [] ==> SizesFit(g))
    requires pos - d.maxIndirect < 0x8000_0000 && pos + length - d.maxIndirect <= 0x8000_0000
    ensures InReach(g, d, pos, length)
  {
    SmallPosition(g, d, pos);
    forall p | pos <= p < pos + length
      ensures PositionOk(g, d, p)
    {
      SmallPosition(g, d, p);
    }
  }

  lemma {:induction false} SmallPosition(g: Geometry, d: Data, pos: int)
    requires g.Valid() && pos - d.maxIndirect < 0x8000_0000
    ensures PositionOk(g, d, pos)
  {
    if pos >= d.maxIndirect {
      DoubleInReach(g, pos - d.maxIndirect);
    }
  }

  /** The entry found by the two divisions is the run that holds the position; the position
      computed for it shows that exactly if it is not too far. */
  lemma {:induction false} DoubleCovers(g: Geometry, table: seq<seq<Run>>, start: int)
    requires g.Valid() && TableOk(g, table) && 0 <= start < Bytes(g.blockSize, |Addrs(Rows(table))|)
    requires SizesFit(g)
    ensures var i, c := DoubleIndex(g, start), DoubleCurrent(g, start);
            && DirectSize(g) > 0 && 0 <= i < |table| && 0 <= c < |table[i]|
            && RunOk(g, table[i][c]) && table[i][c].length == DOUBLE_RUN
            && Whole(DirectSize(g), start) >= 0
            && (i * IndirectSize(g) < 0x8000_0000 ==>
                 Covers(g.blockSize, Addrs(Rows(table)), start, table[i][c], DoubleOffset(g, 0, start),
                        DOUBLE_RUN * Whole(DirectSize(g), start)))
            && (i * IndirectSize(g) >= 0x8000_0000 ==>
                 DoubleOffset(g, 0, start) + Bytes(g.blockSize, DOUBLE_RUN) <= start)
  {
    hide Bytes, Whole, Part, DoubleIndex, DoubleCurrent, TableOk, RowLength, IndirectSize, DoubleOffset, Addrs, RunAddrs, Rows;
    var bs, d, runs := g.blockSize, DirectSize(g), Rows(table);
    SizesOk(g);
    Divide(d, start);
    var e := Whole(d, start);
    RowsEqual(g, table);
    EqualRuns(runs);
    FourBlocks(bs, e);
    FourBlocks(bs, |runs|);
    BytesOrder(d, |runs|, e);
    assert e < |runs|;
    TwoLevels(g, start);
    RowsLocate(g, table, e);
    DoubleOffsetRight(g, 0, start);
    EqualRuns(runs[..e]);
    AddrsAt(runs, e);
    FourBlocks(bs, 1);
    BytesAdd(d, 0, 1);
  }

  lemma {:induction false} DoubleInReach(g: Geometry, start: int)
    requires g.Valid() && 0 <= start < 0x8000_0000
    ensures DoubleIndex(g, start) * IndirectSize(g) < 0x8000_0000
  {
    SizesOk(g);
    Divide(IndirectSize(g), start);
  }

  lemma {:induction false} FourBlocks(bs: int, e: int)
    ensures Bytes(bs, DOUBLE_RUN * e) == Bytes(Bytes(bs, DOUBLE_RUN), e)
  {
  }

  /** Inode::FindBlockRun: the run that holds a position, and where the run begins; for a
      position that is too far the run seems to end before it. */
  method FindBlockRun(g: Geometry, d: Data, pos: int) returns (found: bool, run: Run, offset: int, ghost at: nat)
    requires StreamOk(g, d) && pos >= 0
    requires d.table != [] ==> SizesFit(g) && pos < d.maxDouble
    ensures found <==> pos < Bytes(g.blockSize, |FileBlocks(d)|)
    ensures found ==> RunOk(g, run)
    ensures found && PositionOk(g, d, pos) ==> Covers(g.blockSize, FileBlocks(d), pos, run, offset, at)
    ensures found && !PositionOk(g, d, pos) ==> offset + Bytes(g.blockSize, run.length) <= pos
  {
    hide Bytes, Covers, Addrs, Runs, AllRuns, Rows, ArrayOk, ArraysOk, TableOk, RunOk, DoubleIndex, DoubleCurrent, DoubleOffset, IndirectSize;
    ghost var a, b, c := Addrs(Runs(d.direct)), Addrs(AllRuns(d.arrays)), Addrs(Rows(d.table));
    RangeLengths(g, d);
    BytesAdd(g.blockSize, 0, 0);
    found, run, offset, at := false, ZERO, 0, 0;
    if d.maxDirect > 0 && pos >= d.maxDirect {
      if d.maxDouble > 0 && pos >= d.maxIndirect {
        var start := pos - d.maxIndirect;
        DoubleCovers(g, d.table, start);
        run := d.table[DoubleIndex(g, start)][DoubleCurrent(g, start)];
        offset := DoubleOffset(g, d.maxIndirect, start);
        at := DOUBLE_RUN * Whole(DirectSize(g), start);
        assert offset - d.maxIndirect == DoubleOffset(g, 0, start) by {
          OffsetFrom(g, d.maxIndirect, start);
        }
        if PositionOk(g, d, pos) {
          CoversBehind(g.blockSize, a + b, c, [], pos, run, offset, at);
        }
        assert (a + b) + c + [] == FileBlocks(d);
        at := |a + b| + at;
        found := true;
      } else {
        found, run, offset, at := FindIndirect(g, d.arrays, d.maxDirect, pos);
        if found {
          CoversBehind(g.blockSize, a, b, c, pos, run, offset, at);
          at := |a| + at;
          CoveredInside(g.blockSize, FileBlocks(d), pos, run, offset, at);
        }
      }
    } else {
      var end;
      found, run, offset, end, at := FindInArray(g, d.direct, 0, pos);
      if found {
        CoversBehind(g.blockSize, [], a, b + c, pos, run, offset, at);
        assert [] + a + (b + c) == FileBlocks(d);
        CoveredInside(g.blockSize, FileBlocks(d), pos, run, offset, at);
      }
    }
  }

  lemma {:induction false} OffsetFrom(g: Geometry, begin: int, start: int)
    requires g.Valid()
    ensures DoubleOffset(g, begin, start) - begin == DoubleOffset(g, 0, start)
  {
  }

  lemma {:induction false} CoveredInside(bs: int, addrs: seq<Addr>, pos: int, run: Run, offset: int, at: nat)
    requires bs > 0 && Covers(bs, addrs, pos, run, offset, at)
    ensures pos < Bytes(bs, |addrs|)
  {
    hide Bytes;
    BytesAdd(bs, at, run.length);
    BytesOrder(bs, at + run.length, |addrs|);
  }

  /** The ends of the three ranges. */
  lemma {:induction false} RangeLengths(g: Geometry, d: Data)
    requires g.Valid() && RangesOk(g, d)
    ensures var a, b, c := |Addrs(Runs(d.direct))|, |Addrs(AllRuns(d.arrays))|, |Addrs(Rows(d.table))|;
            && |FileBlocks(d)| == a + b + c
            && Bytes(g.blockSize, a) == d.maxDirect >= 0
            && (!d.indirect.IsZero() ==> Bytes(g.blockSize, a + b) == d.maxIndirect)
            && (d.table != [] ==> Bytes(g.blockSize, a + b + c) == d.maxDouble)
            && (d.indirect.IsZero() ==> b == 0 && c == 0)
            && (d.table == [] ==> c == 0)
            && (d.maxDirect == 0 <==> a == 0)
            && Bytes(g.blockSize, b) >= 0
  {
    hide Bytes, RunOk;
    var bs := g.blockSize;
    var a, b, c := |Addrs(Runs(d.direct))|, |Addrs(AllRuns(d.arrays))|, |Addrs(Rows(d.table))|;
    BytesAdd(bs, a, b);
    BytesAdd(bs, a + b, c);
    BytesOrder(bs, 0, a);
    BytesOrder(bs, a, 0);
    BytesOrder(bs, 0, b);
  }
}
