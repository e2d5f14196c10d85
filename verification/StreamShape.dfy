/** The data stream of an inode: the lists of block runs that say where the bytes of a
file are. */
module StreamShape {
  import opened BlockUnits
  import opened BlockRuns

  const NUM_DIRECT_BLOCKS := 12

  /** What the volume says about itself. */
  datatype Geometry = Geometry(blockSize: int, runsPerBlock: nat, groups: int, groupSize: int) {
    predicate Valid() {
      blockSize > 0 && runsPerBlock > 0 && 0 < groups && 0 < groupSize < 0x1_0000
    }
  }

  /** The data stream; `arrays` and `table` are the arrays of runs that stand in the
      indirect and the double indirect blocks. */
  datatype Data = Data(
    direct: seq<Run>,
    maxDirect: int,
    indirect: Run,
    arrays: seq<seq<Run>>,
    maxIndirect: int,
    table: seq<seq<Run>>,
    maxDouble: int,
    size: int)

  // ---------- arrays of runs ----------

  /** Volume::IsValidBlockRun, and not empty. */
  predicate RunOk(g: Geometry, run: Run) {
    && 0 <= run.group < g.groups && 0 <= run.start && run.length > 0
    && run.start + run.length <= g.groupSize
  }

  /** The number of runs in front of the first zero. */
  function Used(a: seq<Run>): (n: nat)
    ensures n <= |a|
    ensures forall i :: 0 <= i < n ==> !a[i].IsZero()
    ensures n < |a| ==> a[n].IsZero()
  {
    if a == [] || a[0].IsZero() then 0
    else
      var n := Used(a[1..]);
      assert forall i :: 1 <= i < n + 1 ==> a[i] == a[1..][i - 1];
      1 + n
  }

  function Runs(a: seq<Run>): seq<Run> {
    a[..Used(a)]
  }

  predicate ArrayOk(g: Geometry, a: seq<Run>) {
    && (forall i :: 0 <= i < Used(a) ==> RunOk(g, a[i]))
    && (forall i :: Used(a) <= i < |a| ==> a[i].IsZero())
  }

  lemma {:induction false} UsedIs(a: seq<Run>, n: nat)
    requires n <= |a| && (forall i :: 0 <= i < n ==> !a[i].IsZero()) && (n < |a| ==> a[n].IsZero())
    ensures Used(a) == n
  {
  }

  function AllRuns(arrays: seq<seq<Run>>): seq<Run> {
    if arrays == [] then [] else AllRuns(arrays[..|arrays| - 1]) + Runs(arrays[|arrays| - 1])
  }

  /** The arrays are filled one after the other. */
  predicate ArraysOk(g: Geometry, arrays: seq<seq<Run>>) {
    && (forall i :: 0 <= i < |arrays| ==> |arrays[i]| == g.runsPerBlock && ArrayOk(g, arrays[i]))
    && (forall i, j :: 0 <= i < j < |arrays| && Used(arrays[j]) > 0 ==> Used(arrays[i]) == g.runsPerBlock)
  }

  // ---------- the double indirect range ----------

  /** Each run there has four blocks. */
  const DOUBLE_RUN := 4

  function RowLength(g: Geometry): nat {
    4 * g.runsPerBlock
  }

  function Rows(table: seq<seq<Run>>): seq<Run> {
    if table == [] then [] else Rows(table[..|table| - 1]) + table[|table| - 1]
  }

  predicate TableOk(g: Geometry, table: seq<seq<Run>>) {
    && (forall i, j :: 0 <= i < |table| && 0 <= j < |table[i]| ==> RunOk(g, table[i][j]) && table[i][j].length == DOUBLE_RUN)
    && (forall i :: 0 <= i < |table| ==> |table[i]| <= RowLength(g))
    && (forall i :: 0 <= i < |table| - 1 ==> |table[i]| == RowLength(g))
  }

  // ---------- the stream ----------

  /** The blocks of the file, in order. */
  function FileBlocks(d: Data): seq<Addr> {
    Addrs(Runs(d.direct)) + Addrs(AllRuns(d.arrays)) + Addrs(Rows(d.table))
  }

  predicate RangesOk(g: Geometry, d: Data)
    requires g.Valid()
  {
    && d.maxDirect == Bytes(g.blockSize, |Addrs(Runs(d.direct))|)
    && (if d.indirect.IsZero() then d.arrays == [] && d.maxIndirect == 0
        else
          && RunOk(g, d.indirect) && |d.arrays| == d.indirect.length && d.maxDirect > 0
          && d.maxIndirect == d.maxDirect + Bytes(g.blockSize, |Addrs(AllRuns(d.arrays))|))
    && (if d.table == [] then d.maxDouble == 0
        else
          && !d.indirect.IsZero()
          && d.maxDouble == d.maxIndirect + Bytes(g.blockSize, |Addrs(Rows(d.table))|) > d.maxIndirect)
  }

  predicate StreamOk(g: Geometry, d: Data) {
    && g.Valid()
    && |d.direct| == NUM_DIRECT_BLOCKS && ArrayOk(g, d.direct)
    && ArraysOk(g, d.arrays) && TableOk(g, d.table)
    && RangesOk(g, d)
    && 0 <= d.size <= Bytes(g.blockSize, |FileBlocks(d)|)
  }
}
