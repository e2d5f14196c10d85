/** Bytes counted in whole blocks.  The products and quotients are only used through the
facts stated here. */
module BlockUnits {

  /** The bytes of `n` blocks. */
  function Bytes(bs: int, n: int): int {
    n * bs
  }

  /** The whole blocks in `p` bytes. */
  function Whole(bs: int, p: int): int
    requires bs > 0
  {
    p / bs
  }

  /** What is left of `p` bytes without the whole blocks. */
  function Part(bs: int, p: int): int
    requires bs > 0
  {
    p % bs
  }

  lemma {:induction false} BytesAdd(bs: int, a: int, b: int)
    ensures Bytes(bs, a + b) == Bytes(bs, a) + Bytes(bs, b)
    ensures Bytes(bs, 0) == 0 && Bytes(bs, 1) == bs
  {
  }

  lemma {:induction false} BytesOrder(bs: int, a: int, b: int)
    requires bs > 0
    ensures a <= b <==> Bytes(bs, a) <= Bytes(bs, b)
  {
    if a <= b {
      assert (b - a) * bs >= 0;
    } else {
      assert (a - b - 1) * bs >= 0;
    }
  }

  lemma {:induction false} Divide(bs: int, p: int)
    requires bs > 0
    ensures Bytes(bs, Whole(bs, p)) + Part(bs, p) == p && 0 <= Part(bs, p) < bs
    ensures p >= 0 ==> Whole(bs, p) >= 0
  {
  }

  /** There is only one way to divide. */
  lemma {:induction false} WholeIs(bs: int, p: int, q: int)
    requires bs > 0 && Bytes(bs, q) <= p < Bytes(bs, q) + bs
    ensures Whole(bs, p) == q && Part(bs, p) == p - Bytes(bs, q)
  {
    hide Bytes, Whole, Part;
    Divide(bs, p);
    var w := Whole(bs, p);
    BytesAdd(bs, w, 1);
    BytesAdd(bs, q, 1);
    BytesOrder(bs, w + 1, q);
    BytesOrder(bs, q + 1, w);
  }
}

/** Runs of consecutive blocks of an allocation group. */
module BlockRuns {
  import opened BlockUnits

  /** A block: its allocation group and its number in there. */
  datatype Addr = Addr(group: int, index: int)

  datatype Run = Run(group: int, start: int, length: int) {
    predicate IsZero() {
      group == 0 && start == 0 && length == 0
    }
  }

  const ZERO := Run(0, 0, 0)

  /** The blocks of a run. */
  function RunAddrs(run: Run): (r: seq<Addr>)
    ensures |r| == if run.length >= 0 then run.length else 0
  {
    seq(if run.length >= 0 then run.length else 0, i => Addr(run.group, run.start + i))
  }

  /** The blocks of several runs, in order. */
  function Addrs(runs: seq<Run>): seq<Addr> {
    if runs == [] then [] else Addrs(runs[..|runs| - 1]) + RunAddrs(runs[|runs| - 1])
  }

  lemma {:induction false} AddrsOneMore(runs: seq<Run>, run: Run)
    ensures Addrs(runs + [run]) == Addrs(runs) + RunAddrs(run)
  {
    assert (runs + [run])[..|runs|] == runs;
  }

  lemma {:induction false} AddrsConcat(a: seq<Run>, b: seq<Run>)
    ensures Addrs(a + b) == Addrs(a) + Addrs(b)
    decreases |b|
  {
    if b == [] {
      assert a + b == a;
    } else {
      var n := |b| - 1;
      AddrsConcat(a, b[..n]);
      assert (a + b)[..|a + b| - 1] == a + b[..n];
      assert Addrs(a) + (Addrs(b[..n]) + RunAddrs(b[n])) == (Addrs(a) + Addrs(b[..n])) + RunAddrs(b[n]);
    }
  }

  /** Run `j` stands in the list behind the blocks of the runs before it. */
  lemma {:induction false} AddrsAt(runs: seq<Run>, j: nat)
    requires j < |runs|
    ensures var at, r := |Addrs(runs[..j])|, RunAddrs(runs[j]);
            && at + |r| <= |Addrs(runs)| && Addrs(runs)[..at] == Addrs(runs[..j]) && Addrs(runs)[at..at + |r|] == r
            && Addrs(runs[..j + 1]) == Addrs(runs[..j]) + r
            && Addrs(runs) == Addrs(runs[..j]) + r + Addrs(runs[j + 1..])
  {
    assert runs[..j + 1][..j] == runs[..j];
    assert runs == runs[..j + 1] + runs[j + 1..];
    AddrsConcat(runs[..j + 1], runs[j + 1..]);
  }

  // ---------- the bytes in blocks ----------

  type Disk = map<Addr, seq<int>>

  predicate OnDisk(bs: int, disk: Disk, addrs: seq<Addr>) {
    forall i :: 0 <= i < |addrs| ==> addrs[i] in disk && |disk[addrs[i]]| == bs
  }

  /** The contents of blocks one after the other. */
  function Flat(bs: int, disk: Disk, addrs: seq<Addr>): seq<int>
    requires OnDisk(bs, disk, addrs)
  {
    if addrs == [] then [] else Flat(bs, disk, addrs[..|addrs| - 1]) + disk[addrs[|addrs| - 1]]
  }

  lemma {:induction false} FlatLength(bs: int, disk: Disk, addrs: seq<Addr>)
    requires OnDisk(bs, disk, addrs)
    ensures |Flat(bs, disk, addrs)| == Bytes(bs, |addrs|)
  {
    hide Bytes;
    if addrs == [] {
      BytesAdd(bs, 0, 0);
    } else {
      FlatLength(bs, disk, addrs[..|addrs| - 1]);
      BytesAdd(bs, |addrs| - 1, 1);
    }
  }

  lemma {:induction false} FlatConcat(bs: int, disk: Disk, a: seq<Addr>, b: seq<Addr>)
    requires OnDisk(bs, disk, a) && OnDisk(bs, disk, b)
    ensures OnDisk(bs, disk, a + b) && Flat(bs, disk, a + b) == Flat(bs, disk, a) + Flat(bs, disk, b)
    decreases |b|
  {
    if b == [] {
      assert a + b == a;
    } else {
      var n := |b| - 1;
      FlatConcat(bs, disk, a, b[..n]);
      assert (a + b)[..|a + b| - 1] == a + b[..n];
      assert Flat(bs, disk, a) + (Flat(bs, disk, b[..n]) + disk[b[n]]) == (Flat(bs, disk, a) + Flat(bs, disk, b[..n])) + disk[b[n]];
    }
  }

  lemma {:induction false} FlatSame(bs: int, disk: Disk, disk': Disk, addrs: seq<Addr>)
    requires OnDisk(bs, disk, addrs)
    requires forall i :: 0 <= i < |addrs| ==> addrs[i] in disk' && disk'[addrs[i]] == disk[addrs[i]]
    ensures OnDisk(bs, disk', addrs) && Flat(bs, disk', addrs) == Flat(bs, disk, addrs)
  {
    if addrs != [] {
      FlatSame(bs, disk, disk', addrs[..|addrs| - 1]);
    }
  }

  lemma {:induction false} PartsOnDisk(bs: int, disk: Disk, addrs: seq<Addr>, i: nat, j: nat)
    requires OnDisk(bs, disk, addrs) && i <= j <= |addrs|
    ensures OnDisk(bs, disk, addrs[..i]) && OnDisk(bs, disk, addrs[i..j]) && OnDisk(bs, disk, addrs[j..])
  {
    var b, c := addrs[i..j], addrs[j..];
    assert forall k :: 0 <= k < |b| ==> b[k] == addrs[i + k];
    assert forall k :: 0 <= k < |c| ==> c[k] == addrs[j + k];
  }

  /** Blocks `i` to `j` hold the bytes between the corresponding positions. */
  lemma {:induction false} FlatPart(bs: int, disk: Disk, addrs: seq<Addr>, i: nat, j: nat)
    requires OnDisk(bs, disk, addrs) && i <= j <= |addrs| && bs > 0
    ensures 0 <= Bytes(bs, i) <= Bytes(bs, j) <= |Flat(bs, disk, addrs)|
    ensures OnDisk(bs, disk, addrs[..i]) && Flat(bs, disk, addrs)[..Bytes(bs, i)] == Flat(bs, disk, addrs[..i])
    ensures OnDisk(bs, disk, addrs[i..j]) && Flat(bs, disk, addrs)[Bytes(bs, i)..Bytes(bs, j)] == Flat(bs, disk, addrs[i..j])
    ensures OnDisk(bs, disk, addrs[j..]) && Flat(bs, disk, addrs)[Bytes(bs, j)..] == Flat(bs, disk, addrs[j..])
    ensures Flat(bs, disk, addrs) == Flat(bs, disk, addrs[..i]) + Flat(bs, disk, addrs[i..j]) + Flat(bs, disk, addrs[j..])
  {
    var a, b, c := addrs[..i], addrs[i..j], addrs[j..];
    PartsOnDisk(bs, disk, addrs, i, j);
    assert addrs == a + b + c;
    hide Bytes, Flat, OnDisk;
    FlatConcat(bs, disk, a, b);
    FlatConcat(bs, disk, a + b, c);
    FlatLength(bs, disk, a);
    FlatLength(bs, disk, b);
    FlatLength(bs, disk, c);
    BytesAdd(bs, i, j - i);
    BytesOrder(bs, 0, i);
    BytesAdd(bs, 0, 0);
  }

  predicate Distinct(addrs: seq<Addr>) {
    forall i, j :: 0 <= i < j < |addrs| ==> addrs[i] != addrs[j]
  }

  lemma {:induction false} OutsidePart(addrs: seq<Addr>, i: nat, j: nat)
    requires Distinct(addrs) && i <= j <= |addrs|
    ensures forall m :: 0 <= m < i ==> addrs[..i][m] !in addrs[i..j]
    ensures forall m :: 0 <= m < |addrs| - j ==> addrs[j..][m] !in addrs[i..j]
  {
  }

  /** New contents for blocks `i` to `j`: the bytes there change and no others. */
  lemma {:induction false} FlatWrite(bs: int, disk: Disk, disk': Disk, addrs: seq<Addr>, i: nat, j: nat, bytes: seq<int>)
    requires bs > 0 && OnDisk(bs, disk, addrs) && Distinct(addrs) && i <= j <= |addrs|
    requires forall x :: x in disk && x !in addrs[i..j] ==> x in disk' && disk'[x] == disk[x]
    requires OnDisk(bs, disk', addrs[i..j]) && Flat(bs, disk', addrs[i..j]) == bytes
    ensures OnDisk(bs, disk', addrs)
    ensures 0 <= Bytes(bs, i) <= Bytes(bs, j) <= |Flat(bs, disk, addrs)|
    ensures Flat(bs, disk', addrs)
            == Flat(bs, disk, addrs)[..Bytes(bs, i)] + bytes + Flat(bs, disk, addrs)[Bytes(bs, j)..]
  {
    hide Bytes, Flat, Distinct;
    var a, b, c := addrs[..i], addrs[i..j], addrs[j..];
    FlatPart(bs, disk, addrs, i, j);
    OutsidePart(addrs, i, j);
    FlatSame(bs, disk, disk', a);
    FlatSame(bs, disk, disk', c);
    assert addrs == a + b + c;
    FlatConcat(bs, disk', a, b);
    FlatConcat(bs, disk', a + b, c);
  }
}
