/** Reading and writing a file: the bytes are those of one long array, however the runs
divide it. */
module StreamAccess {
  import opened Sequences
  import opened BlockUnits
  import opened BlockRuns
  import opened StreamShape
  import opened StreamLookup
  import opened StreamDouble

  datatype Status = Ok | BadValue | DeviceFull | TooBig

  /** The part of a run behind its first `skip` blocks. */
  function RestOf(run: Run, skip: int): Run {
    Run(run.group, run.start + skip, run.length - skip)
  }

  /** `run` begins with block `q` of the file. */
  predicate StandsAt(addrs: seq<Addr>, run: Run, q: nat) {
    run.length > 0 && q + run.length <= |addrs| && addrs[q..q + run.length] == RunAddrs(run)
  }

  /** Moving forward in a run to the block of a position. */
  lemma {:induction false} Forward(bs: int, addrs: seq<Addr>, pos: int, run: Run, offset: int, at: nat, q: int)
    requires bs > 0 && Covers(bs, addrs, pos, run, offset, at) && Bytes(bs, q) <= pos < Bytes(bs, q) + bs
    ensures Whole(bs, pos - offset) == q - at >= 0 && StandsAt(addrs, RestOf(run, q - at), q)
  {
    hide Bytes, Whole;
    BytesAdd(bs, at, q - at);
    WholeIs(bs, pos - offset, q - at);
    BytesAdd(bs, q, 1);
    BytesOrder(bs, q + 1, at);
    BytesAdd(bs, at, run.length);
    BytesOrder(bs, at + run.length, q);
    var rest := RestOf(run, q - at);
    assert forall i :: 0 <= i < rest.length ==> RunAddrs(rest)[i] == RunAddrs(run)[q - at + i] == addrs[q + i];
  }

  lemma {:induction false} FirstBlocks(addrs: seq<Addr>, run: Run, q: nat, k: int)
    requires StandsAt(addrs, run, q) && 0 <= k <= run.length
    ensures RunAddrs(run.(length := k)) == addrs[q..q + k]
    ensures addrs[q] == Addr(run.group, run.start)
  {
    var part := RunAddrs(run.(length := k));
    assert forall i :: 0 <= i < k ==> part[i] == RunAddrs(run)[i] == addrs[q + i];
    assert RunAddrs(run)[0] == addrs[q];
  }

  /** Behind `k` blocks of a run that has more there is a run of one block. */
  lemma {:induction false} NextBlock(bs: int, addrs: seq<Addr>, run: Run, q: nat, k: int)
    requires bs > 0 && StandsAt(addrs, run, q) && 0 <= k < run.length
    ensures var p := Bytes(bs, q + k);
            Covers(bs, addrs, p, Run(run.group, run.start + k, 1), p, q + k)
  {
    hide Bytes;
    BytesAdd(bs, q + k, 1);
    assert RunAddrs(run)[k] == addrs[q + k];
    var one := Run(run.group, run.start + k, 1);
    assert addrs[q + k..q + k + 1] == [addrs[q + k]] == RunAddrs(one);
  }

  // ---------- reading ----------

  /** What `k` blocks from block `q` on hold. */
  lemma {:induction false} ReadWhole(bs: int, disk: Disk, addrs: seq<Addr>, run: Run, q: nat, k: int)
    requires bs > 0 && OnDisk(bs, disk, addrs) && StandsAt(addrs, run, q) && 0 <= k <= run.length
    ensures var file, part := Flat(bs, disk, addrs), RunAddrs(run.(length := k));
            && 0 <= Bytes(bs, q) <= Bytes(bs, q + k) == Bytes(bs, q) + Bytes(bs, k) <= |file|
            && OnDisk(bs, disk, part) && Flat(bs, disk, part) == file[Bytes(bs, q)..Bytes(bs, q + k)]
  {
    hide Bytes, Flat, OnDisk, RunAddrs;
    FirstBlocks(addrs, run, q, k);
    FlatPart(bs, disk, addrs, q, q + k);
    BytesAdd(bs, q, k);
  }

  /** Bytes `r` to `r + n` of block `q`. */
  lemma {:induction false} ReadPart(bs: int, disk: Disk, addrs: seq<Addr>, run: Run, q: nat, r: int, n: int)
    requires bs > 0 && OnDisk(bs, disk, addrs) && StandsAt(addrs, run, q) && 0 <= r && 0 <= n && r + n <= bs
    ensures var file, block := Flat(bs, disk, addrs), Addr(run.group, run.start);
            && block in disk && |disk[block]| == bs
            && 0 <= Bytes(bs, q) + r && Bytes(bs, q) + r + n <= |file|
            && disk[block][r..r + n] == file[Bytes(bs, q) + r..Bytes(bs, q) + r + n]
  {
    hide Bytes, RunAddrs, Flat, OnDisk;
    FirstBlocks(addrs, run, q, 1);
    FlatBlock(bs, disk, addrs, q);
    var file, b := Flat(bs, disk, addrs), Bytes(bs, q);
    Slice(file, b, b + bs, r, r + n);
  }

  lemma {:induction false} FlatOne(bs: int, disk: Disk, addrs: seq<Addr>, q: nat)
    requires OnDisk(bs, disk, addrs) && q < |addrs|
    ensures OnDisk(bs, disk, addrs[q..q + 1]) && Flat(bs, disk, addrs[q..q + 1]) == disk[addrs[q]]
    ensures addrs[q] in disk && |disk[addrs[q]]| == bs
  {
    assert addrs[q..q + 1] == [addrs[q]];
    assert [addrs[q]][..0] == [];
    assert Flat(bs, disk, [addrs[q]]) == [] + disk[addrs[q]];
  }

  function Min(a: int, b: int): int {
    if a < b then a else b
  }

  /** What a loop over the runs is at: `pos` is the beginning of block `q`, which stands
      in `run`. */
  ghost predicate AtBlock(bs: int, addrs: seq<Addr>, pos: int, run: Run, offset: int, at: nat, q: nat) {
    pos == Bytes(bs, q) && Covers(bs, addrs, pos, run, offset, at)
  }

  /** Finds the run for a position at the beginning of a block. */
  method FindAligned(g: Geometry, d: Data, pos: int, ghost q: nat) returns (found: bool, run: Run, offset: int, ghost at: nat)
    requires StreamOk(g, d) && (d.table != [] ==> SizesFit(g)) && PositionOk(g, d, pos) && pos == Bytes(g.blockSize, q)
    requires d.table != [] ==> pos < d.maxDouble
    ensures found <==> pos < Bytes(g.blockSize, |FileBlocks(d)|)
    ensures found ==> AtBlock(g.blockSize, FileBlocks(d), pos, run, offset, at, q)
  {
    hide Bytes, StreamOk, PositionOk, SizesFit, Covers, FileBlocks;
    assert g.blockSize > 0 by {
      GeometryOk(g, d);
    }
    BytesOrder(g.blockSize, 0, q);
    BytesAdd(g.blockSize, 0, 0);
    found, run, offset, at := FindBlockRun(g, d, pos);
  }

  lemma {:induction false} GeometryOk(g: Geometry, d: Data)
    requires StreamOk(g, d)
    ensures g.blockSize > 0 && 0 <= d.size <= Bytes(g.blockSize, |FileBlocks(d)|)
    ensures d.table != [] ==> Bytes(g.blockSize, |FileBlocks(d)|) == d.maxDouble > 0
  {
    RangeLengths(g, d);
  }

  /** The part of Inode::ReadAt that reads whole blocks, and the last one partially. */
  method ReadBlocks(g: Geometry, disk: Disk, d: Data, pos0: int, length0: int, run0: Run, offset0: int, ghost at0: nat, ghost q0: nat)
    returns (bytes: seq<int>)
    requires StreamOk(g, d) && InReach(g, d, pos0, length0) && OnDisk(g.blockSize, disk, FileBlocks(d))
    requires AtBlock(g.blockSize, FileBlocks(d), pos0, run0, offset0, at0, q0)
    requires 0 <= pos0 && 0 <= length0 && pos0 + length0 <= d.size <= |Flat(g.blockSize, disk, FileBlocks(d))|
    ensures bytes == Flat(g.blockSize, disk, FileBlocks(d))[pos0..pos0 + length0]
  {
    hide Bytes, Whole, StreamOk, PositionOk, SizesFit, OnDisk, Covers, Flat, FileBlocks, RunAddrs, RestOf;
    var bs := g.blockSize;
    GeometryOk(g, d);
    ghost var addrs := FileBlocks(d);
    ghost var file := Flat(bs, disk, addrs);
    FlatLength(bs, disk, addrs);
    var pos, length, run, offset := pos0, length0, run0, offset0;
    ghost var at: nat, q: nat := at0, q0;
    bytes := [];
    var partial := false;
    while length > 0
      invariant pos0 <= pos && 0 <= length && pos + length == pos0 + length0
      invariant bytes == file[pos0..pos]
      invariant length > 0 ==> AtBlock(bs, addrs, pos, run, offset, at, q)
      invariant partial ==> length < bs
      decreases length
    {
      BytesAdd(bs, q, 1);
      Forward(bs, addrs, pos, run, offset, at, q);
      run := RestOf(run, Whole(bs, pos - offset));
      BytesAdd(bs, 0, 1);
      BytesOrder(bs, 1, run.length);
      if Bytes(bs, run.length) > length && length < bs {
        ReadPart(bs, disk, addrs, run, q, 0, length);
        Join(file, pos0, pos, pos + length);
        bytes := bytes + disk[Addr(run.group, run.start)][0..length];
        pos, length := pos + length, 0;
        break;
      }
      var k := if Bytes(bs, run.length) > length then Whole(bs, length) else run.length;
      if Bytes(bs, run.length) > length {
        partial := true;
        PartialRun(bs, run.length, length);
      }
      ReadWhole(bs, disk, addrs, run, q, k);
      Join(file, pos0, pos, pos + Bytes(bs, k));
      bytes := bytes + Flat(bs, disk, RunAddrs(run.(length := k)));
      length, pos := length - Bytes(bs, k), pos + Bytes(bs, k);
      q := q + k;
      if length > 0 {
        if partial {
          NextBlock(bs, addrs, run, q - k, k);
          run, offset, at := Run(run.group, run.start + k, 1), pos, q;
        } else {
          var found;
          found, run, offset, at := FindAligned(g, d, pos, q);
        }
      }
    }
    assert pos == pos0 + length0;
  }

  /** The whole blocks of a length that ends inside a run. */
  lemma {:induction false} PartialRun(bs: int, n: int, length: int)
    requires bs > 0 && Bytes(bs, n) > length >= bs
    ensures var k := Whole(bs, length); 1 <= k < n && Bytes(bs, k) <= length < Bytes(bs, k) + bs
  {
    hide Bytes, Whole;
    Divide(bs, length);
    var k := Whole(bs, length);
    BytesAdd(bs, k, 1);
    BytesAdd(bs, 0, 1);
    BytesOrder(bs, n, k);
    BytesOrder(bs, 1, k);
    BytesOrder(bs, k + 1, 1);
  }

  // ---------- writing ----------

  /** The file with `bytes` written over it from `pos` on. */
  function Splice(file: seq<int>, pos: int, bytes: seq<int>): (r: seq<int>)
    requires 0 <= pos && pos + |bytes| <= |file|
    ensures |r| == |file|
  {
    file[..pos] + bytes + file[pos + |bytes|..]
  }

  lemma {:induction false} SpliceTwice(file: seq<int>, pos: int, a: seq<int>, b: seq<int>)
    requires 0 <= pos && pos + |a| + |b| <= |file|
    ensures Splice(Splice(file, pos, a), pos + |a|, b) == Splice(file, pos, a + b)
  {
    var x, y := Splice(Splice(file, pos, a), pos + |a|, b), Splice(file, pos, a + b);
    assert Splice(file, pos, a)[..pos + |a|] == file[..pos] + a;
    assert Splice(file, pos, a)[pos + |a| + |b|..] == file[pos + |a| + |b|..];
  }

  /** Changing bytes inside one part of a file. */
  lemma {:induction false} SpliceInside(file: seq<int>, b: int, n: int, r: int, bytes: seq<int>)
    requires 0 <= b && 0 <= r && r + |bytes| <= n && b + n <= |file|
    ensures Splice(file, b, Splice(file[b..b + n], r, bytes)) == Splice(file, b + r, bytes)
  {
    var part := file[b..b + n];
    Slice(file, b, b + n, 0, r);
    Slice(file, b, b + n, r + |bytes|, n);
    assert part[..r] == file[b..b + r] && part[r + |bytes|..] == file[b + r + |bytes|..b + n];
    assert file[..b] + file[b..b + r] == file[..b + r];
    assert file[b + r + |bytes|..b + n] + file[b + n..] == file[b + r + |bytes|..];
  }

  /** Blocks written one after the other. */
  function PutBlocks(bs: int, disk: Disk, addrs: seq<Addr>, bytes: seq<int>): Disk
    requires bs > 0 && |bytes| == Bytes(bs, |addrs|)
  {
    if addrs == [] then disk
    else
      BytesAdd(bs, |addrs| - 1, 1);
      BytesOrder(bs, 0, |addrs| - 1);
      var n, m := |addrs| - 1, |bytes| - bs;
      PutBlocks(bs, disk, addrs[..n], bytes[..m])[addrs[n] := bytes[m..]]
  }

  lemma {:induction false} PutLast(bs: int, disk: Disk, addrs: seq<Addr>, block: seq<int>)
    requires |addrs| > 0 && Distinct(addrs) && OnDisk(bs, disk, addrs[..|addrs| - 1]) && |block| == bs
    ensures var disk' := disk[addrs[|addrs| - 1] := block];
            OnDisk(bs, disk', addrs) && Flat(bs, disk', addrs) == Flat(bs, disk, addrs[..|addrs| - 1]) + block
  {
    var n := |addrs| - 1;
    var disk' := disk[addrs[n] := block];
    assert forall i :: 0 <= i < n ==> addrs[..n][i] == addrs[i] != addrs[n];
    FlatSame(bs, disk, disk', addrs[..n]);
    assert forall i :: 0 <= i < n ==> addrs[i] == addrs[..n][i];
  }

  lemma {:induction false} PutBlocksHold(bs: int, disk: Disk, addrs: seq<Addr>, bytes: seq<int>)
    requires bs > 0 && |bytes| == Bytes(bs, |addrs|) && Distinct(addrs)
    ensures var disk' := PutBlocks(bs, disk, addrs, bytes);
            && OnDisk(bs, disk', addrs) && Flat(bs, disk', addrs) == bytes
            && (forall x :: x in disk && x !in addrs ==> x in disk' && disk'[x] == disk[x])
            && (forall x :: x in disk' <==> x in disk || x in addrs)
  {
    if addrs != [] {
      hide Bytes, Flat, OnDisk;
      var n, m := |addrs| - 1, |bytes| - bs;
      BytesAdd(bs, n, 1);
      BytesOrder(bs, 0, n);
      BytesAdd(bs, 0, 0);
      PutBlocksHold(bs, disk, addrs[..n], bytes[..m]);
      PutLast(bs, PutBlocks(bs, disk, addrs[..n], bytes[..m]), addrs, bytes[m..]);
      assert bytes == bytes[..m] + bytes[m..];
      assert forall x :: x in addrs <==> x in addrs[..n] || x == addrs[n];
    }
  }

  /** What a write does to the disk: the file has new bytes, and blocks of other files
      keep theirs. */
  ghost predicate Written(bs: int, disk: Disk, disk': Disk, addrs: seq<Addr>, pos: int, bytes: seq<int>) {
    && OnDisk(bs, disk, addrs) && OnDisk(bs, disk', addrs) && disk'.Keys == disk.Keys
    && 0 <= pos && pos + |bytes| <= |Flat(bs, disk, addrs)|
    && Flat(bs, disk', addrs) == Splice(Flat(bs, disk, addrs), pos, bytes)
    && forall x :: x in disk && x !in addrs ==> disk'[x] == disk[x]
  }

  lemma {:induction false} WrittenTwice(bs: int, disk: Disk, disk1: Disk, disk2: Disk, addrs: seq<Addr>, pos: int, a: seq<int>, b: seq<int>)
    requires Written(bs, disk, disk1, addrs, pos, a) && Written(bs, disk1, disk2, addrs, pos + |a|, b)
    ensures Written(bs, disk, disk2, addrs, pos, a + b)
  {
    hide Flat, OnDisk;
    SpliceTwice(Flat(bs, disk, addrs), pos, a, b);
  }

  /** Writing `k` whole blocks from block `q` on. */
  lemma {:induction false} WriteWhole(bs: int, disk: Disk, addrs: seq<Addr>, run: Run, q: nat, k: int, bytes: seq<int>)
    requires bs > 0 && OnDisk(bs, disk, addrs) && Distinct(addrs) && StandsAt(addrs, run, q) && 0 <= k <= run.length
    requires |bytes| == Bytes(bs, k)
    ensures |RunAddrs(run.(length := k))| == k
    ensures Written(bs, disk, PutBlocks(bs, disk, RunAddrs(run.(length := k)), bytes), addrs, Bytes(bs, q), bytes)
  {
    FirstBlocks(addrs, run, q, k);
    hide Written, PutBlocks, Bytes, RunAddrs;
    RangeReplaced(bs, disk, addrs, q, q + k, bytes);
  }

  lemma {:induction false} RangeReplaced(bs: int, disk: Disk, addrs: seq<Addr>, i: nat, j: nat, bytes: seq<int>)
    requires bs > 0 && OnDisk(bs, disk, addrs) && Distinct(addrs) && i <= j <= |addrs| && |bytes| == Bytes(bs, j - i)
    ensures Written(bs, disk, PutBlocks(bs, disk, addrs[i..j], bytes), addrs, Bytes(bs, i), bytes)
  {
    hide Bytes, Flat, PutBlocks, OnDisk, Distinct;
    var part := addrs[i..j];
    PartInside(bs, disk, addrs, i, j);
    PutBlocksHold(bs, disk, part, bytes);
    var disk' := PutBlocks(bs, disk, part, bytes);
    BytesAdd(bs, i, j - i);
    FlatWrite(bs, disk, disk', addrs, i, j, bytes);
    assert disk'.Keys == disk.Keys;
  }

  lemma {:induction false} PartInside(bs: int, disk: Disk, addrs: seq<Addr>, i: nat, j: nat)
    requires OnDisk(bs, disk, addrs) && Distinct(addrs) && i <= j <= |addrs|
    ensures Distinct(addrs[i..j]) && forall x :: x in addrs[i..j] ==> x in addrs && x in disk
  {
  }

  /** Writing a part of block `q`. */
  lemma {:induction false} WritePart(bs: int, disk: Disk, addrs: seq<Addr>, run: Run, q: nat, r: int, bytes: seq<int>)
    requires bs > 0 && OnDisk(bs, disk, addrs) && Distinct(addrs) && StandsAt(addrs, run, q) && 0 <= r && r + |bytes| <= bs
    ensures var block := Addr(run.group, run.start);
            && block in disk && |disk[block]| == bs
            && Written(bs, disk, disk[block := Splice(disk[block], r, bytes)], addrs, Bytes(bs, q) + r, bytes)
  {
    FirstBlocks(addrs, run, q, 1);
    hide Written, Splice, Bytes, RunAddrs;
    PartReplaced(bs, disk, addrs, q, r, bytes);
  }

  lemma {:induction false} PartReplaced(bs: int, disk: Disk, addrs: seq<Addr>, q: nat, r: int, bytes: seq<int>)
    requires bs > 0 && OnDisk(bs, disk, addrs) && Distinct(addrs) && q < |addrs| && 0 <= r && r + |bytes| <= bs
    ensures var block := addrs[q];
            && block in disk && |disk[block]| == bs
            && Written(bs, disk, disk[block := Splice(disk[block], r, bytes)], addrs, Bytes(bs, q) + r, bytes)
  {
    hide Bytes, Flat, OnDisk, Distinct;
    FlatBlock(bs, disk, addrs, q);
    var block := disk[addrs[q]];
    BlockReplaced(bs, disk, addrs, q, Splice(block, r, bytes));
    hide Splice;
    SpliceInside(Flat(bs, disk, addrs), Bytes(bs, q), bs, r, bytes);
  }

  /** Block `q` is a part of the file. */
  lemma {:induction false} FlatBlock(bs: int, disk: Disk, addrs: seq<Addr>, q: nat)
    requires bs > 0 && OnDisk(bs, disk, addrs) && q < |addrs|
    ensures addrs[q] in disk && |disk[addrs[q]]| == bs
    ensures 0 <= Bytes(bs, q) && Bytes(bs, q) + bs <= |Flat(bs, disk, addrs)|
    ensures Flat(bs, disk, addrs)[Bytes(bs, q)..Bytes(bs, q) + bs] == disk[addrs[q]]
  {
    FlatOne(bs, disk, addrs, q);
    hide Bytes, Flat, OnDisk;
    BytesAdd(bs, q, 1);
    FlatPart(bs, disk, addrs, q, q + 1);
  }

  lemma {:induction false} BlockReplaced(bs: int, disk: Disk, addrs: seq<Addr>, q: nat, block': seq<int>)
    requires bs > 0 && OnDisk(bs, disk, addrs) && Distinct(addrs) && q < |addrs| && |block'| == bs
    ensures Written(bs, disk, disk[addrs[q] := block'], addrs, Bytes(bs, q), block')
  {
    var disk' := disk[addrs[q] := block'];
    assert OnDisk(bs, disk', addrs);
    FlatOne(bs, disk', addrs, q);
    assert addrs[q..q + 1] == [addrs[q]];
    hide Bytes, Flat, OnDisk, Distinct;
    BytesAdd(bs, q, 1);
    FlatWrite(bs, disk, disk', addrs, q, q + 1, block');
    assert disk'.Keys == disk.Keys;
  }
}
