/** The data stream of an inode as an object: it grows, shrinks, is read and is written.
The volume's allocator is a set of used blocks and a list of runs it will offer; any
choice of an allocator is some such list. */
module InodeStream {
  import opened Sequences
  import opened BlockUnits
  import opened BlockRuns
  import opened StreamShape
  import opened StreamLookup
  import opened StreamDouble
  import opened StreamAccess
  import opened StreamChange
  import opened StreamBlocks
  import opened StreamGrowth

  /** How a write over the blocks there are ends: it needs a block at its position, also if
      there are no bytes, and blocks for all its bytes. */
  function InsideStatus(g: Geometry, d: Data, pos: int, length: nat): Status {
    var end := Bytes(g.blockSize, |FileBlocks(d)|);
    if pos < end && pos + length <= end then Ok else BadValue
  }

  class Inode {
    const g: Geometry
    var data: Data
    var disk: Disk
    var used: set<Addr>         // the blocks in use on the volume
    var offers: seq<Run>        // what the allocator will find

    constructor (g: Geometry, data: Data, disk: Disk, used: set<Addr>, offers: seq<Run>)
      ensures this.g == g && this.data == data && this.disk == disk && this.used == used && this.offers == offers
    {
      this.g, this.data, this.disk, this.used, this.offers := g, data, disk, used, offers;
    }

    ghost function Now(): Stage
      reads this
    {
      Stage(data, used, offers)
    }

    /** Reads bytes: those of the file from the position on, as far as the file goes. */
    method ReadAt(pos0: int, length0: int) returns (status: Status, bytes: seq<int>)
      requires StreamOk(g, data) && OnDisk(g.blockSize, disk, FileBlocks(data)) && 0 <= length0
      requires pos0 < data.size || pos0 < 0 ==>
                 InReach(g, data, Max(pos0, 0), Min(length0, data.size - Max(pos0, 0)))
      ensures |Flat(g.blockSize, disk, FileBlocks(data))| >= data.size
      ensures status == Ok || (status == BadValue && bytes == [])
      ensures status == BadValue <==> pos0 < 0 && FileBlocks(data) == []
      ensures status == Ok ==>
                bytes == if pos0 >= data.size then []
                         else var p := if pos0 < 0 then 0 else pos0;
                              Flat(g.blockSize, disk, FileBlocks(data))[p..Min(p + length0, data.size)]
    {
      hide Bytes, StreamOk, InReach, OnDisk, Flat, FileBlocks;
      GeometryOk(g, data);
      FlatLength(g.blockSize, disk, FileBlocks(data));
      BytesAdd(g.blockSize, 0, 0);
      BytesOrder(g.blockSize, |FileBlocks(data)|, 0);
      var pos := pos0;
      if pos < 0 {
        pos := 0;
      } else if pos >= data.size {
        return Ok, [];
      }
      status, bytes := ReadRange(pos, Min(length0, data.size - pos));
    }

    /** The same for a range inside the file. */
    method ReadRange(pos0: int, length0: int) returns (status: Status, bytes: seq<int>)
      requires StreamOk(g, data) && InReach(g, data, pos0, length0) && OnDisk(g.blockSize, disk, FileBlocks(data))
      requires 0 <= pos0 && 0 <= length0 && pos0 + length0 <= data.size <= |Flat(g.blockSize, disk, FileBlocks(data))|
      requires data.table != [] ==> pos0 < data.maxDouble
      ensures status == if pos0 < Bytes(g.blockSize, |FileBlocks(data)|) then Ok else BadValue
      ensures bytes == if status == Ok then Flat(g.blockSize, disk, FileBlocks(data))[pos0..pos0 + length0] else []
    {
      hide Bytes, Whole, Part, StreamOk, PositionOk, SizesFit, OnDisk, Covers, Flat, FileBlocks, RunAddrs, RestOf;
      var bs, pos, length := g.blockSize, pos0, length0;
      ghost var addrs := FileBlocks(data);
      GeometryOk(g, data);
      bytes := [];
      var found, run, offset, at := FindBlockRun(g, data, pos);
      if !found {
        return BadValue, [];
      }
      ghost var q := Whole(bs, pos);
      Divide(bs, pos);
      if Part(bs, pos) != 0 {
        Forward(bs, addrs, pos, run, offset, at, q);
        run := RestOf(run, Whole(bs, pos - offset));
        var n := Min(length, bs - Part(bs, pos));
        ReadPart(bs, disk, addrs, run, q, Part(bs, pos), n);
        bytes := disk[Addr(run.group, run.start)][Part(bs, pos)..Part(bs, pos) + n];
        pos, length := pos + n, length - n;
        if length == 0 {
          return Ok, bytes;
        }
        q := q + 1;
        BytesAdd(bs, q - 1, 1);
        found, run, offset, at := FindAligned(g, data, pos, q);
      }
      assert AtBlock(bs, addrs, pos, run, offset, at, q);
      var more := ReadBlocks(g, disk, data, pos, length, run, offset, at, q);
      Join(Flat(bs, disk, addrs), pos0, pos, pos + length);
      return Ok, bytes + more;
    }

    /** The part of Inode::WriteAt that writes whole blocks, and the last one partially. */
    method WriteBlocks(pos0: int, bytes: seq<int>, run0: Run, offset0: int, ghost at0: nat, ghost q0: nat)
      returns (status: Status, written: int)
      requires StreamOk(g, data) && InReach(g, data, pos0, |bytes|) && OnDisk(g.blockSize, disk, FileBlocks(data)) && Distinct(FileBlocks(data))
      requires AtBlock(g.blockSize, FileBlocks(data), pos0, run0, offset0, at0, q0) && 0 <= pos0
      requires data.table != [] ==> pos0 + |bytes| <= Bytes(g.blockSize, |FileBlocks(data)|)
      modifies this`disk
      ensures 0 <= written <= |bytes| && written == Min(|bytes|, Bytes(g.blockSize, |FileBlocks(data)|) - pos0)
      ensures status == if written == |bytes| then Ok else BadValue
      ensures Written(g.blockSize, old(disk), disk, FileBlocks(data), pos0, bytes[..written])
    {
      hide Bytes, Whole, StreamOk, PositionOk, SizesFit, OnDisk, Covers, Flat, FileBlocks, RunAddrs, RestOf, PutBlocks, Written, Distinct;
      var bs := g.blockSize;
      GeometryOk(g, data);
      ghost var addrs := FileBlocks(data);
      var pos, run, offset := pos0, run0, offset0;
      ghost var at: nat, q: nat := at0, q0;
      written := 0;
      var partial := false;
      CoveredInside(bs, addrs, pos, run, offset, at);
      WrittenNothing(bs, disk, addrs, pos);
      while written < |bytes|
        invariant 0 <= written <= |bytes| && pos == pos0 + written
        invariant Written(bs, old(disk), disk, addrs, pos0, bytes[..written])
        invariant written < |bytes| ==> AtBlock(bs, addrs, pos, run, offset, at, q)
        invariant partial ==> |bytes| - written < bs
        decreases |bytes| - written
      {
        ghost var disk0 := disk;
        var length := |bytes| - written;
        WrittenFacts(bs, old(disk), disk, addrs, pos0, bytes[..written]);
        BytesAdd(bs, q, 1);
        Forward(bs, addrs, pos, run, offset, at, q);
        run := RestOf(run, Whole(bs, pos - offset));
        BytesAdd(bs, 0, 1);
        BytesOrder(bs, 1, run.length);
        if Bytes(bs, run.length) > length && length < bs {
          WritePart(bs, disk, addrs, run, q, 0, bytes[written..]);
          var block := Addr(run.group, run.start);
          disk := disk[block := Splice(disk[block], 0, bytes[written..])];
          WrittenTwice(bs, old(disk), disk0, disk, addrs, pos0, bytes[..written], bytes[written..]);
          assert bytes[..written] + bytes[written..] == bytes == bytes[..|bytes|];
          written, pos := |bytes|, pos + length;
          break;
        }
        var k := if Bytes(bs, run.length) > length then Whole(bs, length) else run.length;
        if Bytes(bs, run.length) > length {
          partial := true;
          PartialRun(bs, run.length, length);
        }
        var chunk := bytes[written..written + Bytes(bs, k)];
        WriteWhole(bs, disk, addrs, run, q, k, chunk);
        disk := PutBlocks(bs, disk, RunAddrs(run.(length := k)), chunk);
        WrittenTwice(bs, old(disk), disk0, disk, addrs, pos0, bytes[..written], chunk);
        assert bytes[..written] + chunk == bytes[..written + Bytes(bs, k)];
        BytesAdd(bs, q, k);
        written, pos := written + Bytes(bs, k), pos + Bytes(bs, k);
        q := q + k;
        WrittenFacts(bs, old(disk), disk, addrs, pos0, bytes[..written]);
        if written < |bytes| {
          if partial {
            NextBlock(bs, addrs, run, q - k, k);
            run, offset, at := Run(run.group, run.start + k, 1), pos, q;
          } else {
            var found;
            found, run, offset, at := FindAligned(g, data, pos, q);
            if !found {
              return BadValue, written;
            }
          }
        }
      }
      WrittenFacts(bs, old(disk), disk, addrs, pos0, bytes[..written]);
      status := Ok;
    }

    /** Writes over the blocks the stream has, as far as they go. */
    method Overwrite(pos: int, bytes: seq<int>) returns (status: Status, written: int)
      requires StreamOk(g, data) && InReach(g, data, pos, |bytes|) && OnDisk(g.blockSize, disk, FileBlocks(data)) && Distinct(FileBlocks(data))
      requires 0 <= pos && (data.table != [] ==> pos < data.maxDouble && pos + |bytes| <= data.maxDouble)
      modifies this`disk
      ensures pos >= Bytes(g.blockSize, |FileBlocks(data)|) ==> status == BadValue && written == 0 && disk == old(disk)
      ensures pos < Bytes(g.blockSize, |FileBlocks(data)|) ==>
                && 0 <= written <= |bytes| && written == Min(|bytes|, Bytes(g.blockSize, |FileBlocks(data)|) - pos)
                && status == (if written == |bytes| then Ok else BadValue)
                && Written(g.blockSize, old(disk), disk, FileBlocks(data), pos, bytes[..written])
    {
      hide Bytes, Whole, Part, StreamOk, PositionOk, SizesFit, OnDisk, Covers, Flat, FileBlocks, RunAddrs, RestOf, Written, Distinct, Splice;
      var bs := g.blockSize;
      ghost var addrs := FileBlocks(data);
      GeometryOk(g, data);
      var found, run, offset, at := FindBlockRun(g, data, pos);
      if !found {
        return BadValue, 0;
      }
      ghost var q := Whole(bs, pos);
      Divide(bs, pos);
      if Part(bs, pos) == 0 {
        status, written := WriteBlocks(pos, bytes, run, offset, at, q);
        return;
      }
      Forward(bs, addrs, pos, run, offset, at, q);
      run := RestOf(run, Whole(bs, pos - offset));
      var n := Min(|bytes|, bs - Part(bs, pos));
      WritePart(bs, disk, addrs, run, q, Part(bs, pos), bytes[..n]);
      var block := Addr(run.group, run.start);
      disk := disk[block := Splice(disk[block], Part(bs, pos), bytes[..n])];
      WrittenFacts(bs, old(disk), disk, addrs, pos, bytes[..n]);
      if n == |bytes| {
        return Ok, n;
      }
      BytesAdd(bs, q, 1);
      found, run, offset, at := FindAligned(g, data, pos + n, q + 1);
      if !found {
        return BadValue, n;
      }
      ghost var disk1 := disk;
      var more;
      status, more := WriteBlocks(pos + n, bytes[n..], run, offset, at, q + 1);
      WrittenTwice(bs, old(disk), disk1, disk, addrs, pos, bytes[..n], bytes[n..][..more]);
      assert bytes[..n] + bytes[n..][..more] == bytes[..n + more];
      written := n + more;
    }

    static lemma {:induction false} WrittenNothing(bs: int, disk: Disk, addrs: seq<Addr>, pos: int)
      requires OnDisk(bs, disk, addrs) && 0 <= pos <= Bytes(bs, |addrs|)
      ensures Written(bs, disk, disk, addrs, pos, [])
    {
      hide Bytes, Flat;
      FlatLength(bs, disk, addrs);
      assert Splice(Flat(bs, disk, addrs), pos, []) == Flat(bs, disk, addrs);
    }

    static lemma {:induction false} WrittenFacts(bs: int, disk: Disk, disk': Disk, addrs: seq<Addr>, pos: int, bytes: seq<int>)
      requires Written(bs, disk, disk', addrs, pos, bytes)
      ensures OnDisk(bs, disk', addrs) && 0 <= pos && pos + |bytes| <= Bytes(bs, |addrs|)
    {
      FlatLength(bs, disk, addrs);
    }

    /** Volume::Allocate: a run of free blocks, at least `minimum` and at most `blocks`. */
    method Allocate(blocks: int, minimum: int) returns (status: Status, run: Run)
      requires 1 <= minimum <= blocks
      modifies this`used, this`offers
      ensures status == if CanAllocate(g, old(used), old(offers), blocks, minimum) then Ok else DeviceFull
      ensures status == Ok ==> old(offers) != [] && run == Offer(old(offers), blocks)
      ensures status == Ok ==> RunOk(g, run) && minimum <= run.length <= blocks && Set(RunAddrs(run)) !! old(used)
      ensures used == if status == Ok then old(used) + Set(RunAddrs(run)) else old(used)
      ensures offers == Rest(old(offers))
    {
      if offers == [] {
        return DeviceFull, ZERO;
      }
      run := offers[0].(length := Min(offers[0].length, blocks));
      offers := offers[1..];
      if !RunOk(g, run) || run.length < minimum || exists i :: 0 <= i < |RunAddrs(run)| && RunAddrs(run)[i] in used {
        return DeviceFull, ZERO;
      }
      used := used + set i | 0 <= i < |RunAddrs(run)| :: RunAddrs(run)[i];
      status := Ok;
    }

    /** Volume::Free. */
    method Free(run: Run)
      modifies this`used
      ensures used == old(used) - Set(RunAddrs(run))
    {
      used := used - set i | 0 <= i < |RunAddrs(run)| :: RunAddrs(run)[i];
    }

    /** Gives up the runs of an array that come behind the size, and the blocks of the
        last run that are not needed. */
    method FreeStreamArray(array0: seq<Run>, size: int, offset0: int, max0: int, ghost o: nat)
      returns (array': seq<Run>, offset: int, max: int, ghost kept: nat)
      requires g.Valid() && ArrayOk(g, array0) && offset0 == Bytes(g.blockSize, o) && 0 <= size
      requires size > offset0 ==> max0 >= Bytes(g.blockSize, o + |Addrs(Runs(array0))|)
      modifies this`used
      ensures kept <= |Addrs(Runs(array0))|
      ensures ArrayOk(g, array') && |array'| == |array0| && Enough(g.blockSize, o, |Addrs(Runs(array0))|, size, kept)
      ensures Addrs(Runs(array')) == Addrs(Runs(array0))[..kept]
      ensures kept == |Addrs(Runs(array0))| ==> array' == array0
      ensures used == old(used) - Set(Addrs(Runs(array0))[kept..])
      ensures offset == Bytes(g.blockSize, o + |Addrs(Runs(array0))|)
      ensures max == if kept < |Addrs(Runs(array0))| then Min(max0, Bytes(g.blockSize, o + kept)) else max0
    {
      hide Bytes, Addrs, RunAddrs, RunOk, Whole, Trimmed, Set, TrimState;
      var bs := g.blockSize;
      array', offset, max, kept := array0, offset0, max0, 0;
      ghost var m: nat := 0;
      TrimStart(g, array0, o, size, max, used);
      var i := 0;
      while i < |array'| && !array'[i].IsZero()
        invariant 0 <= i <= Used(array0) && |array'| == |array0|
        invariant forall j :: i <= j < |array'| ==> array'[j] == array0[j]
        invariant TrimState(g, array0, array', i, m, kept, o, size, offset, max0, max, old(used), used)
      {
        var run, newOffset := array'[i], offset + Bytes(bs, array'[i].length);
        TrimBound(g, array0, i, m, kept, o, size, offset, max0, max, old(used), used, array');
        if newOffset <= size {
          TrimKeeps(g, array0, array', i, m, kept, o, size, offset, max0, max, old(used), used);
          kept, m := kept + run.length, i + 1;
        } else if offset < size {
          TrimCuts(g, array0, array', i, m, kept, o, size, offset, max0, max, old(used), used);
          var c := Whole(bs, size - offset) + 1;
          array' := array'[i := run.(length := c)];
          kept, m := kept + c, i + 1;
          if c < run.length {
            max := offset + Bytes(bs, c);
            Free(Run(run.group, run.start + c, run.length - c));
          }
        } else {
          TrimDrops(g, array0, array', i, m, kept, o, size, offset, max0, max, old(used), used);
          array' := array'[i := ZERO];
          if max > offset {
            max := offset;
          }
          Free(run);
        }
        i, offset := i + 1, newOffset;
      }
      TrimEnds(g, array0, array', i, m, kept, o, size, offset, max0, max, old(used), used);
    }

    static lemma {:induction false} TrimBound(g: Geometry, before: seq<Run>, i: nat, m: nat, kept: nat, o: nat, size: int,
                                              offset: int, max0: int, max: int, used0: set<Addr>, used: set<Addr>, a: seq<Run>)
      requires g.Valid() && TrimState(g, before, a, i, m, kept, o, size, offset, max0, max, used0, used) && ArrayOk(g, before)
      requires i < Used(before)
      ensures offset + Bytes(g.blockSize, before[i].length) <= Bytes(g.blockSize, o + |Addrs(Runs(before))|)
      ensures RunOk(g, before[i]) && Bytes(g.blockSize, o) <= offset
    {
      hide Bytes, RunAddrs, Addrs, Set, Trimmed, Enough;
      var runs := Runs(before);
      assert runs[..i] == before[..i];
      AddrsAt(runs, i);
      RunLength(before[i]);
      BytesAdd(g.blockSize, o + |Addrs(before[..i])|, before[i].length);
      BytesOrder(g.blockSize, o + |Addrs(before[..i])| + before[i].length, o + |Addrs(runs)|);
      BytesOrder(g.blockSize, o, o + |Addrs(before[..i])|);
    }

    static lemma {:induction false} TrimEnds(g: Geometry, before: seq<Run>, a: seq<Run>, i: nat, m: nat, kept: nat, o: nat, size: int,
                                             offset: int, max0: int, max: int, used0: set<Addr>, used: set<Addr>)
      requires TrimState(g, before, a, i, m, kept, o, size, offset, max0, max, used0, used) && ArrayOk(g, before) && i == Used(before)
      ensures ArrayOk(g, a) && |a| == |before| && kept <= |Addrs(Runs(before))| && Addrs(Runs(a)) == Addrs(Runs(before))[..kept]
      ensures Enough(g.blockSize, o, |Addrs(Runs(before))|, size, kept)
      ensures kept == |Addrs(Runs(before))| ==> a == before
      ensures offset == Bytes(g.blockSize, o + |Addrs(Runs(before))|)
      ensures max == if kept < |Addrs(Runs(before))| then Min(max0, Bytes(g.blockSize, o + kept)) else max0
      ensures used == used0 - Set(Addrs(Runs(before))[kept..])
    {
      hide Bytes, Set, Addrs;
      TrimmedArray(g, before, a, m, kept);
    }
  
    /** The stream without a double indirect range: its blocks are all different, they are
        in use, and all other blocks in use belong to others. */
    ghost predicate Valid(others: set<Addr>)
      reads this
    {
      && StreamOk(g, data) && data.table == []
      && (!data.indirect.IsZero() ==> data.size > data.maxDirect)
      && Distinct(Held(data))
      && used == others + Set(Held(data)) && others !! Set(Held(data))
    }

    /** The same while a run has been allocated that is not in the lists yet. */
    ghost predicate Pending(run: Run, others: set<Addr>)
      reads this
    {
      && StreamOk(g, data) && data.table == []
      && (!data.indirect.IsZero() ==> data.size > data.maxDirect)
      && Distinct(Held(data)) && others !! Set(Held(data))
      && RunOk(g, run) && Set(RunAddrs(run)) !! others + Set(Held(data))
      && used == others + Set(Held(data)) + Set(RunAddrs(run))
    }

    /** Puts the new run into the direct range. */
    method PlaceDirect(run: Run, needed: int, size: int, ghost others: set<Addr>)
      requires Pending(run, others) && data.indirect.IsZero() && Used(data.direct) < NUM_DIRECT_BLOCKS && 0 <= size
      requires needed <= 0 ==> size <= Bytes(g.blockSize, |FileBlocks(data)| + run.length)
      modifies this`data
      ensures Valid(others) && FileBlocks(data) == old(FileBlocks(data)) + RunAddrs(run)
      ensures Used(old(data.direct)) < |old(data.direct)| && data == InDirect(g, old(data), run, needed, size)
      ensures needed <= 0 ==> data.size == size
    {
      hide Bytes, Addrs, Set, ArraysOk, ArrayOk, AllRuns, Runs, Distinct, RunAddrs, RunOk, AddRun, Used;
      ghost var d0 := data;
      RangeLengths(g, data);
      NoTable(data);
      BytesAdd(g.blockSize, |FileBlocks(data)|, run.length);
      RunNotEmpty(g, run);
      BytesOrder(g.blockSize, 0, run.length);
      BytesAdd(g.blockSize, 0, 0);
      var max := data.maxDirect + Bytes(g.blockSize, run.length);
      GrownDirect(g, data, run, if needed > 0 then max else size);
      data := data.(direct := AddRun(data.direct, run), maxDirect := max, size := if needed > 0 then max else size);
      RunDistinct(run);
      HeldMore(FileBlocks(d0), RunAddrs(run), RunAddrs(d0.indirect), others, others + Set(Held(d0)));
    }

    /** The indirect range has a free entry in array `i` for the new run. */
    ghost predicate HasRoom(run: Run, i: nat, others: set<Addr>)
      reads this
    {
      && g.Valid() && |data.direct| == NUM_DIRECT_BLOCKS && ArrayOk(g, data.direct) && ArraysOk(g, data.arrays) && data.table == []
      && RangesOk(g, data) && !data.indirect.IsZero() && FirstFree(g, data.arrays, i)
      && Distinct(Held(data)) && others !! Set(Held(data))
      && RunOk(g, run) && Set(RunAddrs(run)) !! others + Set(Held(data))
      && used == others + Set(Held(data)) + Set(RunAddrs(run))
    }

    method PlaceInArray(run: Run, i: nat, needed: int, size: int, ghost others: set<Addr>)
      requires HasRoom(run, i, others) && data.maxDirect < size
      requires needed <= 0 ==> size <= Bytes(g.blockSize, |FileBlocks(data)| + run.length)
      modifies this`data
      ensures Valid(others) && FileBlocks(data) == old(FileBlocks(data)) + RunAddrs(run)
      ensures Used(old(data.arrays)[i]) < |old(data.arrays)[i]| && data == InArray(g, old(data), i, run, needed, size)
      ensures needed <= 0 ==> data.size == size
    {
      assert Used(data.arrays[i]) < |data.arrays[i]|;
      hide Bytes, Addrs, Set, ArraysOk, ArrayOk, AllRuns, Runs, Distinct, RunAddrs, RunOk, AddRun, Used, FirstFree;
      ghost var d0 := data;
      RangeLengths(g, data);
      NoTable(data);
      BytesAdd(g.blockSize, |FileBlocks(data)|, run.length);
      RunNotEmpty(g, run);
      BytesOrder(g.blockSize, 1, run.length);
      BytesAdd(g.blockSize, 0, 0);
      var max := data.maxIndirect + Bytes(g.blockSize, run.length);
      GrownIndirect(g, data, i, run, if needed > 0 then max else size);
      data := data.(arrays := data.arrays[i := AddRun(data.arrays[i], run)], maxIndirect := max,
                    size := if needed > 0 then max else size);
      RunDistinct(run);
      HeldMore(FileBlocks(d0), RunAddrs(run), RunAddrs(d0.indirect), others, others + Set(Held(d0)));
    }

    /** Begins the indirect range with four empty blocks for runs. */
    method BeginIndirect(ghost run: Run, ghost others: set<Addr>) returns (status: Status)
      requires Pending(run, others) && data.indirect.IsZero() && data.maxDirect > 0
      modifies this`data, this`used, this`offers
      ensures status == if CanAllocate(g, old(used), old(offers), 4, 4) then Ok else DeviceFull
      ensures status == Ok ==> HasRoom(run, 0, others) && FileBlocks(data) == old(FileBlocks(data))
      ensures status == Ok ==> Now() == Taken(old(Now()), 4).(data := WithIndirect(g, old(data), Offer(old(offers), 4)))
      ensures status != Ok ==> Now() == old(Now()).(offers := Rest(old(offers)))
      ensures data.maxDirect == old(data.maxDirect)
    {
      hide Bytes, Addrs, Set, ArraysOk, ArrayOk, AllRuns, Runs, Distinct, RunOk, Used, FirstFree, NoRuns, RunAddrs;
      ghost var d0 := data;
      var indirect;
      status, indirect := Allocate(4, 4);
      if status == Ok {
        RunNotEmpty(g, indirect);
        NoRunsOk(g);
        NoTable(d0);
        NoTable(data);
        NoArrays(g);
        BytesAdd(g.blockSize, 0, 0);
        data := data.(indirect := indirect, arrays := NoRuns(g), maxIndirect := data.maxDirect);
        NoTable(data);
        assert FileBlocks(data) == FileBlocks(d0);
        RunDistinct(indirect);
        ZeroAddrs(d0.indirect);
        HeldMore(FileBlocks(d0), RunAddrs(indirect), [], others, others + Set(Held(d0)));
        assert FileBlocks(d0) + RunAddrs(indirect) + [] == Held(data);
        assert FileBlocks(d0) + [] == Held(d0);
      }
    }

    static lemma {:induction false} ZeroAddrs(run: Run)
      requires run.IsZero()
      ensures RunAddrs(run) == []
    {
    }

    /** Puts the new run into the indirect range, which is begun if there is none.  The run
        is lost to the volume if there is no room for it. */
    method PlaceIndirect(run: Run, needed: int, size: int, ghost others: set<Addr>) returns (status: Status)
      requires Pending(run, others) && data.maxDirect > 0 && data.maxDirect < size && !TakesDirect(data)
      requires needed <= 0 ==> size <= Bytes(g.blockSize, |FileBlocks(data)| + run.length)
      modifies this`data, this`used, this`offers
      ensures status == PlaceStatus(g, old(Now()))
      ensures Now() == Placed(g, old(Now()), run, needed, size)
      ensures status == Ok ==> Valid(others) && FileBlocks(data) == old(FileBlocks(data)) + RunAddrs(run)
      ensures status == Ok && needed <= 0 ==> data.size == size
      ensures status != Ok ==> Valid(others + Set(RunAddrs(run))) && data == old(data)
    {
      hide Bytes, Addrs, Set, ArrayOk, AllRuns, Runs, Distinct, RunOk, RunAddrs, Held, FileBlocks, RangesOk, CanAllocate, TakesDirect,
        InArray, WithIndirect, NoRuns;
      var i := 0;
      if data.indirect.IsZero() {
        status := BeginIndirect(run, others);
        if status != Ok {
          return;
        }
      } else {
        while i < |data.arrays| && Used(data.arrays[i]) == g.runsPerBlock
          invariant 0 <= i <= |data.arrays|
          invariant forall j :: 0 <= j < i ==> Used(data.arrays[j]) == g.runsPerBlock
        {
          i := i + 1;
        }
        FirstRoomIs(g, data.arrays, i);
        if i == |data.arrays| {
          return TooBig;
        }
      }
      PlaceInArray(run, i, needed, size, others);
      status := Ok;
    }

    /** Puts a run that has just been allocated where it belongs.  It is lost exactly if
        there is no place for it. */
    method Place(run: Run, needed: int, size: int, ghost others: set<Addr>) returns (status: Status)
      requires Pending(run, others) && Bytes(g.blockSize, |FileBlocks(data)|) < size
      requires needed <= 0 ==> size <= Bytes(g.blockSize, |FileBlocks(data)| + run.length)
      modifies this`data, this`used, this`offers
      ensures status == PlaceStatus(g, old(Now()))
      ensures Now() == Placed(g, old(Now()), run, needed, size)
      ensures status == Ok ==> Valid(others) && FileBlocks(data) == old(FileBlocks(data)) + RunAddrs(run)
      ensures status == Ok && needed <= 0 ==> data.size == size
      ensures status != Ok ==> Valid(others + Set(RunAddrs(run))) && data == old(data)
    {
      hide Bytes, Addrs, Set, ArraysOk, AllRuns, Distinct, RunOk, RunAddrs, Held, CanAllocate, InDirect, InArray, WithIndirect;
      RangeLengths(g, data);
      NoTable(data);
      if data.size <= data.maxDirect {
        var free := 0;
        while free < NUM_DIRECT_BLOCKS && !data.direct[free].IsZero()
          invariant 0 <= free <= Used(data.direct)
        {
          free := free + 1;
        }
        if free < NUM_DIRECT_BLOCKS {
          PlaceDirect(run, needed, size, others);
          return Ok;
        }
      }
      DirectFull(g, data);
      status := PlaceIndirect(run, needed, size, others);
    }

    static lemma {:induction false} DirectFull(g: Geometry, d: Data)
      requires StreamOk(g, d)
      requires !d.indirect.IsZero() || Used(d.direct) == NUM_DIRECT_BLOCKS
      ensures d.maxDirect > 0
    {
    }

    /** How many bytes the new size needs beyond the blocks there are. */
    method BytesNeeded(size: int, ghost others: set<Addr>) returns (bytes: int)
      requires Valid(others) && size > data.size && size >= data.maxDirect && size >= data.maxIndirect
      ensures bytes == size - Bytes(g.blockSize, |FileBlocks(data)|) >= 0
    {
      hide Bytes, Addrs, Set, ArraysOk, ArrayOk, AllRuns, Distinct, RunOk, RunAddrs;
      RangeLengths(g, data);
      if data.size < data.maxDouble {
        bytes := size - data.maxDouble;
      } else if data.size < data.maxIndirect {
        bytes := size - data.maxIndirect;
      } else if data.size < data.maxDirect {
        bytes := size - data.maxDirect;
      } else {
        bytes := size - data.size;
      }
    }

    /** Makes the stream longer.  `free` is the number of free blocks the volume reports.
        A run that is allocated but finds no place is lost. */
    method GrowStream(size: int, free: int, ghost others: set<Addr>) returns (status: Status, ghost lost: Run)
      requires Valid(others) && size > data.size
      modifies this`data, this`used, this`offers
      ensures Growth(Now(), lost, status) == Grow(g, old(Now()), size, free)
      ensures Valid(others + Set(RunAddrs(lost))) && status != BadValue
      ensures status == Ok ==> lost == ZERO && data.size == size
      ensures lost == ZERO || (RunOk(g, lost) && Set(RunAddrs(lost)) !! others + Set(Held(data)))
      ensures |old(FileBlocks(data))| <= |FileBlocks(data)| && FileBlocks(data)[..|old(FileBlocks(data))|] == old(FileBlocks(data))
    {
      hide Bytes, Addrs, Set, ArraysOk, ArrayOk, AllRuns, Distinct, RunOk, RunAddrs, Held, FileBlocks, Whole, Used,
        CanAllocate, NoPlace, Placed, GrowBy;
      lost := ZERO;
      NoneLost(others);
      ghost var blocks0 := FileBlocks(data);
      assert blocks0[..|blocks0|] == blocks0;
      if size < data.maxDirect || size < data.maxIndirect || size < data.maxDouble {
        CoverIs(g, data);
        SetSize(size, others);
        return Ok, ZERO;
      }
      var bs := g.blockSize;
      var bytes := BytesNeeded(size, others);
      var blocks := Whole(bs, bytes + bs - 1);
      var needed := blocks;
      ghost var total := |FileBlocks(data)| + needed;
      RoundedUp(bs, |FileBlocks(data)|, bytes, size);
      if blocks > free {
        return DeviceFull, ZERO;
      }
      if blocks < Whole(bs, 65536) && free > 128 {
        blocks := Whole(bs, 65536);
      }
      while needed > 0
        invariant Valid(others) && lost == ZERO
        invariant needed > 0 ==> blocks >= 1
        invariant GrowBy(g, Now(), blocks, needed, size) == Grow(g, old(Now()), size, free)
        invariant |FileBlocks(data)| + needed == total && size <= Bytes(bs, total) < size + bs
        invariant |blocks0| <= |FileBlocks(data)| && FileBlocks(data)[..|blocks0|] == blocks0
        invariant !data.indirect.IsZero() ==> data.maxDirect < size
      {
        ghost var before := FileBlocks(data);
        StillShort(bs, |before|, needed, size);
        status, needed, lost := GrowOnce(blocks, needed, size, others);
        blocks := needed;
        assert FileBlocks(data)[..|blocks0|] == before[..|blocks0|];
        if status != Ok {
          return;
        }
        if needed > 0 {
          StillShort(bs, |FileBlocks(data)|, needed, size);
          CoverIs(g, data);
        }
      }
      BytesOrder(bs, total, |FileBlocks(data)|);
      GrowDone(g, Now(), blocks, needed, size);
      SetSize(size, others);
      status := Ok;
    }

    /** One round of the loop: a run is allocated and put where it belongs. */
    method GrowOnce(blocks: int, needed: int, size: int, ghost others: set<Addr>) returns (status: Status, left: int, ghost lost: Run)
      requires Valid(others) && needed > 0 && blocks >= 1
      requires Bytes(g.blockSize, |FileBlocks(data)|) < size <= Bytes(g.blockSize, |FileBlocks(data)| + needed)
      modifies this`data, this`used, this`offers
      ensures status != BadValue && Valid(others + Set(RunAddrs(lost)))
      ensures lost == ZERO || (RunOk(g, lost) && Set(RunAddrs(lost)) !! others + Set(Held(data)))
      ensures status == Ok ==>
                && lost == ZERO && Valid(others) && left < needed
                && GrowBy(g, Now(), left, left, size) == GrowBy(g, old(Now()), blocks, needed, size)
                && |FileBlocks(data)| + left == |old(FileBlocks(data))| + needed
                && (left <= 0 ==> data.size == size)
      ensures status != Ok ==> Growth(Now(), lost, status) == GrowBy(g, old(Now()), blocks, needed, size)
      ensures |old(FileBlocks(data))| <= |FileBlocks(data)| && FileBlocks(data)[..|old(FileBlocks(data))|] == old(FileBlocks(data))
    {
      hide Bytes, Addrs, Set, ArraysOk, ArrayOk, AllRuns, Distinct, RunOk, RunAddrs, Held, FileBlocks, RangesOk,
        CanAllocate, NoPlace, Placed;
      lost, left := ZERO, needed;
      NoneLost(others);
      ghost var before := FileBlocks(data);
      assert before[..|before|] == before;
      var run;
      status, run := Allocate(blocks, 1);
      if status != Ok {
        return;
      }
      RunLength(run);
      RunNotEmpty(g, run);
      BytesOrder(g.blockSize, |before| + needed, |before| + run.length);
      left := needed - run.length;
      status := Place(run, left, size, others);
      if status != Ok {
        lost := run;
      }
    }

    lemma {:induction false} NoneLost(others: set<Addr>)
      ensures others + Set(RunAddrs(ZERO)) == others
    {
    }

    method SetSize(size: int, ghost others: set<Addr>)
      requires Valid(others) && 0 <= size <= Bytes(g.blockSize, |FileBlocks(data)|)
      requires !data.indirect.IsZero() ==> size > data.maxDirect
      modifies this`data
      ensures Valid(others) && data == old(data).(size := size) && FileBlocks(data) == old(FileBlocks(data))
    {
      hide Bytes, Addrs, Set, ArraysOk, ArrayOk, AllRuns, Distinct, RunOk, RunAddrs;
      data := data.(size := size);
    }

    /** The ranges end where the blocks do. */
    static lemma {:induction false} CoverIs(g: Geometry, d: Data)
      requires StreamOk(g, d) && d.table == []
      ensures d.maxDirect <= Bytes(g.blockSize, |FileBlocks(d)|) && d.maxIndirect <= Bytes(g.blockSize, |FileBlocks(d)|)
      ensures d.maxDouble == 0
    {
      hide Bytes, Addrs, ArraysOk, ArrayOk, AllRuns, Runs, RunOk;
      RangeLengths(g, d);
      NoTable(d);
      BytesOrder(g.blockSize, |Addrs(Runs(d.direct))|, |FileBlocks(d)|);
    }

    static lemma {:induction false} RoundedUp(bs: int, n: int, bytes: int, size: int)
      requires bs > 0 && bytes == size - Bytes(bs, n) >= 0
      ensures var blocks := Whole(bs, bytes + bs - 1); blocks >= 0 && size <= Bytes(bs, n + blocks) < size + bs
    {
      hide Bytes, Whole;
      Divide(bs, bytes + bs - 1);
      BytesAdd(bs, n, Whole(bs, bytes + bs - 1));
    }

    static lemma {:induction false} StillShort(bs: int, n: int, needed: int, size: int)
      requires bs > 0 && needed > 0 && Bytes(bs, n + needed) < size + bs
      ensures Bytes(bs, n) < size
    {
      hide Bytes;
      BytesAdd(bs, n, needed);
      BytesAdd(bs, 0, 1);
      BytesOrder(bs, 1, needed);
    }

    /** The indirect blocks go exactly if what is kept fits into the direct entries. */
    static ghost predicate DropsIndirect(d: Data, d': Data, size: int, kept: nat) {
      d'.indirect == if kept <= |Addrs(Runs(d.direct))| && size < d.maxIndirect then ZERO else d.indirect
    }

    /** Cuts the stream to a size: the blocks kept are the first ones, and they are enough
        for the size and at most one more. */
    method ShrinkStream(size: int, ghost others: set<Addr>) returns (ghost kept: nat)
      requires Valid(others) && 0 <= size <= Bytes(g.blockSize, |FileBlocks(data)|)
      modifies this`data, this`used
      ensures Valid(others) && data.size == size
      ensures kept <= |old(FileBlocks(data))| && FileBlocks(data) == old(FileBlocks(data))[..kept]
      ensures Bytes(g.blockSize, kept) <= size + g.blockSize && DropsIndirect(old(data), data, size, kept)
    {
      hide Bytes, Addrs, Set, ArraysOk, ArrayOk, AllRuns, Runs, Distinct, RunAddrs, RunOk;
      ghost var d0 := data;
      ghost var a, b := Addrs(Runs(data.direct)), Addrs(AllRuns(data.arrays));
      ghost var keptA: nat, keptB: nat, dropped := |a|, |b|, false;
      NoTable(d0);
      RangeLengths(g, d0);
      BytesAdd(g.blockSize, 0, 0);
      NoneLeft(a, b);
      assert a[..|a|] == a && b[..|b|] == b;
      if data.maxIndirect > size {
        keptB := FreeIndirect(size, |a|);
        BytesOrder(g.blockSize, |a| + keptB, |a|);
        if data.maxDirect == data.maxIndirect {
          Free(data.indirect);
          data := data.(indirect := ZERO, arrays := [], maxIndirect := 0);
          dropped := true;
          NoArrays(g);
        }
      }
      if data.maxDirect > size {
        var direct, offset, maxDirect;
        direct, offset, maxDirect, keptA := FreeStreamArray(data.direct, size, 0, data.maxDirect, 0);
        BytesOrder(g.blockSize, keptA, |a|);
        data := data.(direct := direct, maxDirect := maxDirect);
      }
      data := data.(size := size);
      kept := keptA + keptB;
      ShrunkStream(g, d0, data, keptA, keptB, dropped);
      ShrunkBlocks(a, b, RunAddrs(d0.indirect), keptA, keptB, dropped, old(used), others);
      assert Held(d0) == a + b + RunAddrs(d0.indirect);
      assert Held(data) == KeptBlocks(a, b, RunAddrs(d0.indirect), keptA, keptB, dropped);
    }

    /** Changes the size.  The blocks stay the first ones; what is allocated and freed in a
        successful call is what the stream holds more or less afterwards. */
    method SetFileSize(size: int, free: int, ghost others: set<Addr>) returns (status: Status, ghost lost: Run)
      requires Valid(others)
      modifies this`data, this`used, this`offers
      ensures Valid(others + Set(RunAddrs(lost)))
      ensures status == BadValue <==> size < 0
      ensures data.size == if status == Ok then size else old(data.size)
      ensures SamePrefix(g.blockSize, old(FileBlocks(data)), FileBlocks(data), Min(old(data.size), data.size))
      ensures 0 <= size <= old(data.size) ==> status == Ok
      ensures size == old(data.size) ==> Now() == old(Now())
      ensures 0 <= size <= old(data.size) ==>
                var kept := |FileBlocks(data)|;
                && kept <= |old(FileBlocks(data))| && FileBlocks(data) == old(FileBlocks(data))[..kept]
                && (size < old(data.size) ==>
                      Bytes(g.blockSize, kept) <= size + g.blockSize && DropsIndirect(old(data), data, size, kept))
      ensures size > old(data.size) >= 0 ==>
                status == Grow(g, old(Now()), size, free).status && lost == Grow(g, old(Now()), size, free).lost
      ensures size <= old(data.size) || status == Ok ==> lost == ZERO
      ensures lost == ZERO || (RunOk(g, lost) && Set(RunAddrs(lost)) !! others + Set(Held(data)))
      ensures |used| - |old(used)| == |Held(data)| - |Held(old(data))| + lost.length
    {
      hide Bytes, Addrs, Set, ArraysOk, ArrayOk, AllRuns, Distinct, RunOk, RunAddrs, Held, FileBlocks, Used, RangesOk, Grow;
      lost := ZERO;
      NoneLost(others);
      ghost var blocks0 := FileBlocks(data);
      var oldSize := data.size;
      assert blocks0[..|blocks0|] == blocks0;
      if size < 0 {
        PrefixOf(g.blockSize, blocks0, blocks0, |blocks0|, oldSize);
        return BadValue, ZERO;
      }
      Counted(others, ZERO);
      if size == oldSize {
        PrefixOf(g.blockSize, blocks0, blocks0, |blocks0|, oldSize);
        return Ok, ZERO;
      }
      if size > oldSize {
        status, lost := GrowStream(size, free, others);
        PrefixOf(g.blockSize, blocks0, FileBlocks(data), |blocks0|, oldSize);
        if status != Ok {
          ghost var blocks1 := FileBlocks(data);
          BytesOrder(g.blockSize, |blocks0|, |blocks1|);
          ghost var kept := ShrinkStream(oldSize, others + Set(RunAddrs(lost)));
          PrefixOf(g.blockSize, blocks1, FileBlocks(data), kept, oldSize);
          PrefixTwice(g.blockSize, blocks0, blocks1, FileBlocks(data), oldSize);
        }
      } else {
        ghost var kept := ShrinkStream(size, others);
        PrefixOf(g.blockSize, blocks0, FileBlocks(data), kept, size);
        status := Ok;
      }
      Counted(others, lost);
    }

    /** A run of changes of the size, up to the first that fails: every block allocated and
        not freed is held by the stream, or belongs to the one run that was lost. */
    method Resize(sizes: seq<int>, free: seq<int>, ghost others: set<Addr>) returns (done: nat, ghost lost: Run, ghost before: Stage)
      requires Valid(others) && |free| == |sizes|
      modifies this`data, this`used, this`offers
      ensures done <= |sizes| && Valid(others + Set(RunAddrs(lost)))
      ensures done == |sizes| ==> lost == ZERO
      ensures done < |sizes| ==>
                && before.data.size == data.size
                && (sizes[done] < 0 || (sizes[done] > data.size && Grow(g, before, sizes[done], free[done]).status != Ok))
      ensures |used| - |old(used)| == |Held(data)| - |Held(old(data))| + lost.length
      ensures data.size == if done == 0 then old(data.size) else sizes[done - 1]
    {
      hide Bytes, Addrs, Set, StreamOk, Distinct, RunAddrs, Held, FileBlocks, Grow;
      done, lost, before := 0, ZERO, Now();
      NoneLost(others);
      while done < |sizes|
        invariant done <= |sizes| && Valid(others) && lost == ZERO
        invariant |used| - |old(used)| == |Held(data)| - |Held(old(data))|
        invariant data.size == if done == 0 then old(data.size) else sizes[done - 1]
      {
        var status;
        before := Now();
        GeometryOk(g, data);
        status, lost := SetFileSize(sizes[done], free[done], others);
        if status != Ok {
          return;
        }
        done := done + 1;
      }
    }

    lemma {:induction false} Counted(others: set<Addr>, lost: Run)
      requires Valid(others + Set(RunAddrs(lost)))
      requires lost == ZERO || (RunOk(g, lost) && Set(RunAddrs(lost)) !! others)
      ensures |used| == |others| + lost.length + |Held(data)|
    {
      hide Held, StreamOk;
      SetCount(Held(data));
      RunDistinct(lost);
      SetCount(RunAddrs(lost));
    }

    /** The blocks of the file are all different, and none of them belongs to others. */
    ghost predicate Writable(others: set<Addr>)
      reads this
    {
      StreamOk(g, data) && Distinct(FileBlocks(data)) && others !! Set(FileBlocks(data))
    }

    /** A write that goes beyond the end is the only one that needs room, and a stream that
        can grow. */
    lemma {:induction false} ValidWritable(others: set<Addr>)
      requires Valid(others)
      ensures Writable(others) && forall pos: int, length: int :: InReach(g, data, pos, length)
    {
      hide FileBlocks, RunAddrs;
      HeldDistinct(data);
      assert forall x :: x in FileBlocks(data) ==> x in Held(data);
    }

    /** Writes bytes, growing the file where they go beyond its end.  Reading back gives the
        new bytes where they were written and the old ones elsewhere; the bytes between an
        old end and a position behind it are whatever the blocks hold. */
    method WriteAt(pos0: int, bytes: seq<int>, free: int, ghost others: set<Addr>)
      returns (status: Status, written: int, ghost lost: Run)
      requires DiskOk(g, disk)
      requires if pos0 >= 0 && pos0 + |bytes| > data.size then Valid(others)
               else Writable(others) && InReach(g, data, Max(pos0, 0), |bytes|)
                    && (data.table != [] ==> Max(pos0, 0) < data.maxDouble && Max(pos0, 0) + |bytes| <= data.maxDouble)
      modifies this`data, this`used, this`offers, this`disk
      ensures old(Valid(others)) ==> Valid(others + Set(RunAddrs(lost)))
      ensures Writable(others + Set(RunAddrs(lost))) && DiskOk(g, disk)
      ensures old(pos0 < 0 || pos0 + |bytes| <= data.size) ==>
                data == old(data) && used == old(used) && offers == old(offers) && lost == ZERO
      ensures DataOnDisk(g, old(disk), old(data)) && DataOnDisk(g, disk, data)
      ensures status == Ok ==> lost == ZERO && written == |bytes|
      ensures status == Ok && 0 <= pos0 ==>
                && data.size == Max(old(data.size), pos0 + |bytes|)
                && IsOverwritten(Contents(g, old(disk), old(data)), Contents(g, disk, data), pos0, bytes)
      ensures status == Ok && pos0 < 0 ==>
                && data == old(data)
                && |bytes| <= |Flat(g.blockSize, old(disk), FileBlocks(data))|
                && Flat(g.blockSize, disk, FileBlocks(data)) == Splice(Flat(g.blockSize, old(disk), FileBlocks(data)), 0, bytes)
      ensures status == if old(pos0 >= 0 && pos0 + |bytes| > data.size) && !GrowsTo(old(Now()), pos0 + |bytes|, free)
                        then Grow(g, old(Now()), pos0 + |bytes|, free).status
                        else InsideStatus(g, data, Max(pos0, 0), |bytes|)
      ensures old(0 <= pos0 && bytes != [] && pos0 + |bytes| <= data.size) ==> status == Ok
      ensures old(0 <= pos0 && bytes != [] && pos0 + |bytes| > data.size) ==>
                (status == Ok <==> GrowsTo(old(Now()), pos0 + |bytes|, free))
      ensures pos0 < 0 ==> (status == Ok <==> 0 < Bytes(g.blockSize, |FileBlocks(data)|) && |bytes| <= Bytes(g.blockSize, |FileBlocks(data)|))
      ensures old(pos0 >= 0 && pos0 + |bytes| > data.size) && !GrowsTo(old(Now()), pos0 + |bytes|, free) ==>
                && written == 0 && disk == old(disk) && data.size == old(data.size)
                && Contents(g, disk, data) == Contents(g, old(disk), old(data))
      ensures forall x :: x in others && x in old(disk) ==> x in disk && disk[x] == old(disk)[x]
    {
      hide Bytes, Addrs, Set, ArraysOk, ArrayOk, AllRuns, RunOk, RunAddrs, FileBlocks, Used, RangesOk, Flat, OnDisk;
      lost := ZERO;
      NoneLost(others);
      StreamOnDisk(g, disk, data);
      var pos := pos0;
      if pos < 0 {
        pos := 0;
      } else if pos + |bytes| > data.size {
        status, lost := SetFileSize(pos + |bytes|, free, others);
        StreamOnDisk(g, disk, data);
        ValidWritable(others + Set(RunAddrs(lost)));
        if status != Ok {
          PrefixBytes(g, disk, old(data), data);
          assert Contents(g, disk, data)[..data.size] == Contents(g, disk, data);
          return status, 0, lost;
        }
      }
      ghost var disk1 := disk;
      status, written := WriteInside(pos, bytes, others + Set(RunAddrs(lost)));
      if status == Ok && pos0 >= 0 {
        PrefixBytes(g, disk1, old(data), data);
        OverwrittenFile(g, disk1, disk, old(data), data, pos, bytes);
      }
    }

    /** The stream grows to a size without running out of room. */
    ghost predicate GrowsTo(s: Stage, size: int, free: int)
      requires g.Valid()
    {
      Grow(g, s, size, free).status == Ok
    }

    /** The same for bytes that need no room: blocks of others stay as they are. */
    method WriteInside(pos: int, bytes: seq<int>, ghost others: set<Addr>) returns (status: Status, written: int)
      requires DiskOk(g, disk) && 0 <= pos && Writable(others) && InReach(g, data, pos, |bytes|)
      requires data.table != [] ==> pos < data.maxDouble && pos + |bytes| <= data.maxDouble
      modifies this`disk
      ensures DiskOk(g, disk) && DataOnDisk(g, old(disk), data) && DataOnDisk(g, disk, data)
      ensures status == Ok ==> written == |bytes| && Written(g.blockSize, old(disk), disk, FileBlocks(data), pos, bytes)
      ensures status == InsideStatus(g, data, pos, |bytes|)
      ensures bytes != [] && pos + |bytes| <= data.size ==> status == Ok
      ensures forall x :: x in others && x in old(disk) ==> x in disk && disk[x] == old(disk)[x]
    {
      hide Bytes, Addrs, Set, StreamOk, Distinct, PositionOk, SizesFit, FileBlocks, Flat, OnDisk;
      StreamOnDisk(g, disk, data);
      GeometryOk(g, data);
      ghost var disk1 := disk;
      status, written := Overwrite(pos, bytes);
      DiskStays(g, disk1, disk, data);
      StreamOnDisk(g, disk, data);
      BlocksApart(data, others);
      if status == Ok {
        assert bytes[..written] == bytes;
      }
    }

    /** Writing leaves every block in its place and of its size. */
    static lemma {:induction false} DiskStays(g: Geometry, disk: Disk, disk': Disk, d: Data)
      requires DiskOk(g, disk)
      requires disk' == disk || exists pos, bytes :: Written(g.blockSize, disk, disk', FileBlocks(d), pos, bytes)
      ensures DiskOk(g, disk')
    {
      hide FileBlocks, Flat;
    }

    static lemma {:induction false} BlocksApart(d: Data, others: set<Addr>)
      requires others !! Set(FileBlocks(d))
      ensures forall x :: x in others ==> x !in FileBlocks(d)
    {
      hide FileBlocks;
    }

    /** The same first blocks hold the same first bytes. */
    static lemma {:induction false} PrefixBytes(g: Geometry, disk: Disk, d: Data, d': Data)
      requires g.Valid() && DataOnDisk(g, disk, d) && DataOnDisk(g, disk, d')
      requires d.size <= d'.size && SamePrefix(g.blockSize, FileBlocks(d), FileBlocks(d'), d.size)
      ensures Contents(g, disk, d')[..d.size] == Contents(g, disk, d)
    {
      hide FileBlocks, Flat, Bytes, OnDisk;
      var a, b, bs := FileBlocks(d), FileBlocks(d'), g.blockSize;
      var n: nat :| n <= |a| && n <= |b| && a[..n] == b[..n] && d.size <= Bytes(bs, n);
      FlatPart(bs, disk, a, n, n);
      FlatPart(bs, disk, b, n, n);
      var x, y := Flat(bs, disk, a), Flat(bs, disk, b);
      assert x[..d.size] == x[..Bytes(bs, n)][..d.size];
      assert y[..d.size] == y[..Bytes(bs, n)][..d.size];
      assert y[..d'.size][..d.size] == y[..d.size];
    }

    /** Writing over a file whose first bytes are those of the old one. */
    static lemma {:induction false} OverwrittenFile(g: Geometry, disk: Disk, disk': Disk, d: Data, d': Data, pos: int, bytes: seq<int>)
      requires DataOnDisk(g, disk, d) && DataOnDisk(g, disk, d') && DataOnDisk(g, disk', d')
      requires d.size <= d'.size && pos + |bytes| <= d'.size && Contents(g, disk, d')[..d.size] == Contents(g, disk, d)
      requires Written(g.blockSize, disk, disk', FileBlocks(d'), pos, bytes)
      ensures IsOverwritten(Contents(g, disk, d), Contents(g, disk', d'), pos, bytes)
    {
      hide FileBlocks, Flat, OnDisk;
      var before, file, after := Contents(g, disk, d), Contents(g, disk, d'), Contents(g, disk', d');
      var x, y := Flat(g.blockSize, disk, FileBlocks(d')), Flat(g.blockSize, disk', FileBlocks(d'));
      assert y == Splice(x, pos, bytes);
      assert after[pos..pos + |bytes|] == y[pos..pos + |bytes|] == bytes;
      forall i | 0 <= i < |before| && !(pos <= i < pos + |bytes|)
        ensures after[i] == before[i]
      {
        assert before[i] == file[..d.size][i] == x[i];
      }
    }

    /** Frees what the indirect range holds behind the size. */
    method FreeIndirect(size: int, ghost o: nat) returns (ghost kept: nat)
      requires g.Valid() && ArraysOk(g, data.arrays) && 0 <= size
      requires data.maxDirect == Bytes(g.blockSize, o)
      requires data.maxIndirect == Bytes(g.blockSize, o + |Addrs(AllRuns(data.arrays))|)
      modifies this`data, this`used
      ensures Enough(g.blockSize, o, |Addrs(AllRuns(old(data.arrays)))|, size, kept)
      ensures data == old(data).(arrays := data.arrays, maxIndirect := data.maxIndirect)
      ensures |data.arrays| == |old(data.arrays)| && ArraysOk(g, data.arrays)
      ensures Addrs(AllRuns(data.arrays)) == Addrs(AllRuns(old(data.arrays)))[..kept]
      ensures data.maxIndirect == Bytes(g.blockSize, o + kept)
      ensures used == old(used) - Set(Addrs(AllRuns(old(data.arrays)))[kept..])
    {
      hide Bytes, Addrs, Set, Enough, ArraysOk, ArraysTrimmed, AllRuns, Runs;
      var bs := g.blockSize;
      ghost var arrays0, max0 := data.arrays, data.maxIndirect;
      kept := 0;
      ArraysStart(g, arrays0, o, size);
      var i, offset := 0, data.maxDirect;
      while i < |data.arrays|
        invariant 0 <= i <= |arrays0| && |data.arrays| == |arrays0|
        invariant data == old(data).(arrays := data.arrays, maxIndirect := data.maxIndirect)
        invariant ArraysTrimmed(g, arrays0, data.arrays, i, kept, o, size)
        invariant kept <= |Addrs(AllRuns(arrays0[..i]))|
        invariant offset == Bytes(bs, o + |Addrs(AllRuns(arrays0[..i]))|)
        invariant data.maxIndirect == if kept < |Addrs(AllRuns(arrays0[..i]))| then Bytes(bs, o + kept) else max0
        invariant used == old(used) - Set(Addrs(AllRuns(arrays0[..i]))[kept..])
      {
        ghost var done, max := |Addrs(AllRuns(arrays0[..i]))|, data.maxIndirect;
        ArrayAtHand(g, arrays0, data.arrays, i, kept, o, size);
        ghost var o' := o + done;
        var a, max';
        ghost var more;
        a, offset, max', more := FreeStreamArray(data.arrays[i], size, offset, data.maxIndirect, o');
        NextArray(g, arrays0, data.arrays, i, kept, o, size, a, more);
        NextMaximum(g, o, done, |Addrs(Runs(arrays0[i]))|, |Addrs(AllRuns(arrays0))|, size, kept, more, max0, max);
        SetMore(Addrs(AllRuns(arrays0[..i])), Addrs(Runs(arrays0[i])), kept, more);
        data := data.(arrays := data.arrays[i := a], maxIndirect := max');
        kept := kept + more;
        i := i + 1;
      }
      ArraysDone(g, arrays0, data.arrays, kept, o, size);
    }
  }

  /** A file of twelve scattered blocks that is to get one more: after the failure the volume
      has one block more in use and the file holds the same blocks. */
  method LoseBlock() returns (inode: Inode)
    ensures fresh(inode) && inode.data == Scattered() && |Held(Scattered())| == 12 && |inode.used| == 13
  {
    ghost var others: set<Addr> := {};
    ScatteredOk();
    SetCount(Held(Scattered()));
    hide StreamOk, Held, Scattered, Set, Distinct;
    var used := set i | 0 <= i < 12 :: Addr(0, 2 * i);
    assert used == others + Set(Held(Scattered()));
    inode := new Inode(SMALL, Scattered(), map[], used, [Run(0, 100, 1)]);
    BlockLost(used);
    hide Grow;
    var status, lost := inode.GrowStream(13312, 100, others);
  }
}
