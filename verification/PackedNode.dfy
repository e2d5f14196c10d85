/** A node of a B+tree as it is packed into its block: behind the header the bytes of all
keys, then the end of each key, then the values.  Keys are inserted and removed in place,
with moves that overlap. */
module PackedNode {
  import opened Sequences
  import opened Memory
  import TreeNode

  const HEADER := TreeNode.HEADER_SIZE

  /** A byte of the block: of a key, of a 16-bit length, or of a 64-bit value. */
  datatype Cell = Char(b: int) | Half(n: int, part: int) | Word(v: int, part: int)

  /** Byte `x` of some values that stand one after the other. */
  function WordCell(values: seq<int>, x: int): Cell
    requires 0 <= x < 8 * |values|
  {
    Word(values[x / 8], x % 8)
  }

  function HalfCell(ns: seq<int>, x: int): Cell
    requires 0 <= x < 2 * |ns|
  {
    Half(ns[x / 2], x % 2)
  }

  function Words(v: int): seq<Cell> {
    seq(8, x => Word(v, x))
  }

  function Halves(n: int): seq<Cell> {
    [Half(n, 0), Half(n, 1)]
  }

  function Chars(bytes: seq<int>): (r: seq<Cell>)
    ensures |r| == |bytes|
  {
    seq(|bytes|, x requires 0 <= x < |bytes| => Char(bytes[x]))
  }

  predicate WordsAt(m: seq<Cell>, at: nat, values: seq<int>) {
    at + 8 * |values| <= |m| && forall y :: at <= y < at + 8 * |values| ==> m[y] == WordCell(values, y - at)
  }

  predicate HalvesAt(m: seq<Cell>, at: nat, ns: seq<int>) {
    at + 2 * |ns| <= |m| && forall y :: at <= y < at + 2 * |ns| ==> m[y] == HalfCell(ns, y - at)
  }

  predicate CharsAt(m: seq<Cell>, at: nat, bytes: seq<int>) {
    at + |bytes| <= |m| && forall y :: at <= y < at + |bytes| ==> m[y] == Char(bytes[y - at])
  }

  // ---------- values ----------

  lemma {:induction false} WordInserted(values: seq<int>, i: nat, value: int, x: int)
    requires i <= |values| && 0 <= x < 8 * (|values| + 1)
    ensures WordCell(Insert(values, i, value), x)
            == if x < 8 * i then WordCell(values, x) else if x < 8 * i + 8 then Words(value)[x - 8 * i] else WordCell(values, x - 8)
  {
  }

  /** One value more, further back. */
  lemma {:induction false} ValuesUp(m: seq<Cell>, a: seq<Cell>, b: seq<Cell>, r: seq<Cell>, from: nat, to: nat, values: seq<int>, i: nat, value: int)
    requires i <= |values| && from <= to && to + 8 * (|values| + 1) <= |m| && WordsAt(m, from, values) && |Words(value)| == 8
    requires a == Moved(m, to + 8 * (i + 1), from + 8 * i, 8 * (|values| - i))
    requires b == Moved(a, to, from, 8 * i) && r == Overlaid(b, to + 8 * i, Words(value))
    ensures WordsAt(r, to, Insert(values, i, value)) && SameOutside(r, m, to, to + 8 * (|values| + 1))
  {
    hide WordCell, Words, Insert;
    var n := |values|;
    assert |Insert(values, i, value)| == n + 1 by {
      WordsLength(values, i, value);
    }
    forall y | to <= y < to + 8 * (n + 1)
      ensures r[y] == WordCell(Insert(values, i, value), y - to)
    {
      WordInserted(values, i, value, y - to);
    }
  }

  lemma {:induction false} WordsLength(values: seq<int>, i: nat, value: int)
    requires i <= |values|
    ensures |Words(value)| == 8 && |Insert(values, i, value)| == |values| + 1
  {
  }

  lemma {:induction false} WordRemoved(values: seq<int>, i: nat, x: int)
    requires i < |values| && 0 <= x < 8 * (|values| - 1)
    ensures WordCell(Remove(values, i), x) == if x < 8 * i then WordCell(values, x) else WordCell(values, x + 8)
  {
  }

  /** One value less, further in front. */
  lemma {:induction false} ValuesDown(m: seq<Cell>, a: seq<Cell>, r: seq<Cell>, from: nat, to: nat, values: seq<int>, i: nat)
    requires i < |values| && to <= from && WordsAt(m, from, values)
    requires a == Moved(m, to, from, 8 * i) && r == Moved(a, to + 8 * i, from + 8 * (i + 1), 8 * (|values| - 1 - i))
    ensures WordsAt(r, to, Remove(values, i)) && SameOutside(r, m, to, to + 8 * (|values| - 1))
  {
    hide WordCell;
    forall y | to <= y < to + 8 * (|values| - 1)
      ensures r[y] == WordCell(Remove(values, i), y - to)
    {
      WordRemoved(values, i, y - to);
    }
  }

  // ---------- the ends of the keys ----------

  function StartOf(ends: seq<int>, i: nat): int
    requires i <= |ends|
  {
    if i > 0 then ends[i - 1] else 0
  }

  /** The ends with a key of `length` bytes inserted. */
  function EndsInserted(ends: seq<int>, i: nat, length: int): (r: seq<int>)
    requires i <= |ends|
    ensures |r| == |ends| + 1
    ensures forall j :: 0 <= j < |r| ==> r[j] == if j < i then ends[j] else if j == i then StartOf(ends, i) + length else ends[j - 1] + length
  {
    seq(|ends| + 1, j requires 0 <= j <= |ends| =>
      if j < i then ends[j] else if j == i then StartOf(ends, i) + length else ends[j - 1] + length)
  }

  /** Ends `j` and further have been written. */
  ghost predicate EndsState(m: seq<Cell>, before: seq<Cell>, to: nat, ends: seq<int>, j: int) {
    && 0 <= j <= |ends| && to + 2 * |ends| <= |m|
    && (forall y :: to + 2 * j <= y < to + 2 * |ends| ==> m[y] == HalfCell(ends, y - to))
    && SameOutside(m, before, to + 2 * j, to + 2 * |ends|)
  }

  /** The next end to be written is read where it has always been. */
  lemma {:induction false} EndMoves(m: seq<Cell>, before: seq<Cell>, from: nat, to: nat, ends: seq<int>, index: nat, length: int, j: nat)
    requires index < j <= |ends| && from <= to && HalvesAt(before, from, ends)
    requires EndsState(m, before, to, EndsInserted(ends, index, length), j + 1)
    ensures m[from + 2 * (j - 1)] == Half(ends[j - 1], 0)
    ensures EndsState(Overlaid(m, to + 2 * j, Halves(ends[j - 1] + length)), before, to, EndsInserted(ends, index, length), j)
  {
    hide HalfCell;
    HalfCells(ends, j - 1);
    var y := from + 2 * (j - 1);
    assert m[y] == before[y] == HalfCell(ends, 2 * (j - 1));
    EndWritten(m, before, to, EndsInserted(ends, index, length), j);
  }

  lemma {:induction false} EndWritten(m: seq<Cell>, before: seq<Cell>, to: nat, ends: seq<int>, j: nat)
    requires j < |ends| && EndsState(m, before, to, ends, j + 1)
    ensures EndsState(Overlaid(m, to + 2 * j, Halves(ends[j])), before, to, ends, j)
  {
    HalfCells(ends, j);
    HalfWritten(m, to + 2 * j, ends[j]);
    hide HalfCell, Overlaid;
    var r := Overlaid(m, to + 2 * j, Halves(ends[j]));
    forall z | to + 2 * j <= z < to + 2 * |ends|
      ensures r[z] == HalfCell(ends, z - to)
    {
      assert z >= to + 2 * (j + 1) || z == to + 2 * j || z == to + 2 * j + 1;
    }
  }

  lemma {:induction false} HalfCells(ns: seq<int>, j: nat)
    requires j < |ns|
    ensures HalfCell(ns, 2 * j) == Half(ns[j], 0) && HalfCell(ns, 2 * j + 1) == Half(ns[j], 1)
  {
  }

  lemma {:induction false} HalfWritten(m: seq<Cell>, at: nat, n: int)
    requires at + 2 <= |m|
    ensures var r := Overlaid(m, at, Halves(n));
            && |r| == |m| && r[at] == Half(n, 0) && r[at + 1] == Half(n, 1)
            && forall y :: 0 <= y < |m| && !(at <= y < at + 2) ==> r[y] == m[y]
  {
  }

  lemma {:induction false} EndsJoined(m: seq<Cell>, before: seq<Cell>, from: nat, to: nat, ends: seq<int>, index: nat, length: int)
    requires index <= |ends| && from <= to && HalvesAt(before, from, ends)
    requires EndsState(m, before, to, EndsInserted(ends, index, length), index + 1)
    ensures var a := Moved(m, to, from, 2 * index);
            && (index > 0 ==> a[to + 2 * (index - 1)] == Half(ends[index - 1], 0))
            && var r := Overlaid(a, to + 2 * index, Halves(length + StartOf(ends, index)));
               && HalvesAt(r, to, EndsInserted(ends, index, length)) && SameOutside(r, before, to, to + 2 * (|ends| + 1))
  {
    var new' := EndsInserted(ends, index, length);
    var a := Moved(m, to, from, 2 * index);
    forall y | to <= y < to + 2 * index
      ensures a[y] == HalfCell(ends, y - to) == HalfCell(new', y - to)
    {
      assert a[y] == m[y - to + from] == before[y - to + from];
    }
    if index > 0 {
      assert a[to + 2 * (index - 1)] == HalfCell(ends, 2 * (index - 1));
    }
    assert new'[index] == length + StartOf(ends, index);
  }

  /** The ends move further back and make room for a new one; those behind it grow. */
  method MoveEndsUp(mem: array<Cell>, from: nat, to: nat, count: nat, index: nat, length: int, ghost ends: seq<int>) returns (keyStart: int)
    requires index <= count == |ends| && from <= to && to + 2 * (count + 1) <= mem.Length && HalvesAt(mem[..], from, ends)
    modifies mem
    ensures keyStart == StartOf(ends, index)
    ensures HalvesAt(mem[..], to, EndsInserted(ends, index, length)) && SameOutside(mem[..], old(mem[..]), to, to + 2 * (count + 1))
  {
    hide EndsInserted, Moved, Overlaid, EndsState, HalvesAt, SameOutside;
    ghost var before, new' := mem[..], EndsInserted(ends, index, length);
    EndsStart(before, to, ends, index, length);
    var j := count + 1;
    while j > index + 1
      invariant index + 1 <= j <= count + 1 && EndsState(mem[..], before, to, new', j)
    {
      j := j - 1;
      EndMoves(mem[..], before, from, to, ends, index, length, j);
      Write(mem, to + 2 * j, Halves(mem[from + 2 * (j - 1)].n + length));
    }
    EndsJoined(mem[..], before, from, to, ends, index, length);
    Move(mem, to, from, 2 * index);
    keyStart := if index > 0 then mem[to + 2 * (index - 1)].n else 0;
    Write(mem, to + 2 * index, Halves(length + keyStart));
  }

  lemma {:induction false} EndsStart(m: seq<Cell>, to: nat, ends: seq<int>, index: nat, length: int)
    requires index <= |ends| && to + 2 * (|ends| + 1) <= |m|
    ensures EndsState(m, m, to, EndsInserted(ends, index, length), |ends| + 1)
  {
  }

  // ---------- the bytes of the keys ----------

  /** A new key among the bytes of the others. */
  function KeysUp(m: seq<Cell>, at: nat, total: nat, start: nat, key: seq<int>): (r: seq<Cell>)
    requires start <= total && at + total + |key| <= |m|
    ensures |r| == |m|
  {
    Overlaid(Moved(m, at + start + |key|, at + start, total - start), at + start, Chars(key))
  }

  lemma {:induction false} KeysUpIs(m: seq<Cell>, at: nat, bytes: seq<int>, start: nat, key: seq<int>)
    requires start <= |bytes| && at + |bytes| + |key| <= |m| && CharsAt(m, at, bytes)
    ensures var r := KeysUp(m, at, |bytes|, start, key);
            && CharsAt(r, at, bytes[..start] + key + bytes[start..])
            && SameOutside(r, m, at, at + |bytes| + |key|)
  {
  }

  /** A key taken out of the bytes. */
  lemma {:induction false} KeysDownIs(m: seq<Cell>, at: nat, bytes: seq<int>, start: nat, length: nat)
    requires start + length <= |bytes| && CharsAt(m, at, bytes)
    ensures var r := Moved(m, at + start, at + start + length, |bytes| - length - start);
            && CharsAt(r, at, bytes[..start] + bytes[start + length..])
            && SameOutside(r, m, at, at + |bytes| - length)
  {
  }

  // ---------- taking out an end ----------

  function EndsRemoved(ends: seq<int>, i: nat, length: int): (r: seq<int>)
    requires i < |ends|
    ensures |r| == |ends| - 1
    ensures forall j :: 0 <= j < |r| ==> r[j] == if j < i then ends[j] else ends[j + 1] - length
  {
    seq(|ends| - 1, j requires 0 <= j < |ends| - 1 => if j < i then ends[j] else ends[j + 1] - length)
  }

  /** The first `j` ends have been written. */
  ghost predicate DownState(m: seq<Cell>, before: seq<Cell>, to: nat, ends: seq<int>, j: int) {
    && 0 <= j <= |ends| && to + 2 * |ends| <= |m|
    && (forall y :: to <= y < to + 2 * j ==> m[y] == HalfCell(ends, y - to))
    && SameOutside(m, before, to, to + 2 * j)
  }

  lemma {:induction false} DownStart(m: seq<Cell>, from: nat, to: nat, ends: seq<int>, index: nat, length: int)
    requires index < |ends| && to <= from && HalvesAt(m, from, ends)
    ensures DownState(Moved(m, to, from, 2 * index), m, to, EndsRemoved(ends, index, length), index)
  {
    var a, new' := Moved(m, to, from, 2 * index), EndsRemoved(ends, index, length);
    forall y | to <= y < to + 2 * index
      ensures a[y] == HalfCell(new', y - to)
    {
      assert a[y] == m[y - to + from] == HalfCell(ends, y - to);
    }
  }

  lemma {:induction false} DownMoves(m: seq<Cell>, before: seq<Cell>, from: nat, to: nat, ends: seq<int>, index: nat, length: int, j: nat)
    requires index <= j < |ends| - 1 && to <= from && HalvesAt(before, from, ends)
    requires DownState(m, before, to, EndsRemoved(ends, index, length), j)
    ensures from + 2 * (j + 1) < |m| && m[from + 2 * (j + 1)] == Half(ends[j + 1], 0)
    ensures DownState(Overlaid(m, to + 2 * j, Halves(ends[j + 1] - length)), before, to, EndsRemoved(ends, index, length), j + 1)
  {
    hide HalfCell;
    HalfCells(ends, j + 1);
    var y := from + 2 * (j + 1);
    assert m[y] == before[y] == HalfCell(ends, 2 * (j + 1));
    DownWritten(m, before, to, EndsRemoved(ends, index, length), j);
  }

  lemma {:induction false} DownWritten(m: seq<Cell>, before: seq<Cell>, to: nat, ends: seq<int>, j: nat)
    requires j < |ends| && DownState(m, before, to, ends, j)
    ensures DownState(Overlaid(m, to + 2 * j, Halves(ends[j])), before, to, ends, j + 1)
  {
    HalfCells(ends, j);
    HalfWritten(m, to + 2 * j, ends[j]);
    hide HalfCell, Overlaid;
    var r := Overlaid(m, to + 2 * j, Halves(ends[j]));
    forall z | to <= z < to + 2 * (j + 1)
      ensures r[z] == HalfCell(ends, z - to)
    {
      assert z < to + 2 * j || z == to + 2 * j || z == to + 2 * j + 1;
    }
  }

  lemma {:induction false} DownEnds(m: seq<Cell>, before: seq<Cell>, to: nat, ends: seq<int>)
    requires DownState(m, before, to, ends, |ends|)
    ensures HalvesAt(m, to, ends) && SameOutside(m, before, to, to + 2 * |ends|)
  {
  }

  /** The ends move further to the front, and those behind the key shrink. */
  method MoveEndsDown(mem: array<Cell>, from: nat, to: nat, count: nat, index: nat, length: int, ghost ends: seq<int>)
    requires index < count == |ends| && to <= from && from + 2 * count <= mem.Length && HalvesAt(mem[..], from, ends)
    modifies mem
    ensures HalvesAt(mem[..], to, EndsRemoved(ends, index, length)) && SameOutside(mem[..], old(mem[..]), to, to + 2 * (count - 1))
  {
    hide EndsRemoved, Moved, Overlaid, DownState, HalvesAt, SameOutside;
    ghost var before, new' := mem[..], EndsRemoved(ends, index, length);
    DownStart(before, from, to, ends, index, length);
    Move(mem, to, from, 2 * index);
    var j := index;
    while j < count - 1
      invariant index <= j <= count - 1 && DownState(mem[..], before, to, new', j)
    {
      DownMoves(mem[..], before, from, to, ends, index, length, j);
      Write(mem, to + 2 * j, Halves(mem[from + 2 * (j + 1)].n - length));
      j := j + 1;
    }
    DownEnds(mem[..], before, to, new');
  }

  // ---------- keys in a row ----------

  function Flat(keys: seq<seq<int>>): seq<int> {
    if keys == [] then [] else Flat(keys[..|keys| - 1]) + keys[|keys| - 1]
  }

  /** Where each key ends. */
  function Ends(keys: seq<seq<int>>): (r: seq<int>)
    ensures |r| == |keys|
  {
    seq(|keys|, j requires 0 <= j < |keys| => |Flat(keys[..j + 1])|)
  }

  lemma {:induction false} FlatConcat(a: seq<seq<int>>, b: seq<seq<int>>)
    ensures Flat(a + b) == Flat(a) + Flat(b)
    decreases |b|
  {
    if b == [] {
      assert a + b == a;
    } else {
      var n := |b| - 1;
      FlatConcat(a, b[..n]);
      assert (a + b)[..|a + b| - 1] == a + b[..n];
      Associative(Flat(a), Flat(b[..n]), b[n]);
    }
  }

  lemma {:induction false} FlatOne(key: seq<int>)
    ensures Flat([key]) == key
  {
    assert [key][..0] == [];
    assert Flat([key]) == [] + key;
  }

  lemma {:induction false} StartIs(keys: seq<seq<int>>, i: nat)
    requires i <= |keys|
    ensures StartOf(Ends(keys), i) == |Flat(keys[..i])|
  {
  }

  /** The bytes with a key inserted. */
  lemma {:induction false} FlatInsert(keys: seq<seq<int>>, i: nat, key: seq<int>)
    requires i <= |keys|
    ensures var e := |Flat(keys[..i])|;
            && e <= |Flat(keys)|
            && Flat(Insert(keys, i, key)) == Flat(keys)[..e] + key + Flat(keys)[e..]
            && |Flat(Insert(keys, i, key))| == |Flat(keys)| + |key|
  {
    hide Flat;
    assert keys == keys[..i] + keys[i..];
    FlatConcat(keys[..i], keys[i..]);
    assert Insert(keys, i, key) == (keys[..i] + [key]) + keys[i..];
    FlatConcat(keys[..i] + [key], keys[i..]);
    FlatConcat(keys[..i], [key]);
    FlatOne(key);
  }

  lemma {:induction false} EndInserted(keys: seq<seq<int>>, i: nat, key: seq<int>, j: nat)
    requires i <= |keys| && j <= |keys|
    ensures |Flat(Insert(keys, i, key)[..j + 1])|
            == if j < i then |Flat(keys[..j + 1])| else |Flat(keys[..j])| + |key|
  {
    hide Flat;
    var keys' := Insert(keys, i, key);
    if j < i {
      assert keys'[..j + 1] == keys[..j + 1];
    } else {
      assert keys'[..j + 1] == Insert(keys[..j], i, key);
      hide Insert;
      FlatInsert(keys[..j], i, key);
    }
  }

  lemma {:induction false} EndsInsert(keys: seq<seq<int>>, i: nat, key: seq<int>)
    requires i <= |keys|
    ensures Ends(Insert(keys, i, key)) == EndsInserted(Ends(keys), i, |key|)
  {
    hide Flat;
    var keys' := Insert(keys, i, key);
    assert |keys'| == |keys| + 1;
    hide Insert;
    var a, b := Ends(keys'), EndsInserted(Ends(keys), i, |key|);
    forall j | 0 <= j <= |keys|
      ensures a[j] == b[j]
    {
      EndInserted(keys, i, key, j);
      StartIs(keys, i);
    }
  }

  /** The bytes and the ends with a key taken out. */
  lemma {:induction false} FlatRemove(keys: seq<seq<int>>, i: nat)
    requires i < |keys|
    ensures var e, n := StartOf(Ends(keys), i), |keys[i]|;
            && 0 <= e && e + n == Ends(keys)[i] <= |Flat(keys)|
            && Flat(Remove(keys, i)) == Flat(keys)[..e] + Flat(keys)[e + n..]
            && Ends(Remove(keys, i)) == EndsRemoved(Ends(keys), i, n)
  {
    hide Flat;
    var less, key := Remove(keys, i), keys[i];
    InsertRemoved(keys, i);
    FlatInsert(less, i, key);
    EndsInsert(less, i, key);
    StartIs(less, i);
    StartIs(keys, i);
    assert less[..i] == keys[..i];
    var e, n := |Flat(keys[..i])|, |key|;
    var all, rest := Flat(keys), Flat(less);
    assert all == rest[..e] + key + rest[e..];
    assert all[..e] == rest[..e] && all[e + n..] == rest[e..];
    assert rest == rest[..e] + rest[e..];
  }

  // ---------- the node ----------

  /** Where the ends and the values begin. */
  function EndsAt(length: nat): nat {
    TreeNode.RoundUp(HEADER + length)
  }

  function ValuesAt(count: nat, length: nat): nat {
    EndsAt(length) + 2 * count
  }

  function Used(count: nat, length: nat): nat {
    EndsAt(length) + 10 * count
  }

  lemma {:induction false} EndsOrder(a: nat, b: nat)
    requires a <= b
    ensures HEADER + b <= EndsAt(b) && EndsAt(a) <= EndsAt(b)
  {
  }

  /** The block holds these keys and values. */
  ghost predicate Packed(m: seq<Cell>, keys: seq<seq<int>>, values: seq<int>) {
    var count, length := |keys|, |Flat(keys)|;
    && |values| == count && Used(count, length) <= |m|
    && CharsAt(m, HEADER, Flat(keys))
    && HalvesAt(m, EndsAt(length), Ends(keys))
    && WordsAt(m, ValuesAt(count, length), values)
  }

  lemma {:induction false} PackedParts(m: seq<Cell>, keys: seq<seq<int>>, values: seq<int>)
    requires Packed(m, keys, values)
    ensures var count, length := |keys|, |Flat(keys)|;
            && |values| == count == |Ends(keys)| && CharsAt(m, HEADER, Flat(keys))
            && HalvesAt(m, EndsAt(length), Ends(keys)) && WordsAt(m, ValuesAt(count, length), values)
  {
  }

  lemma {:induction false} WordsStay(m: seq<Cell>, before: seq<Cell>, at: nat, values: seq<int>, lo: int, hi: int)
    requires WordsAt(before, at, values) && SameOutside(m, before, lo, hi) && (hi <= at || at + 8 * |values| <= lo)
    ensures WordsAt(m, at, values)
  {
    hide WordCell;
  }

  lemma {:induction false} HalvesStay(m: seq<Cell>, before: seq<Cell>, at: nat, ns: seq<int>, lo: int, hi: int)
    requires HalvesAt(before, at, ns) && SameOutside(m, before, lo, hi) && (hi <= at || at + 2 * |ns| <= lo)
    ensures HalvesAt(m, at, ns)
  {
    hide HalfCell;
  }

  lemma {:induction false} CharsStay(m: seq<Cell>, before: seq<Cell>, at: nat, bytes: seq<int>, lo: int, hi: int)
    requires CharsAt(before, at, bytes) && SameOutside(m, before, lo, hi) && (hi <= at || at + |bytes| <= lo)
    ensures CharsAt(m, at, bytes)
  {
  }

  method MoveValuesUp(mem: array<Cell>, from: nat, to: nat, count: nat, index: nat, value: int, ghost values: seq<int>)
    requires index <= count == |values| && from <= to && to + 8 * (count + 1) <= mem.Length && WordsAt(mem[..], from, values)
    modifies mem
    ensures WordsAt(mem[..], to, Insert(values, index, value)) && SameOutside(mem[..], old(mem[..]), to, to + 8 * (count + 1))
  {
    assert |Words(value)| == 8;
    hide Moved, Overlaid, WordsAt, SameOutside, Words;
    ghost var m := mem[..];
    Move(mem, to + 8 * (index + 1), from + 8 * index, 8 * (count - index));
    ghost var a := mem[..];
    Move(mem, to, from, 8 * index);
    ghost var b := mem[..];
    Write(mem, to + 8 * index, Words(value));
    ValuesUp(m, a, b, mem[..], from, to, values, index, value);
  }

  method MoveValuesDown(mem: array<Cell>, from: nat, to: nat, count: nat, index: nat, ghost values: seq<int>)
    requires index < count == |values| && to <= from && from + 8 * count <= mem.Length && WordsAt(mem[..], from, values)
    modifies mem
    ensures WordsAt(mem[..], to, Remove(values, index)) && SameOutside(mem[..], old(mem[..]), to, to + 8 * (count - 1))
  {
    hide Moved, WordsAt, SameOutside;
    ghost var m := mem[..];
    Move(mem, to, from, 8 * index);
    ghost var a := mem[..];
    Move(mem, to + 8 * index, from + 8 * (index + 1), 8 * (count - 1 - index));
    ValuesDown(m, a, mem[..], from, to, values, index);
  }

  /** The bytes with a key put in. */
  predicate Spliced(bytes: seq<int>, bytes': seq<int>, start: int, key: seq<int>) {
    0 <= start <= |bytes| && bytes' == bytes[..start] + key + bytes[start..]
  }

  lemma {:induction false} InsertSplices(keys: seq<seq<int>>, i: nat, key: seq<int>)
    requires i <= |keys|
    ensures Spliced(Flat(keys), Flat(Insert(keys, i, key)), StartOf(Ends(keys), i), key)
    ensures 0 <= StartOf(Ends(keys), i) <= |Flat(keys)|
    ensures |Insert(keys, i, key)| == |keys| + 1 && |Flat(Insert(keys, i, key))| == |Flat(keys)| + |key|
  {
    hide Flat;
    StartIs(keys, i);
    FlatInsert(keys, i, key);
  }

  method MoveKeysUp(mem: array<Cell>, at: nat, total: nat, start: nat, key: seq<int>, ghost bytes: seq<int>, ghost bytes': seq<int>)
    requires start <= total == |bytes| && at + total + |key| <= mem.Length && CharsAt(mem[..], at, bytes)
    requires Spliced(bytes, bytes', start, key)
    modifies mem
    ensures CharsAt(mem[..], at, bytes') && SameOutside(mem[..], old(mem[..]), at, at + total + |key|)
  {
    KeysUpIs(mem[..], at, bytes, start, key);
    assert bytes' == bytes[..start] + key + bytes[start..];
    hide Moved, Overlaid, CharsAt, SameOutside, Spliced;
    Move(mem, at + start + |key|, at + start, total - start);
    Write(mem, at + start, Chars(key));
  }

  /** Values and ends move back to make room for a key of `length` bytes. */
  method MakeRoom(mem: array<Cell>, ends: nat, newEnds: nat, count: nat, index: nat, length: nat, value: int,
                  ghost bytes: seq<int>, ghost positions: seq<int>, ghost values: seq<int>) returns (keyStart: int)
    requires index <= count == |values| == |positions| && ends <= newEnds && newEnds + 10 * (count + 1) <= mem.Length
    requires CharsAt(mem[..], HEADER, bytes) && HalvesAt(mem[..], ends, positions) && WordsAt(mem[..], ends + 2 * count, values)
    requires HEADER + |bytes| <= newEnds
    modifies mem
    ensures keyStart == StartOf(positions, index)
    ensures CharsAt(mem[..], HEADER, bytes) && HalvesAt(mem[..], newEnds, EndsInserted(positions, index, length))
    ensures WordsAt(mem[..], newEnds + 2 * (count + 1), Insert(values, index, value))
  {
    hide WordsAt, HalvesAt, CharsAt, SameOutside, EndsInserted, Insert, StartOf;
    var from, to := ends + 2 * count, newEnds + 2 * (count + 1);
    ghost var m0 := mem[..];
    MoveValuesUp(mem, from, to, count, index, value, values);
    ghost var m1 := mem[..];
    HalvesStay(m1, m0, ends, positions, to, to + 8 * (count + 1));
    CharsStay(m1, m0, HEADER, bytes, to, to + 8 * (count + 1));
    keyStart := MoveEndsUp(mem, ends, newEnds, count, index, length, positions);
    CharsStay(mem[..], m1, HEADER, bytes, newEnds, to);
    WordsStay(mem[..], m1, to, Insert(values, index, value), newEnds, to);
  }

  /** The whole insertion into a block. */
  method InsertInto(mem: array<Cell>, count: nat, length: nat, index: nat, key: seq<int>, value: int,
                    ghost keys: seq<seq<int>>, ghost values: seq<int>)
    requires Packed(mem[..], keys, values) && index <= count == |keys| && length == |Flat(keys)|
    requires Used(count + 1, length + |key|) <= mem.Length
    modifies mem
    ensures Packed(mem[..], Insert(keys, index, key), Insert(values, index, value))
  {
    hide WordsAt, HalvesAt, CharsAt, SameOutside, Flat, EndsInserted, Insert, Ends, Spliced, StartOf, EndsAt, Packed;
    PackedParts(mem[..], keys, values);
    ghost var keys', values' := Insert(keys, index, key), Insert(values, index, value);
    WordsLength(values, index, value);
    InsertSplices(keys, index, key);
    EndsInsert(keys, index, key);
    EndsOrder(length, length + |key|);
    var newEnds := EndsAt(length + |key|);
    ghost var bytes, bytes', positions' := Flat(keys), Flat(keys'), Ends(keys');
    var keyStart := MakeRoom(mem, EndsAt(length), newEnds, count, index, |key|, value, bytes, Ends(keys), values);
    ghost var m := mem[..];
    MoveKeysUp(mem, HEADER, length, keyStart, key, bytes, bytes');
    HalvesStay(mem[..], m, newEnds, positions', HEADER, HEADER + length + |key|);
    WordsStay(mem[..], m, newEnds + 2 * (count + 1), values', HEADER, HEADER + length + |key|);
    IsPacked(mem[..], keys', values');
  }

  lemma {:induction false} IsPacked(m: seq<Cell>, keys: seq<seq<int>>, values: seq<int>)
    requires |values| == |keys| && Used(|keys|, |Flat(keys)|) <= |m| && CharsAt(m, HEADER, Flat(keys))
    requires HalvesAt(m, EndsAt(|Flat(keys)|), Ends(keys)) && WordsAt(m, EndsAt(|Flat(keys)|) + 2 * |keys|, values)
    ensures Packed(m, keys, values)
  {
  }

  class Node {
    const mem: array<Cell>
    var overflow: int
    var count: nat             // all_key_count
    var length: nat            // all_key_length

    ghost predicate Holds(keys: seq<seq<int>>, values: seq<int>)
      reads this, mem
    {
      Packed(mem[..], keys, values) && count == |keys| && length == |Flat(keys)|
    }

    constructor (mem: array<Cell>)
      requires Used(0, 0) <= mem.Length
      ensures this.mem == mem && Holds([], []) && overflow == TreeNode.NULL
    {
      this.mem := mem;
      overflow, count, length := TreeNode.NULL, 0, 0;
    }

    /** BPlusTree::InsertKey: with room for it, a pair comes in where the sequences would
        have it, whatever overlaps on the way. */
    method InsertKey(index: nat, key: seq<int>, value: int, ghost keys: seq<seq<int>>, ghost values: seq<int>)
      requires Holds(keys, values) && Used(count + 1, length + |key|) <= mem.Length
      modifies mem, this`count, this`length
      ensures index > old(count) ==> Holds(keys, values)
      ensures index <= old(count) ==> Holds(Insert(keys, index, key), Insert(values, index, value))
    {
      if index > count {
        return;
      }
      InsertSplices(keys, index, key);
      hide Flat, Insert, Packed;
      InsertInto(mem, count, length, index, key, value, keys, values);
      count, length := count + 1, length + |key|;
    }
  
    /** BPlusTree::RemoveKey: a key is taken out with the value that stands at its index.  In
        an index node the overflow link counts as the value behind the last key; to drop
        it, the last key goes and its value becomes the overflow link. */
    method RemoveKey(index0: nat, ghost keys: seq<seq<int>>, ghost values: seq<int>)
      requires Holds(keys, values) && 0 < count && (index0 < count || (overflow != TreeNode.NULL && index0 == count))
      modifies mem, this`count, this`length, this`overflow
      ensures var i := if index0 == old(count) then index0 - 1 else index0;
              && Holds(Remove(keys, i), Remove(values, i))
              && overflow == if index0 == old(count) then values[i] else old(overflow)
    {
      hide WordsAt, HalvesAt, CharsAt, Flat, Remove, Ends, StartOf, EndsAt, Packed;
      PackedParts(mem[..], keys, values);
      var ends, index := EndsAt(length), index0;
      if overflow != TreeNode.NULL && index == count {
        index := index - 1;
        ValueRead(mem[..], ends + 2 * count, values, index);
        overflow := mem[ends + 2 * count + 8 * index].v;
      }
      RemoveFacts(keys, index);
      RemovedLength(values, index);
      EndRead(mem[..], ends, Ends(keys), index);
      var start := if index > 0 then mem[ends + 2 * (index - 1)].n else 0;
      var keyLength := mem[ends + 2 * index].n - start;
      RemoveFrom(mem, count, length, index, start, keyLength, keys, values);
      count, length := count - 1, length - keyLength;
    }
  }

  lemma {:induction false} RemoveFacts(keys: seq<seq<int>>, i: nat)
    requires i < |keys|
    ensures |Ends(keys)| == |keys| && StartOf(Ends(keys), i) == (if i > 0 then Ends(keys)[i - 1] else 0) >= 0
    ensures Ends(keys)[i] - StartOf(Ends(keys), i) == |keys[i]| <= |Flat(keys)|
    ensures |Remove(keys, i)| == |keys| - 1 && |Flat(Remove(keys, i))| == |Flat(keys)| - |keys[i]|
  {
    hide Flat, EndsRemoved;
    FlatRemove(keys, i);
  }

  lemma {:induction false} ValueRead(m: seq<Cell>, at: nat, values: seq<int>, i: nat)
    requires WordsAt(m, at, values) && i < |values|
    ensures m[at + 8 * i] == Word(values[i], 0)
  {
    assert m[at + 8 * i] == WordCell(values, 8 * i);
  }

  lemma {:induction false} EndRead(m: seq<Cell>, at: nat, ends: seq<int>, i: nat)
    requires HalvesAt(m, at, ends) && i < |ends|
    ensures m[at + 2 * i] == Half(ends[i], 0) && (i > 0 ==> m[at + 2 * (i - 1)] == Half(ends[i - 1], 0))
  {
    HalfCells(ends, i);
    assert m[at + 2 * i] == HalfCell(ends, 2 * i);
    if i > 0 {
      HalfCells(ends, i - 1);
      assert m[at + 2 * (i - 1)] == HalfCell(ends, 2 * (i - 1));
    }
  }

  method MoveKeysDown(mem: array<Cell>, at: nat, total: nat, start: nat, length: nat, ghost bytes: seq<int>, ghost bytes': seq<int>)
    requires start + length <= total == |bytes| && at + total <= mem.Length && CharsAt(mem[..], at, bytes)
    requires bytes' == bytes[..start] + bytes[start + length..]
    modifies mem
    ensures CharsAt(mem[..], at, bytes') && SameOutside(mem[..], old(mem[..]), at, at + total - length)
  {
    KeysDownIs(mem[..], at, bytes, start, length);
    hide Moved, CharsAt, SameOutside;
    Move(mem, at + start, at + start + length, total - length - start);
  }

  /** The whole removal from a block. */
  method RemoveFrom(mem: array<Cell>, count: nat, length: nat, index: nat, start: nat, keyLength: nat,
                    ghost keys: seq<seq<int>>, ghost values: seq<int>)
    requires Packed(mem[..], keys, values) && index < count == |keys| && length == |Flat(keys)|
    requires start == StartOf(Ends(keys), index) && keyLength == |keys[index]| <= length
    modifies mem
    ensures |values| == |keys| && Packed(mem[..], Remove(keys, index), Remove(values, index))
  {
    hide WordsAt, HalvesAt, CharsAt, SameOutside, Flat, EndsRemoved, Remove, Ends, StartOf, EndsAt, Packed;
    PackedParts(mem[..], keys, values);
    FlatRemove(keys, index);
    ghost var keys', values', bytes := Remove(keys, index), Remove(values, index), Flat(keys);
    RemovedLength(keys, index);
    RemovedLength(values, index);
    EndsOrder(length - keyLength, length);
    EndsOrder(length - keyLength, length - keyLength);
    var ends, newEnds := EndsAt(length), EndsAt(length - keyLength);
    var from, to := ends + 2 * count, newEnds + 2 * (count - 1);
    ghost var m0 := mem[..];
    MoveKeysDown(mem, HEADER, length, start, keyLength, bytes, Flat(keys'));
    ghost var m1 := mem[..];
    HalvesStay(m1, m0, ends, Ends(keys), HEADER, HEADER + length - keyLength);
    WordsStay(m1, m0, from, values, HEADER, HEADER + length - keyLength);
    MoveEndsDown(mem, ends, newEnds, count, index, keyLength, Ends(keys));
    ghost var m2 := mem[..];
    CharsStay(m2, m1, HEADER, Flat(keys'), newEnds, to);
    WordsStay(m2, m1, from, values, newEnds, to);
    MoveValuesDown(mem, from, to, count, index, values);
    CharsStay(mem[..], m2, HEADER, Flat(keys'), to, to + 8 * (count - 1));
    HalvesStay(mem[..], m2, newEnds, Ends(keys'), to, to + 8 * (count - 1));
    IsPacked(mem[..], keys', values');
  }

  lemma {:induction false} RemovedLength<T>(s: seq<T>, i: nat)
    requires i < |s|
    ensures |Remove(s, i)| == |s| - 1
  {
  }

  /** Removing a pair that has just been inserted gives back what was there. */
  lemma {:induction false} RemoveUndoesInsert<T>(s: seq<T>, i: nat, x: T)
    requires i <= |s|
    ensures Remove(Insert(s, i, x), i) == s
  {
  }
}
