/** When an insertion works: every node that is split on the way back to the root has to
leave parts that fit their blocks. */
module TreeRoom {
  import opened Options
  import opened Sequences
  import opened TreeNode
  import opened TreeShape
  import opened TreeChange
  import opened TreeSplit
  import opened TreeInsert

  /** The way of a search for `k` from `x` to its leaf. */
  ghost function Way(nodes: Nodes, info: Infos, root: int, x: int, k: int): (r: seq<NodeAndKey>)
    requires TreeOk(nodes, info, root) && x in nodes && info[x].Covers(k)
    ensures r != []
    decreases info[x].level
  {
    assert NodeOk(nodes, info, root, x);
    var i := Position(nodes[x].keys, k);
    if nodes[x].IsLeaf() then [NodeAndKey(x, i)]
    else
      assert ChildOk(nodes, info, x, i);
      [NodeAndKey(x, i)] + Way(nodes, info, root, nodes[x].Child(i), k)
  }

  /** The node at the top of the stack has room for the key, or can be split and then the
      nodes above it have room for the separator. */
  ghost predicate RoomFor(nodes: Nodes, stack: seq<NodeAndKey>, key: Key)
    decreases |stack|
  {
    && TopOk(nodes, stack)
    && var top, n := stack[|stack| - 1], nodes[stack[|stack| - 1].offset];
       || Size(Bytes(n.keys) + key.length, |n.keys| + 1) < NODE_SIZE
       || forall out :: IsSplitPoint(n.keys, top.index, key.length, out) ==>
            && SplitWorks(n, Upper(nodes, stack), top.index, key, out)
            && (|stack| == 1 || RoomFor(nodes, stack[..|stack| - 1], Separator(InsertKey(n, top.index, key, 0), out)))
  }

  /** An insertion of a new key fails on its way back to the root. */
  ghost predicate Overruns(nodes: Nodes, info: Infos, root: int, key: Key) {
    && TreeOk(nodes, info, root)
    && !RoomFor(nodes, Way(nodes, info, root, root, key.order), key)
  }

  // ---------- one round of the insertion loop ----------

  lemma {:induction false} NoRoom(nodes: Nodes, stack: seq<NodeAndKey>, key: Key, out: nat)
    requires TopOk(nodes, stack)
    requires var top, n := stack[|stack| - 1], nodes[stack[|stack| - 1].offset];
             && Size(Bytes(n.keys) + key.length, |n.keys| + 1) >= NODE_SIZE
             && IsSplitPoint(n.keys, top.index, key.length, out)
             && !SplitWorks(n, Upper(nodes, stack), top.index, key, out)
    ensures !RoomFor(nodes, stack, key)
  {
    hide Size, IsSplitPoint, SplitWorks, Upper;
  }

  lemma {:induction false} SplitSplits(nodes: Nodes, stack: seq<NodeAndKey>, key: Key, out: nat)
    requires SplitsTop(nodes, stack, key, out)
    ensures var n := nodes[stack[|stack| - 1].offset];
            TakesSplit(n, out) && n.Valid() && stack[|stack| - 1].index <= |n.keys|
  {
    hide Size, Counted, IsSplitPoint;
  }

  lemma {:induction false} RoomAtRoot(nodes: Nodes, stack: seq<NodeAndKey>, key: Key, out: nat)
    requires SplitsTop(nodes, stack, key, out) && |stack| == 1
    ensures RoomFor(nodes, stack, key)
  {
    hide Size, IsSplitPoint, SplitWorks, Upper;
    var n := nodes[stack[0].offset];
    forall out' | IsSplitPoint(n.keys, stack[0].index, key.length, out')
      ensures out' == out
    {
      SplitPointUnique(n.keys, stack[0].index, key.length, out, out');
    }
  }

  /** After a split it is the parent that needs room. */
  lemma {:induction false} RoomAbove(nodes: Nodes, stack: seq<NodeAndKey>, key: Key, value: int, out: nat)
    requires SplitsTop(nodes, stack, key, out) && |stack| >= 2
    requires CanSplit(Enlarged(nodes, stack, key, value)[stack[|stack| - 1].offset], out)
    ensures var sep := Separator(Enlarged(nodes, stack, key, value)[stack[|stack| - 1].offset], out);
            RoomFor(nodes, stack, key) <==> RoomFor(nodes, stack[..|stack| - 1], sep)
  {
    hide Size, IsSplitPoint, SplitWorks, Upper;
    var t := |stack| - 1;
    var n := nodes[stack[t].offset];
    assert Separator(InsertKey(n, stack[t].index, key, 0), out)
        == Separator(Enlarged(nodes, stack, key, value)[stack[t].offset], out);
    forall out' | IsSplitPoint(n.keys, stack[t].index, key.length, out')
      ensures out' == out
    {
      SplitPointUnique(n.keys, stack[t].index, key.length, out, out');
    }
  }

  /** Room depends on the nodes on the way only. */
  lemma {:induction false} RoomSame(nodes: Nodes, nodes': Nodes, stack: seq<NodeAndKey>, key: Key)
    requires forall j: nat :: j < |stack| ==>
               stack[j].offset in nodes && stack[j].offset in nodes' && nodes[stack[j].offset] == nodes'[stack[j].offset]
    ensures RoomFor(nodes, stack, key) <==> RoomFor(nodes', stack, key)
    decreases |stack|
  {
    hide Size, IsSplitPoint, SplitWorks, Upper, InsertKey, Separator;
    UpperSame(nodes, nodes', stack);
    if TopOk(nodes, stack) {
      var top, n := stack[|stack| - 1], nodes[stack[|stack| - 1].offset];
      forall out | IsSplitPoint(n.keys, top.index, key.length, out) && |stack| > 1
                   && SplitWorks(n, Upper(nodes, stack), top.index, key, out)
        ensures CanSplit(InsertKey(n, top.index, key, 0), out)
        ensures RoomFor(nodes, stack[..|stack| - 1], Separator(InsertKey(n, top.index, key, 0), out))
           <==> RoomFor(nodes', stack[..|stack| - 1], Separator(InsertKey(n, top.index, key, 0), out))
      {
        WorksSplits(n, Upper(nodes, stack), top.index, key, out);
        RoomSame(nodes, nodes', stack[..|stack| - 1], Separator(InsertKey(n, top.index, key, 0), out));
      }
    }
  }

  lemma {:induction false} WorksSplits(n: Node, hi: Bound, i: nat, key: Key, out: nat)
    requires n.Valid() && i <= |n.keys| && SplitWorks(n, hi, i, key, out)
    ensures CanSplit(InsertKey(n, i, key, 0), out)
  {
    hide Counted;
  }

  /** A split leaves the nodes above as they are. */
  lemma {:induction false} SplitTopAbove(nodes: Nodes, info: Infos, root: int, stack: seq<NodeAndKey>, key: Key, value: int,
                                         contents: map<int, int>, o: int, out: nat)
    requires Inserting(nodes, info, root, stack, key, value, contents)
    requires o !in nodes && o != NULL && SplitsTop(nodes, stack, key, out)
    ensures TakesSplit(nodes[stack[|stack| - 1].offset], out)
    ensures var nodes' := SplitTop(nodes, stack, key, value, o, out);
            forall j: nat :: j < |stack| - 1 ==>
              stack[j].offset in nodes && stack[j].offset in nodes' && nodes[stack[j].offset] == nodes'[stack[j].offset]
  {
    hide SplitsTop, TreeOk, Lookup, KeysOk, ChildrenOk, ParentOk, LeftPart, RightPart, InsertKey;
    var t, big := |stack| - 1, Enlarged(nodes, stack, key, value);
    SplitSplits(nodes, stack, key, out);
    Ok(big, info, root, stack[t].offset);
    forall j: nat | j < t
      ensures stack[j].offset in nodes
      ensures stack[j].offset !in {stack[t].offset, o, big[stack[t].offset].left}
    {
      PathDistinct(big, info, root, stack, j, t);
    }
  }

  // ---------- short keys ----------

  ghost predicate AllShort(nodes: Nodes) {
    forall x :: x in nodes ==> ShortKeys(nodes[x].keys)
  }

  lemma {:induction false} ShortPart(keys: seq<Key>, from: nat, to: nat)
    requires ShortKeys(keys) && from <= to <= |keys|
    ensures ShortKeys(keys[from..to])
  {
  }

  lemma {:induction false} ShortInsert(keys: seq<Key>, i: nat, key: Key)
    requires ShortKeys(keys) && i <= |keys| && key.length <= SHORT_KEY
    ensures ShortKeys(Insert(keys, i, key))
  {
  }

  lemma {:induction false} ShortSplit(n: Node, i: nat, key: Key, value: int, x: int, o: int, out: nat)
    requires n.Valid() && i <= |n.keys| && ShortKeys(n.keys) && key.length <= SHORT_KEY
    requires CanSplit(InsertKey(n, i, key, value), out)
    ensures var big := InsertKey(n, i, key, value);
            && ShortKeys(LeftPart(big, x, out).keys) && ShortKeys(RightPart(big, o, out).keys)
            && Separator(big, out).length <= SHORT_KEY
  {
    ShortInsert(n.keys, i, key);
    hide Insert;
    var keys := Insert(n.keys, i, key);
    ShortPart(keys, 0, out);
    ShortPart(keys, if n.IsLeaf() then out else out + 1, |keys|);
  }

  /** In a tree whose keys have at most 248 bytes each there is room for another such key,
      whatever has to be split. */
  lemma {:induction false} ShortHasRoom(nodes: Nodes, root: int, stack: seq<NodeAndKey>, key: Key)
    requires AllFit(nodes) && AllShort(nodes) && Path(nodes, root, stack) && TopOk(nodes, stack)
    requires MIN_KEY_LENGTH <= key.length <= SHORT_KEY
    ensures RoomFor(nodes, stack, key)
    decreases |stack|
  {
    hide Upper, Size, Bytes, InsertKey, Separator, ShortKeys, LengthsOk, Counted;
    var t := |stack| - 1;
    var top, n := stack[t], nodes[stack[t].offset];
    assert Fits(n);
    if Size(Bytes(n.keys) + key.length, |n.keys| + 1) >= NODE_SIZE {
      forall out | IsSplitPoint(n.keys, top.index, key.length, out)
        ensures SplitWorks(n, Upper(nodes, stack), top.index, key, out)
        ensures CanSplit(InsertKey(n, top.index, key, 0), out)
        ensures |stack| > 1 ==> RoomFor(nodes, stack[..t], Separator(InsertKey(n, top.index, key, 0), out))
      {
        ShortWorks(n, top.index, key, out);
        hide IsSplitPoint;
        WorksSplits(n, Upper(nodes, stack), top.index, key, out);
        if |stack| > 1 {
          ShortSeparator(n, top.index, key, out);
          PathFront(nodes, root, stack, t);
          assert PathStep(nodes, stack, t - 1);
          ShortHasRoom(nodes, root, stack[..t], Separator(InsertKey(n, top.index, key, 0), out));
        }
      }
    }
  }

  lemma {:induction false} ShortWorks(n: Node, i: nat, key: Key, out: nat)
    requires Fits(n) && ShortKeys(n.keys) && MIN_KEY_LENGTH <= key.length <= SHORT_KEY && i <= |n.keys|
    requires Size(Bytes(n.keys) + key.length, |n.keys| + 1) >= NODE_SIZE
    requires IsSplitPoint(n.keys, i, key.length, out)
    ensures out <= |n.keys| && forall hi :: SplitWorks(n, hi, i, key, out)
  {
    ShortKeysSplitProperly(n.keys, i, key.length, out);
    ShortKeysCountSmall(n.keys, i, key.length, out);
  }

  lemma {:induction false} ShortSeparator(n: Node, i: nat, key: Key, out: nat)
    requires n.Valid() && Fits(n) && ShortKeys(n.keys) && MIN_KEY_LENGTH <= key.length <= SHORT_KEY && i <= |n.keys|
    requires CanSplit(InsertKey(n, i, key, 0), out)
    ensures MIN_KEY_LENGTH <= Separator(InsertKey(n, i, key, 0), out).length <= SHORT_KEY
  {
    LengthsInsert(n.keys, i, key);
    ShortInsert(n.keys, i, key);
    hide Insert;
  }

  /** Short keys stay the only ones. */
  lemma {:induction false} EnlargedShort(nodes: Nodes, stack: seq<NodeAndKey>, key: Key, value: int)
    requires TopOk(nodes, stack) && AllShort(nodes) && key.length <= SHORT_KEY
    ensures AllShort(Enlarged(nodes, stack, key, value))
  {
    hide ShortKeys;
    ShortInsert(nodes[stack[|stack| - 1].offset].keys, stack[|stack| - 1].index, key);
  }

  lemma {:induction false} SplitTopShort(nodes: Nodes, stack: seq<NodeAndKey>, key: Key, value: int, newRoot: int, o: int, out: nat)
    requires TopOk(nodes, stack) && AllShort(nodes) && key.length <= SHORT_KEY
    requires TakesSplit(nodes[stack[|stack| - 1].offset], out)
    ensures AllShort(SplitTop(nodes, stack, key, value, o, out))
    ensures AllShort(SplitRoot(nodes, stack, key, value, newRoot, o, out))
    ensures Separator(Enlarged(nodes, stack, key, value)[stack[|stack| - 1].offset], out).length <= SHORT_KEY
  {
    hide LeftPart, RightPart, Separator;
    var t := |stack| - 1;
    var n := nodes[stack[t].offset];
    ShortSplit(n, stack[t].index, key, value, stack[t].offset, o, out);
    ShortInsert([], 0, Separator(InsertKey(n, stack[t].index, key, value), out));
    hide ShortKeys, InsertKey;
  }

  /** Keys of 226, 226, 256 and 1 bytes in a tree of one leaf: the next key of 256 bytes,
      between the last two, overruns the new node. */
  lemma {:induction false} LeafOverruns(root: int, a: Key, b: Key, c: Key, d: Key, key: Key)
    requires a.length == 226 && b.length == 226 && c.length == 256 && d.length == 1 && key.length == 256
    requires a.order < b.order < c.order < key.order < d.order && root != NULL
    ensures var nodes := map[root := Node(NULL, NULL, NULL, [a, b, c, d], [0, 0, 0, 0])];
            && TreeOk(nodes, map[root := Info(None, None, 0, NULL)], root)
            && Overruns(nodes, map[root := Info(None, None, 0, NULL)], root, key)
  {
    var nodes, info := map[root := Node(NULL, NULL, NULL, [a, b, c, d], [0, 0, 0, 0])], map[root := Info(None, None, 0, NULL)];
    assert NodeOk(nodes, info, root, root);
    assert TreeOk(nodes, info, root);
    PositionUnique([a, b, c, d], key.order, 3);
    assert Way(nodes, info, root, root, key.order) == [NodeAndKey(root, 3)];
    LongKeysOverrun(a, b, c, d, key);
    hide Size, IsSplitPoint, Counted, Bytes, Insert;
    LeftExact([a, b, c, d], 3, key, 4);
    NoRoom(nodes, [NodeAndKey(root, 3)], key, 4);
  }
}
