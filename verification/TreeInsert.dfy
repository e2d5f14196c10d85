/** Insertion from the leaf towards the root, and what the tree holds after every step. */
module TreeInsert {
  import opened Options
  import opened Sequences
  import opened TreeNode
  import opened TreeShape
  import opened TreeChange
  import opened TreeSplit

  function Entry(contents: map<int, int>, k: int): Option<int> {
    if k in contents then Some(contents[k]) else None
  }

  /** The tree is in shape and a search finds just what `contents` says. */
  ghost predicate Holds(nodes: Nodes, info: Infos, root: int, contents: map<int, int>) {
    && TreeOk(nodes, info, root)
    && forall k :: Lookup(nodes, info, root, k) == Entry(contents, k)
  }

  // ---------- changes at a leaf ----------

  /** A new leaf in place of the one at `y` makes the tree hold `contents'` if the leaf does
      so on its own range, and nothing is different elsewhere. */
  lemma {:induction false} HoldsLeafChange(nodes: Nodes, info: Infos, root: int, contents: map<int, int>,
                                           y: int, n: Node, contents': map<int, int>)
    requires Holds(nodes, info, root, contents)
    requires y in nodes && info[y].level == 0
    requires KeysOk(n, info[y]) && n.left == nodes[y].left && n.right == nodes[y].right
    requires forall k :: Entry(contents', k) == if info[y].Covers(k) then Get(n, k) else Entry(contents, k)
    ensures Holds(nodes[y := n], info, root, contents')
  {
    hide NodeOk, Lookup, Get, Entry;
    LeafChange(nodes, info, root, y, n);
    forall k | true
      ensures Lookup(nodes[y := n], info, root, k) == Entry(contents', k)
    {
      assert Lookup(nodes, info, root, k) == Entry(contents, k);
      LeafChangeLookup(nodes, info, root, y, n, k);
    }
  }

  /** The leaf at `y` holds what `contents` says on its range. */
  lemma {:induction false} LeafHolds(nodes: Nodes, info: Infos, root: int, contents: map<int, int>, y: int, k: int)
    requires Holds(nodes, info, root, contents)
    requires y in nodes && info[y].level == 0 && info[y].Covers(k)
    ensures nodes[y].Valid() && Get(nodes[y], k) == Entry(contents, k)
  {
    hide NodeOk, Lookup, Get, Entry;
    LookupInLeaf(nodes, info, root, y, k);
    assert Lookup(nodes, info, root, k) == Entry(contents, k);
  }

  lemma {:induction false} HoldsInsert(nodes: Nodes, info: Infos, root: int, contents: map<int, int>,
                                       y: int, key: Key, value: int)
    requires Holds(nodes, info, root, contents)
    requires y in nodes && info[y].level == 0 && info[y].Covers(key.order)
    requires nodes[y].Valid() && !Has(nodes[y].keys, key.order)
    ensures Holds(nodes[y := InsertKey(nodes[y], Position(nodes[y].keys, key.order), key, value)], info, root,
                  contents[key.order := value])
  {
    hide Lookup, ChildrenOk, LinksOk, ParentOk, Get;
    var n := nodes[y];
    var n' := InsertKey(n, Position(n.keys, key.order), key, value);
    Ok(nodes, info, root, y);
    GetAfterInsert(n, key, value, key.order);
    assert KeysOk(n', info[y]);
    var contents' := contents[key.order := value];
    forall k | true
      ensures Entry(contents', k) == if info[y].Covers(k) then Get(n', k) else Entry(contents, k)
    {
      if info[y].Covers(k) {
        GetAfterInsert(n, key, value, k);
        LeafHolds(nodes, info, root, contents, y, k);
      }
    }
    HoldsLeafChange(nodes, info, root, contents, y, n', contents');
  }

  lemma {:induction false} HoldsRemove(nodes: Nodes, info: Infos, root: int, contents: map<int, int>, y: int, i: nat)
    requires Holds(nodes, info, root, contents)
    requires y in nodes && info[y].level == 0 && nodes[y].Valid() && i < |nodes[y].keys|
    ensures Holds(nodes[y := RemoveKey(nodes[y], i)], info, root, contents - {nodes[y].keys[i].order})
  {
    hide Lookup, ChildrenOk, LinksOk, ParentOk, Get;
    var n, n' := nodes[y], RemoveKey(nodes[y], i);
    Ok(nodes, info, root, y);
    GetAfterRemove(n, i, 0);
    assert KeysOk(n', info[y]);
    var contents' := contents - {n.keys[i].order};
    forall k | true
      ensures Entry(contents', k) == if info[y].Covers(k) then Get(n', k) else Entry(contents, k)
    {
      if info[y].Covers(k) {
        GetAfterRemove(n, i, k);
        LeafHolds(nodes, info, root, contents, y, k);
      }
    }
    HoldsLeafChange(nodes, info, root, contents, y, n', contents');
  }

  lemma {:induction false} HoldsReplace(nodes: Nodes, info: Infos, root: int, contents: map<int, int>,
                                        y: int, i: nat, value: int)
    requires Holds(nodes, info, root, contents)
    requires y in nodes && info[y].level == 0 && nodes[y].Valid() && i < |nodes[y].keys|
    ensures Holds(nodes[y := nodes[y].(values := nodes[y].values[i := value])], info, root,
                  contents[nodes[y].keys[i].order := value])
  {
    hide Lookup, ChildrenOk, LinksOk, ParentOk, Get;
    var n, n' := nodes[y], nodes[y].(values := nodes[y].values[i := value]);
    Ok(nodes, info, root, y);
    var contents' := contents[n.keys[i].order := value];
    forall k | true
      ensures Entry(contents', k) == if info[y].Covers(k) then Get(n', k) else Entry(contents, k)
    {
      if info[y].Covers(k) {
        GetAfterReplace(n, i, value, k);
        LeafHolds(nodes, info, root, contents, y, k);
      }
    }
    HoldsLeafChange(nodes, info, root, contents, y, n', contents');
  }

  // ---------- splitting ----------

  lemma {:induction false} HoldsSplit(nodes: Nodes, info: Infos, root: int, contents: map<int, int>,
                                      x: int, o: int, p: int, i: nat, out: nat)
    requires Holds(nodes, info, root, contents) && SplitPre(nodes, info, root, x, o, p, i, out)
    ensures Holds(Split(nodes, x, o, p, i, out), SplitInfo(nodes, info, x, o, out), root, contents)
  {
    hide Split, SplitInfo, NodeOk, Lookup;
    SplitOk(nodes, info, root, x, o, p, i, out);
    forall k | true
      ensures Lookup(Split(nodes, x, o, p, i, out), SplitInfo(nodes, info, x, o, out), root, k) == Entry(contents, k)
    {
      SplitLookup(nodes, info, root, x, o, p, i, out, k);
    }
  }

  lemma {:induction false} HoldsNewRoot(nodes: Nodes, info: Infos, root: int, contents: map<int, int>, newRoot: int)
    requires Holds(nodes, info, root, contents) && newRoot !in nodes && newRoot != NULL
    ensures Holds(nodes[newRoot := RootNode(root)], InfoUnderRoot(info, root, newRoot), newRoot, contents)
  {
    hide InfoUnderRoot, NodeOk, Lookup;
    NewRoot(nodes, info, root, newRoot);
    forall k | true
      ensures Lookup(nodes[newRoot := RootNode(root)], InfoUnderRoot(info, root, newRoot), newRoot, k)
           == Entry(contents, k)
    {
      NewRootLookup(nodes, info, root, newRoot, k);
    }
  }

  // ---------- the way back to the root ----------

  /** A node that was passed on the way down, and the place where it was left. */
  datatype NodeAndKey = NodeAndKey(offset: int, index: nat)

  /** The nodes from the root to the one at the top of the stack. */
  ghost predicate Path(nodes: Nodes, root: int, stack: seq<NodeAndKey>) {
    && stack != [] && stack[0].offset == root
    && (forall j: nat :: j < |stack| ==> stack[j].offset in nodes && nodes[stack[j].offset].Valid())
    && (forall j: nat :: j + 1 < |stack| ==> PathStep(nodes, stack, j))
  }

  ghost predicate PathStep(nodes: Nodes, stack: seq<NodeAndKey>, j: nat)
    requires j + 1 < |stack| && stack[j].offset in nodes && nodes[stack[j].offset].Valid()
  {
    !nodes[stack[j].offset].IsLeaf() && IsChild(nodes, stack[j].offset, stack[j].index, stack[j + 1].offset)
  }

  lemma {:induction false} StepLevel(nodes: Nodes, info: Infos, root: int, p: int, i: nat, c: int)
    requires TreeOk(nodes, info, root) && p in nodes && nodes[p].Valid() && !nodes[p].IsLeaf()
    requires IsChild(nodes, p, i, c)
    ensures c in info && info[c].parent == p && info[c].level + 1 == info[p].level
  {
    hide TreeOk;
    Ok(nodes, info, root, p);
    assert ChildOk(nodes, info, p, i);
  }

  /** Every node of the path lies one level below the one before. */
  lemma {:induction false} PathLevels(nodes: Nodes, info: Infos, root: int, stack: seq<NodeAndKey>, j: nat)
    requires TreeOk(nodes, info, root) && Path(nodes, root, stack) && j < |stack|
    ensures info[stack[j].offset].level + j == info[root].level
    ensures j > 0 ==> info[stack[j].offset].parent == stack[j - 1].offset
    decreases j
  {
    hide NodeOk;
    if j > 0 {
      PathLevels(nodes, info, root, stack, j - 1);
      assert PathStep(nodes, stack, j - 1);
      StepLevel(nodes, info, root, stack[j - 1].offset, stack[j - 1].index, stack[j].offset);
    }
  }

  lemma {:induction false} PathDistinct(nodes: Nodes, info: Infos, root: int, stack: seq<NodeAndKey>, i: nat, j: nat)
    requires TreeOk(nodes, info, root) && Path(nodes, root, stack) && i < j < |stack|
    ensures info[stack[i].offset].level > info[stack[j].offset].level
  {
    PathLevels(nodes, info, root, stack, i);
    PathLevels(nodes, info, root, stack, j);
  }

  /** The tree as it would be if the node at the top of the stack took the pair. */
  function Enlarged(nodes: Nodes, stack: seq<NodeAndKey>, key: Key, value: int): Nodes
    requires stack != [] && stack[|stack| - 1].offset in nodes
    requires nodes[stack[|stack| - 1].offset].Valid()
    requires stack[|stack| - 1].index <= |nodes[stack[|stack| - 1].offset].keys|
  {
    var top := stack[|stack| - 1];
    nodes[top.offset := InsertKey(nodes[top.offset], top.index, key, value)]
  }

  ghost predicate AllFit(nodes: Nodes) {
    forall x :: x in nodes ==> Fits(nodes[x])
  }

  predicate TopOk(nodes: Nodes, stack: seq<NodeAndKey>) {
    && stack != []
    && var top := stack[|stack| - 1];
       top.offset in nodes && nodes[top.offset].Valid() && top.index <= |nodes[top.offset].keys|
  }

  /** The state of the insertion loop: all nodes fit, and with the pair entered at the
      top of the stack the tree would hold what it should. */
  ghost predicate Inserting(nodes: Nodes, info: Infos, root: int, stack: seq<NodeAndKey>, key: Key, value: int,
                            contents: map<int, int>)
  {
    && TopOk(nodes, stack)
    && MIN_KEY_LENGTH <= key.length <= MAX_KEY_LENGTH
    && AllFit(nodes)
    && Holds(Enlarged(nodes, stack, key, value), info, root, contents)
    && Path(Enlarged(nodes, stack, key, value), root, stack)
  }

  /** The loop starts with the pair at its leaf. */
  lemma {:induction false} InsertingAtLeaf(nodes: Nodes, info: Infos, root: int, contents: map<int, int>,
                                           stack: seq<NodeAndKey>, key: Key, value: int)
    requires Holds(nodes, info, root, contents) && AllFit(nodes) && Path(nodes, root, stack)
    requires MIN_KEY_LENGTH <= key.length <= MAX_KEY_LENGTH
    requires var y := stack[|stack| - 1].offset;
             && info[y].level == 0 && info[y].Covers(key.order) && !Has(nodes[y].keys, key.order)
             && stack[|stack| - 1].index == Position(nodes[y].keys, key.order)
    ensures Inserting(nodes, info, root, stack, key, value, contents[key.order := value])
  {
    var y := stack[|stack| - 1].offset;
    HoldsInsert(nodes, info, root, contents, y, key, value);
    var big := Enlarged(nodes, stack, key, value);
    forall j: nat | j + 1 < |stack|
      ensures PathStep(big, stack, j)
    {
      assert PathStep(nodes, stack, j);
      PathDistinct(nodes, info, root, stack, j, |stack| - 1);
    }
  }

  /** The pair fits: the loop is done. */
  lemma {:induction false} InsertingDone(nodes: Nodes, info: Infos, root: int, stack: seq<NodeAndKey>, key: Key, value: int,
                                         contents: map<int, int>)
    requires Inserting(nodes, info, root, stack, key, value, contents)
    requires var n := nodes[stack[|stack| - 1].offset];
             Size(Bytes(n.keys) + key.length, |n.keys| + 1) < NODE_SIZE
    ensures Holds(Enlarged(nodes, stack, key, value), info, root, contents)
    ensures AllFit(Enlarged(nodes, stack, key, value))
  {
    hide Holds;
    var top := stack[|stack| - 1];
    BytesInsert(nodes[top.offset].keys, top.index, key);
  }

  // ---------- when a split works ----------

  /** A node that is too full for the new key can be split behind `out` keys: the new node
      fits its block, and it does not take all keys, unless it is a leaf's and the new key
      is not the bound of the leaf. */
  predicate SplitWorks(n: Node, hi: Bound, i: nat, key: Key, out: nat) {
    && 1 <= out <= |n.keys| + 1
    && (out <= i || Counted(n.keys, i, key.length, out) <= NODE_SIZE)
    && (out <= |n.keys| || (n.IsLeaf() && hi != Some(key.order)))
  }

  /** Both parts are as they should be. */
  ghost predicate PartsOk(big: Node, f: Info, x: int, o: int, out: nat)
    requires big.Valid()
  {
    && CanSplit(big, out)
    && f.Inside(Separator(big, out).order)
    && Fits(LeftPart(big, x, out)) && Fits(RightPart(big, o, out))
  }

  /** The condition is exact. */
  lemma {:induction false} SplitExact(n: Node, f: Info, i: nat, key: Key, value: int, x: int, o: int, out: nat)
    requires n.Valid() && Fits(n) && i <= |n.keys| && MIN_KEY_LENGTH <= key.length <= MAX_KEY_LENGTH
    requires KeysOk(InsertKey(n, i, key, value), f)
    requires Size(Bytes(n.keys) + key.length, |n.keys| + 1) >= NODE_SIZE
    requires IsSplitPoint(n.keys, i, key.length, out)
    ensures SplitWorks(n, f.hi, i, key, out) <==> PartsOk(InsertKey(n, i, key, value), f, x, o, out)
    ensures SplitWorks(n, f.hi, i, key, out) ==>
              MIN_KEY_LENGTH <= Separator(InsertKey(n, i, key, value), out).length <= MAX_KEY_LENGTH
  {
    hide Size, Counted, Sorted, IsSplitPoint, KeysOk, Fits, Separator, LeftPart, RightPart;
    SplitPointInside(n.keys, i, key.length, out);
    RoomBeside(n, f, i, key, value, out);
    if CanSplit(InsertKey(n, i, key, value), out) {
      PartsFit(n, i, key, value, x, o, out);
    }
  }

  lemma {:induction false} RoomBeside(n: Node, f: Info, i: nat, key: Key, value: int, out: nat)
    requires n.Valid() && Fits(n) && i <= |n.keys| && MIN_KEY_LENGTH <= key.length <= MAX_KEY_LENGTH
    requires KeysOk(InsertKey(n, i, key, value), f)
    requires Size(Bytes(n.keys) + key.length, |n.keys| + 1) >= NODE_SIZE
    requires IsSplitPoint(n.keys, i, key.length, out)
    ensures out <= |n.keys| || (n.IsLeaf() && f.hi != Some(key.order))
       <==> CanSplit(InsertKey(n, i, key, value), out) && f.Inside(Separator(InsertKey(n, i, key, value), out).order)
  {
    hide Size, Bytes, Counted, Sorted;
    var big := InsertKey(n, i, key, value);
    SplitPointInside(n.keys, i, key.length, out);
    if out == |n.keys| + 1 {
      LastSplitPoint(n.keys, i, key.length, out);
      assert big.keys[|n.keys|] == key;
    }
    hide IsSplitPoint;
    if CanSplit(big, out) {
      SeparatorInside(big, f, out);
    }
  }

  lemma {:induction false} PartsFit(n: Node, i: nat, key: Key, value: int, x: int, o: int, out: nat)
    requires n.Valid() && Fits(n) && i <= |n.keys| && MIN_KEY_LENGTH <= key.length <= MAX_KEY_LENGTH
    requires IsSplitPoint(n.keys, i, key.length, out) && 1 <= out <= |n.keys| + 1
    requires CanSplit(InsertKey(n, i, key, value), out)
    ensures out <= i || Counted(n.keys, i, key.length, out) <= NODE_SIZE
       <==> Fits(LeftPart(InsertKey(n, i, key, value), x, out)) && Fits(RightPart(InsertKey(n, i, key, value), o, out))
    ensures MIN_KEY_LENGTH <= Separator(InsertKey(n, i, key, value), out).length <= MAX_KEY_LENGTH
  {
    hide Size, Bytes, Counted, Insert, IsSplitPoint;
    var big, merged := InsertKey(n, i, key, value), Insert(n.keys, i, key);
    var skip := if n.IsLeaf() then out else out + 1;
    assert |merged| == |n.keys| + 1 by {
      InsertLength(n.keys, i, key);
    }
    LeftExact(n.keys, i, key, out);
    RightAlways(n.keys, i, key, out, skip);
    LengthsInsert(n.keys, i, key);
    LengthsPart(merged, 0, out);
    LengthsPart(merged, skip, |merged|);
    assert merged[0..out] == merged[..out] && merged[skip..|merged|] == merged[skip..];
    assert big.keys == merged && RightPart(big, o, out).keys == merged[skip..];
  }

  lemma {:induction false} LengthsPart(keys: seq<Key>, from: nat, to: nat)
    requires LengthsOk(keys) && from <= to <= |keys|
    ensures LengthsOk(keys[from..to])
  {
  }

  lemma {:induction false} LengthsInsert(keys: seq<Key>, i: nat, key: Key)
    requires LengthsOk(keys) && i <= |keys| && MIN_KEY_LENGTH <= key.length <= MAX_KEY_LENGTH
    ensures LengthsOk(Insert(keys, i, key))
  {
  }

  lemma {:induction false} SplitPointInside(keys: seq<Key>, i: nat, length: nat, out: nat)
    requires IsSplitPoint(keys, i, length, out)
    ensures 1 <= out <= |keys| + 1
  {
  }

  /** The bound of the keys below the top of the stack: the key behind the place where
      the nearest node above was left, if there is one. */
  function Upper(nodes: Nodes, stack: seq<NodeAndKey>): Bound
    decreases |stack|
  {
    if |stack| <= 1 || stack[|stack| - 2].offset !in nodes then None
    else
      var p := stack[|stack| - 2];
      var keys := nodes[p.offset].keys;
      if p.index < |keys| then Some(keys[p.index].order) else Upper(nodes, stack[..|stack| - 1])
  }

  lemma {:induction false} PathFront(nodes: Nodes, root: int, stack: seq<NodeAndKey>, t: nat)
    requires Path(nodes, root, stack) && 1 <= t <= |stack|
    ensures Path(nodes, root, stack[..t])
  {
    var front := stack[..t];
    forall j: nat | j + 1 < |front|
      ensures PathStep(nodes, front, j)
    {
      assert PathStep(nodes, stack, j);
    }
  }

  lemma {:induction false} UpperIsBound(nodes: Nodes, info: Infos, root: int, stack: seq<NodeAndKey>)
    requires TreeOk(nodes, info, root) && Path(nodes, root, stack)
    ensures stack[|stack| - 1].offset in info && info[stack[|stack| - 1].offset].hi == Upper(nodes, stack)
    decreases |stack|
  {
    hide NodeOk;
    if |stack| > 1 {
      var t := |stack| - 1;
      PathFront(nodes, root, stack, t);
      UpperIsBound(nodes, info, root, stack[..t]);
      assert PathStep(nodes, stack, t - 1);
      ChildHas(nodes, info, root, stack[t - 1].offset, stack[t - 1].index, stack[t].offset);
    }
  }

  lemma {:induction false} ChildHas(nodes: Nodes, info: Infos, root: int, p: int, i: nat, c: int)
    requires TreeOk(nodes, info, root) && p in nodes && nodes[p].Valid() && !nodes[p].IsLeaf()
    requires IsChild(nodes, p, i, c)
    ensures c in info && info[c].hi == ChildHi(nodes[p], info[p], i)
  {
    hide TreeOk;
    Ok(nodes, info, root, p);
    assert ChildOk(nodes, info, p, i);
  }

  /** The bound depends on the nodes above only. */
  lemma {:induction false} UpperSame(nodes: Nodes, nodes': Nodes, stack: seq<NodeAndKey>)
    requires forall j: nat :: j + 1 < |stack| ==>
               stack[j].offset in nodes && stack[j].offset in nodes' && nodes[stack[j].offset] == nodes'[stack[j].offset]
    ensures Upper(nodes, stack) == Upper(nodes', stack)
    decreases |stack|
  {
    if |stack| > 1 {
      UpperSame(nodes, nodes', stack[..|stack| - 1]);
    }
  }

  lemma {:induction false} UpperEnlarged(nodes: Nodes, info: Infos, root: int, stack: seq<NodeAndKey>, key: Key, value: int)
    requires TopOk(nodes, stack)
    requires TreeOk(Enlarged(nodes, stack, key, value), info, root) && Path(Enlarged(nodes, stack, key, value), root, stack)
    ensures Upper(Enlarged(nodes, stack, key, value), stack) == Upper(nodes, stack)
  {
    hide TreeOk;
    var big, t := Enlarged(nodes, stack, key, value), |stack| - 1;
    forall j: nat | j < t
      ensures stack[j].offset in nodes && big[stack[j].offset] == nodes[stack[j].offset]
    {
      PathDistinct(big, info, root, stack, j, t);
    }
    UpperSame(big, nodes, stack);
  }

  // ---------- one round that splits ----------

  /** The node at the top of the stack is full, and can be split behind its first `out`
      keys. */
  ghost predicate SplitsTop(nodes: Nodes, stack: seq<NodeAndKey>, key: Key, out: nat) {
    && TopOk(nodes, stack)
    && var top, n := stack[|stack| - 1], nodes[stack[|stack| - 1].offset];
       && Size(Bytes(n.keys) + key.length, |n.keys| + 1) >= NODE_SIZE
       && IsSplitPoint(n.keys, top.index, key.length, out)
       && SplitWorks(n, Upper(nodes, stack), top.index, key, out)
  }

  ghost predicate PartsOkAtTop(big: Nodes, info: Infos, x: int, o: int, out: nat) {
    && x in big && x in info && big[x].Valid() && PartsOk(big[x], info[x], x, o, out)
    && MIN_KEY_LENGTH <= Separator(big[x], out).length <= MAX_KEY_LENGTH
  }

  /** The parts of the node at the top of the stack are as they should be. */
  lemma {:induction false} TopParts(nodes: Nodes, info: Infos, root: int, stack: seq<NodeAndKey>, key: Key, value: int,
                                    contents: map<int, int>, o: int, out: nat)
    requires Inserting(nodes, info, root, stack, key, value, contents) && SplitsTop(nodes, stack, key, out)
    ensures PartsOkAtTop(Enlarged(nodes, stack, key, value), info, stack[|stack| - 1].offset, o, out)
    ensures TakesSplit(nodes[stack[|stack| - 1].offset], out)
  {
    hide Lookup, IsSplitPoint, Path, ChildrenOk, ParentOk, LinksOk, KeysOk, Size, Fits, PartsOk;
    var t, big := |stack| - 1, Enlarged(nodes, stack, key, value);
    var x := stack[t].offset;
    UpperIsBound(big, info, root, stack);
    UpperEnlarged(nodes, info, root, stack, key, value);
    Ok(big, info, root, x);
    SplitExact(nodes[x], info[x], stack[t].index, key, value, x, o, out);
  }

  lemma {:induction false} SplitTopReady(nodes: Nodes, info: Infos, root: int, stack: seq<NodeAndKey>, key: Key, value: int,
                                         contents: map<int, int>, o: int, out: nat)
    requires Inserting(nodes, info, root, stack, key, value, contents) && |stack| >= 2
    requires o !in nodes && o != NULL && SplitsTop(nodes, stack, key, out)
    ensures var t := |stack| - 1;
            SplitPre(Enlarged(nodes, stack, key, value), info, root,
                     stack[t].offset, o, stack[t - 1].offset, stack[t - 1].index, out)
  {
    hide SplitsTop, TreeOk, NodeOk, Lookup, Fits, LeftPart, RightPart, InsertKey, Separator, CanSplit;
    var t, big := |stack| - 1, Enlarged(nodes, stack, key, value);
    TopParts(nodes, info, root, stack, key, value, contents, o, out);
    PathLevels(big, info, root, stack, t);
    PathDistinct(big, info, root, stack, 0, t);
    assert PathStep(big, stack, t - 1);
  }

  lemma {:induction false} InsertLength<T>(s: seq<T>, i: nat, x: T)
    requires i <= |s|
    ensures |Insert(s, i, x)| == |s| + 1
  {
  }

  lemma {:induction false} AllFitParts(nodes: Nodes, x: int, n: Node, o: int, out: nat)
    requires AllFit(nodes) && n.Valid() && CanSplit(n, out)
    requires Fits(LeftPart(n, x, out)) && Fits(RightPart(n, o, out))
    ensures AllFit(Parts(nodes, x, n, o, out))
  {
    hide LengthsOk, Size, Bytes, LeftPart, RightPart;
  }

  /** The neighbour and the parent are the same in the enlarged tree. */
  lemma {:induction false} PartsOfEnlarged(nodes: Nodes, x: int, n: Node, o: int, out: nat, p: int)
    requires x in nodes && n.Valid() && CanSplit(n, out) && n.left != x && p !in {x, o, n.left} && p in nodes
    ensures Parts(nodes[x := n], x, n, o, out) == Parts(nodes, x, n, o, out)
    ensures p in Parts(nodes, x, n, o, out) && Parts(nodes, x, n, o, out)[p] == nodes[p]
  {
    hide LeftPart, RightPart;
  }

  lemma {:induction false} SplitKeepsPath(big: Nodes, info: Infos, root: int, stack: seq<NodeAndKey>, o: int, out: nat)
    requires TreeOk(big, info, root) && Path(big, root, stack) && |stack| >= 2
    requires var t := |stack| - 1;
             SplitPre(big, info, root, stack[t].offset, o, stack[t - 1].offset, stack[t - 1].index, out)
    ensures var t := |stack| - 1;
            Path(Split(big, stack[t].offset, o, stack[t - 1].offset, stack[t - 1].index, out), root, stack[..t])
  {
    hide Split, NodeOk;
    var t := |stack| - 1;
    var x, p, i := stack[t].offset, stack[t - 1].offset, stack[t - 1].index;
    var nodes', rest := Split(big, x, o, p, i, out), stack[..t];
    assert p in nodes' && nodes'[p].Valid() && nodes'.Keys == big.Keys + {o} by {
      SplitNodes(big, info, root, x, o, p, i, out);
    }
    forall j: nat | j < t - 1
      ensures nodes'[rest[j].offset] == big[stack[j].offset]
    {
      PathDistinct(big, info, root, stack, j, t - 1);
      Untouched(big, info, root, x, o, p, i, out, stack[j].offset);
    }
    forall j: nat | j + 1 < |rest|
      ensures PathStep(nodes', rest, j)
    {
      assert PathStep(big, stack, j);
    }
  }

  /** The node can be split behind `out` keys after one more key was entered. */
  predicate TakesSplit(n: Node, out: nat) {
    1 <= out <= |n.keys| + 1 && (out <= |n.keys| || n.IsLeaf())
  }

  /** The store after the node at the top of the stack was split. */
  function SplitTop(nodes: Nodes, stack: seq<NodeAndKey>, key: Key, value: int, o: int, out: nat): Nodes
    requires TopOk(nodes, stack) && TakesSplit(nodes[stack[|stack| - 1].offset], out)
  {
    var top := stack[|stack| - 1];
    Parts(nodes, top.offset, InsertKey(nodes[top.offset], top.index, key, value), o, out)
  }

  /** The split of the node at the top of the stack is a split of the enlarged tree, as
      soon as the parent takes the separator. */
  ghost predicate SplitAgrees(nodes: Nodes, info: Infos, root: int, stack: seq<NodeAndKey>, key: Key, value: int,
                              o: int, out: nat)
    requires TopOk(nodes, stack) && |stack| >= 2
  {
    var t, big := |stack| - 1, Enlarged(nodes, stack, key, value);
    var x, p, i := stack[t].offset, stack[t - 1].offset, stack[t - 1].index;
    && TakesSplit(nodes[x], out) && p in nodes
    && SplitPre(big, info, root, x, o, p, i, out)
    && var nodes' := SplitTop(nodes, stack, key, value, o, out);
       && TopOk(nodes', stack[..t])
       && Enlarged(nodes', stack[..t], Separator(big[x], out), o) == Split(big, x, o, p, i, out)
  }

  /** After the split the parent is to take the separator and the new node. */
  lemma {:induction false} SplitTopIsSplit(nodes: Nodes, info: Infos, root: int, stack: seq<NodeAndKey>, key: Key, value: int,
                                           contents: map<int, int>, o: int, out: nat)
    requires Inserting(nodes, info, root, stack, key, value, contents) && |stack| >= 2
    requires o !in nodes && o != NULL && SplitsTop(nodes, stack, key, out)
    ensures SplitAgrees(nodes, info, root, stack, key, value, o, out)
  {
    hide NodeOk, Parts, Lookup, SplitsTop;
    TopParts(nodes, info, root, stack, key, value, contents, o, out);
    SplitTopReady(nodes, info, root, stack, key, value, contents, o, out);
    var t, big := |stack| - 1, Enlarged(nodes, stack, key, value);
    var x, p, i := stack[t].offset, stack[t - 1].offset, stack[t - 1].index;
    Apart(big, info, root, x, o, p, i, out);
    PartsOfEnlarged(nodes, x, big[x], o, out, p);
    assert big[p] == nodes[p];
    assert stack[..t][t - 1] == stack[t - 1];
  }

  /** The state of the loop when the parent's turn has come. */
  ghost predicate InsertingParent(nodes: Nodes, info: Infos, root: int, stack: seq<NodeAndKey>, key: Key, value: int,
                                  contents: map<int, int>, o: int, out: nat)
  {
    && TopOk(nodes, stack) && |stack| >= 2
    && var t, big := |stack| - 1, Enlarged(nodes, stack, key, value);
       var x := stack[t].offset;
       && TakesSplit(nodes[x], out) && x in info
       && Inserting(SplitTop(nodes, stack, key, value, o, out), SplitInfo(big, info, x, o, out), root,
                    stack[..t], Separator(big[x], out), o, contents)
  }

  /** One round of the loop that splits a node below the root. */
  lemma {:induction false} InsertingSplit(nodes: Nodes, info: Infos, root: int, stack: seq<NodeAndKey>, key: Key, value: int,
                                          contents: map<int, int>, o: int, out: nat)
    requires Inserting(nodes, info, root, stack, key, value, contents) && |stack| >= 2
    requires o !in nodes && o != NULL
    requires SplitsTop(nodes, stack, key, out)
    ensures InsertingParent(nodes, info, root, stack, key, value, contents, o, out)
  {
    hide NodeOk, Lookup, IsSplitPoint, Path, Fits, Parts, Split, SplitInfo, LeftPart, RightPart;
    var t, big := |stack| - 1, Enlarged(nodes, stack, key, value);
    var x, p, i := stack[t].offset, stack[t - 1].offset, stack[t - 1].index;
    assert TopOk(nodes, stack);
    TopParts(nodes, info, root, stack, key, value, contents, o, out);
    SplitTopIsSplit(nodes, info, root, stack, key, value, contents, o, out);
    HoldsSplit(big, info, root, contents, x, o, p, i, out);
    SplitKeepsPath(big, info, root, stack, o, out);
    AllFitParts(nodes, x, big[x], o, out);
  }

  // ---------- the last round ----------

  /** The store after the root was split and a new root was put above the parts. */
  function SplitRoot(nodes: Nodes, stack: seq<NodeAndKey>, key: Key, value: int, newRoot: int, o: int, out: nat): Nodes
    requires TopOk(nodes, stack) && TakesSplit(nodes[stack[|stack| - 1].offset], out)
  {
    var x := stack[|stack| - 1].offset;
    SplitTop(nodes, stack, key, value, o, out)
      [newRoot := InsertKey(RootNode(x), 0, Separator(Enlarged(nodes, stack, key, value)[x], out), o)]
  }

  ghost predicate RootReplaced(nodes: Nodes, info: Infos, root: int, stack: seq<NodeAndKey>, key: Key, value: int,
                               contents: map<int, int>, newRoot: int, o: int, out: nat)
  {
    && TopOk(nodes, stack) && root in info && stack[|stack| - 1].offset == root
    && TakesSplit(nodes[root], out)
    && newRoot != root
    && var big := Enlarged(nodes, stack, key, value)[newRoot := RootNode(root)];
       var nodes' := SplitRoot(nodes, stack, key, value, newRoot, o, out);
       && Holds(nodes', SplitInfo(big, InfoUnderRoot(info, root, newRoot), root, o, out), newRoot, contents)
       && AllFit(nodes')
  }

  lemma {:induction false} RootReady(nodes: Nodes, info: Infos, root: int, newRoot: int, o: int, out: nat)
    requires root in nodes && root in info
    requires TreeOk(nodes[newRoot := RootNode(root)], InfoUnderRoot(info, root, newRoot), newRoot)
    requires newRoot !in nodes && o !in nodes && o != newRoot && o != NULL
    requires nodes[root].Valid() && CanSplit(nodes[root], out) && info[root].Inside(Separator(nodes[root], out).order)
    ensures SplitPre(nodes[newRoot := RootNode(root)], InfoUnderRoot(info, root, newRoot), newRoot,
                     root, o, newRoot, 0, out)
  {
    hide NodeOk;
  }

  lemma {:induction false} SplitRootIsSplit(nodes: Nodes, stack: seq<NodeAndKey>, key: Key, value: int, newRoot: int, o: int, out: nat)
    requires TopOk(nodes, stack) && TakesSplit(nodes[stack[|stack| - 1].offset], out)
    requires newRoot !in nodes && o !in nodes && newRoot != o
    requires nodes[stack[|stack| - 1].offset].left !in nodes && nodes[stack[|stack| - 1].offset].left != newRoot
    ensures var x := stack[|stack| - 1].offset;
            Split(Enlarged(nodes, stack, key, value)[newRoot := RootNode(x)], x, o, newRoot, 0, out)
              == SplitRoot(nodes, stack, key, value, newRoot, o, out)
  {
    hide LeftPart, RightPart;
    var x, big := stack[|stack| - 1].offset, Enlarged(nodes, stack, key, value);
    var wide := big[newRoot := RootNode(x)];
    assert wide[x] == big[x] && wide[newRoot] == RootNode(x);
    assert Split(wide, x, o, newRoot, 0, out).Keys == SplitRoot(nodes, stack, key, value, newRoot, o, out).Keys;
  }

  lemma {:induction false} InsertingNewRoot(nodes: Nodes, info: Infos, root: int, stack: seq<NodeAndKey>, key: Key, value: int,
                                            contents: map<int, int>, newRoot: int, o: int, out: nat)
    requires Inserting(nodes, info, root, stack, key, value, contents) && stack[|stack| - 1].offset == root
    requires newRoot !in nodes && newRoot != NULL && o !in nodes && o != NULL && newRoot != o
    requires SplitsTop(nodes, stack, key, out)
    ensures RootReplaced(nodes, info, root, stack, key, value, contents, newRoot, o, out)
  {
    hide Lookup, Path, Fits, Parts, Split, SplitInfo, LeftPart, RightPart, InfoUnderRoot, IsSplitPoint;
    var t, big := |stack| - 1, Enlarged(nodes, stack, key, value);
    assert nodes[root].left == NULL && NULL !in nodes by {
      Ok(big, info, root, root);
    }
    TopParts(nodes, info, root, stack, key, value, contents, o, out);
    HoldsNewRoot(big, info, root, contents, newRoot);
    RootReady(big, info, root, newRoot, o, out);
    HoldsSplit(big[newRoot := RootNode(root)], InfoUnderRoot(info, root, newRoot), newRoot, contents, root, o, newRoot, 0, out);
    SplitRootIsSplit(nodes, stack, key, value, newRoot, o, out);
    AllFitParts(nodes, root, big[root], o, out);
    RootFits(root, Separator(big[root], out), o);
  }

  lemma {:induction false} RootFits(x: int, key: Key, o: int)
    requires MIN_KEY_LENGTH <= key.length <= MAX_KEY_LENGTH
    ensures Fits(InsertKey(RootNode(x), 0, key, o))
  {
    BytesInsert([], 0, key);
  }
}
