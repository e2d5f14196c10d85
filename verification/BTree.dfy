/** The B+tree object of an index or directory without duplicates: every operation
agrees with a plain map from keys to values. */
module BTree {
  import opened Options
  import opened TreeNode
  import opened TreeShape
  import opened TreeChange
  import opened TreeSplit
  import opened TreeInsert
  import opened TreeRoom
  import opened Links
  import opened Words

  /** `SplitFails` is no status of the source, which goes on with a damaged tree. */
  datatype Status = Ok | BadValue | EntryNotFound | NameInUse | SplitFails

  predicate LengthOk(key: Key) {
    MIN_KEY_LENGTH <= key.length <= MAX_KEY_LENGTH
  }

  /** The step of a search from an index node to the child it leads to. */
  lemma {:induction false} DownStep(nodes: Nodes, info: Infos, root: int, x: int, k: int)
    requires TreeOk(nodes, info, root) && x in nodes && info[x].Covers(k)
    requires nodes[x].Valid() && !nodes[x].IsLeaf()
    ensures var c := nodes[x].Child(Position(nodes[x].keys, k));
            && c in nodes && info[c].Covers(k) && c != x && info[c].level < info[x].level
            && Leaf(nodes, info, root, x, k) == Leaf(nodes, info, root, c, k)
  {
    TreeShape.Ok(nodes, info, root, x);
    assert ChildOk(nodes, info, x, Position(nodes[x].keys, k));
  }

  lemma {:induction false} NodeFacts(nodes: Nodes, info: Infos, root: int, x: int)
    requires TreeOk(nodes, info, root) && x in nodes
    ensures x in info && nodes[x].Valid() && Sorted(nodes[x].keys) && (nodes[x].IsLeaf() <==> info[x].level == 0)
    ensures root in nodes && root in info && info[root].lo.None? && info[root].hi.None? && nodes.Keys == info.Keys
  {
    TreeShape.Ok(nodes, info, root, x);
  }

  /** What the leaf for `k` says is what the tree holds. */
  lemma {:induction false} AtLeaf(nodes: Nodes, info: Infos, root: int, contents: map<int, int>, y: int, k: int)
    requires Holds(nodes, info, root, contents) && y in nodes && info[y].Covers(k) && info[y].level == 0
    ensures nodes[y].Valid() && Sorted(nodes[y].keys) && nodes[y].IsLeaf()
    ensures Has(nodes[y].keys, k) <==> k in contents
    ensures k in contents ==> nodes[y].values[Position(nodes[y].keys, k)] == contents[k]
  {
    NodeFacts(nodes, info, root, y);
    LookupInLeaf(nodes, info, root, y, k);
    assert Lookup(nodes, info, root, k) == Entry(contents, k);
  }

  lemma {:induction false} RootCovers(nodes: Nodes, info: Infos, root: int, contents: map<int, int>, k: int)
    requires Holds(nodes, info, root, contents)
    ensures TreeOk(nodes, info, root) && root in nodes && info[root].Covers(k)
  {
    NodeFacts(nodes, info, root, root);
  }

  predicate Inside(x: int, maximumSize: int) {
    0 < x < maximumSize && x % NODE_SIZE == 0
  }

  /** The nodes of the tree and those for duplicates lie inside the stream and none of
      them is on the free list. */
  ghost predicate StoreOk(nodes: Nodes, duplicates: set<int>, freeNodes: seq<int>, maximumSize: int) {
    && 0 < maximumSize && maximumSize % NODE_SIZE == 0
    && (forall x :: x in nodes ==> Inside(x, maximumSize) && x !in freeNodes && x !in duplicates)
    && (forall x :: x in duplicates ==> Inside(x, maximumSize) && x !in freeNodes)
    && (forall i :: 0 <= i < |freeNodes| ==> Inside(freeNodes[i], maximumSize))
    && (forall i, j :: 0 <= i < j < |freeNodes| ==> freeNodes[i] != freeNodes[j])
  }

  /** No place in the stream is lost: it is taken or on the free list. */
  ghost predicate NoneLost(taken: set<int>, freeNodes: seq<int>, maximumSize: int) {
    forall x :: Inside(x, maximumSize) ==> x in taken || x in freeNodes
  }

  /** What an allocation leaves, and the place it gives. */
  ghost predicate Allocates(freeNodes: seq<int>, maximumSize: int, freeNodes': seq<int>, maximumSize': int, offset: int) {
    if freeNodes == [] then offset == maximumSize && freeNodes' == [] && maximumSize' == maximumSize + NODE_SIZE
    else offset == freeNodes[0] && freeNodes' == freeNodes[1..] && maximumSize' == maximumSize
  }

  lemma {:induction false} NoneLostMore(taken: set<int>, freeNodes: seq<int>, maximumSize: int,
                                        freeNodes': seq<int>, maximumSize': int, offset: int)
    requires NoneLost(taken, freeNodes, maximumSize) && maximumSize % NODE_SIZE == 0
    requires Allocates(freeNodes, maximumSize, freeNodes', maximumSize', offset)
    ensures NoneLost(taken + {offset}, freeNodes', maximumSize')
  {
    forall x | Inside(x, maximumSize')
      ensures x in taken + {offset} || x in freeNodes'
    {
      if x >= maximumSize {
        assert x == maximumSize;
      } else {
        assert Inside(x, maximumSize);
      }
    }
  }

  lemma {:induction false} NoneLostSame(taken: set<int>, taken': set<int>, freeNodes: seq<int>, maximumSize: int)
    requires NoneLost(taken, freeNodes, maximumSize) && taken <= taken'
    ensures NoneLost(taken', freeNodes, maximumSize)
  {
  }

  lemma {:induction false} NoneLostLess(taken: set<int>, freeNodes: seq<int>, maximumSize: int, offset: int)
    requires NoneLost(taken + {offset}, freeNodes, maximumSize)
    ensures NoneLost(taken, [offset] + freeNodes, maximumSize)
    ensures offset == maximumSize - NODE_SIZE ==> NoneLost(taken, freeNodes, offset)
  {
    forall x | Inside(x, maximumSize)
      ensures x in taken || x in [offset] + freeNodes
    {
    }
    if offset == maximumSize - NODE_SIZE {
      forall x | Inside(x, offset)
        ensures x in taken || x in freeNodes
      {
        assert Inside(x, maximumSize);
      }
    }
  }

  lemma {:induction false} SplitKeys(nodes: Nodes, stack: seq<NodeAndKey>, key: Key, value: int, newRoot: int, o: int, out: nat)
    requires TopOk(nodes, stack) && TakesSplit(nodes[stack[|stack| - 1].offset], out)
    ensures SplitTop(nodes, stack, key, value, o, out).Keys == nodes.Keys + {o}
    ensures SplitRoot(nodes, stack, key, value, newRoot, o, out).Keys == nodes.Keys + {o, newRoot}
  {
    hide LeftPart, RightPart, InsertKey;
  }

  lemma {:induction false} BelowRoot(nodes: Nodes, info: Infos, root: int, stack: seq<NodeAndKey>, key: Key, value: int,
                                     contents: map<int, int>)
    requires Inserting(nodes, info, root, stack, key, value, contents) && stack[|stack| - 1].offset != root
    ensures |stack| >= 2
  {
    hide Holds;
  }

  lemma {:induction false} StoreSameKeys(nodes: Nodes, nodes': Nodes, duplicates: set<int>, freeNodes: seq<int>, maximumSize: int)
    requires StoreOk(nodes, duplicates, freeNodes, maximumSize) && nodes'.Keys == nodes.Keys
    ensures StoreOk(nodes', duplicates, freeNodes, maximumSize)
  {
    assert forall x :: x in nodes' ==> x in nodes;
  }

  lemma {:induction false} AloneAtRoot(nodes: Nodes, info: Infos, root: int, stack: seq<NodeAndKey>, key: Key, value: int,
                                       contents: map<int, int>)
    requires Inserting(nodes, info, root, stack, key, value, contents) && stack[|stack| - 1].offset == root
    ensures |stack| == 1
  {
    if |stack| > 1 {
      PathDistinct(Enlarged(nodes, stack, key, value), info, root, stack, 0, |stack| - 1);
    }
  }

  /** How far an insertion has come. */
  datatype Progress = More | Done | Failed

  /** The tree in front of an operation. */
  datatype Snapshot = Snapshot(nodes: Nodes, info: Infos, root: int)

  // ---------- the plain map ----------

  datatype Operation =
    | Insertion(key: Key, value: int)
    | Removal(key: Key)
    | Replacement(key: Key, value: int)
    | Search(key: Key)

  /** What an operation returns; `value` counts for a successful search only. */
  datatype Outcome = Outcome(status: Status, value: int)

  function MapAfter(m: map<int, int>, op: Operation): map<int, int> {
    if !LengthOk(op.key) then m
    else match op
      case Insertion(key, value) => if key.order in m then m else m[key.order := value]
      case Removal(key) => if key.order in m && IsDuplicate(m[key.order]) then m else m - {key.order}
      case Replacement(key, value) => if key.order in m then m[key.order := value] else m
      case Search(_) => m
  }

  function MapOutcome(m: map<int, int>, op: Operation): Outcome {
    if !LengthOk(op.key) then Outcome(BadValue, 0)
    else match op
      case Insertion(key, _) => Outcome(if key.order in m then NameInUse else Ok, 0)
      case Search(key) => if key.order in m then Outcome(Ok, m[key.order]) else Outcome(EntryNotFound, 0)
      case Removal(key) =>
        Outcome(if key.order !in m then EntryNotFound else if IsDuplicate(m[key.order]) then NameInUse else Ok, 0)
      case Replacement(key, _) => Outcome(if key.order in m then Ok else EntryNotFound, 0)
  }

  /** A key can be removed again exactly if its value is from 0 up to 2^62. */
  lemma {:induction false} RemovalAfterInsertion(m: map<int, int>, key: Key, value: int)
    requires LengthOk(key) && key.order !in m && IsWord(value)
    ensures MapAfter(MapAfter(m, Insertion(key, value)), Removal(key)) == m <==> 0 <= value < TYPE_UNIT
    ensures !(0 <= value < TYPE_UNIT) ==> MapOutcome(MapAfter(m, Insertion(key, value)), Removal(key)) == Outcome(NameInUse, 0)
  {
    hide IsDuplicate;
    PlainValues(value);
    var m' := MapAfter(m, Insertion(key, value));
    assert m' - {key.order} == m;
    assert key.order in m' && key.order !in m;
  }

  /** A value of 2^62 keeps its key in the tree. */
  lemma {:induction false} LinkedValueStays(key: Key)
    requires LengthOk(key)
    ensures MapRun(map[], [Insertion(key, TYPE_UNIT), Removal(key)]) == map[key.order := TYPE_UNIT]
    ensures MapOutcomes(map[], [Insertion(key, TYPE_UNIT), Removal(key)]) == [Outcome(Ok, 0), Outcome(NameInUse, 0)]
  {
    hide IsDuplicate;
    PlainValues(TYPE_UNIT);
    var ops := [Insertion(key, TYPE_UNIT), Removal(key)];
    assert ops[..1] == [Insertion(key, TYPE_UNIT)] && ops[..1][..0] == [];
    assert MapRun(map[], ops[..1]) == map[key.order := TYPE_UNIT];
  }

  /** An insertion of a new key for which a node cannot be split. */
  ghost predicate Breaks(nodes: Nodes, info: Infos, root: int, contents: map<int, int>, op: Operation) {
    op.Insertion? && LengthOk(op.key) && op.key.order !in contents && Overruns(nodes, info, root, op.key)
  }

  /** A key of at most 248 bytes, or one that is refused. */
  predicate IsShort(key: Key) {
    key.length <= SHORT_KEY || key.length > MAX_KEY_LENGTH
  }

  function MapRun(m: map<int, int>, ops: seq<Operation>): map<int, int> {
    if ops == [] then m else MapAfter(MapRun(m, ops[..|ops| - 1]), ops[|ops| - 1])
  }

  function MapOutcomes(m: map<int, int>, ops: seq<Operation>): (r: seq<Outcome>)
    ensures |r| == |ops|
  {
    if ops == [] then []
    else MapOutcomes(m, ops[..|ops| - 1]) + [MapOutcome(MapRun(m, ops[..|ops| - 1]), ops[|ops| - 1])]
  }

  class Tree {
    var root: int
    var nodes: Nodes
    var duplicates: map<int, seq<int>>    // the nodes for duplicates, word by word
    var freeNodes: seq<int>
    var maximumSize: int
    ghost var info: Infos
    ghost var contents: map<int, int>

    ghost predicate Valid()
      reads this
    {
      && Holds(nodes, info, root, contents) && AllFit(nodes) && StoreOk(nodes, duplicates.Keys, freeNodes, maximumSize)
      && NoneLost(nodes.Keys + duplicates.Keys, freeNodes, maximumSize)
    }

    /** An empty tree: the header and one empty leaf. */
    constructor ()
      ensures Valid() && contents == map[] && duplicates == map[]
    {
      root := NODE_SIZE;
      nodes := map[NODE_SIZE := EMPTY_NODE];
      duplicates := map[];
      freeNodes := [];
      maximumSize := 2 * NODE_SIZE;
      info := map[NODE_SIZE := Info(None, None, 0, NULL)];
      contents := map[];
      new;
      assert forall x :: Inside(x, 2 * NODE_SIZE) ==> x == NODE_SIZE;
      assert NodeOk(nodes, info, root, root);
      assert TreeOk(nodes, info, root);
      forall k | true
        ensures Lookup(nodes, info, root, k) == Entry(contents, k)
      {
        LookupInLeaf(nodes, info, root, root, k);
      }
    }

    /** CachedNode::Allocate: a node from the free list, or one behind the last. */
    method Allocate(ghost taken: set<int>) returns (offset: int)
      requires StoreOk(nodes, duplicates.Keys, freeNodes, maximumSize) && NoneLost(taken, freeNodes, maximumSize)
      modifies this`freeNodes, this`maximumSize
      ensures StoreOk(nodes, duplicates.Keys, freeNodes, maximumSize) && maximumSize >= old(maximumSize)
      ensures Inside(offset, maximumSize) && offset !in nodes && offset !in duplicates && offset !in freeNodes
      ensures Allocates(old(freeNodes), old(maximumSize), freeNodes, maximumSize, offset)
      ensures NoneLost(taken + {offset}, freeNodes, maximumSize)
    {
      hide NoneLost;
      if |freeNodes| > 0 {
        offset := freeNodes[0];
        freeNodes := freeNodes[1..];
      } else {
        offset := maximumSize;
        maximumSize := maximumSize + NODE_SIZE;
      }
      NoneLostMore(taken, old(freeNodes), old(maximumSize), freeNodes, maximumSize, offset);
    }

    /** A new node for duplicates. */
    method NewDuplicateNode(words: seq<int>) returns (offset: int)
      requires Valid()
      modifies this`freeNodes, this`maximumSize, this`duplicates
      ensures Valid() && offset !in old(duplicates) && duplicates == old(duplicates)[offset := words]
      ensures 0 < offset <= old(maximumSize) && offset % NODE_SIZE == 0
    {
      hide Holds, AllFit;
      offset := Allocate(nodes.Keys + duplicates.Keys);
      duplicates := duplicates[offset := words];
      NoneLostSame(nodes.Keys + old(duplicates).Keys + {offset}, nodes.Keys + duplicates.Keys, freeNodes, maximumSize);
    }

    method SetDuplicateNode(offset: int, words: seq<int>)
      requires Valid() && offset in duplicates
      modifies this`duplicates
      ensures Valid() && duplicates == old(duplicates)[offset := words]
    {
      hide Holds, AllFit, Inside;
      duplicates := duplicates[offset := words];
      assert duplicates.Keys == old(duplicates).Keys;
    }

    /** CachedNode::Free: the last node of the stream is cut off, any other node goes to
        the free list. */
    method FreeDuplicateNode(offset: int)
      requires Valid() && offset in duplicates
      modifies this`freeNodes, this`maximumSize, this`duplicates
      ensures Valid() && duplicates == old(duplicates) - {offset}
      ensures maximumSize <= old(maximumSize)
    {
      hide Holds, AllFit, NoneLost;
      assert nodes.Keys + duplicates.Keys == nodes.Keys + (duplicates - {offset}).Keys + {offset};
      NoneLostLess(nodes.Keys + (duplicates - {offset}).Keys, freeNodes, maximumSize, offset);
      if offset == maximumSize - NODE_SIZE {
        maximumSize := offset;
      } else {
        freeNodes := [offset] + freeNodes;
      }
      duplicates := duplicates - {offset};
    }

    /** Follows a key from the root to the leaf that could hold it. */
    method Descend(k: int) returns (y: int)
      requires Valid()
      ensures y in nodes && y in info && info[y].Covers(k) && info[y].level == 0
    {
      hide Lookup, AllFit;
      NodeFacts(nodes, info, root, root);
      y := root;
      while !nodes[y].IsLeaf()
        invariant y in nodes && y in info && info[y].Covers(k)
        decreases info[y].level
      {
        NodeFacts(nodes, info, root, y);
        DownStep(nodes, info, root, y, k);
        var _, _, next := FindKey(nodes[y], k);
        y := next;
      }
      NodeFacts(nodes, info, root, y);
    }

    /** Looks a key up. */
    method Find(key: Key) returns (status: Status, value: int)
      requires Valid()
      ensures status == BadValue <==> !LengthOk(key)
      ensures status == Ok <==> LengthOk(key) && key.order in contents
      ensures status == Ok ==> value == contents[key.order]
      ensures status == Ok || status == BadValue || status == EntryNotFound
    {
      value := 0;
      if key.length < MIN_KEY_LENGTH || key.length > MAX_KEY_LENGTH {
        return BadValue, value;
      }
      var y := Descend(key.order);
      AtLeaf(nodes, info, root, contents, y, key.order);
      var found, index, _ := FindKey(nodes[y], key.order);
      if found {
        return Ok, nodes[y].values[index];
      }
      status := EntryNotFound;
    }

    /** Gives a key that is there a new value. */
    method Replace(key: Key, value: int) returns (status: Status)
      requires Valid()
      modifies this`nodes, this`contents
      ensures Valid()
      ensures status == BadValue <==> !LengthOk(key)
      ensures status == EntryNotFound <==> LengthOk(key) && key.order !in old(contents)
      ensures contents == if status == Ok then old(contents)[key.order := value] else old(contents)
      ensures status == Ok || status == BadValue || status == EntryNotFound
      ensures AllShort(old(nodes)) ==> AllShort(nodes)
    {
      hide Holds, Fits;
      if key.length < MIN_KEY_LENGTH || key.length > MAX_KEY_LENGTH {
        return BadValue;
      }
      var y := Descend(key.order);
      AtLeaf(nodes, info, root, contents, y, key.order);
      var found, index, _ := FindKey(nodes[y], key.order);
      if !found {
        return EntryNotFound;
      }
      SetValue(y, index, value);
      status := Ok;
    }

    /** Gives entry `index` of leaf `y` a new value. */
    method SetValue(y: int, index: nat, value: int)
      requires Valid() && y in nodes && y in info && info[y].level == 0 && nodes[y].Valid() && index < |nodes[y].keys|
      modifies this`nodes, this`contents
      ensures Valid() && contents == old(contents)[old(nodes)[y].keys[index].order := value]
      ensures AllShort(old(nodes)) ==> AllShort(nodes)
    {
      hide Holds, Fits;
      HoldsReplace(nodes, info, root, contents, y, index, value);
      ReplaceFits(nodes[y], index, value);
      contents := contents[nodes[y].keys[index].order := value];
      nodes := nodes[y := nodes[y].(values := nodes[y].values[index := value])];
    }

    /** Removes a key, unless its value looks like a link to duplicates; a leaf that loses its last key stays in the tree as an empty leaf. */
    method Remove(key: Key) returns (status: Status)
      requires Valid()
      modifies this`nodes, this`contents
      ensures Valid()
      ensures status == BadValue <==> !LengthOk(key)
      ensures status == EntryNotFound <==> LengthOk(key) && key.order !in old(contents)
      ensures status == NameInUse <==> LengthOk(key) && key.order in old(contents) && IsDuplicate(old(contents)[key.order])
      ensures contents == if status == Ok then old(contents) - {key.order} else old(contents)
      ensures status != SplitFails
      ensures AllShort(old(nodes)) ==> AllShort(nodes)
    {
      hide Holds, Fits, IsDuplicate;
      if key.length < MIN_KEY_LENGTH || key.length > MAX_KEY_LENGTH {
        return BadValue;
      }
      var y := Descend(key.order);
      AtLeaf(nodes, info, root, contents, y, key.order);
      var found, index, _ := FindKey(nodes[y], key.order);
      if !found {
        return EntryNotFound;
      }
      if IsDuplicate(nodes[y].values[index]) {
        return NameInUse;
      }
      HoldsRemove(nodes, info, root, contents, y, index);
      RemoveFits(nodes[y], index);
      var n := nodes[y];
      var n' := if |n.keys| == 1 then n.(overflow := NULL, keys := [], values := []) else RemoveKey(n, index);
      assert n' == RemoveKey(n, index) by {
        hide Holds, AllFit;
      }
      hide RemoveKey;
      nodes := nodes[y := n'];
      contents := contents - {key.order};
      status := Ok;
    }

    static lemma {:induction false} ReplaceFits(n: Node, i: nat, value: int)
      requires n.Valid() && Fits(n) && i < |n.keys|
      ensures Fits(n.(values := n.values[i := value]))
    {
    }

    static lemma {:induction false} RemoveFits(n: Node, i: nat)
      requires n.Valid() && Fits(n) && i < |n.keys|
      ensures Fits(RemoveKey(n, i))
    {
      BytesRemove(n.keys, i);
    }

    /** Follows a key to its leaf and keeps the nodes passed on the way. */
    method SeekDown(k: int) returns (stack: seq<NodeAndKey>)
      requires Valid()
      ensures Path(nodes, root, stack) && stack[|stack| - 1].offset in info
      ensures var y := stack[|stack| - 1].offset; info[y].Covers(k) && info[y].level == 0
      ensures Way(nodes, info, root, root, k) ==
                stack[|stack| - 1 := stack[|stack| - 1].(index := Position(nodes[stack[|stack| - 1].offset].keys, k))]
    {
      hide Lookup, AllFit, Way, NodeOk, Path, StoreOk, Has;
      NodeFacts(nodes, info, root, root);
      PathBegins(nodes, root);
      var x := root;
      stack := [];
      while !nodes[x].IsLeaf()
        invariant x in nodes && x in info && info[x].Covers(k)
        invariant Path(nodes, root, stack + [NodeAndKey(x, 0)])
        invariant Way(nodes, info, root, root, k) == stack + Way(nodes, info, root, x, k)
        decreases info[x].level
      {
        NodeFacts(nodes, info, root, x);
        DownStep(nodes, info, root, x, k);
        var _, index, next := FindKey(nodes[x], k);
        NodeFacts(nodes, info, root, next);
        WayOn(nodes, info, root, x, k);
        ExtendPath(nodes, root, stack, x, index, next);
        stack := stack + [NodeAndKey(x, index)];
        x := next;
      }
      NodeFacts(nodes, info, root, x);
      WayOn(nodes, info, root, x, k);
      stack := stack + [NodeAndKey(x, 0)];
    }

    static lemma {:induction false} PathBegins(nodes: Nodes, root: int)
      requires root in nodes && nodes[root].Valid()
      ensures Path(nodes, root, [] + [NodeAndKey(root, 0)])
    {
    }

    /** The way goes on from one node to the next. */
    static lemma {:induction false} WayOn(nodes: Nodes, info: Infos, root: int, x: int, k: int)
      requires TreeOk(nodes, info, root) && x in nodes && info[x].Covers(k) && nodes[x].Valid()
      ensures var i := Position(nodes[x].keys, k);
              && (nodes[x].IsLeaf() ==> Way(nodes, info, root, x, k) == [NodeAndKey(x, i)])
              && (!nodes[x].IsLeaf() ==>
                    && nodes[x].Child(i) in nodes && info[nodes[x].Child(i)].Covers(k)
                    && Way(nodes, info, root, x, k) == [NodeAndKey(x, i)] + Way(nodes, info, root, nodes[x].Child(i), k))
    {
      if !nodes[x].IsLeaf() {
        DownStep(nodes, info, root, x, k);
      }
    }

    static lemma {:induction false} ExtendPath(nodes: Nodes, root: int, stack: seq<NodeAndKey>, x: int, index: nat, next: int)
      requires Path(nodes, root, stack + [NodeAndKey(x, 0)])
      requires x in nodes && nodes[x].Valid() && !nodes[x].IsLeaf() && IsChild(nodes, x, index, next)
      requires next in nodes && nodes[next].Valid()
      ensures Path(nodes, root, stack + [NodeAndKey(x, index)] + [NodeAndKey(next, 0)])
    {
      var before, after := stack + [NodeAndKey(x, 0)], stack + [NodeAndKey(x, index)] + [NodeAndKey(next, 0)];
      forall j: nat | j < |after|
        ensures after[j].offset in nodes && nodes[after[j].offset].Valid()
      {
        if j < |before| {
          assert after[j].offset == before[j].offset;
        }
      }
      forall j: nat | j + 1 < |after|
        ensures PathStep(nodes, after, j)
      {
        if j + 1 < |before| {
          assert PathStep(nodes, before, j);
        }
      }
    }

    /** The top of the stack with the place for the key. */
    static lemma {:induction false} PathAtIndex(nodes: Nodes, root: int, stack: seq<NodeAndKey>, index: nat)
      requires Path(nodes, root, stack)
      ensures Path(nodes, root, stack[|stack| - 1 := stack[|stack| - 1].(index := index)])
    {
      var after := stack[|stack| - 1 := stack[|stack| - 1].(index := index)];
      forall j: nat | j + 1 < |after|
        ensures PathStep(nodes, after, j)
      {
        assert PathStep(nodes, stack, j);
      }
    }

    /** Inserts a pair; on the way back to the root nodes that are full are split. */
    method Insert(key: Key, value: int) returns (status: Status)
      requires Valid()
      modifies this
      ensures status != SplitFails ==> Valid()
      ensures duplicates == old(duplicates)
      ensures status == BadValue <==> !LengthOk(key)
      ensures status == NameInUse <==> LengthOk(key) && key.order in old(contents)
      ensures status == SplitFails <==>
                LengthOk(key) && key.order !in old(contents) && Overruns(old(nodes), old(info), old(root), key)
      ensures contents == if status == Ok then old(contents)[key.order := value] else old(contents)
      ensures status != EntryNotFound
      ensures AllShort(old(nodes)) && IsShort(key) ==> status != SplitFails && AllShort(nodes)
    {
      hide Holds, AllFit, RoomFor, Way, AllShort;
      if key.length < MIN_KEY_LENGTH || key.length > MAX_KEY_LENGTH {
        return BadValue;
      }
      var stack := SeekDown(key.order);
      var y := stack[|stack| - 1].offset;
      AtLeaf(nodes, info, root, contents, y, key.order);
      var found, index, _ := FindKey(nodes[y], key.order);
      if found {
        return NameInUse;
      }
      PathAtIndex(nodes, root, stack, index);
      stack := stack[|stack| - 1 := stack[|stack| - 1].(index := index)];
      RootCovers(nodes, info, root, contents, key.order);
      assert stack == Way(nodes, info, root, root, key.order);
      InsertingAtLeaf(nodes, info, root, contents, stack, key, value);
      if AllShort(nodes) && key.length <= SHORT_KEY {
        ShortHasRoom(nodes, root, stack, key);
      }
      var entered := Enter(stack, key, value, contents[key.order := value]);
      if !entered {
        return SplitFails;
      }
      contents := contents[key.order := value];
      status := Ok;
    }

    /** The loop of BPlusTree::Insert: the pair goes into the node at the top of the
        stack, or that node is split and its parent gets the separator. */
    method Enter(stack0: seq<NodeAndKey>, key0: Key, value0: int, ghost goal: map<int, int>) returns (entered: bool)
      requires Inserting(nodes, info, root, stack0, key0, value0, goal)
      requires StoreOk(nodes, duplicates.Keys, freeNodes, maximumSize) && NoneLost(nodes.Keys + duplicates.Keys, freeNodes, maximumSize)
      modifies this`root, this`nodes, this`freeNodes, this`maximumSize, this`info
      ensures entered <==> RoomFor(old(nodes), stack0, key0)
      ensures entered ==> Holds(nodes, info, root, goal) && AllFit(nodes)
                          && StoreOk(nodes, duplicates.Keys, freeNodes, maximumSize) && NoneLost(nodes.Keys + duplicates.Keys, freeNodes, maximumSize)
      ensures AllShort(old(nodes)) && key0.length <= SHORT_KEY ==> AllShort(nodes)
    {
      hide Holds, AllFit, RoomFor, AllShort, Inserting, StoreOk, NoneLost;
      var stack, key, value, progress := stack0, key0, value0, More;
      while progress == More
        invariant progress == More ==> Inserting(nodes, info, root, stack, key, value, goal)
        invariant progress == More ==> (RoomFor(nodes, stack, key) <==> RoomFor(old(nodes), stack0, key0))
        invariant progress == Done ==> Holds(nodes, info, root, goal) && AllFit(nodes) && RoomFor(old(nodes), stack0, key0)
        invariant progress == Failed ==> !RoomFor(old(nodes), stack0, key0)
        invariant StoreOk(nodes, duplicates.Keys, freeNodes, maximumSize) && NoneLost(nodes.Keys + duplicates.Keys, freeNodes, maximumSize)
        invariant AllShort(old(nodes)) && key0.length <= SHORT_KEY ==> AllShort(nodes) && key.length <= SHORT_KEY
        decreases progress == More, |stack|
      {
        stack, key, value, progress := EnterOne(stack, key, value, goal);
      }
      entered := progress == Done;
    }

    /** One round of that loop. */
    method EnterOne(stack: seq<NodeAndKey>, key: Key, value: int, ghost goal: map<int, int>)
      returns (stack': seq<NodeAndKey>, key': Key, value': int, progress: Progress)
      requires Inserting(nodes, info, root, stack, key, value, goal)
      requires StoreOk(nodes, duplicates.Keys, freeNodes, maximumSize) && NoneLost(nodes.Keys + duplicates.Keys, freeNodes, maximumSize)
      modifies this`root, this`nodes, this`freeNodes, this`maximumSize, this`info
      ensures StoreOk(nodes, duplicates.Keys, freeNodes, maximumSize) && NoneLost(nodes.Keys + duplicates.Keys, freeNodes, maximumSize)
      ensures progress == Done ==> Holds(nodes, info, root, goal) && AllFit(nodes) && RoomFor(old(nodes), stack, key)
      ensures progress == More ==> |stack'| < |stack| && Inserting(nodes, info, root, stack', key', value', goal)
      ensures progress == More ==> (RoomFor(nodes, stack', key') <==> RoomFor(old(nodes), stack, key))
      ensures progress == Failed ==> !RoomFor(old(nodes), stack, key)
      ensures AllShort(old(nodes)) && key.length <= SHORT_KEY ==> AllShort(nodes) && key'.length <= SHORT_KEY
    {
      hide Holds, Path, Fits, IsSplitPoint, StoreOk, NoneLost, Size, SplitWorks, AllShort, Upper;
      assert TopOk(nodes, stack);
      var top := stack[|stack| - 1];
      var node := nodes[top.offset];
      if Size(Bytes(node.keys) + key.length, |node.keys| + 1) < NODE_SIZE {
        InsertingDone(nodes, info, root, stack, key, value, goal);
        StoreSameKeys(nodes, Enlarged(nodes, stack, key, value), duplicates.Keys, freeNodes, maximumSize);
        if AllShort(nodes) && key.length <= SHORT_KEY {
          EnlargedShort(nodes, stack, key, value);
        }
        nodes := Enlarged(nodes, stack, key, value);
        return [], key, value, Done;
      }
      var out := SplitPoint(node.keys, top.index, key.length);
      if !SplitWorks(node, Upper(nodes, stack), top.index, key, out) {
        NoRoom(nodes, stack, key, out);
        return stack, key, value, Failed;
      }
      hide RoomFor;
      if top.offset == root {
        SplitAtRoot(stack, key, value, out, goal);
        return [], key, value, Done;
      }
      key', value' := SplitBelowRoot(stack, key, value, out, goal);
      stack', progress := stack[..|stack| - 1], More;
    }

    method SplitAtRoot(stack: seq<NodeAndKey>, key: Key, value: int, out: nat, ghost goal: map<int, int>)
      requires Inserting(nodes, info, root, stack, key, value, goal) && StoreOk(nodes, duplicates.Keys, freeNodes, maximumSize) && NoneLost(nodes.Keys + duplicates.Keys, freeNodes, maximumSize)
      requires SplitsTop(nodes, stack, key, out) && stack[|stack| - 1].offset == root
      modifies this`root, this`nodes, this`freeNodes, this`maximumSize, this`info
      ensures Holds(nodes, info, root, goal) && AllFit(nodes) && StoreOk(nodes, duplicates.Keys, freeNodes, maximumSize) && NoneLost(nodes.Keys + duplicates.Keys, freeNodes, maximumSize)
      ensures RoomFor(old(nodes), stack, key)
      ensures AllShort(old(nodes)) && key.length <= SHORT_KEY ==> AllShort(nodes)
    {
      hide Holds, Path, Fits, SplitsTop, RoomFor, SplitRoot, SplitInfo, AllShort, NoneLost;
      ghost var taken := nodes.Keys + duplicates.Keys;
      var newRoot := Allocate(taken);
      var o := Allocate(taken + {newRoot});
      InsertingNewRoot(nodes, info, root, stack, key, value, goal, newRoot, o, out);
      SplitKeys(nodes, stack, key, value, newRoot, o, out);
      AloneAtRoot(nodes, info, root, stack, key, value, goal);
      RoomAtRoot(nodes, stack, key, out);
      if AllShort(nodes) && key.length <= SHORT_KEY {
        SplitTopShort(nodes, stack, key, value, newRoot, o, out);
      }
      ghost var big := Enlarged(nodes, stack, key, value)[newRoot := RootNode(root)];
      info := SplitInfo(big, InfoUnderRoot(info, root, newRoot), root, o, out);
      nodes := SplitRoot(nodes, stack, key, value, newRoot, o, out);
      NoneLostSame(taken + {newRoot} + {o}, nodes.Keys + duplicates.Keys, freeNodes, maximumSize);
      root := newRoot;
    }

    method SplitBelowRoot(stack: seq<NodeAndKey>, key: Key, value: int, out: nat, ghost goal: map<int, int>)
      returns (key': Key, value': int)
      requires Inserting(nodes, info, root, stack, key, value, goal) && StoreOk(nodes, duplicates.Keys, freeNodes, maximumSize) && NoneLost(nodes.Keys + duplicates.Keys, freeNodes, maximumSize)
      requires SplitsTop(nodes, stack, key, out) && stack[|stack| - 1].offset != root
      modifies this`nodes, this`freeNodes, this`maximumSize, this`info
      ensures |stack| >= 2 && StoreOk(nodes, duplicates.Keys, freeNodes, maximumSize) && NoneLost(nodes.Keys + duplicates.Keys, freeNodes, maximumSize)
      ensures Inserting(nodes, info, root, stack[..|stack| - 1], key', value', goal)
      ensures RoomFor(nodes, stack[..|stack| - 1], key') <==> RoomFor(old(nodes), stack, key)
      ensures AllShort(old(nodes)) && key.length <= SHORT_KEY ==> AllShort(nodes) && key'.length <= SHORT_KEY
    {
      hide Holds, Path, Fits, SplitsTop, RoomFor, SplitTop, SplitInfo, AllShort, Separator, NoneLost;
      ghost var taken := nodes.Keys + duplicates.Keys;
      BelowRoot(nodes, info, root, stack, key, value, goal);
      var x := stack[|stack| - 1].offset;
      var o := Allocate(taken);
      InsertingSplit(nodes, info, root, stack, key, value, goal, o, out);
      SplitKeys(nodes, stack, key, value, o, o, out);
      SplitTopAbove(nodes, info, root, stack, key, value, goal, o, out);
      RoomAbove(nodes, stack, key, value, out);
      ghost var big := Enlarged(nodes, stack, key, value);
      key', value' := Separator(Enlarged(nodes, stack, key, value)[x], out), o;
      RoomSame(nodes, SplitTop(nodes, stack, key, value, o, out), stack[..|stack| - 1], key');
      if AllShort(nodes) && key.length <= SHORT_KEY {
        SplitTopShort(nodes, stack, key, value, o, o, out);
      }
      info := SplitInfo(big, info, x, o, out);
      nodes := SplitTop(nodes, stack, key, value, o, out);
      NoneLostSame(taken + {o}, nodes.Keys + duplicates.Keys, freeNodes, maximumSize);
    }

    /** One operation as a caller sees it. */
    method Perform(op: Operation) returns (outcome: Outcome)
      requires Valid()
      modifies this
      ensures duplicates == old(duplicates)
      ensures outcome.status == SplitFails <==> Breaks(old(nodes), old(info), old(root), old(contents), op)
      ensures outcome.status != SplitFails ==>
                Valid() && contents == MapAfter(old(contents), op) && outcome == MapOutcome(old(contents), op)
      ensures outcome.status == SplitFails ==> contents == old(contents)
      ensures AllShort(old(nodes)) && (op.Insertion? ==> IsShort(op.key)) ==>
                outcome.status != SplitFails && AllShort(nodes)
    {
      hide Holds, AllFit, StoreOk, AllShort, Overruns, IsDuplicate;
      match op {
        case Insertion(key, value) =>
          var status := Insert(key, value);
          outcome := Outcome(status, 0);
        case Removal(key) =>
          var status := Remove(key);
          assert status == EntryNotFound && LengthOk(key) ==> contents == old(contents) - {key.order};
          outcome := Outcome(status, 0);
        case Replacement(key, value) =>
          var status := Replace(key, value);
          outcome := Outcome(status, 0);
        case Search(key) =>
          var status, value := Find(key);
          outcome := Outcome(status, if status == Ok then value else 0);
      }
    }

    /** Any run of operations has the results and the effect it has on a plain map.  It
        ends early only in front of an insertion for which a node cannot be split; with
        short keys there is none. */
    method Run(ops: seq<Operation>) returns (outcomes: seq<Outcome>, ghost before: Snapshot)
      requires Valid()
      modifies this
      ensures |outcomes| <= |ops| && duplicates == old(duplicates)
      ensures contents == MapRun(old(contents), ops[..|outcomes|])
      ensures outcomes == MapOutcomes(old(contents), ops[..|outcomes|])
      ensures |outcomes| == |ops| ==> Valid()
      ensures |outcomes| < |ops| ==>
                Holds(before.nodes, before.info, before.root, contents)
                && Breaks(before.nodes, before.info, before.root, contents, ops[|outcomes|])
      ensures AllShort(old(nodes)) && (forall i :: 0 <= i < |ops| && ops[i].Insertion? ==> IsShort(ops[i].key)) ==>
                |outcomes| == |ops|
    {
      hide Holds, AllFit, StoreOk, MapAfter, MapOutcome, AllShort, Breaks, IsShort;
      outcomes := [];
      before := Snapshot(nodes, info, root);
      var i := 0;
      ghost var short := AllShort(nodes) && (forall i :: 0 <= i < |ops| && ops[i].Insertion? ==> IsShort(ops[i].key));
      while i < |ops|
        invariant 0 <= i <= |ops| && Valid() && duplicates == old(duplicates)
        invariant contents == MapRun(old(contents), ops[..i])
        invariant outcomes == MapOutcomes(old(contents), ops[..i])
        invariant short ==> AllShort(nodes)
      {
        assert ops[..i + 1][..i] == ops[..i];
        before := Snapshot(nodes, info, root);
        var outcome := Perform(ops[i]);
        if outcome.status == SplitFails {
          return;
        }
        outcomes := outcomes + [outcome];
        i := i + 1;
      }
      assert ops[..|ops|] == ops;
    }
  }
}
