/** Walking through the leaves of a tree that does not change. */
module TreeIteration {
  import opened Options
  import opened TreeNode
  import opened TreeShape
  import opened TreeInsert
  import opened BTree

  /** `k` comes behind the bound. */
  predicate Behind(bound: Bound, k: int) {
    bound.None? || bound.value < k
  }

  /** The leaves to the right of `x`. */
  ghost function RightOf(info: Infos, x: int): set<int>
    requires x in info
  {
    set y | y in info && info[x].hi.Some? && info[y].lo.Some? && info[x].hi.value <= info[y].lo.value
  }

  /** The next leaf takes up where this one ends. */
  lemma {:induction false} RightNeighbour(nodes: Nodes, info: Infos, root: int, x: int)
    requires TreeOk(nodes, info, root) && x in nodes && info[x].level == 0 && nodes[x].right != NULL
    ensures var r := nodes[x].right;
            && r in nodes && info[r].level == 0 && info[x].hi.Some? && info[r].lo == info[x].hi
            && RightOf(info, r) < RightOf(info, x)
  {
    TreeShape.Ok(nodes, info, root, x);
    var r := nodes[x].right;
    TreeShape.Ok(nodes, info, root, r);
    assert r in RightOf(info, x) && r !in RightOf(info, r);
  }

  /** The leaf behind one that is to the right is to the right as well. */
  lemma {:induction false} FurtherRight(nodes: Nodes, info: Infos, root: int, contents: map<int, int>, x: int, y: int)
    requires Holds(nodes, info, root, contents) && x in nodes && y in nodes && y in info && info[y].level == 0
    requires (x == y || y in RightOf(info, x)) && nodes[y].right != NULL
    ensures var r := nodes[y].right;
            r in nodes && r in info && info[r].level == 0 && r in RightOf(info, x) && RightOf(info, r) < RightOf(info, y)
  {
    hide Lookup;
    RightNeighbour(nodes, info, root, y);
    TreeShape.Ok(nodes, info, root, y);
  }

  lemma {:induction false} LastLeaf(nodes: Nodes, info: Infos, root: int, x: int)
    requires TreeOk(nodes, info, root) && x in nodes && nodes[x].right == NULL
    ensures info[x].hi.None?
  {
    TreeShape.Ok(nodes, info, root, x);
  }

  /** All keys behind `bound` stand at index `i` of leaf `x` or later. */
  ghost predicate Ahead(nodes: Nodes, info: Infos, contents: map<int, int>, bound: Bound, x: int, i: nat)
    requires x in nodes && x in info
  {
    && (forall k :: k in contents && Behind(bound, k) ==> Behind(info[x].lo, k))
    && (forall k :: k in contents && Behind(bound, k) && info[x].Covers(k) ==> Position(nodes[x].keys, k) >= i)
    && (forall j :: i <= j < |nodes[x].keys| ==> Behind(bound, nodes[x].keys[j].order))
  }

  /** A leaf that is used up is left for its right neighbour. */
  lemma {:induction false} MoveRight(nodes: Nodes, info: Infos, root: int, contents: map<int, int>, bound: Bound, x: int, i: nat)
    requires Holds(nodes, info, root, contents) && x in nodes && info[x].level == 0
    requires Ahead(nodes, info, contents, bound, x, i) && i >= |nodes[x].keys|
    requires bound.Some? && info[x].hi.Some? ==> bound.value <= info[x].hi.value
    ensures forall k :: k in contents && Behind(bound, k) ==> !info[x].Covers(k)
    ensures nodes[x].right == NULL ==> forall k :: k in contents ==> !Behind(bound, k)
    ensures nodes[x].right != NULL ==>
              var r := nodes[x].right;
              && r in nodes && info[r].level == 0 && RightOf(info, r) < RightOf(info, x)
              && Ahead(nodes, info, contents, bound, r, 0)
              && (bound.Some? && info[r].hi.Some? ==> bound.value <= info[r].hi.value)
  {
    forall k | k in contents && Behind(bound, k)
      ensures !info[x].Covers(k)
    {
      if info[x].Covers(k) {
        AtLeaf(nodes, info, root, contents, x, k);
      }
    }
    if nodes[x].right == NULL {
      LastLeaf(nodes, info, root, x);
    } else {
      var r := nodes[x].right;
      RightNeighbour(nodes, info, root, x);
      TreeShape.Ok(nodes, info, root, r);
      TreeShape.Ok(nodes, info, root, x);
    }
  }

  lemma {:induction false} NothingAhead(nodes: Nodes, info: Infos, contents: map<int, int>, bound: Bound, x: int, i: nat)
    requires x in nodes && x in info && forall k :: k in contents ==> !Behind(bound, k)
    ensures i >= |nodes[x].keys| ==> Ahead(nodes, info, contents, bound, x, i)
  {
  }

  lemma {:induction false} PastKey(nodes: Nodes, info: Infos, contents: map<int, int>, bound: Bound, x: int, i: nat)
    requires x in nodes && x in info && Ahead(nodes, info, contents, bound, x, i) && i < |nodes[x].keys|
    requires KeysOk(nodes[x], info[x]) && info[x].level == 0
    ensures Ahead(nodes, info, contents, Some(nodes[x].keys[i].order), x, i + 1)
  {
    var keys := nodes[x].keys;
    assert info[x].Covers(keys[i].order);
  }

  /** The key at hand is the smallest one behind the bound. */
  lemma {:induction false} AtHand(nodes: Nodes, info: Infos, root: int, contents: map<int, int>, bound: Bound, x: int, i: nat)
    requires Holds(nodes, info, root, contents) && x in nodes && info[x].level == 0
    requires Ahead(nodes, info, contents, bound, x, i) && i < |nodes[x].keys|
    ensures nodes[x].Valid()
    ensures var k := nodes[x].keys[i].order;
            && k in contents && contents[k] == nodes[x].values[i] && Behind(bound, k)
            && (forall k' :: k' in contents && Behind(bound, k') ==> k <= k')
            && Ahead(nodes, info, contents, Some(k), x, i + 1)
            && (info[x].hi.Some? ==> k <= info[x].hi.value)
  {
    hide Lookup, ChildrenOk, ParentOk, LinksOk;
    TreeShape.Ok(nodes, info, root, x);
    var keys := nodes[x].keys;
    var k := keys[i].order;
    assert info[x].Covers(k);
    PositionUnique(keys, k, i);
    AtLeaf(nodes, info, root, contents, x, k);
    PastKey(nodes, info, contents, bound, x, i);
    forall k' | k' in contents && Behind(bound, k')
      ensures k <= k'
    {
      if info[x].Covers(k') {
        AtLeaf(nodes, info, root, contents, x, k');
        assert Position(keys, k') >= i;
      }
    }
  }

  /** The fields of an iterator that say where among the values of a key it is: the link, the
      next value, how many there are, and whether they are in a slot. */
  datatype Spot = Spot(node: int, next: nat, count: nat, isFragment: bool)

  class TreeIterator {
    const tree: Tree
    var currentNode: int
    var currentKey: int
    ghost var last: Bound      // the key returned last

    constructor (tree: Tree)
      requires tree.Valid()
      ensures this.tree == tree && currentNode == NULL
    {
      this.tree := tree;
      currentNode, currentKey, last := NULL, 0, None;
    }

    /** The iterator is at a leaf. */
    ghost predicate Placed()
      reads this, tree
    {
      && tree.Valid()
      && currentNode in tree.nodes && currentNode in tree.info && tree.info[currentNode].level == 0
      && currentKey >= -1
    }

    /** All keys behind the last one returned are still ahead. */
    ghost predicate Valid()
      reads this, tree
    {
      && Placed()
      && Ahead(tree.nodes, tree.info, tree.contents, last, currentNode, currentKey + 1)
      && (last.Some? && tree.info[currentNode].hi.Some? ==> last.value <= tree.info[currentNode].hi.value)
    }

    /** The leaf has a key behind the current one. */
    predicate HasNextKey()
      requires currentNode in tree.nodes
      reads this, tree
    {
      currentKey + 1 < |tree.nodes[currentNode].keys|
    }

    /** Goto(BPLUSTREE_BEGIN): the first leaf, in front of its first key. */
    method Rewind()
      requires tree.Valid()
      modifies this
      ensures Valid() && last.None? && currentKey == -1
    {
      var nodes := tree.nodes;
      ghost var info := tree.info;
      NodeFacts(nodes, info, tree.root, tree.root);
      var x := tree.root;
      while !nodes[x].IsLeaf()
        invariant x in nodes && x in info && info[x].lo.None?
        decreases info[x].level
      {
        NodeFacts(nodes, info, tree.root, x);
        TreeShape.Ok(nodes, info, tree.root, x);
        assert ChildOk(nodes, info, x, 0);
        x := if |nodes[x].keys| == 0 then nodes[x].overflow else nodes[x].values[0];
      }
      NodeFacts(nodes, info, tree.root, x);
      currentNode, currentKey, last := x, -1, None;
    }

    /** The next key with the word that stands in the leaf for it.  At the end the iterator goes back to the leaf it was at, but counts
        the keys of the last leaf; a further call stays at the end exactly if the leaf is
        the last one or has no second key, and otherwise returns that key again. */
    method NextKey() returns (found: bool, key: int, value: int)
      requires Placed()
      modifies this
      ensures Placed()
      ensures old(Valid()) && found ==> Valid() && last == Some(key)
      ensures old(Valid()) && found ==> key in tree.contents && value == tree.contents[key] && Behind(old(last), key)
      ensures old(Valid()) && found ==> forall k :: k in tree.contents && Behind(old(last), k) ==> key <= k
      ensures old(Valid()) && !found ==> forall k :: k in tree.contents ==> !Behind(old(last), k)
      ensures old(HasNextKey()) ==>
                var n, i := tree.nodes[old(currentNode)], old(currentKey) + 1;
                found && n.Valid() && key == n.keys[i].order && value == n.values[i]
      ensures !found ==> currentNode == old(currentNode) && last == old(last)
      ensures !found ==> (HasNextKey() <==> tree.nodes[currentNode].right != NULL && |tree.nodes[currentNode].keys| > 1)
      ensures old(Valid()) && !found && !HasNextKey() ==> Valid()
    {
      hide Holds, AllFit, StoreOk, NoneLost, Ahead;
      key, value := 0, 0;
      var x, i, moved := NextLeaf();
      if i >= |tree.nodes[x].keys| {
        currentKey := |tree.nodes[x].keys|;
        if old(Valid()) {
          NothingAhead(tree.nodes, tree.info, tree.contents, last, currentNode, currentKey + 1);
        }
        found := false;
        return;
      }
      if old(Valid()) {
        AtHand(tree.nodes, tree.info, tree.root, tree.contents, last, x, i);
      }
      assert tree.nodes[x].Valid() by {
        RootCovers(tree.nodes, tree.info, tree.root, tree.contents, 0);
        NodeFacts(tree.nodes, tree.info, tree.root, x);
      }
      found, key, value := true, tree.nodes[x].keys[i].order, tree.nodes[x].values[i];
      currentNode, currentKey, last := x, i, Some(key);
    }

    /** The loop over leaves that are used up: it ends at the first one that has a key at
        index `i`, or else at the last leaf. */
    method NextLeaf() returns (x: int, i: nat, ghost moved: bool)
      requires Placed()
      ensures x in tree.nodes && x in tree.info && tree.info[x].level == 0
      ensures i >= |tree.nodes[x].keys| ==> tree.nodes[x].right == NULL
      ensures if moved then i == 0 && tree.nodes[currentNode].right != NULL && !HasNextKey()
              else x == currentNode && i == currentKey + 1
      ensures Valid() ==> Ahead(tree.nodes, tree.info, tree.contents, last, x, i)
      ensures Valid() && i >= |tree.nodes[x].keys| ==> forall k :: k in tree.contents ==> !Behind(last, k)
      ensures Valid() && last.Some? && tree.info[x].hi.Some? ==> last.value <= tree.info[x].hi.value
    {
      hide Holds, AllFit, StoreOk, NoneLost, Ahead, RightOf;
      var nodes := tree.nodes;
      ghost var info := tree.info;
      ghost var valid := Valid();
      x, i, moved := currentNode, currentKey + 1, false;
      while i >= |nodes[x].keys|
        invariant x in nodes && x in info && info[x].level == 0
        invariant !moved ==> x == currentNode && i == currentKey + 1
        invariant moved ==> i == 0 && nodes[currentNode].right != NULL && currentKey + 1 >= |nodes[currentNode].keys|
        invariant moved ==> x in RightOf(info, currentNode)
        invariant valid ==> Ahead(nodes, info, tree.contents, last, x, i)
        invariant valid && last.Some? && info[x].hi.Some? ==> last.value <= info[x].hi.value
        decreases RightOf(info, x), i >= |nodes[x].keys|
      {
        if valid {
          MoveRight(nodes, info, tree.root, tree.contents, last, x, i);
        }
        if nodes[x].right == NULL {
          return;
        }
        FurtherRight(nodes, info, tree.root, tree.contents, currentNode, x);
        x, i, moved := nodes[x].right, 0, true;
      }
    }
  }
}
