/** The changes the B+tree makes to its nodes keep its shape. */
module TreeChange {
  import opened Options
  import opened Sequences
  import opened TreeNode
  import opened TreeShape

  // ---------- a change of the keys of one leaf ----------

  lemma {:induction false} LeafChange(nodes: Nodes, info: Infos, root: int, y: int, n: Node)
    requires TreeOk(nodes, info, root) && y in nodes && info[y].level == 0
    requires KeysOk(n, info[y])
    requires n.left == nodes[y].left && n.right == nodes[y].right
    ensures TreeOk(nodes[y := n], info, root)
  {
    var nodes' := nodes[y := n];
    forall x | x in nodes'
      ensures NodeOk(nodes', info, root, x)
    {
      assert NodeOk(nodes, info, root, x);
      if info[x].level > 0 {
        assert forall i: nat :: i <= |nodes[x].keys| && ChildOk(nodes, info, x, i) ==> ChildOk(nodes', info, x, i);
      }
      if x != root {
        var p := info[x].parent;
        var i :| IsChild(nodes, p, i, x);
        assert IsChild(nodes', p, i, x);
      }
    }
  }

  /** After the change a search finds the new keys of the leaf in its range, and what it
      found before elsewhere. */
  lemma {:induction false} LeafChangeLookup(nodes: Nodes, info: Infos, root: int, y: int, n: Node, k: int)
    requires TreeOk(nodes, info, root) && y in nodes && info[y].level == 0
    requires KeysOk(n, info[y])
    requires n.left == nodes[y].left && n.right == nodes[y].right
    ensures TreeOk(nodes[y := n], info, root)
    ensures Lookup(nodes[y := n], info, root, k)
         == if info[y].Covers(k) then Get(n, k) else Lookup(nodes, info, root, k)
  {
    LeafChange(nodes, info, root, y, n);
    if info[y].Covers(k) {
      LookupInLeaf(nodes[y := n], info, root, y, k);
    } else {
      var z := Leaf(nodes, info, root, root, k);
      LookupInLeaf(nodes[y := n], info, root, z, k);
    }
  }

  lemma {:induction false} GetAt(n: Node, i: nat)
    requires n.Valid() && Sorted(n.keys) && i < |n.keys|
    ensures Get(n, n.keys[i].order) == Some(n.values[i])
  {
    PositionUnique(n.keys, n.keys[i].order, i);
  }

  lemma {:induction false} SortedAfterInsert(keys: seq<Key>, key: Key)
    requires Sorted(keys) && !Has(keys, key.order)
    ensures Sorted(Insert(keys, Position(keys, key.order), key))
  {
    var p := Position(keys, key.order);
    var keys' := Insert(keys, p, key);
    assert forall j :: p <= j < |keys| ==> keys[j].order > key.order;
    forall i, j | 0 <= i < j < |keys'|
      ensures keys'[i].order < keys'[j].order
    {
      assert keys'[i] == if i < p then keys[i] else if i == p then key else keys[i - 1];
      assert keys'[j] == if j < p then keys[j] else if j == p then key else keys[j - 1];
    }
  }

  lemma {:induction false} GetAfterInsert(n: Node, key: Key, value: int, k: int)
    requires n.Valid() && Sorted(n.keys) && !Has(n.keys, key.order)
    ensures var n' := InsertKey(n, Position(n.keys, key.order), key, value);
            && Sorted(n'.keys)
            && Get(n', k) == if k == key.order then Some(value) else Get(n, k)
  {
    var p := Position(n.keys, key.order);
    var n' := InsertKey(n, p, key, value);
    SortedAfterInsert(n.keys, key);
    if k == key.order {
      assert n'.keys[p] == key;
      GetAt(n', p);
    } else if Has(n.keys, k) {
      var q := Position(n.keys, k);
      var q' := if q < p then q else q + 1;
      assert n'.keys[q'] == n.keys[q] && n'.values[q'] == n.values[q];
      GetAt(n', q');
    } else if Has(n'.keys, k) {
      var q' := Position(n'.keys, k);
      var q := if q' < p then q' else q' - 1;
      assert n.keys[q] == n'.keys[q'];
      GetAt(n, q);
    }
  }

  lemma {:induction false} SortedAfterRemove(keys: seq<Key>, i: nat)
    requires Sorted(keys) && i < |keys|
    ensures Sorted(Remove(keys, i)) && Position(Remove(keys, i), keys[i].order) == i
    ensures !Has(Remove(keys, i), keys[i].order)
    ensures Insert(Remove(keys, i), i, keys[i]) == keys
  {
    var keys' := Remove(keys, i);
    assert Sorted(keys');
    PositionUnique(keys', keys[i].order, i);
    InsertRemoved(keys, i);
  }

  /** Removing a key and inserting it again at its place gives back the node. */
  lemma {:induction false} RemoveUndoesInsert(n: Node, i: nat)
    requires n.Valid() && Sorted(n.keys) && i < |n.keys|
    ensures InsertKey(RemoveKey(n, i), i, n.keys[i], n.values[i]) == n
  {
    InsertRemoved(n.keys, i);
    InsertRemoved(n.values, i);
  }

  lemma {:induction false} GetAfterRemove(n: Node, i: nat, k: int)
    requires n.Valid() && Sorted(n.keys) && i < |n.keys|
    ensures var n' := RemoveKey(n, i);
            && Sorted(n'.keys)
            && Get(n', k) == if k == n.keys[i].order then None else Get(n, k)
  {
    SortedAfterRemove(n.keys, i);
    RemoveUndoesInsert(n, i);
    GetAfterInsert(RemoveKey(n, i), n.keys[i], n.values[i], k);
  }

  lemma {:induction false} GetAfterReplace(n: Node, i: nat, value: int, k: int)
    requires n.Valid() && Sorted(n.keys) && i < |n.keys|
    ensures Get(n.(values := n.values[i := value]), k)
         == if k == n.keys[i].order then Some(value) else Get(n, k)
  {
    PositionUnique(n.keys, n.keys[i].order, i);
  }

  // ---------- a new root ----------

  /** An index node without keys on top of the old root changes nothing. */
  function RootNode(oldRoot: int): Node {
    Node(NULL, NULL, oldRoot, [], [])
  }

  ghost function InfoUnderRoot(info: Infos, root: int, newRoot: int): Infos
    requires root in info
  {
    info[newRoot := Info(None, None, info[root].level + 1, NULL)][root := info[root].(parent := newRoot)]
  }

  lemma {:induction false} NewRootKeeps(nodes: Nodes, info: Infos, root: int, newRoot: int, x: int)
    requires TreeOk(nodes, info, root) && newRoot !in nodes && newRoot != NULL && x in nodes
    ensures NodeOk(nodes[newRoot := RootNode(root)], InfoUnderRoot(info, root, newRoot), newRoot, x)
  {
    var nodes', info' := nodes[newRoot := RootNode(root)], InfoUnderRoot(info, root, newRoot);
    assert NodeOk(nodes, info, root, x);
    if info[x].level > 0 {
      forall i: nat | i <= |nodes[x].keys|
        ensures ChildOk(nodes', info', x, i)
      {
        assert ChildOk(nodes, info, x, i);
      }
    }
    assert ParentOk(nodes', info', newRoot, x) by {
      hide ChildrenOk, LinksOk, KeysOk;
      if x == root {
        assert IsChild(nodes', newRoot, 0, x);
      } else {
        var i :| IsChild(nodes, info[x].parent, i, x);
        assert IsChild(nodes', info[x].parent, i, x);
      }
    }
  }

  lemma {:induction false} NewRoot(nodes: Nodes, info: Infos, root: int, newRoot: int)
    requires TreeOk(nodes, info, root) && newRoot !in nodes && newRoot != NULL
    ensures TreeOk(nodes[newRoot := RootNode(root)], InfoUnderRoot(info, root, newRoot), newRoot)
  {
    var nodes', info' := nodes[newRoot := RootNode(root)], InfoUnderRoot(info, root, newRoot);
    forall x | x in nodes'
      ensures NodeOk(nodes', info', newRoot, x)
    {
      if x == newRoot {
        assert ChildOk(nodes', info', x, 0);
      } else {
        NewRootKeeps(nodes, info, root, newRoot, x);
      }
    }
  }

  lemma {:induction false} NewRootLookup(nodes: Nodes, info: Infos, root: int, newRoot: int, k: int)
    requires TreeOk(nodes, info, root) && newRoot !in nodes && newRoot != NULL
    ensures TreeOk(nodes[newRoot := RootNode(root)], InfoUnderRoot(info, root, newRoot), newRoot)
    ensures Lookup(nodes[newRoot := RootNode(root)], InfoUnderRoot(info, root, newRoot), newRoot, k)
         == Lookup(nodes, info, root, k)
  {
    NewRoot(nodes, info, root, newRoot);
    var z := Leaf(nodes, info, root, root, k);
    LookupInLeaf(nodes[newRoot := RootNode(root)], InfoUnderRoot(info, root, newRoot), newRoot, z, k);
  }
}
