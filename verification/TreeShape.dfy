/** The shape of a B+tree in a store of nodes addressed by offset, and what a search
finds in it. */
module TreeShape {
  import opened Options
  import opened TreeNode

  /** A bound of a key range; `None` is no bound. */
  type Bound = Option<int>

  /** What the tree expects of a node: keys above `lo` and up to `hi`, and a place
      `level` steps above the leaves below `parent`. */
  datatype Info = Info(lo: Bound, hi: Bound, level: nat, parent: int) {
    predicate Covers(k: int) {
      (lo.None? || lo.value < k) && (hi.None? || k <= hi.value)
    }

    /** An inner separator leaves room on both sides. */
    predicate Inside(k: int) {
      (lo.None? || lo.value < k) && (hi.None? || k < hi.value)
    }
  }

  type Nodes = map<int, Node>
  type Infos = map<int, Info>

  /** The range of child `i`. */
  function ChildLo(n: Node, f: Info, i: nat): Bound
    requires i <= |n.keys|
  {
    if i == 0 then f.lo else Some(n.keys[i - 1].order)
  }

  function ChildHi(n: Node, f: Info, i: nat): Bound
    requires i <= |n.keys|
  {
    if i == |n.keys| then f.hi else Some(n.keys[i].order)
  }

  ghost predicate KeysOk(n: Node, f: Info) {
    && n.Valid()
    && Sorted(n.keys)
    && (n.IsLeaf() <==> f.level == 0)
    && (forall i :: 0 <= i < |n.keys| ==>
         if f.level == 0 then f.Covers(n.keys[i].order) else f.Inside(n.keys[i].order))
  }

  /** Child `i` of node `x` has the range between the keys around it. */
  ghost predicate ChildOk(nodes: Nodes, info: Infos, x: int, i: nat)
    requires x in nodes && x in info && nodes[x].Valid() && i <= |nodes[x].keys|
  {
    var n, f, c := nodes[x], info[x], nodes[x].Child(i);
    && f.level > 0
    && c in info
    && info[c] == Info(ChildLo(n, f, i), ChildHi(n, f, i), f.level - 1, x)
  }

  ghost predicate ChildrenOk(nodes: Nodes, info: Infos, x: int)
    requires x in nodes && x in info && nodes[x].Valid()
  {
    info[x].level > 0 ==> forall i: nat :: i <= |nodes[x].keys| ==> ChildOk(nodes, info, x, i)
  }

  ghost predicate IsChild(nodes: Nodes, p: int, i: nat, x: int)
    requires p in nodes && nodes[p].Valid()
  {
    i <= |nodes[p].keys| && nodes[p].Child(i) == x
  }

  ghost predicate ParentOk(nodes: Nodes, info: Infos, root: int, x: int)
    requires x in info
  {
    x != root ==>
      var p := info[x].parent;
      && p in nodes && p in info && nodes[p].Valid()
      && info[p].level == info[x].level + 1
      && exists i :: IsChild(nodes, p, i, x)
  }

  /** The siblings continue the range of the node on both sides. */
  ghost predicate LinksOk(nodes: Nodes, info: Infos, x: int)
    requires x in nodes && x in info
  {
    var n, f := nodes[x], info[x];
    && (if n.right == NULL then f.hi.None?
        else n.right in nodes && n.right in info && f.hi.Some? && info[n.right].lo == f.hi
             && info[n.right].level == f.level && nodes[n.right].left == x)
    && (if n.left == NULL then f.lo.None?
        else n.left in nodes && n.left in info && f.lo.Some? && info[n.left].hi == f.lo
             && info[n.left].level == f.level && nodes[n.left].right == x)
  }

  ghost predicate NodeOk(nodes: Nodes, info: Infos, root: int, x: int)
    requires x in nodes && x in info && root in info
  {
    && KeysOk(nodes[x], info[x])
    && ChildrenOk(nodes, info, x)
    && ParentOk(nodes, info, root, x)
    && LinksOk(nodes, info, x)
    && (info[x].lo.Some? && info[x].hi.Some? ==> info[x].lo.value < info[x].hi.value)
    && info[x].level <= info[root].level
  }

  ghost predicate TreeOk(nodes: Nodes, info: Infos, root: int) {
    && nodes.Keys == info.Keys
    && root in info && NULL !in info
    && info[root].lo.None? && info[root].hi.None?
    && forall x :: x in nodes ==> NodeOk(nodes, info, root, x)
  }

  /** The tree's demands on one node. */
  lemma {:induction false} Ok(nodes: Nodes, info: Infos, root: int, x: int)
    requires TreeOk(nodes, info, root) && x in nodes
    ensures x in info && root in info && root in nodes && NULL !in info && NULL !in nodes
    ensures NodeOk(nodes, info, root, x)
  {
  }

  // ---------- search ----------

  /** The leaf below `x` where `k` stands or would stand. */
  ghost function Leaf(nodes: Nodes, info: Infos, root: int, x: int, k: int): (y: int)
    requires TreeOk(nodes, info, root) && x in nodes && info[x].Covers(k)
    ensures y in nodes && info[y].level == 0 && info[y].Covers(k)
    decreases info[x].level
  {
    assert NodeOk(nodes, info, root, x);
    if nodes[x].IsLeaf() then x
    else
      var i := Position(nodes[x].keys, k);
      assert ChildOk(nodes, info, x, i);
      Leaf(nodes, info, root, nodes[x].Child(i), k)
  }

  lemma {:induction false} LeafRange(nodes: Nodes, info: Infos, root: int, x: int, k: int)
    requires TreeOk(nodes, info, root) && x in nodes && info[x].Covers(k)
    ensures var y := Leaf(nodes, info, root, x, k);
            y in nodes && info[y].level == 0 && info[y].Covers(k)
  {
  }

  /** The value a leaf holds for `k`. */
  function Get(n: Node, k: int): Option<int>
    requires n.Valid()
  {
    if Has(n.keys, k) then Some(n.values[Position(n.keys, k)]) else None
  }

  /** What the tree holds for `k`. */
  ghost function Lookup(nodes: Nodes, info: Infos, root: int, k: int): Option<int>
    requires TreeOk(nodes, info, root)
  {
    var y := Leaf(nodes, info, root, root, k);
    assert NodeOk(nodes, info, root, y);
    Get(nodes[y], k)
  }

  /** Child `i` is the one a search for a key of its range takes. */
  lemma {:induction false} ChildPosition(nodes: Nodes, info: Infos, root: int, p: int, i: nat, k: int)
    requires TreeOk(nodes, info, root) && p in nodes && info[p].level > 0 && i <= |nodes[p].keys|
    requires nodes[p].Valid() && nodes[p].Child(i) in info && info[nodes[p].Child(i)].Covers(k)
    ensures Position(nodes[p].keys, k) == i && info[p].Covers(k)
  {
    assert NodeOk(nodes, info, root, p);
    assert ChildOk(nodes, info, p, i);
    PositionUnique(nodes[p].keys, k, i);
  }

  /** Every node whose range contains `k` lies on the way from the root to the leaf for
      `k`: no other leaf may hold it. */
  lemma {:induction false} LeafThrough(nodes: Nodes, info: Infos, root: int, x: int, k: int)
    requires TreeOk(nodes, info, root) && x in nodes && info[x].Covers(k)
    ensures Leaf(nodes, info, root, root, k) == Leaf(nodes, info, root, x, k)
    decreases info[root].level - info[x].level
  {
    assert NodeOk(nodes, info, root, x);
    if x != root {
      var p := info[x].parent;
      var i :| IsChild(nodes, p, i, x);
      assert NodeOk(nodes, info, root, p);
      ChildPosition(nodes, info, root, p, i, k);
      LeafThrough(nodes, info, root, p, k);
    }
  }

  lemma {:induction false} LookupInLeaf(nodes: Nodes, info: Infos, root: int, y: int, k: int)
    requires TreeOk(nodes, info, root) && y in nodes && info[y].level == 0 && info[y].Covers(k)
    ensures nodes[y].Valid() && Lookup(nodes, info, root, k) == Get(nodes[y], k)
  {
    assert NodeOk(nodes, info, root, y);
    LeafThrough(nodes, info, root, y, k);
  }
}
