/** Splitting a node that has become too large, and entering the new node in the parent. */
module TreeSplit {
  import opened Options
  import opened Sequences
  import opened TreeNode
  import opened TreeShape
  import opened TreeChange

  /** The first `out` keys can go to a new node: an index node keeps a key for its parent,
      a leaf may be left with none. */
  predicate CanSplit(n: Node, out: nat) {
    1 <= out <= |n.keys| && (out == |n.keys| ==> n.IsLeaf())
  }

  /** The key that separates the two parts: the last key of the left part of a leaf, or
      the key between the parts of an index node. */
  function Separator(n: Node, out: nat): Key
    requires CanSplit(n, out)
  {
    if n.IsLeaf() then n.keys[out - 1] else n.keys[out]
  }

  /** The new node: the first `out` keys. */
  function LeftPart(n: Node, x: int, out: nat): (r: Node)
    requires n.Valid() && CanSplit(n, out)
    ensures r.Valid()
  {
    Node(n.left, x, if n.IsLeaf() then NULL else n.values[out], n.keys[..out], n.values[..out])
  }

  /** What stays in the old node. */
  function RightPart(n: Node, o: int, out: nat): (r: Node)
    requires n.Valid() && CanSplit(n, out)
    ensures r.Valid()
  {
    var skip := if n.IsLeaf() then out else out + 1;
    Node(o, n.right, n.overflow, n.keys[skip..], n.values[skip..])
  }

  /** The store after `x`, with contents `n`, was split into `o` and `x`. */
  function Parts(nodes: Nodes, x: int, n: Node, o: int, out: nat): Nodes
    requires n.Valid() && CanSplit(n, out)
  {
    var linked := if n.left in nodes then nodes[n.left := nodes[n.left].(right := o)] else nodes;
    linked[x := RightPart(n, o, out)][o := LeftPart(n, x, out)]
  }

  /** The same with `o` entered at place `i` of the parent `p`. */
  function Split(nodes: Nodes, x: int, o: int, p: int, i: nat, out: nat): Nodes
    requires x in nodes && p in nodes && nodes[x].Valid() && nodes[p].Valid()
    requires CanSplit(nodes[x], out) && i <= |nodes[p].keys|
  {
    Parts(nodes, x, nodes[x], o, out)[p := InsertKey(nodes[p], i, Separator(nodes[x], out), o)]
  }

  /** The children that go to the new node. */
  ghost predicate Moved(n: Node, out: nat, y: int) {
    !n.IsLeaf() && out < |n.values| && y in n.values[..out + 1]
  }

  ghost function SplitInfo(nodes: Nodes, info: Infos, x: int, o: int, out: nat): Infos
    requires x in nodes && x in info && nodes[x].Valid() && CanSplit(nodes[x], out)
  {
    var n, f := nodes[x], info[x];
    var sep := Separator(n, out).order;
    map y | y in info.Keys + {o} ::
      if y == o then f.(hi := Some(sep))
      else if y == x then f.(lo := Some(sep))
      else if Moved(n, out, y) then info[y].(parent := o)
      else info[y]
  }

  ghost predicate SplitPre(nodes: Nodes, info: Infos, root: int, x: int, o: int, p: int, i: nat, out: nat) {
    && TreeOk(nodes, info, root)
    && x in nodes && x != root && o !in nodes && o != NULL
    && nodes[x].Valid() && CanSplit(nodes[x], out) && info[x].Inside(Separator(nodes[x], out).order)
    && p == info[x].parent && p in nodes && nodes[p].Valid() && IsChild(nodes, p, i, x)
  }

  // ---------- what changes and what does not ----------

  /** The nodes that take part are different ones. */
  lemma {:induction false} Apart(nodes: Nodes, info: Infos, root: int, x: int, o: int, p: int, i: nat, out: nat)
    requires SplitPre(nodes, info, root, x, o, p, i, out)
    ensures p != x && p != o && x != o && nodes[x].left !in {x, o, p}
    ensures nodes[x].left == NULL || nodes[x].left in nodes
    ensures info[p].level == info[x].level + 1
    ensures KeysOk(nodes[x], info[x]) && KeysOk(nodes[p], info[p]) && ChildOk(nodes, info, p, i)
    ensures info[p].lo.None? || info[x].lo.Some?
    ensures forall c :: Moved(nodes[x], out, c) ==> c in info && info[c].parent == x && info[c].level + 1 == info[x].level
  {
    assert NodeOk(nodes, info, root, x);
    assert NodeOk(nodes, info, root, p);
    assert ChildOk(nodes, info, p, i);
    forall c | Moved(nodes[x], out, c)
      ensures c in info && info[c].parent == x && info[c].level + 1 == info[x].level
    {
      var j :| 0 <= j < out + 1 && nodes[x].values[..out + 1][j] == c;
      assert ChildOk(nodes, info, x, j);
    }
  }

  lemma {:induction false} SplitNodes(nodes: Nodes, info: Infos, root: int, x: int, o: int, p: int, i: nat, out: nat)
    requires SplitPre(nodes, info, root, x, o, p, i, out)
    ensures var nodes', n := Split(nodes, x, o, p, i, out), nodes[x];
            && nodes'.Keys == nodes.Keys + {o}
            && nodes'[x] == RightPart(n, o, out)
            && nodes'[o] == LeftPart(n, x, out)
            && nodes'[p] == InsertKey(nodes[p], i, Separator(n, out), o)
            && (n.left != NULL ==> n.left in nodes && nodes'[n.left] == nodes[n.left].(right := o))
            && forall y :: y in nodes && y !in {x, p, n.left} ==> nodes'[y] == nodes[y]
  {
    hide TreeOk, RightPart, LeftPart, InsertKey, Separator;
    Apart(nodes, info, root, x, o, p, i, out);
  }

  lemma {:induction false} SplitInfos(nodes: Nodes, info: Infos, root: int, x: int, o: int, p: int, i: nat, out: nat)
    requires SplitPre(nodes, info, root, x, o, p, i, out)
    ensures var info', n := SplitInfo(nodes, info, x, o, out), nodes[x];
            && info'.Keys == info.Keys + {o}
            && info'[x] == info[x].(lo := Some(Separator(n, out).order))
            && info'[o] == info[x].(hi := Some(Separator(n, out).order))
            && info'[p] == info[p]
            && (forall y :: y in info && y != x ==>
                  info'[y] == if Moved(n, out, y) then info[y].(parent := o) else info[y])
  {
    Apart(nodes, info, root, x, o, p, i, out);
  }

  // ---------- what the parts look like ----------

  /** The separator leaves room on both sides, except for a leaf that is emptied and whose
      last key is its bound. */
  lemma {:induction false} SeparatorInside(n: Node, f: Info, out: nat)
    requires KeysOk(n, f) && CanSplit(n, out)
    ensures f.Inside(Separator(n, out).order)
       <==> out < |n.keys| || f.hi != Some(n.keys[|n.keys| - 1].order)
  {
    if n.IsLeaf() && out < |n.keys| {
      assert n.keys[out - 1].order < n.keys[out].order;
      assert f.Covers(n.keys[out - 1].order) && f.Covers(n.keys[out].order);
    }
  }

  lemma {:induction false} LeftKeys(n: Node, f: Info, x: int, out: nat)
    requires KeysOk(n, f) && CanSplit(n, out) && (!n.IsLeaf() ==> n.values[out] != NULL)
    ensures KeysOk(LeftPart(n, x, out), f.(hi := Some(Separator(n, out).order)))
  {
    var a := LeftPart(n, x, out);
    assert forall j :: 0 <= j < |a.keys| ==> a.keys[j] == n.keys[j];
    assert out < |n.keys| ==> n.keys[out - 1].order < n.keys[out].order;
  }

  lemma {:induction false} RightKeys(n: Node, f: Info, o: int, out: nat)
    requires KeysOk(n, f) && CanSplit(n, out)
    ensures KeysOk(RightPart(n, o, out), f.(lo := Some(Separator(n, out).order)))
  {
    var b := RightPart(n, o, out);
    var skip := if n.IsLeaf() then out else out + 1;
    assert forall j :: 0 <= j < |b.keys| ==> b.keys[j] == n.keys[skip + j];
  }

  lemma {:induction false} ParentKeys(n: Node, f: Info, i: nat, key: Key, o: int)
    requires KeysOk(n, f) && f.level > 0 && i <= |n.keys|
    requires f.Inside(key.order)
    requires (i > 0 ==> n.keys[i - 1].order < key.order) && (i < |n.keys| ==> key.order < n.keys[i].order)
    ensures KeysOk(InsertKey(n, i, key, o), f)
  {
    PositionUnique(n.keys, key.order, i);
    SortedAfterInsert(n.keys, key);
  }

  // ---------- children ----------

  /** The children of a node after a key was inserted. */
  lemma {:induction false} InsertedChild(n: Node, f: Info, i: nat, key: Key, o: int, j: nat)
    requires n.Valid() && i <= |n.keys| && j <= |n.keys| + 1
    ensures var n', q := InsertKey(n, i, key, o), if j <= i then j else j - 1;
            && n'.Child(j) == (if j == i then o else n.Child(q))
            && ChildLo(n', f, j) == (if j == i + 1 then Some(key.order) else ChildLo(n, f, q))
            && ChildHi(n', f, j) == (if j == i then Some(key.order) else ChildHi(n, f, q))
  {
  }

  lemma {:induction false} LeftChild(n: Node, f: Info, x: int, out: nat, j: nat)
    requires n.Valid() && !n.IsLeaf() && CanSplit(n, out) && j <= out
    ensures var a, g := LeftPart(n, x, out), f.(hi := Some(n.keys[out].order));
            && a.Child(j) == n.Child(j)
            && ChildLo(a, g, j) == ChildLo(n, f, j) && ChildHi(a, g, j) == ChildHi(n, f, j)
  {
  }

  lemma {:induction false} RightChild(n: Node, f: Info, o: int, out: nat, j: nat)
    requires n.Valid() && !n.IsLeaf() && CanSplit(n, out) && out + 1 + j <= |n.keys|
    ensures var b, g, q := RightPart(n, o, out), f.(lo := Some(n.keys[out].order)), out + 1 + j;
            && b.Child(j) == n.Child(q)
            && ChildLo(b, g, j) == ChildLo(n, f, q) && ChildHi(b, g, j) == ChildHi(n, f, q)
  {
  }

  /** Two places of an index node do not hold the same child. */
  lemma {:induction false} ChildrenDistinct(nodes: Nodes, info: Infos, x: int, i: nat, j: nat)
    requires x in nodes && x in info && nodes[x].Valid() && Sorted(nodes[x].keys)
    requires i < |nodes[x].keys| && j <= |nodes[x].keys| && i != j
    requires ChildOk(nodes, info, x, i) && ChildOk(nodes, info, x, j) && KeysOk(nodes[x], info[x])
    ensures nodes[x].Child(i) != nodes[x].Child(j)
  {
  }

  /** The children that stay keep the old node as parent. */
  lemma {:induction false} StayingChild(nodes: Nodes, info: Infos, root: int, x: int, out: nat, q: nat)
    requires TreeOk(nodes, info, root) && x in nodes && info[x].level > 0
    requires nodes[x].Valid() && 1 <= out < q <= |nodes[x].keys|
    ensures !Moved(nodes[x], out, nodes[x].Child(q))
  {
    hide TreeOk;
    Ok(nodes, info, root, x);
    var n := nodes[x];
    var moved := n.values[..out + 1];
    forall j: nat | j < |moved|
      ensures moved[j] != n.Child(q)
    {
      assert ChildOk(nodes, info, x, j) && ChildOk(nodes, info, x, q);
      ChildrenDistinct(nodes, info, x, j, q);
    }
  }

  lemma {:induction false} LeftChildren(nodes: Nodes, info: Infos, root: int, x: int, o: int, p: int, i: nat, out: nat)
    requires SplitPre(nodes, info, root, x, o, p, i, out)
    ensures o in Split(nodes, x, o, p, i, out) && Split(nodes, x, o, p, i, out)[o].Valid()
    ensures ChildrenOk(Split(nodes, x, o, p, i, out), SplitInfo(nodes, info, x, o, out), o)
  {
    hide TreeOk, Split, SplitInfo;
    SplitNodes(nodes, info, root, x, o, p, i, out);
    SplitInfos(nodes, info, root, x, o, p, i, out);
    Apart(nodes, info, root, x, o, p, i, out);
    Ok(nodes, info, root, x);
    var nodes', info', n := Split(nodes, x, o, p, i, out), SplitInfo(nodes, info, x, o, out), nodes[x];
    if info[x].level > 0 {
      forall j: nat | j <= |nodes'[o].keys|
        ensures ChildOk(nodes', info', o, j)
      {
        assert ChildOk(nodes, info, x, j);
        LeftChild(n, info[x], x, out, j);
        assert n.values[..out + 1][j] == n.Child(j);
        assert Moved(n, out, n.Child(j));
      }
    }
  }

  lemma {:induction false} RightChildren(nodes: Nodes, info: Infos, root: int, x: int, o: int, p: int, i: nat, out: nat)
    requires SplitPre(nodes, info, root, x, o, p, i, out)
    ensures x in Split(nodes, x, o, p, i, out) && Split(nodes, x, o, p, i, out)[x].Valid()
    ensures ChildrenOk(Split(nodes, x, o, p, i, out), SplitInfo(nodes, info, x, o, out), x)
  {
    hide TreeOk, Split, SplitInfo;
    SplitNodes(nodes, info, root, x, o, p, i, out);
    SplitInfos(nodes, info, root, x, o, p, i, out);
    Apart(nodes, info, root, x, o, p, i, out);
    Ok(nodes, info, root, x);
    var nodes', info', n := Split(nodes, x, o, p, i, out), SplitInfo(nodes, info, x, o, out), nodes[x];
    if info[x].level > 0 {
      forall j: nat | j <= |nodes'[x].keys|
        ensures ChildOk(nodes', info', x, j)
      {
        assert ChildOk(nodes, info, x, out + 1 + j);
        RightChild(n, info[x], o, out, j);
        StayingChild(nodes, info, root, x, out, out + 1 + j);
      }
    }
  }

  lemma {:induction false} ParentChildren(nodes: Nodes, info: Infos, root: int, x: int, o: int, p: int, i: nat, out: nat)
    requires SplitPre(nodes, info, root, x, o, p, i, out)
    ensures p in Split(nodes, x, o, p, i, out) && Split(nodes, x, o, p, i, out)[p].Valid()
    ensures ChildrenOk(Split(nodes, x, o, p, i, out), SplitInfo(nodes, info, x, o, out), p)
  {
    hide TreeOk, Split, SplitInfo;
    SplitNodes(nodes, info, root, x, o, p, i, out);
    SplitInfos(nodes, info, root, x, o, p, i, out);
    Apart(nodes, info, root, x, o, p, i, out);
    Ok(nodes, info, root, p);
    var nodes', info', n := Split(nodes, x, o, p, i, out), SplitInfo(nodes, info, x, o, out), nodes[p];
    var key := Separator(nodes[x], out);
    forall j: nat | j <= |nodes'[p].keys|
      ensures ChildOk(nodes', info', p, j)
    {
      var q := if j <= i then j else j - 1;
      assert ChildOk(nodes, info, p, q);
      InsertedChild(n, info[p], i, key, o, j);
      if q < i {
        ChildrenDistinct(nodes, info, p, q, i);
      } else if q > i {
        ChildrenDistinct(nodes, info, p, i, q);
      }
    }
  }

  // ---------- every node of the new tree ----------

  /** The two trees side by side. */
  ghost predicate After(nodes: Nodes, info: Infos, root: int, x: int, o: int, p: int, i: nat, out: nat,
                        nodes': Nodes, info': Infos)
  {
    && SplitPre(nodes, info, root, x, o, p, i, out)
    && nodes' == Split(nodes, x, o, p, i, out)
    && info' == SplitInfo(nodes, info, x, o, out)
  }

  /** What is known of both trees without looking at how they were made. */
  lemma {:induction false} AfterFacts(nodes: Nodes, info: Infos, root: int, x: int, o: int, p: int, i: nat, out: nat,
                                      nodes': Nodes, info': Infos)
    requires After(nodes, info, root, x, o, p, i, out, nodes', info')
    ensures nodes.Keys == info.Keys && nodes'.Keys == nodes.Keys + {o} && info'.Keys == info.Keys + {o}
    ensures var n, sep := nodes[x], Separator(nodes[x], out);
            && nodes'[x] == RightPart(n, o, out) && info'[x] == info[x].(lo := Some(sep.order))
            && nodes'[o] == LeftPart(n, x, out) && info'[o] == info[x].(hi := Some(sep.order))
            && nodes'[p] == InsertKey(nodes[p], i, sep, o) && info'[p] == info[p]
            && (n.left != NULL ==> n.left in nodes && nodes'[n.left] == nodes[n.left].(right := o))
            && (forall y :: y in nodes && y !in {x, p, n.left} ==> nodes'[y] == nodes[y])
            && (forall y :: y in info && y != x ==>
                  info'[y] == if Moved(n, out, y) then info[y].(parent := o) else info[y])
    ensures root in info && info'[root] == info[root] && NULL !in nodes'
  {
    SplitNodes(nodes, info, root, x, o, p, i, out);
    SplitInfos(nodes, info, root, x, o, p, i, out);
    Apart(nodes, info, root, x, o, p, i, out);
    Ok(nodes, info, root, root);
    if Moved(nodes[x], out, root) {
      Ok(nodes, info, root, x);
    }
  }

  lemma {:induction false} NewNodeOk(nodes: Nodes, info: Infos, root: int, x: int, o: int, p: int, i: nat, out: nat,
                                     nodes': Nodes, info': Infos)
    requires After(nodes, info, root, x, o, p, i, out, nodes', info')
    ensures o in nodes' && o in info' && root in info' && NodeOk(nodes', info', root, o)
  {
    hide TreeOk, Split, SplitInfo;
    AfterFacts(nodes, info, root, x, o, p, i, out, nodes', info');
    Apart(nodes, info, root, x, o, p, i, out);
    Ok(nodes, info, root, x);
    var n := nodes[x];
    if !n.IsLeaf() {
      assert ChildOk(nodes, info, x, out);
    }
    LeftKeys(n, info[x], x, out);
    LeftChildren(nodes, info, root, x, o, p, i, out);
    assert IsChild(nodes', p, i, o) by {
      InsertedChild(nodes[p], info[p], i, Separator(n, out), o, i);
    }
  }

  lemma {:induction false} OldNodeOk(nodes: Nodes, info: Infos, root: int, x: int, o: int, p: int, i: nat, out: nat,
                                     nodes': Nodes, info': Infos)
    requires After(nodes, info, root, x, o, p, i, out, nodes', info')
    ensures x in nodes' && x in info' && root in info' && NodeOk(nodes', info', root, x)
  {
    hide TreeOk, Split, SplitInfo;
    AfterFacts(nodes, info, root, x, o, p, i, out, nodes', info');
    Apart(nodes, info, root, x, o, p, i, out);
    Ok(nodes, info, root, x);
    var n := nodes[x];
    RightKeys(n, info[x], o, out);
    RightChildren(nodes, info, root, x, o, p, i, out);
    assert IsChild(nodes', p, i + 1, x) by {
      InsertedChild(nodes[p], info[p], i, Separator(n, out), o, i + 1);
    }
    if n.right != NULL {
      Ok(nodes, info, root, n.right);
    }
  }

  lemma {:induction false} OtherChildren(nodes: Nodes, info: Infos, root: int, x: int, o: int, p: int, i: nat, out: nat,
                                         nodes': Nodes, info': Infos, y: int)
    requires After(nodes, info, root, x, o, p, i, out, nodes', info') && y in nodes && y != x
    ensures y in nodes' && y in info' && nodes'[y].Valid() && ChildrenOk(nodes', info', y)
  {
    hide TreeOk, Split, SplitInfo;
    AfterFacts(nodes, info, root, x, o, p, i, out, nodes', info');
    Apart(nodes, info, root, x, o, p, i, out);
    Ok(nodes, info, root, y);
    if y == p {
      ParentChildren(nodes, info, root, x, o, p, i, out);
    } else if info[y].level > 0 {
      assert nodes'[y].keys == nodes[y].keys && nodes'[y].values == nodes[y].values;
      assert nodes'[y].overflow == nodes[y].overflow;
      forall j: nat | j <= |nodes'[y].keys|
        ensures ChildOk(nodes', info', y, j)
      {
        assert ChildOk(nodes, info, y, j);
        var c := nodes[y].Child(j);
        assert info[c].parent == y;
        assert c != x && !Moved(nodes[x], out, c);
      }
    }
  }

  lemma {:induction false} OtherKeys(nodes: Nodes, info: Infos, root: int, x: int, o: int, p: int, i: nat, out: nat,
                                     nodes': Nodes, info': Infos, y: int)
    requires After(nodes, info, root, x, o, p, i, out, nodes', info') && y in nodes && y != x
    ensures y in nodes' && y in info' && KeysOk(nodes'[y], info'[y])
  {
    hide TreeOk, Split, SplitInfo;
    AfterFacts(nodes, info, root, x, o, p, i, out, nodes', info');
    Apart(nodes, info, root, x, o, p, i, out);
    Ok(nodes, info, root, y);
    if y == p {
      Ok(nodes, info, root, x);
      ParentKeys(nodes[p], info[p], i, Separator(nodes[x], out), o);
    } else {
      assert nodes'[y].keys == nodes[y].keys && nodes'[y].values == nodes[y].values;
    }
  }

  lemma {:induction false} OtherLinks(nodes: Nodes, info: Infos, root: int, x: int, o: int, p: int, i: nat, out: nat,
                                      nodes': Nodes, info': Infos, y: int)
    requires After(nodes, info, root, x, o, p, i, out, nodes', info') && y in nodes && y != x
    ensures y in nodes' && y in info' && LinksOk(nodes', info', y)
  {
    hide TreeOk, Split, SplitInfo;
    AfterFacts(nodes, info, root, x, o, p, i, out, nodes', info');
    Apart(nodes, info, root, x, o, p, i, out);
    Ok(nodes, info, root, y);
    Ok(nodes, info, root, x);
    var n := nodes[x];
    if n.left != NULL {
      Ok(nodes, info, root, n.left);
    }
    assert nodes'[y].left == nodes[y].left;
    assert y != n.left ==> nodes'[y].right == nodes[y].right;
  }

  /** A child of the split node is found again in one of the parts. */
  lemma {:induction false} ChildOfParts(nodes: Nodes, info: Infos, root: int, x: int, o: int, p: int, i: nat, out: nat,
                                        nodes': Nodes, info': Infos, j: nat)
    requires After(nodes, info, root, x, o, p, i, out, nodes', info')
    requires info[x].level > 0 && j <= |nodes[x].keys|
    ensures var y := nodes[x].Child(j);
            && o in nodes' && x in nodes' && nodes'[o].Valid() && nodes'[x].Valid()
            && (Moved(nodes[x], out, y) ==> exists q :: IsChild(nodes', o, q, y))
            && (!Moved(nodes[x], out, y) ==> exists q :: IsChild(nodes', x, q, y))
  {
    hide TreeOk, Split, SplitInfo;
    AfterFacts(nodes, info, root, x, o, p, i, out, nodes', info');
    Apart(nodes, info, root, x, o, p, i, out);
    var n, y := nodes[x], nodes[x].Child(j);
    var moved := n.values[..out + 1];
    if j <= out {
      assert moved[j] == y;
      LeftChild(n, info[x], x, out, j);
      assert IsChild(nodes', o, j, y);
    } else {
      StayingChild(nodes, info, root, x, out, j);
      RightChild(n, info[x], o, out, j - out - 1);
      assert IsChild(nodes', x, j - out - 1, y);
    }
  }

  lemma {:induction false} OtherParent(nodes: Nodes, info: Infos, root: int, x: int, o: int, p: int, i: nat, out: nat,
                                       nodes': Nodes, info': Infos, y: int)
    requires After(nodes, info, root, x, o, p, i, out, nodes', info') && y in nodes && y != x
    ensures y in info' && ParentOk(nodes', info', root, y)
  {
    hide TreeOk, Split, SplitInfo;
    AfterFacts(nodes, info, root, x, o, p, i, out, nodes', info');
    Apart(nodes, info, root, x, o, p, i, out);
    Ok(nodes, info, root, y);
    if y != root {
      var q := info[y].parent;
      var j: nat :| IsChild(nodes, q, j, y);
      if q == x {
        ChildOfParts(nodes, info, root, x, o, p, i, out, nodes', info', j);
      } else if q == p {
        var j' := if j < i then j else j + 1;
        InsertedChild(nodes[p], info[p], i, Separator(nodes[x], out), o, j');
        assert IsChild(nodes', p, j', y);
      } else {
        assert IsChild(nodes', q, j, y);
      }
    }
  }

  lemma {:induction false} OtherOk(nodes: Nodes, info: Infos, root: int, x: int, o: int, p: int, i: nat, out: nat,
                                   nodes': Nodes, info': Infos, y: int)
    requires After(nodes, info, root, x, o, p, i, out, nodes', info') && y in nodes && y != x
    ensures y in nodes' && y in info' && root in info' && NodeOk(nodes', info', root, y)
  {
    OtherKeys(nodes, info, root, x, o, p, i, out, nodes', info', y);
    OtherChildren(nodes, info, root, x, o, p, i, out, nodes', info', y);
    OtherLinks(nodes, info, root, x, o, p, i, out, nodes', info', y);
    OtherParent(nodes, info, root, x, o, p, i, out, nodes', info', y);
    hide TreeOk, Split, SplitInfo, KeysOk, ChildrenOk, LinksOk, ParentOk;
    AfterFacts(nodes, info, root, x, o, p, i, out, nodes', info');
    Ok(nodes, info, root, y);
  }

  /** A split keeps the tree in shape. */
  lemma {:induction false} SplitOk(nodes: Nodes, info: Infos, root: int, x: int, o: int, p: int, i: nat, out: nat)
    requires SplitPre(nodes, info, root, x, o, p, i, out)
    ensures TreeOk(Split(nodes, x, o, p, i, out), SplitInfo(nodes, info, x, o, out), root)
  {
    var nodes', info' := Split(nodes, x, o, p, i, out), SplitInfo(nodes, info, x, o, out);
    assert After(nodes, info, root, x, o, p, i, out, nodes', info');
    AfterFacts(nodes, info, root, x, o, p, i, out, nodes', info');
    Ok(nodes, info, root, root);
    hide Split, SplitInfo, NodeOk;
    forall y | y in nodes'
      ensures NodeOk(nodes', info', root, y)
    {
      if y == x {
        OldNodeOk(nodes, info, root, x, o, p, i, out, nodes', info');
      } else if y == o {
        NewNodeOk(nodes, info, root, x, o, p, i, out, nodes', info');
      } else {
        OtherOk(nodes, info, root, x, o, p, i, out, nodes', info', y);
      }
    }
  }

  /** Nodes above the parent are not touched. */
  lemma {:induction false} Untouched(nodes: Nodes, info: Infos, root: int, x: int, o: int, p: int, i: nat, out: nat, y: int)
    requires SplitPre(nodes, info, root, x, o, p, i, out)
    requires y in nodes && info[y].level > info[p].level
    ensures Split(nodes, x, o, p, i, out)[y] == nodes[y]
  {
    hide Split, TreeOk;
    SplitNodes(nodes, info, root, x, o, p, i, out);
    Apart(nodes, info, root, x, o, p, i, out);
    Ok(nodes, info, root, x);
  }

  // ---------- what a search finds ----------

  lemma {:induction false} SortedPart(keys: seq<Key>, from: nat, to: nat)
    requires Sorted(keys) && from <= to <= |keys|
    ensures Sorted(keys[from..to])
  {
  }

  lemma {:induction false} GetPart(n: Node, part: Node, from: nat, to: nat, k: int)
    requires n.Valid() && Sorted(n.keys) && from <= to <= |n.keys|
    requires part.keys == n.keys[from..to] && part.values == n.values[from..to]
    requires from > 0 ==> n.keys[from - 1].order < k
    requires to < |n.keys| ==> k < n.keys[to].order
    ensures Get(part, k) == Get(n, k)
  {
    hide Position;
    SortedPart(n.keys, from, to);
    var p := Position(n.keys, k);
    PositionFacts(n.keys, k);
    assert from <= p <= to;
    assert p > from ==> part.keys[p - from - 1] == n.keys[p - 1];
    assert p < to ==> part.keys[p - from] == n.keys[p] && part.values[p - from] == n.values[p];
    PositionUnique(part.keys, k, p - from);
  }

  lemma {:induction false} PositionFacts(keys: seq<Key>, k: int)
    requires Sorted(keys)
    ensures var p := Position(keys, k);
            && p <= |keys| && (p > 0 ==> keys[p - 1].order < k) && (p < |keys| ==> keys[p].order >= k)
            && (forall i :: 0 <= i < |keys| && keys[i].order < k ==> i < p)
            && (forall i :: 0 <= i < |keys| && keys[i].order > k && p < |keys| ==> p <= i)
            && (forall i :: 0 <= i < |keys| && keys[i].order > k ==> p <= i)
  {
  }

  /** What the split leaf held is found in the part for its range. */
  lemma {:induction false} SplitLeafLookup(nodes: Nodes, info: Infos, root: int, x: int, o: int, p: int, i: nat, out: nat,
                                           nodes': Nodes, info': Infos, k: int)
    requires After(nodes, info, root, x, o, p, i, out, nodes', info') && TreeOk(nodes', info', root)
    requires info[x].level == 0 && info[x].Covers(k)
    ensures nodes[x].Valid() && Lookup(nodes', info', root, k) == Get(nodes[x], k)
  {
    hide TreeOk, Split, SplitInfo, Lookup;
    AfterFacts(nodes, info, root, x, o, p, i, out, nodes', info');
    Apart(nodes, info, root, x, o, p, i, out);
    var n := nodes[x];
    assert out < |n.keys| ==> n.keys[out - 1].order < n.keys[out].order;
    if k <= Separator(n, out).order {
      LookupInLeaf(nodes', info', root, o, k);
      GetPart(n, LeftPart(n, x, out), 0, out, k);
    } else {
      LookupInLeaf(nodes', info', root, x, k);
      GetPart(n, RightPart(n, o, out), out, |n.keys|, k);
    }
  }

  /** The other leaves hold what they held. */
  lemma {:induction false} OtherLeafLookup(nodes: Nodes, info: Infos, root: int, x: int, o: int, p: int, i: nat, out: nat,
                                           nodes': Nodes, info': Infos, z: int, k: int)
    requires After(nodes, info, root, x, o, p, i, out, nodes', info') && TreeOk(nodes', info', root)
    requires z in nodes && z != x && info[z].level == 0 && info[z].Covers(k)
    ensures nodes[z].Valid() && Lookup(nodes', info', root, k) == Get(nodes[z], k)
  {
    hide TreeOk, Split, SplitInfo, Lookup;
    AfterFacts(nodes, info, root, x, o, p, i, out, nodes', info');
    Apart(nodes, info, root, x, o, p, i, out);
    Ok(nodes, info, root, z);
    LookupInLeaf(nodes', info', root, z, k);
    assert nodes'[z].keys == nodes[z].keys && nodes'[z].values == nodes[z].values;
  }

  /** A split changes nothing that can be found. */
  lemma {:induction false} SplitLookup(nodes: Nodes, info: Infos, root: int, x: int, o: int, p: int, i: nat, out: nat, k: int)
    requires SplitPre(nodes, info, root, x, o, p, i, out)
    ensures TreeOk(Split(nodes, x, o, p, i, out), SplitInfo(nodes, info, x, o, out), root)
    ensures Lookup(Split(nodes, x, o, p, i, out), SplitInfo(nodes, info, x, o, out), root, k)
         == Lookup(nodes, info, root, k)
  {
    hide Split, SplitInfo, NodeOk, Leaf, Lookup;
    var nodes', info' := Split(nodes, x, o, p, i, out), SplitInfo(nodes, info, x, o, out);
    SplitOk(nodes, info, root, x, o, p, i, out);
    var z := Leaf(nodes, info, root, root, k);
    LeafRange(nodes, info, root, root, k);
    LookupInLeaf(nodes, info, root, z, k);
    if z == x {
      SplitLeafLookup(nodes, info, root, x, o, p, i, out, nodes', info', k);
    } else {
      OtherLeafLookup(nodes, info, root, x, o, p, i, out, nodes', info', z, k);
    }
  }
}
