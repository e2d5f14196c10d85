/** The B+tree of an index that allows duplicates: a multimap from keys to values. */
module DuplicateTree {
  import opened TreeNode
  import opened TreeShape
  import opened TreeInsert
  import opened BTree
  import opened TreeRoom
  import opened SortedArrays
  import opened Links
  import opened Words
  import opened DuplicateLists
  import opened DuplicateOwners
  import opened DuplicateSteps

  /** How many slots are in use, counted up to two. */
  method FragmentsUsed(words: seq<int>) returns (used: nat)
    requires |words| == NODE_WORDS
    ensures used < 2 ==> forall i, j :: 0 <= i < j < SLOTS ==> SlotCount(words, i) <= 0 || SlotCount(words, j) <= 0
    ensures used == 0 ==> forall j :: 0 <= j < SLOTS ==> SlotCount(words, j) <= 0
    ensures used >= 2 ==> exists i, j :: 0 <= i < j < SLOTS && SlotCount(words, i) > 0 && SlotCount(words, j) > 0
  {
    used := 0;
    ghost var first := 0;
    for i := 0 to SLOTS
      invariant used < 2
      invariant used == 0 ==> forall j :: 0 <= j < i ==> SlotCount(words, j) <= 0
      invariant used == 1 ==> 0 <= first < i && SlotCount(words, first) > 0
      invariant used == 1 ==> forall j :: 0 <= j < i && j != first ==> SlotCount(words, j) <= 0
    {
      if SlotCount(words, i) > 0 {
        used := used + 1;
        if used > 1 {
          return;
        }
        first := i;
      }
    }
  }

  /** The values of a key after one was taken out: the search may miss it. */
  ghost function Taken(bag: multiset<int>, value: int): multiset<int> {
    if Finds(InOrder(bag), value) then bag - multiset{value} else bag
  }

  /** A value that is there is taken out if all values of the key are near it. */
  lemma {:induction false} TakenIfNear(bag: multiset<int>, value: int)
    requires forall v :: v in bag ==> Near(v, value)
    ensures Taken(bag, value) == bag - multiset{value}
  {
    hide Near, Finds, Ascending;
    var vs := InOrder(bag);
    forall i | 0 <= i < |vs|
      ensures Near(vs[i], value)
    {
      assert vs[i] in multiset(vs);
    }
    NearFound(vs, value);
    assert value in vs <==> value in multiset(vs);
    if value !in bag {
      assert bag - multiset{value} == bag;
    }
  }

  /** The smallest word keeps the value 1 in its slot. */
  lemma {:induction false} OneStays()
    ensures Taken(multiset{-WORD / 2, 1}, 1) == multiset{-WORD / 2, 1}
  {
    OneMissed();
    InOrderUnique(InOrder(multiset{-WORD / 2, 1}), [-WORD / 2, 1]);
  }

  /** One value is left, and it looks like a link. */
  ghost predicate LeavesLink(bag: multiset<int>) {
    exists v :: bag == multiset{v} && IsDuplicate(v)
  }

  // ---------- the plain multimap ----------

  datatype Update =
    | Add(key: Key, value: int)
    | Take(key: Key, value: int)

  /** What an update does; a key with one value is taken out whatever value is named. */
  ghost function MultiAfter(m: map<int, multiset<int>>, u: Update): map<int, multiset<int>> {
    if !LengthOk(u.key) then m
    else match u
      case Add(key, value) =>
        m[key.order := (if key.order in m then m[key.order] else multiset{}) + multiset{value}]
      case Take(key, value) =>
        if key.order !in m then m
        else if |m[key.order]| == 1 then m - {key.order}
        else m[key.order := Taken(m[key.order], value)]
  }

  ghost function MultiRun(m: map<int, multiset<int>>, us: seq<Update>): map<int, multiset<int>> {
    if us == [] then m else MultiAfter(MultiRun(m, us[..|us| - 1]), us[|us| - 1])
  }

  /** An update a run does not go on behind: the stream of the tree is too long for links, a
      node cannot be split, a word that looks like a link would stand alone in the leaf, or
      the values of the key are in nodes of their own, from which taking is not modelled. */
  ghost predicate Stops(before: Snapshot, maximumSize: int, m: map<int, multiset<int>>, u: Update) {
    LengthOk(u.key) &&
    match u
    case Add(key, value) =>
      || maximumSize >= TYPE_UNIT
      || (key.order !in m && (IsDuplicate(value) || Overruns(before.nodes, before.info, before.root, key)))
    case Take(key, value) =>
      key.order in m && (|m[key.order]| > NUM_FRAGMENT_VALUES || (|m[key.order]| > 1 && LeavesLink(Taken(m[key.order], value))))
  }

  class DuplicateTree {
    const tree: Tree
    ghost var fragments: set<int>
    ghost var chains: Chains

    ghost predicate Valid()
      reads this, tree
    {
      tree.Valid() && DuplicatesOk(tree.duplicates, fragments, tree.contents, chains)
    }

    /** Every node for duplicates is reached from a key. */
    ghost predicate NothingLost()
      reads this, tree
    {
      NodesUsed(tree.duplicates.Keys, tree.contents, chains)
    }

    /** The values stored for each key. */
    ghost function Contents(): map<int, multiset<int>>
      requires Valid()
      reads this, tree
    {
      Stored(tree.duplicates, fragments, tree.contents, chains)
    }

    constructor ()
      ensures Valid() && fresh(tree) && Contents() == map[] && NothingLost()
    {
      tree := new Tree();
      fragments, chains := {}, map[];
    }

    /** Looks for a free slot in the fragment nodes that other entries of the leaf use. */
    method FindFreeDuplicateFragment(values: seq<int>) returns (found: bool, offset: int, index: nat)
      requires Valid() && forall i :: 0 <= i < |values| ==> Owned(tree.contents, values[i])
      ensures found ==> offset in fragments && offset in tree.duplicates && |tree.duplicates[offset]| == NODE_WORDS
      ensures found ==> index < SLOTS && SlotCount(tree.duplicates[offset], index) == 0
      ensures !found ==> forall i, j :: 0 <= i < |values| && IsFragment(values[i]) && 0 <= j < SLOTS
                           && FragmentOffset(values[i]) in tree.duplicates
                           && |tree.duplicates[FragmentOffset(values[i])]| == NODE_WORDS
                           ==> SlotCount(tree.duplicates[FragmentOffset(values[i])], j) != 0
    {
      hide LinkType, FragmentOffset, FragmentIndex, SlotOk, SlotsOwned, AllApart, Holds, AllFit, StoreOk, NoneLost;
      found, offset, index := false, 0, 0;
      ghost var nodes := tree.duplicates;
      for i := 0 to |values|
        invariant forall m, j :: 0 <= m < i && IsFragment(values[m]) && 0 <= j < SLOTS
                    && FragmentOffset(values[m]) in nodes && |nodes[FragmentOffset(values[m])]| == NODE_WORDS
                    ==> SlotCount(nodes[FragmentOffset(values[m])], j) != 0
      {
        if LinkType(values[i]) == DUPLICATE_FRAGMENT {
          ghost var k :| k in tree.contents && tree.contents[k] == values[i];
          assert KeyOk(tree.duplicates, fragments, tree.contents[k], chains[k]);
          offset := FragmentOffset(values[i]);
          var words := tree.duplicates[offset];
          for j := 0 to SLOTS
            invariant forall m :: 0 <= m < j ==> SlotCount(words, m) != 0
          {
            if SlotCount(words, j) == 0 {
              return true, offset, j;
            }
          }
        }
      }
    }
  
    /** Entry `index` of leaf `y`, which belongs to key `k`. */
    ghost predicate IsEntry(y: int, index: nat, k: int)
      reads tree
    {
      && y in tree.nodes && y in tree.info && tree.info[y].level == 0 && tree.nodes[y].Valid()
      && index < |tree.nodes[y].keys| && tree.nodes[y].keys[index].order == k
      && k in tree.contents && tree.contents[k] == tree.nodes[y].values[index]
    }

    /** A single value becomes two values in a slot, in a shared node where there is room. */
    method OpenFragment(y: int, index: nat, ghost k: int, value: int)
      requires Valid() && IsEntry(y, index, k) && !IsDuplicate(tree.contents[k])
      requires forall i :: 0 <= i < |tree.nodes[y].values| ==> Owned(tree.contents, tree.nodes[y].values[i])
      requires tree.maximumSize < TYPE_UNIT && IsWord(value)
      modifies this, tree
      ensures tree.Valid()
      ensures Added(old(tree.duplicates), old(fragments), old(tree.contents), old(chains),
                    tree.duplicates, fragments, tree.contents, chains, k, value)
      ensures old(NothingLost()) ==> NothingLost()
    {
      hide NodesUsed, Uses, DuplicatesOk, SlotCount, Holds, AllFit, StoreOk, NoneLost, MakeLink;
      var oldValue := tree.nodes[y].values[index];
      var found, offset, slot := FindFreeDuplicateFragment(tree.nodes[y].values);
      if !found {
        offset := NewFragment();
        slot := 0;
      }
      SlotOpens(k, old(tree.duplicates).Keys, offset, slot);
      ghost var nodes := tree.duplicates.Keys;
      PlainToSlot(tree.duplicates, fragments, tree.contents, chains, k, offset, slot, value);
      tree.SetDuplicateNode(offset, SlotOpened(tree.duplicates[offset], slot, oldValue, value));
      assert tree.duplicates.Keys == nodes;
      hide Added;
      tree.SetValue(y, index, MakeLink(DUPLICATE_FRAGMENT, offset, slot));
      chains := chains[k := []];
    }

    /** A new fragment node with all slots free. */
    method NewFragment() returns (offset: int)
      requires Valid() && tree.maximumSize < TYPE_UNIT
      modifies this`fragments, tree`freeNodes, tree`maximumSize, tree`duplicates
      ensures Valid() && Contents() == old(Contents())
      ensures offset in fragments && offset in tree.duplicates && |tree.duplicates[offset]| == NODE_WORDS
      ensures SlotCount(tree.duplicates[offset], 0) == 0 && tree.duplicates.Keys == old(tree.duplicates).Keys + {offset}
    {
      hide DuplicatesOk, Holds, AllFit, StoreOk, NoneLost;
      var words := seq(NODE_WORDS, _ => 0);
      offset := tree.NewDuplicateNode(words);
      NewFragmentNode(old(tree.duplicates), fragments, tree.contents, chains, offset, words);
      fragments := fragments + {offset};
    }

    /** A value for a key that has a slot; a full slot is moved to a node of its own. */
    method InsertIntoFragment(y: int, index: nat, ghost k: int, value: int, junk: seq<int>)
      requires Valid() && IsEntry(y, index, k) && IsFragment(tree.contents[k])
      requires tree.maximumSize < TYPE_UNIT && |junk| == NODE_WORDS && IsWord(value)
      modifies this, tree
      ensures tree.Valid()
      ensures Added(old(tree.duplicates), old(fragments), old(tree.contents), old(chains),
                    tree.duplicates, fragments, tree.contents, chains, k, value)
      ensures old(NothingLost()) ==> NothingLost()
    {
      hide NodesUsed, Uses, DuplicatesOk, Holds, AllFit, StoreOk, NoneLost, MakeLink, Added, SlotOk;
      var oldValue := tree.nodes[y].values[index];
      var offset, slot := FragmentOffset(oldValue), FragmentIndex(oldValue);
      FragmentFacts(k);
      var words := tree.duplicates[offset];
      if SlotCount(words, slot) < NUM_FRAGMENT_VALUES {
        SlotGrows(tree.duplicates, fragments, tree.contents, chains, k, value);
        tree.SetDuplicateNode(offset, SlotInsert(words, slot, value));
        assert tree.duplicates.Keys == old(tree.duplicates).Keys;
      } else {
        offset := LeaveSlot(k, offset, slot, value, junk);
        tree.SetValue(y, index, MakeLink(DUPLICATE_NODE, offset, 0));
      }
    }

    /** Moves a full slot and one more value to a node of their own: the fragment node
        itself if no other key uses it. */
    method LeaveSlot(ghost k: int, o: int, j: nat, value: int, junk: seq<int>) returns (offset: int)
      requires Valid() && k in tree.contents && IsFragment(tree.contents[k])
      requires o == FragmentOffset(tree.contents[k]) && j == FragmentIndex(tree.contents[k])
      requires o in tree.duplicates && SlotOk(tree.duplicates[o], j) && SlotCount(tree.duplicates[o], j) >= NUM_FRAGMENT_VALUES
      requires tree.maximumSize < TYPE_UNIT && |junk| == NODE_WORDS && IsWord(value)
      modifies this, tree`freeNodes, tree`maximumSize, tree`duplicates
      ensures tree.Valid()
      ensures Added(old(tree.duplicates), old(fragments), tree.contents, old(chains),
                    tree.duplicates, fragments, tree.contents[k := MakeLink(DUPLICATE_NODE, offset, 0)], chains, k, value)
      ensures old(NothingLost()) ==> NodesUsed(tree.duplicates.Keys, tree.contents[k := MakeLink(DUPLICATE_NODE, offset, 0)], chains)
    {
      hide NodesUsed, Uses, DuplicatesOk, Holds, AllFit, StoreOk, NoneLost, MakeLink, Added, SlotOk, Reused, CopiedOut, ListInsert, SlotCleared, SlotAndOne, TakesOver, OnlySlot;
      FragmentFacts(k);
      var words := tree.duplicates[o];
      var used := FragmentsUsed(words);
      if used < 2 {
        OnlySlotUsed(tree.duplicates, fragments, tree.contents, chains, o, j);
        ReusedHolds(words, j);
        SlotTakenOver(Reused(words, j), words, j, value);
        var node := ListInsert(Reused(words, j), value);
        NodeReused(tree.duplicates, fragments, tree.contents, chains, k, o, j, node, value);
        tree.SetDuplicateNode(o, node);
        ChainIsEmpty(old(tree.duplicates), fragments, tree.contents, chains, k);
        NodeTakesOver(old(tree.duplicates).Keys, tree.contents, chains, k, o, tree.duplicates.Keys);
        fragments, chains := fragments - {o}, chains[k := [o]];
        offset := o;
      } else {
        CopiedHolds(junk, words, j);
        SlotTakenOver(CopiedOut(junk, words, j), words, j, value);
        var node := ListInsert(CopiedOut(junk, words, j), value);
        SlotClears(words, j);
        tree.SetDuplicateNode(o, SlotCleared(words, j));
        offset := tree.NewDuplicateNode(node);
        ChainUses(MakeLink(DUPLICATE_NODE, offset, 0), offset);
        SlotGivenUp(old(tree.duplicates), fragments, tree.contents, chains, k, o, j, tree.duplicates.Keys,
                    MakeLink(DUPLICATE_NODE, offset, 0), [offset]);
        SlotLeft(old(tree.duplicates), fragments, tree.contents, chains, k, o, j, SlotCleared(words, j), offset, node, value);
        chains := chains[k := [offset]];
      }
    }

    lemma {:induction false} PlainUsesNone(k: int)
      requires Valid() && k in tree.contents && !IsDuplicate(tree.contents[k])
      ensures k in chains && forall o :: !Uses(tree.contents[k], chains[k], o)
    {
      assert KeyOk(tree.duplicates, fragments, tree.contents[k], chains[k]);
    }

    lemma {:induction false} SlotOpens(k: int, nodes: set<int>, o: int, j: nat)
      requires Valid() && k in tree.contents && !IsDuplicate(tree.contents[k]) && o in fragments && j < SLOTS
      requires tree.duplicates.Keys <= nodes + {o}
      ensures NodesUsed(nodes, tree.contents, chains) ==>
                NodesUsed(tree.duplicates.Keys, tree.contents[k := MakeLink(DUPLICATE_FRAGMENT, o, j)], chains[k := []])
    {
      hide NodesUsed, Uses;
      PlainUsesNone(k);
      SlotUsed(o, j);
      if NodesUsed(nodes, tree.contents, chains) {
        StillUsedBut(nodes, tree.contents, chains, tree.duplicates.Keys, k, MakeLink(DUPLICATE_FRAGMENT, o, j), [], o);
      }
    }

    static lemma {:induction false} SlotUsed(o: int, j: nat)
      requires IsOffset(o) && j < SLOTS
      ensures Uses(MakeLink(DUPLICATE_FRAGMENT, o, j), [], o)
    {
      LinkParts(DUPLICATE_FRAGMENT, o, j);
    }

    static lemma {:induction false} ChainUses(w: int, o: int)
      ensures Uses(w, [o], o)
    {
    }

    /** A key that uses no node comes or goes. */
    static lemma {:induction false} OtherKeysUse(nodes: set<int>, links: map<int, int>, chains: Chains,
                                                 links': map<int, int>, chains': Chains, k: int)
      requires k in links && k in chains ==> forall o :: !Uses(links[k], chains[k], o)
      requires forall x :: x in links && x in chains && x != k ==> x in links' && x in chains' && links'[x] == links[x] && chains'[x] == chains[x]
      ensures NodesUsed(nodes, links, chains) ==> NodesUsed(nodes, links', chains')
    {
      hide Uses;
      if NodesUsed(nodes, links, chains) {
        StillUsed(nodes, links, chains, nodes, links', chains', k);
      }
    }

    /** The only key of a fragment node takes it for its own. */
    static lemma {:induction false} NodeTakesOver(nodes: set<int>, links: map<int, int>, chains: Chains, k: int, o: int, nodes': set<int>)
      requires k in links && k in chains && chains[k] == [] && IsFragment(links[k]) && FragmentOffset(links[k]) == o && nodes' <= nodes
      ensures NodesUsed(nodes, links, chains) ==>
                NodesUsed(nodes', links[k := MakeLink(DUPLICATE_NODE, o, 0)], chains[k := [o]])
    {
      hide MakeLink, FragmentOffset, LinkType;
      if NodesUsed(nodes, links, chains) {
        StillUsedBut(nodes, links, chains, nodes', k, MakeLink(DUPLICATE_NODE, o, 0), [o], o);
      }
    }

    /** A slot is given up: its node stays only if another slot of it is in use. */
    static lemma {:induction false} SlotGivenUp(blocks: Blocks, fragments: set<int>, links: map<int, int>, chains: Chains,
                                                k: int, o: int, j: nat, nodes': set<int>, w: int, chain: seq<int>)
      requires DuplicatesOk(blocks, fragments, links, chains) && k in links && IsFragment(links[k])
      requires o == FragmentOffset(links[k]) && j == FragmentIndex(links[k])
      requires o in nodes' ==> exists i :: 0 <= i < SLOTS && i != j && SlotCount(blocks[o], i) != 0
      requires forall x :: x in nodes' && x !in blocks ==> Uses(w, chain, x)
      ensures NodesUsed(blocks.Keys, links, chains) ==> NodesUsed(nodes', links[k := w], chains[k := chain])
    {
      hide SlotCount, MakeLink, FragmentOffset, FragmentIndex, LinkType, ChainOk, SlotOk, Apart;
      assert KeyOk(blocks, fragments, links[k], chains[k]);
      PartsMakeLink(links[k]);
      var links', chains' := links[k := w], chains[k := chain];
      if NodesUsed(blocks.Keys, links, chains) {
        if o in nodes' {
          var i: int :| 0 <= i < SLOTS && i != j && SlotCount(blocks[o], i) != 0;
          OtherUser(blocks, fragments, links, chains, k, o, j, i, w, chain);
        }
        forall x | x in nodes' && (x in blocks.Keys ==> Uses(links[k], chains[k], x))
          ensures NodeUsed(links', chains', x)
        {
          if x != o {
            assert Uses(links'[k], chains'[k], x);
          }
        }
        StillUsed(blocks.Keys, links, chains, nodes', links', chains', k);
      }
    }

    /** The chain of a key gets another node. */
    static lemma {:induction false} ChainUsesMore(nodes: set<int>, links: map<int, int>, chains: Chains, k: int, n: int, nodes': set<int>)
      requires NodesUsed(nodes, links, chains) && k in links && k in chains && nodes' <= nodes + {n}
      ensures NodesUsed(nodes', links, chains[k := chains[k] + [n]])
    {
      StillUsedBut(nodes, links, chains, nodes', k, links[k], chains[k] + [n], n);
      assert links[k := links[k]] == links;
    }

    static lemma {:induction false} OnlySlotUsed(blocks: Blocks, fragments: set<int>, links: map<int, int>, chains: Chains, o: int, j: nat)
      requires DuplicatesOk(blocks, fragments, links, chains) && o in fragments && o in blocks && SlotOk(blocks[o], j)
      requires forall i, j :: 0 <= i < j < SLOTS ==> SlotCount(blocks[o], i) <= 0 || SlotCount(blocks[o], j) <= 0
      ensures forall i :: 0 <= i < SLOTS && i != j ==> SlotCount(blocks[o], i) == 0
    {
      hide SlotCount, IsArray, ChainOk, Apart;
      forall i | 0 <= i < SLOTS && i != j
        ensures SlotCount(blocks[o], i) == 0
      {
        assert SlotCount(blocks[o], j) > 0;
        if SlotCount(blocks[o], i) != 0 {
          var w := MakeLink(DUPLICATE_FRAGMENT, o, i);
          var k :| k in links && links[k] == w;
          LinkParts(DUPLICATE_FRAGMENT, o, i);
        }
      }
    }

    lemma {:induction false} FragmentFacts(k: int)
      requires Valid() && k in tree.contents && IsFragment(tree.contents[k])
      ensures FragmentOffset(tree.contents[k]) in tree.duplicates && FragmentOffset(tree.contents[k]) in fragments
      ensures FragmentIndex(tree.contents[k]) < SLOTS && |tree.duplicates[FragmentOffset(tree.contents[k])]| == NODE_WORDS
      ensures SlotOk(tree.duplicates[FragmentOffset(tree.contents[k])], FragmentIndex(tree.contents[k]))
    {
      assert KeyOk(tree.duplicates, fragments, tree.contents[k], chains[k]);
    }
  
    lemma {:induction false} ChainFacts(k: int)
      requires Valid() && k in tree.contents && IsDuplicate(tree.contents[k]) && !IsFragment(tree.contents[k])
      ensures k in chains && ChainOk(tree.duplicates, chains[k]) && FragmentOffset(tree.contents[k]) == chains[k][0]
    {
      assert KeyOk(tree.duplicates, fragments, tree.contents[k], chains[k]);
    }

    /** Walks along the chain to a node with room, or to the last one. */
    method FindRoom(link: int, ghost chain: seq<int>) returns (offset: int, ghost i: nat)
      requires ChainOk(tree.duplicates, chain) && FragmentOffset(link) == chain[0]
      ensures i < |chain| && offset == chain[i]
      ensures offset in tree.duplicates && ListOk(tree.duplicates[offset])
      ensures tree.duplicates[offset][ARRAY] >= NUM_DUPLICATE_VALUES ==> i == |chain| - 1
      ensures forall m :: 0 <= m < i ==> tree.duplicates[chain[m]][ARRAY] >= NUM_DUPLICATE_VALUES
    {
      hide FragmentOffset, IsArray;
      offset, i := FragmentOffset(link), 0;
      var nodes := tree.duplicates;
      while nodes[offset][ARRAY] >= NUM_DUPLICATE_VALUES && nodes[offset][RIGHT] != NULL
        invariant i < |chain| && offset == chain[i]
        invariant forall m :: 0 <= m < i ==> nodes[chain[m]][ARRAY] >= NUM_DUPLICATE_VALUES
        decreases |chain| - i
      {
        assert i + 1 < |chain| && Linked(nodes, chain, i);
        OffsetAlone(chain[i + 1]);
        offset := FragmentOffset(nodes[offset][RIGHT]);
        i := i + 1;
      }
      if i + 1 < |chain| {
        assert Linked(nodes, chain, i) && IsOffset(chain[i + 1]);
      }
    }

    /** A value for a key that has nodes of its own. */
    method InsertIntoChain(y: int, index: nat, ghost k: int, value: int, junk: seq<int>)
      requires Valid() && IsEntry(y, index, k) && IsDuplicate(tree.contents[k]) && !IsFragment(tree.contents[k])
      requires tree.maximumSize < TYPE_UNIT && |junk| == NODE_WORDS && IsWord(value)
      modifies this, tree`freeNodes, tree`maximumSize, tree`duplicates
      ensures tree.Valid()
      ensures Added(old(tree.duplicates), old(fragments), tree.contents, old(chains),
                    tree.duplicates, fragments, tree.contents, chains, k, value)
      ensures old(NothingLost()) ==> NothingLost()
    {
      hide NodesUsed, Uses, DuplicatesOk, Holds, AllFit, StoreOk, NoneLost, Added, ChainOk, FragmentOffset, LinkType, Ascending;
      ChainFacts(k);
      var offset, i := FindRoom(tree.nodes[y].values[index], chains[k]);
      var words := tree.duplicates[offset];
      if words[ARRAY] < NUM_DUPLICATE_VALUES {
        ListInserted(words, value);
        ListGrows(tree.duplicates, fragments, tree.contents, chains, k, i, ListInsert(words, value), value);
        tree.SetDuplicateNode(offset, ListInsert(words, value));
        assert tree.duplicates.Keys == old(tree.duplicates).Keys;
      } else {
        hide ListOk;
        var node := NewLast(junk, offset, value);
        NewLastHolds(junk, offset, value);
        hide NewLast;
        var n := tree.NewDuplicateNode(node);
        tree.SetDuplicateNode(offset, words[RIGHT := n]);
        ChainGrows(old(tree.duplicates), fragments, tree.contents, chains, k, n, node, value);
        assert tree.duplicates == old(tree.duplicates)[offset := words[RIGHT := n]][n := node];
        if old(NothingLost()) {
          ChainUsesMore(old(tree.duplicates).Keys, tree.contents, chains, k, n, tree.duplicates.Keys);
        }
        chains := chains[k := chains[k] + [n]];
      }
    }

    /** Adds a value to an entry that is there.  The key gains exactly this one value and
        no other key changes, whatever storage the values are moved to. */
    method InsertDuplicate(y: int, index: nat, ghost k: int, value: int, junk: seq<int>)
      requires Valid() && IsEntry(y, index, k)
      requires forall i :: 0 <= i < |tree.nodes[y].values| ==> Owned(tree.contents, tree.nodes[y].values[i])
      requires tree.maximumSize < TYPE_UNIT && |junk| == NODE_WORDS && IsWord(value)
      modifies this, tree
      ensures Valid() && k in old(Contents())
      ensures Contents() == old(Contents())[k := old(Contents())[k] + multiset{value}]
      ensures old(NothingLost()) ==> NothingLost()
    {
      hide NodesUsed, Uses, DuplicatesOk, Holds, AllFit, StoreOk, NoneLost, LinkType, Owned;
      var oldValue := tree.nodes[y].values[index];
      if IsDuplicate(oldValue) {
        if LinkType(oldValue) == DUPLICATE_FRAGMENT {
          InsertIntoFragment(y, index, k, value, junk);
        } else {
          InsertIntoChain(y, index, k, value, junk);
        }
      } else {
        OpenFragment(y, index, k, value);
      }
    }
  
    /** What leaf `y` holds for its keys is what the tree holds. */
    static lemma {:induction false} LeafEntries(nodes: Nodes, info: Infos, root: int, contents: map<int, int>, y: int)
      requires Holds(nodes, info, root, contents) && y in nodes && y in info && info[y].level == 0
      ensures nodes[y].Valid()
      ensures forall i :: 0 <= i < |nodes[y].keys| ==>
                nodes[y].keys[i].order in contents && contents[nodes[y].keys[i].order] == nodes[y].values[i]
      ensures forall i :: 0 <= i < |nodes[y].values| ==> Owned(contents, nodes[y].values[i])
    {
      hide Lookup, ChildrenOk, ParentOk, LinksOk;
      TreeShape.Ok(nodes, info, root, y);
      forall i | 0 <= i < |nodes[y].keys|
        ensures nodes[y].keys[i].order in contents && contents[nodes[y].keys[i].order] == nodes[y].values[i]
        ensures Owned(contents, nodes[y].values[i])
      {
        var k := nodes[y].keys[i].order;
        assert info[y].Covers(k);
        PositionUnique(nodes[y].keys, k, i);
        AtLeaf(nodes, info, root, contents, y, k);
      }
    }

    /** BPlusTree::Insert on a tree that allows duplicates.  The first value of a key stands
        in the leaf as it is, and is taken for a link if it looks like one. */
    method Insert(key: Key, value: int, junk: seq<int>) returns (status: Status)
      requires Valid() && IsWord(value) && |junk| == NODE_WORDS && tree.maximumSize < TYPE_UNIT
      modifies this, tree
      ensures status != SplitFails && !(status == Ok && key.order !in old(Contents()) && IsDuplicate(value)) ==> Valid()
      ensures status == Ok && key.order !in old(Contents()) && IsDuplicate(value) ==>
                tree.Valid() && tree.contents == old(tree.contents)[key.order := value]
      ensures status == BadValue <==> !LengthOk(key)
      ensures status == SplitFails <==> LengthOk(key) && key.order !in old(Contents())
                                        && Overruns(old(tree.nodes), old(tree.info), old(tree.root), key)
      ensures status == Ok || status == BadValue || status == SplitFails
      ensures status == BadValue ==> Contents() == old(Contents())
      ensures status == Ok && key.order !in old(Contents()) && !IsDuplicate(value) ==>
                Contents() == old(Contents())[key.order := multiset{value}]
      ensures status == Ok && key.order in old(Contents()) ==>
                Contents() == old(Contents())[key.order := old(Contents())[key.order] + multiset{value}]
      ensures old(NothingLost()) ==> NothingLost()
    {
      hide NodesUsed, Uses, DuplicatesOk, Holds, AllFit, StoreOk, NoneLost, LinkType, Owned, Overruns;
      if key.length < MIN_KEY_LENGTH || key.length > MAX_KEY_LENGTH {
        return BadValue;
      }
      var y := tree.Descend(key.order);
      AtLeaf(tree.nodes, tree.info, tree.root, tree.contents, y, key.order);
      LeafEntries(tree.nodes, tree.info, tree.root, tree.contents, y);
      var found, index, _ := FindKey(tree.nodes[y], key.order);
      if found {
        InsertDuplicate(y, index, key.order, value, junk);
      } else {
        if !IsDuplicate(value) {
          NewKey(tree.duplicates, fragments, tree.contents, chains, key.order, value);
        }
        status := tree.Insert(key, value);
        if status == SplitFails {
          return;
        }
        OtherKeysUse(tree.duplicates.Keys, old(tree.contents), chains, tree.contents, chains[key.order := []], key.order);
        chains := chains[key.order := []];
      }
      status := Ok;
    }
  
    /** Takes one occurrence of a value out of a slot. */
    static method ReducedSlot(words: seq<int>, j: nat, value: int, behind: int) returns (words': seq<int>, found: bool)
      requires SlotOk(words, j) && IsWord(value)
      ensures found <==> Finds(SlotValues(words, j), value)
      ensures !found ==> words' == words
      ensures found ==> |words'| == NODE_WORDS && IsArray(words', SLOT_WORDS * j) && OnlySlot(words, words', j)
      ensures found ==> SlotCount(words', j) == SlotCount(words, j) - 1
      ensures found ==> multiset(Values(words', SLOT_WORDS * j)) + multiset{value} == multiset(SlotValues(words, j))
    {
      hide Ascending, LessOne, OnlySlot, Finds;
      var padded := words + [behind];
      var node := new int[NODE_WORDS + 1](i requires 0 <= i <= NODE_WORDS => padded[i]);
      assert node[..] == padded;
      assert Values(padded, SLOT_WORDS * j) == SlotValues(words, j);
      found := RemoveValue(node, SLOT_WORDS * j, value);
      if found {
        SlotLess(words, behind, node[..], j, value);
      }
      words' := node[..NODE_WORDS];
      assert words' == node[..][..NODE_WORDS];
    }

    /** The fragment branch of BPlusTree::RemoveDuplicate: one occurrence of the value is
        taken out if it is found, and a value that is left alone goes back into the leaf,
        where it is `linked` if it looks like a link.  `behind` is the word behind the node. */
    method RemoveFromFragment(y: int, index: nat, ghost k: int, value: int, behind: int) returns (linked: bool)
      requires Valid() && IsEntry(y, index, k) && IsFragment(tree.contents[k]) && IsWord(value)
      modifies this, tree
      ensures k in old(Contents())
      ensures linked <==> LeavesLink(Taken(old(Contents())[k], value))
      ensures !linked ==> Valid() && Contents() == old(Contents())[k := Taken(old(Contents())[k], value)]
      ensures linked ==> tree.Valid() && exists v :: Taken(old(Contents())[k], value) == multiset{v}
                                                   && tree.contents == old(tree.contents)[k := v]
      ensures old(NothingLost()) ==> NothingLost()
    {
      hide NodesUsed, Uses, DuplicatesOk, Holds, AllFit, StoreOk, NoneLost, LinkType, SlotOk, OnlySlot, IsDuplicate, FragmentOffset, FragmentIndex, IsArray, Finds,
        LeavesLink;
      var oldValue := tree.nodes[y].values[index];
      var o, j := FragmentOffset(oldValue), FragmentIndex(oldValue);
      FragmentFacts(k);
      var words := tree.duplicates[o];
      var words', found := ReducedSlot(words, j, value, behind);
      FragmentBag(k);
      SlotTaken(words, j, value);
      if SlotCount(words', j) == 1 {
        var rest := words'[SLOT_WORDS * j + 1];
        LastLeft(words, words', j, value);
        GiveUpSlot(y, index, k, o, j, words', rest, value);
        OneLeft(Taken(old(Contents())[k], value), rest);
        return IsDuplicate(rest);
      }
      ManyLeft(Taken(old(Contents())[k], value));
      if found {
        SlotReduced(words, words', j, value);
        ShrinkSlot(k, o, j, words', value);
      } else {
        tree.SetDuplicateNode(o, words');
        assert tree.duplicates == old(tree.duplicates);
      }
      linked := false;
    }

    /** A slot that keeps two values or more. */
    method ShrinkSlot(ghost k: int, o: int, j: nat, words: seq<int>, ghost value: int)
      requires Valid() && k in tree.contents && IsFragment(tree.contents[k])
      requires o == FragmentOffset(tree.contents[k]) && j == FragmentIndex(tree.contents[k]) && j < SLOTS
      requires o in tree.duplicates && SlotOk(tree.duplicates[o], j) && OnlySlot(tree.duplicates[o], words, j)
      requires SlotOk(words, j) && SlotCount(words, j) >= 2
      requires multiset(SlotValues(words, j)) == multiset(SlotValues(tree.duplicates[o], j)) - multiset{value}
      modifies tree`duplicates
      ensures Valid() && k in old(Contents()) && Contents() == old(Contents())[k := old(Contents())[k] - multiset{value}]
      ensures old(NothingLost()) ==> NothingLost()
    {
      hide NodesUsed, Uses, DuplicatesOk, Holds, AllFit, StoreOk, NoneLost, LinkType, SlotOk, OnlySlot, FragmentOffset, FragmentIndex, SlotValues, SlotCount;
      SlotShrinks(tree.duplicates, fragments, tree.contents, chains, k, o, j, words, value);
      tree.SetDuplicateNode(o, words);
      assert tree.duplicates.Keys == old(tree.duplicates).Keys;
    }

    static lemma {:induction false} OneLeft(bag: multiset<int>, v: int)
      requires bag == multiset{v}
      ensures LeavesLink(bag) <==> IsDuplicate(v)
    {
      forall x | bag == multiset{x}
        ensures x == v
      {
        assert x in multiset{v};
      }
    }

    static lemma {:induction false} ManyLeft(bag: multiset<int>)
      requires |bag| > 1
      ensures !LeavesLink(bag)
    {
    }

    /** What is taken from a slot in terms of its values. */
    static lemma {:induction false} SlotTaken(words: seq<int>, j: nat, value: int)
      requires SlotOk(words, j) && IsWord(value)
      ensures var vs := SlotValues(words, j);
              && |multiset(vs)| == SlotCount(words, j)
              && Taken(multiset(vs), value) == (if Finds(vs, value) then multiset(vs) - multiset{value} else multiset(vs))
              && (Finds(vs, value) ==> value in vs)
              && |Taken(multiset(vs), value)| == SlotCount(words, j) - if Finds(vs, value) then 1 else 0
    {
      hide Finds;
      var vs := SlotValues(words, j);
      InOrderUnique(InOrder(multiset(vs)), vs);
      FindsExactly(vs, value);
    }

    /** Puts the value that is left back into the leaf and frees the slot, or the node if no
        other slot is in use. */
    method GiveUpSlot(y: int, index: nat, ghost k: int, o: int, j: nat, words: seq<int>, rest: int, ghost value: int)
      requires Valid() && IsEntry(y, index, k) && IsFragment(tree.contents[k]) && IsWord(rest)
      requires o == FragmentOffset(tree.contents[k]) && j == FragmentIndex(tree.contents[k]) && j < SLOTS
      requires o in tree.duplicates && o in fragments && SlotOk(tree.duplicates[o], j)
      requires OnlySlot(tree.duplicates[o], words, j) && SlotCount(words, j) == 1
      requires multiset{rest} == multiset(SlotValues(tree.duplicates[o], j)) - multiset{value}
      modifies this, tree
      ensures tree.Valid() && chains == old(chains) && tree.contents == old(tree.contents)[k := rest]
      ensures !IsDuplicate(rest) ==> TakenOut(old(tree.duplicates), old(fragments), old(tree.contents), chains,
                       tree.duplicates, fragments, tree.contents, k, value)
      ensures old(NothingLost()) ==> NothingLost()
    {
      hide NodesUsed, Uses, DuplicatesOk, Holds, AllFit, StoreOk, NoneLost, LinkType, SlotOk, OnlySlot, IsDuplicate, FragmentOffset, FragmentIndex, IsArray, TakenOut, SlotValues;
      OnlySlotLength(tree.duplicates[o], words, j);
      var used := FragmentsUsed(words);
      if used == 1 {
        if !IsDuplicate(rest) {
          SlotIsOnly(tree.duplicates, fragments, tree.contents, chains, o, j, words);
          NodeToPlain(tree.duplicates, fragments, tree.contents, chains, k, o, j, rest, value);
        }
        tree.FreeDuplicateNode(o);
        fragments := fragments - {o};
      } else {
        CountCleared(tree.duplicates[o], words, j);
        if !IsDuplicate(rest) {
          SlotToPlain(tree.duplicates, fragments, tree.contents, chains, k, o, j, words[SLOT_WORDS * j := 0], rest, value);
        }
        tree.SetDuplicateNode(o, words[SLOT_WORDS * j := 0]);
      }
      OthersInUse(old(tree.duplicates)[o], words, j, used);
      SlotGivenUp(old(tree.duplicates), old(fragments), tree.contents, chains, k, o, j, tree.duplicates.Keys, rest, []);
      ChainIsEmpty(old(tree.duplicates), old(fragments), tree.contents, chains, k);
      tree.SetValue(y, index, rest);
    }

    static lemma {:induction false} ChainIsEmpty(blocks: Blocks, fragments: set<int>, links: map<int, int>, chains: Chains, k: int)
      requires DuplicatesOk(blocks, fragments, links, chains) && k in links && IsFragment(links[k])
      ensures k in chains && chains[k] == [] && chains[k := []] == chains
    {
      assert KeyOk(blocks, fragments, links[k], chains[k]);
    }

    static lemma {:induction false} OthersInUse(words: seq<int>, words': seq<int>, j: nat, used: nat)
      requires j < SLOTS && OnlySlot(words, words', j) && SlotCount(words', j) == 1
      requires used == 0 ==> forall i :: 0 <= i < SLOTS ==> SlotCount(words', i) <= 0
      requires used >= 2 ==> exists i, m :: 0 <= i < m < SLOTS && SlotCount(words', i) > 0 && SlotCount(words', m) > 0
      ensures used != 1 ==> exists i :: 0 <= i < SLOTS && i != j && SlotCount(words, i) != 0
    {
      hide SlotCount, SameSlot;
      if used >= 2 {
        var i: int, m: int :| 0 <= i < m < SLOTS && SlotCount(words', i) > 0 && SlotCount(words', m) > 0;
        var n := if i == j then m else i;
        SlotRead(words, words', n);
      }
    }

    static lemma {:induction false} OnlySlotLength(words: seq<int>, words': seq<int>, j: nat)
      requires OnlySlot(words, words', j)
      ensures |words'| == NODE_WORDS
    {
    }

    lemma {:induction false} FragmentBag(k: int)
      requires Valid() && k in tree.contents && IsFragment(tree.contents[k])
      ensures var o, j := FragmentOffset(tree.contents[k]), FragmentIndex(tree.contents[k]);
              && o in tree.duplicates && SlotOk(tree.duplicates[o], j) && SlotCount(tree.duplicates[o], j) >= 2
              && Contents()[k] == multiset(SlotValues(tree.duplicates[o], j))
    {
      assert KeyOk(tree.duplicates, fragments, tree.contents[k], chains[k]);
    }

    static lemma {:induction false} SlotReduced(words: seq<int>, words': seq<int>, j: nat, value: int)
      requires SlotOk(words, j) && |words'| == NODE_WORDS && IsArray(words', SLOT_WORDS * j)
      requires SlotCount(words', j) == SlotCount(words, j) - 1 >= 1
      requires multiset(Values(words', SLOT_WORDS * j)) + multiset{value} == multiset(SlotValues(words, j))
      ensures SlotOk(words', j) && multiset(SlotValues(words', j)) == multiset(SlotValues(words, j)) - multiset{value}
    {
    }

    static lemma {:induction false} LastLeft(words: seq<int>, words': seq<int>, j: nat, value: int)
      requires SlotOk(words, j) && |words'| == NODE_WORDS && IsArray(words', SLOT_WORDS * j)
      requires SlotCount(words', j) == SlotCount(words, j) - 1 == 1
      requires multiset(Values(words', SLOT_WORDS * j)) + multiset{value} == multiset(SlotValues(words, j))
      ensures var rest := words'[SLOT_WORDS * j + 1];
              rest in SlotValues(words, j) && IsWord(rest) && multiset{rest} == multiset(SlotValues(words, j)) - multiset{value}
    {
      var rest := words'[SLOT_WORDS * j + 1];
      assert Values(words', SLOT_WORDS * j) == [rest];
      assert rest in multiset(SlotValues(words, j));
    }

    static lemma {:induction false} CountCleared(words: seq<int>, words': seq<int>, j: nat)
      requires j < SLOTS && OnlySlot(words, words', j)
      ensures SlotCount(words'[SLOT_WORDS * j := 0], j) == 0 && OnlySlot(words, words'[SLOT_WORDS * j := 0], j)
    {
      InsideSlot(words', words'[SLOT_WORDS * j := 0], j);
      OnlySlotTwice(words, words', words'[SLOT_WORDS * j := 0], j);
    }

    static lemma {:induction false} SlotIsOnly(blocks: Blocks, fragments: set<int>, links: map<int, int>, chains: Chains,
                                               o: int, j: nat, words: seq<int>)
      requires DuplicatesOk(blocks, fragments, links, chains) && o in fragments && o in blocks && SlotOk(blocks[o], j)
      requires j < SLOTS && OnlySlot(blocks[o], words, j) && SlotCount(words, j) > 0
      requires forall i, j :: 0 <= i < j < SLOTS ==> SlotCount(words, i) <= 0 || SlotCount(words, j) <= 0
      ensures forall i :: 0 <= i < SLOTS && i != j ==> SlotCount(blocks[o], i) == 0
    {
      hide SlotCount, SameSlot, SlotOk, DuplicatesOk;
      assert forall i :: 0 <= i < SLOTS && i != j ==> SlotCount(blocks[o], i) <= 0 by {
        forall i | 0 <= i < SLOTS && i != j
          ensures SlotCount(blocks[o], i) <= 0
        {
          SlotRead(blocks[o], words, i);
        }
      }
      OnlySlotUsed(blocks, fragments, links, chains, o, j);
    }

    /** BPlusTree::Remove on a tree that allows duplicates, for a key whose values are not in
        nodes of their own.  The only value of a key goes with the key, whichever is named. */
    method Remove(key: Key, value: int, behind: int) returns (status: Status, linked: bool)
      requires Valid() && IsWord(value)
      requires LengthOk(key) && key.order in Contents() ==> |Contents()[key.order]| <= NUM_FRAGMENT_VALUES
      modifies this, tree
      ensures status == BadValue <==> !LengthOk(key)
      ensures status == EntryNotFound <==> LengthOk(key) && key.order !in old(Contents())
      ensures status == Ok || status == BadValue || status == EntryNotFound
      ensures linked <==> status == Ok && |old(Contents())[key.order]| > 1 && LeavesLink(Taken(old(Contents())[key.order], value))
      ensures !linked ==> Valid() && Contents() == MultiAfter(old(Contents()), Take(key, value))
      ensures linked ==> tree.Valid() && exists v :: Taken(old(Contents())[key.order], value) == multiset{v}
                                                   && tree.contents == old(tree.contents)[key.order := v]
      ensures old(NothingLost()) ==> NothingLost()
    {
      hide NodesUsed, Uses, DuplicatesOk, Holds, AllFit, StoreOk, NoneLost, LinkType, IsDuplicate, Taken, LeavesLink;
      linked := false;
      if key.length < MIN_KEY_LENGTH || key.length > MAX_KEY_LENGTH {
        return BadValue, linked;
      }
      var y := tree.Descend(key.order);
      AtLeaf(tree.nodes, tree.info, tree.root, tree.contents, y, key.order);
      var found, index, _ := FindKey(tree.nodes[y], key.order);
      if !found {
        return EntryNotFound, linked;
      }
      StorageBySize(tree.duplicates, fragments, tree.contents, chains, key.order);
      if IsDuplicate(tree.nodes[y].values[index]) {
        linked := RemoveFromFragment(y, index, key.order, value, behind);
        return Ok, linked;
      }
      KeyGone(tree.duplicates, fragments, tree.contents, chains, key.order);
      PlainUsesNone(key.order);
      status := tree.Remove(key);
      OtherKeysUse(tree.duplicates.Keys, old(tree.contents), chains, tree.contents, chains - {key.order}, key.order);
      chains := chains - {key.order};
    }

    /** One update, unless it is one to stop at. */
    method Perform(u: Update, junk: seq<int>, behind: int) returns (stopped: bool)
      requires Valid() && IsWord(u.value) && |junk| == NODE_WORDS
      modifies this, tree
      ensures stopped <==> Stops(Snapshot(old(tree.nodes), old(tree.info), old(tree.root)), old(tree.maximumSize), old(Contents()), u)
      ensures !stopped ==> Valid() && Contents() == MultiAfter(old(Contents()), u)
      ensures old(NothingLost()) ==> NothingLost()
    {
      hide NodesUsed, Uses, DuplicatesOk, Holds, AllFit, StoreOk, NoneLost, LinkType, IsDuplicate, Taken, LeavesLink, Overruns;
      if !LengthOk(u.key) {
        return false;
      }
      var there, word := tree.Find(u.key);
      match u {
        case Add(key, value) =>
          if tree.maximumSize >= TYPE_UNIT {
            return true;
          }
          var status := Insert(key, value, junk);
          stopped := status == SplitFails || (there != Ok && IsDuplicate(value));
          if there != Ok {
            assert multiset{} + multiset{value} == multiset{value};
          }
        case Take(key, value) =>
          if there == Ok {
            StorageBySize(tree.duplicates, fragments, tree.contents, chains, key.order);
            if IsDuplicate(word) && LinkType(word) != DUPLICATE_FRAGMENT {
              return true;
            }
          }
          var status;
          status, stopped := Remove(key, value, behind);
      }
    }

    /** Any run of updates has the effect it has on a plain multimap.  It ends early exactly
        at the first update to stop at; `before` is the tree in front of it. */
    method Run(updates: seq<Update>, junk: seq<seq<int>>, behind: int)
      returns (done: nat, ghost m: map<int, multiset<int>>, ghost before: Snapshot, ghost maximumSize: int)
      requires Valid() && |junk| == |updates|
      requires forall i :: 0 <= i < |updates| ==> IsWord(updates[i].value) && |junk[i]| == NODE_WORDS
      modifies this, tree
      ensures done <= |updates| && m == MultiRun(old(Contents()), updates[..done])
      ensures done == |updates| ==> Valid() && Contents() == m
      ensures done < |updates| ==> Stops(before, maximumSize, m, updates[done])
      ensures old(NothingLost()) ==> NothingLost()
    {
      hide NothingLost, DuplicatesOk, Holds, AllFit, StoreOk, NoneLost, MultiAfter, Stops, Stored, IsWord;
      done, m := 0, Contents();
      before, maximumSize := Snapshot(tree.nodes, tree.info, tree.root), tree.maximumSize;
      while done < |updates|
        invariant done <= |updates| && Valid() && Contents() == m
        invariant m == MultiRun(old(Contents()), updates[..done])
        invariant old(NothingLost()) ==> NothingLost()
      {
        assert updates[..done + 1][..done] == updates[..done];
        before, maximumSize := Snapshot(tree.nodes, tree.info, tree.root), tree.maximumSize;
        var stopped := Perform(updates[done], junk[done], behind);
        if stopped {
          return;
        }
        m := Contents();
        done := done + 1;
      }
    }
  }
}
