/** The promotions of a key's values: single value, slot of a fragment node, node of its
own, longer chain.  Each adds one value to one key. */
module DuplicateSteps {
  import opened SortedArrays
  import opened Links
  import opened Words
  import opened DuplicateLists
  import opened TreeNode
  import opened DuplicateOwners

  /** The key has one value more; everything else is stored as before. */
  ghost predicate Added(blocks: Blocks, fragments: set<int>, links: map<int, int>, chains: Chains,
                        blocks': Blocks, fragments': set<int>, links': map<int, int>, chains': Chains, k: int, value: int) {
    && DuplicatesOk(blocks, fragments, links, chains)
    && DuplicatesOk(blocks', fragments', links', chains')
    && k in links
    && var m := Stored(blocks, fragments, links, chains);
       Stored(blocks', fragments', links', chains') == m[k := m[k] + multiset{value}]
  }

  // ---------- what the other keys keep ----------

  /** A slot that no other key owns may change, and new nodes may appear. */
  lemma {:induction false} OthersBesideSlot(blocks: Blocks, fragments: set<int>, links: map<int, int>, chains: Chains,
                                            blocks': Blocks, fragments': set<int>, k: int, o: int, j: nat)
    requires DuplicatesOk(blocks, fragments, links, chains)
    requires o in fragments && j < SLOTS && o in blocks' && OnlySlot(blocks[o], blocks'[o], j)
    requires SlotCount(blocks[o], j) == 0 || (k in links && links[k] == MakeLink(DUPLICATE_FRAGMENT, o, j))
    requires forall x :: x in blocks && x != o ==> x in blocks' && blocks'[x] == blocks[x]
    requires fragments <= fragments' && forall x :: x in fragments' ==> x in fragments || x !in blocks
    ensures forall k2 :: k2 in links && k2 != k ==> Untouched(blocks, blocks', fragments', links[k2], chains[k2])
  {
    hide LinkType, FragmentOffset, FragmentIndex, MakeLink, IsWord, IsOffset, SameSlot, ListOk, Values, Ascending, SlotsOwned, IsArray;
    forall k2 | k2 in links && k2 != k
      ensures Untouched(blocks, blocks', fragments', links[k2], chains[k2])
    {
      var w, chain := links[k2], chains[k2];
      assert KeyOk(blocks, fragments, w, chain);
      assert forall x :: x in chain ==> x in blocks && x !in fragments;
      if IsFragment(w) {
        PartsMakeLink(w);
        assert IsFragment(w) ==> IsDuplicate(w);
        if FragmentOffset(w) == o {
          assert k in links ==> Apart(links[k], chains[k], w, chain);
          assert SameSlot(blocks[o], blocks'[o], FragmentIndex(w));
        } else {
          assert SameSlot(blocks[FragmentOffset(w)], blocks'[FragmentOffset(w)], FragmentIndex(w)) by {
            SameSlotSelf(blocks[FragmentOffset(w)], FragmentIndex(w));
          }
        }
      }
    }
  }

  lemma {:induction false} SameSlotSelf(words: seq<int>, j: nat)
    requires |words| == NODE_WORDS && j < SLOTS
    ensures SameSlot(words, words, j)
  {
  }

  /** A key's own nodes may change, and new nodes may appear. */
  lemma {:induction false} OthersBesideChain(blocks: Blocks, fragments: set<int>, links: map<int, int>, chains: Chains,
                                             blocks': Blocks, k: int)
    requires DuplicatesOk(blocks, fragments, links, chains) && k in links
    requires forall x :: x in blocks && x !in chains[k] ==> x in blocks' && blocks'[x] == blocks[x]
    ensures forall k2 :: k2 in links && k2 != k ==> Untouched(blocks, blocks', fragments, links[k2], chains[k2])
    ensures forall x :: x in fragments ==> x in blocks' && blocks'[x] == blocks[x]
    ensures FragmentsOk(blocks', fragments)
  {
    hide LinkType, FragmentOffset, FragmentIndex, MakeLink, IsWord, IsOffset, SameSlot, ListOk, SlotsOwned, IsArray;
    assert KeyOk(blocks, fragments, links[k], chains[k]);
    forall k2 | k2 in links && k2 != k
      ensures Untouched(blocks, blocks', fragments, links[k2], chains[k2])
    {
      var w, chain := links[k2], chains[k2];
      assert KeyOk(blocks, fragments, w, chain);
      assert Apart(links[k2], chains[k2], links[k], chains[k]);
      assert forall x :: x in chain ==> x in blocks && x !in fragments;
      if IsFragment(w) {
        SameSlotSelf(blocks[FragmentOffset(w)], FragmentIndex(w));
      }
    }
  }

  // ---------- who owns the slots ----------

  lemma {:induction false} OwnedStill(links: map<int, int>, k: int, w: int, link: int)
    requires Owned(links, link) && (k in links && links[k] == link ==> w == link)
    ensures Owned(links[k := w], link)
  {
    var k2 :| k2 in links && links[k2] == link;
    assert links[k := w][k2] == link;
  }

  /** Slot `j` of node `o` now belongs to `k`, or to no one; the other slots are as before. */
  lemma {:induction false} SlotsOwnedBeside(blocks: Blocks, fragments: set<int>, links: map<int, int>, blocks': Blocks,
                                            k: int, w: int, o: int, j: nat)
    requires FragmentsOk(blocks, fragments) && SlotsOwned(blocks, fragments, links)
    requires FragmentsOk(blocks', fragments)
    requires o in fragments && j < SLOTS && OnlySlot(blocks[o], blocks'[o], j)
    requires forall x :: x in fragments && x != o ==> blocks'[x] == blocks[x]
    requires SlotCount(blocks'[o], j) == 0 || w == MakeLink(DUPLICATE_FRAGMENT, o, j)
    requires k in links && (IsFragment(links[k]) ==> links[k] == MakeLink(DUPLICATE_FRAGMENT, o, j))
    ensures SlotsOwned(blocks', fragments, links[k := w])
  {
    hide LinkType, FragmentOffset, FragmentIndex, MakeLink, IsWord, IsOffset, SameSlot, SlotCount, Owned;
    var links' := links[k := w];
    forall x, i | x in fragments && 0 <= i < SLOTS && SlotCount(blocks'[x], i) != 0
      ensures Owned(links', MakeLink(DUPLICATE_FRAGMENT, x, i))
    {
      if x == o && i == j {
        assert Owned(links', w) by {
          IsOwner(links', k);
        }
      } else {
        if x == o {
          SlotRead(blocks[o], blocks'[o], i);
        }
        assert IsOffset(x) && IsOffset(o);
        LinkParts(DUPLICATE_FRAGMENT, x, i);
        LinkParts(DUPLICATE_FRAGMENT, o, j);
        OwnedStill(links, k, w, MakeLink(DUPLICATE_FRAGMENT, x, i));
      }
    }
  }

  lemma {:induction false} IsOwner(links: map<int, int>, k: int)
    requires k in links
    ensures Owned(links, links[k])
  {
  }

  lemma {:induction false} SlotsOwnedSame(blocks: Blocks, fragments: set<int>, links: map<int, int>, blocks': Blocks, k: int, w: int)
    requires FragmentsOk(blocks, fragments) && SlotsOwned(blocks, fragments, links)
    requires FragmentsOk(blocks', fragments)
    requires forall x :: x in fragments ==> blocks'[x] == blocks[x]
    requires k in links ==> !IsFragment(links[k]) || links[k] == w
    ensures SlotsOwned(blocks', fragments, links[k := w])
  {
    hide FragmentOffset, FragmentIndex, MakeLink, IsWord, SlotCount, Owned, LinkType;
    forall x, i | x in fragments && 0 <= i < SLOTS && SlotCount(blocks'[x], i) != 0
      ensures Owned(links[k := w], MakeLink(DUPLICATE_FRAGMENT, x, i))
    {
      LinkParts(DUPLICATE_FRAGMENT, x, i);
      OwnedStill(links, k, w, MakeLink(DUPLICATE_FRAGMENT, x, i));
    }
  }

  // ---------- the promotions ----------

  lemma {:induction false} Conclude(blocks: Blocks, fragments: set<int>, links: map<int, int>, chains: Chains,
                                    blocks': Blocks, fragments': set<int>, k: int, w: int, chain: seq<int>, value: int)
    requires DuplicatesOk(blocks, fragments, links, chains) && k in links
    requires FragmentsOk(blocks', fragments') && SlotsOwned(blocks', fragments', links[k := w])
    requires KeyOk(blocks', fragments', w, chain)
    requires Bag(blocks', fragments', w, chain) == Bag(blocks, fragments, links[k], chains[k]) + multiset{value}
    requires forall k2 :: k2 in links && k2 != k ==> Untouched(blocks, blocks', fragments', links[k2], chains[k2])
    requires forall k2 :: k2 in links && k2 != k ==> Apart(links[k2], chains[k2], w, chain)
    ensures Added(blocks, fragments, links, chains, blocks', fragments', links[k := w], chains[k := chain], k, value)
  {
    hide KeyOk, Bag, SlotsOwned, Untouched, Apart, FragmentsOk, AllApart;
    OneKeyMoves(blocks, fragments, links, chains, blocks', fragments', k, w, chain);
  }

  /** A new key with a plain value. */
  lemma {:induction false} NewKey(blocks: Blocks, fragments: set<int>, links: map<int, int>, chains: Chains, k: int, value: int)
    requires DuplicatesOk(blocks, fragments, links, chains) && k !in links && !IsDuplicate(value) && IsWord(value)
    ensures DuplicatesOk(blocks, fragments, links[k := value], chains[k := []])
    ensures Stored(blocks, fragments, links[k := value], chains[k := []])
            == Stored(blocks, fragments, links, chains)[k := multiset{value}]
  {
    hide LinkType, SameSlot, ChainOk, SlotOk, SlotsOwned, ListOk;
    forall k2 | k2 in links && k2 != k
      ensures Untouched(blocks, blocks, fragments, links[k2], chains[k2])
    {
      Unchanged(blocks, fragments, links[k2], chains[k2]);
    }
    assert SlotsOwned(blocks, fragments, links[k := value]) by {
      SlotsOwnedSame(blocks, fragments, links, blocks, k, value);
    }
    OneKeyMoves(blocks, fragments, links, chains, blocks, fragments, k, value, []);
  }

  lemma {:induction false} Unchanged(blocks: Blocks, fragments: set<int>, w: int, chain: seq<int>)
    requires KeyOk(blocks, fragments, w, chain)
    ensures Untouched(blocks, blocks, fragments, w, chain)
  {
    hide ListOk, LinkType, IsArray;
    if IsFragment(w) {
      SameSlotSelf(blocks[FragmentOffset(w)], FragmentIndex(w));
    }
  }

  lemma {:induction false} FragmentKeyOk(blocks: Blocks, fragments: set<int>, o: int, j: nat)
    requires o in fragments && o in blocks && IsOffset(o) && j < SLOTS && SlotOk(blocks[o], j) && SlotCount(blocks[o], j) >= 2
    ensures var w := MakeLink(DUPLICATE_FRAGMENT, o, j);
            && IsFragment(w) && KeyOk(blocks, fragments, w, [])
            && Bag(blocks, fragments, w, []) == multiset(SlotValues(blocks[o], j))
  {
    hide LinkType, FragmentOffset, FragmentIndex, MakeLink, IsWord, SlotOk, SlotValues, SlotCount;
    LinkParts(DUPLICATE_FRAGMENT, o, j);
    assert IsWord(MakeLink(DUPLICATE_FRAGMENT, o, j));
  }

  /** A single value becomes two values in a free slot of a shared node. */
  lemma {:induction false} PlainToSlot(blocks: Blocks, fragments: set<int>, links: map<int, int>, chains: Chains,
                                       k: int, o: int, j: nat, value: int)
    requires DuplicatesOk(blocks, fragments, links, chains) && k in links && !IsDuplicate(links[k]) && IsWord(value)
    requires o in fragments && o in blocks && |blocks[o]| == NODE_WORDS && j < SLOTS && SlotCount(blocks[o], j) == 0
    ensures IsWord(links[k])
    ensures Added(blocks, fragments, links, chains,
                  blocks[o := SlotOpened(blocks[o], j, links[k], value)], fragments,
                  links[k := MakeLink(DUPLICATE_FRAGMENT, o, j)], chains[k := []], k, value)
  {
    hide LinkType, FragmentOffset, FragmentIndex, MakeLink, IsOffset, SlotOk, SlotCount, SlotValues, OnlySlot, SlotsOwned, Untouched, Added;
    assert KeyOk(blocks, fragments, links[k], chains[k]);
    var words' := SlotOpened(blocks[o], j, links[k], value);
    SlotOpens(blocks[o], j, links[k], value);
    var blocks' := blocks[o := words'];
    hide SlotOpened;
    var w := MakeLink(DUPLICATE_FRAGMENT, o, j);
    assert KeyOk(blocks, fragments, links[k], chains[k]);
    assert FragmentsOk(blocks', fragments);
    FragmentKeyOk(blocks', fragments, o, j);
    OthersBesideSlot(blocks, fragments, links, chains, blocks', fragments, k, o, j);
    SlotsOwnedBeside(blocks, fragments, links, blocks', k, w, o, j);
    forall k2 | k2 in links && k2 != k
      ensures Apart(links[k2], chains[k2], w, [])
    {
      FreeSlotApart(blocks, fragments, links[k2], chains[k2], o, j);
    }
    Conclude(blocks, fragments, links, chains, blocks', fragments, k, w, [], value);
  }

  lemma {:induction false} FreeSlotApart(blocks: Blocks, fragments: set<int>, w: int, chain: seq<int>, o: int, j: nat)
    requires KeyOk(blocks, fragments, w, chain) && IsOffset(o) && o in blocks && |blocks[o]| == NODE_WORDS && j < SLOTS
    requires SlotCount(blocks[o], j) == 0
    ensures Apart(w, chain, MakeLink(DUPLICATE_FRAGMENT, o, j), [])
  {
    hide LinkType, FragmentOffset, FragmentIndex, MakeLink, IsOffset, IsArray, SlotCount;
    LinkParts(DUPLICATE_FRAGMENT, o, j);
  }

  /** An empty fragment node comes into use. */
  lemma {:induction false} NewFragmentNode(blocks: Blocks, fragments: set<int>, links: map<int, int>, chains: Chains,
                                           o: int, words: seq<int>)
    requires DuplicatesOk(blocks, fragments, links, chains) && o !in blocks && IsOffset(o)
    requires |words| == NODE_WORDS && forall i :: 0 <= i < NODE_WORDS ==> words[i] == 0
    ensures DuplicatesOk(blocks[o := words], fragments + {o}, links, chains)
    ensures Stored(blocks[o := words], fragments + {o}, links, chains) == Stored(blocks, fragments, links, chains)
  {
    hide LinkType, FragmentOffset, FragmentIndex, MakeLink, SameSlot, Owned, SlotOk, Bag, ListOk;
    var blocks', fragments' := blocks[o := words], fragments + {o};
    forall k | k in links
      ensures KeyOk(blocks', fragments', links[k], chains[k])
      ensures Bag(blocks', fragments', links[k], chains[k]) == Bag(blocks, fragments, links[k], chains[k])
    {
      Unchanged(blocks, fragments, links[k], chains[k]);
      UntouchedKeeps(blocks, blocks', fragments, fragments', links[k], chains[k]);
    }
  }

  /** One more value in the slot the key has. */
  lemma {:induction false} SlotGrows(blocks: Blocks, fragments: set<int>, links: map<int, int>, chains: Chains, k: int, value: int)
    requires DuplicatesOk(blocks, fragments, links, chains) && k in links && IsFragment(links[k])
    requires var o, j := FragmentOffset(links[k]), FragmentIndex(links[k]);
             o in blocks && SlotHasRoom(blocks[o], j) && IsWord(value)
    ensures var o, j := FragmentOffset(links[k]), FragmentIndex(links[k]);
            Added(blocks, fragments, links, chains,
                  blocks[o := SlotInsert(blocks[o], j, value)], fragments, links, chains, k, value)
  {
    hide LinkType, FragmentOffset, FragmentIndex, MakeLink, IsOffset, SlotOk, SlotValues, OnlySlot, SlotsOwned, Untouched, Added;
    var w := links[k];
    var o, j := FragmentOffset(w), FragmentIndex(w);
    assert KeyOk(blocks, fragments, w, chains[k]) && IsDuplicate(w) && chains[k] == [];
    assert Bag(blocks, fragments, w, []) == multiset(SlotValues(blocks[o], j));
    SlotIs(blocks[o], j);
    PartsMakeLink(w);
    SlotInserted(blocks[o], j, value);
    var blocks' := blocks[o := SlotInsert(blocks[o], j, value)];
    hide SlotInsert, SlotHasRoom, SlotCount;
    assert FragmentsOk(blocks', fragments);
    FragmentKeyOk(blocks', fragments, o, j);
    OthersBesideSlot(blocks, fragments, links, chains, blocks', fragments, k, o, j);
    SlotsOwnedBeside(blocks, fragments, links, blocks', k, w, o, j);
    assert links[k := w] == links && chains[k := []] == chains;
    Conclude(blocks, fragments, links, chains, blocks', fragments, k, w, [], value);
  }

  lemma {:induction false} SlotIs(words: seq<int>, j: nat)
    requires SlotOk(words, j)
    ensures HasRoom(words, SLOT_WORDS * j) && SlotValues(words, j) == Values(words, SLOT_WORDS * j)
  {
  }

  lemma {:induction false} SingleNode(blocks: Blocks, fragments: set<int>, o: int)
    requires o in blocks && o !in fragments && IsOffset(o)
    requires ListOk(blocks[o]) && blocks[o][LEFT] == NULL && blocks[o][RIGHT] == NULL
    requires |ListValues(blocks[o])| > NUM_FRAGMENT_VALUES
    ensures var w := MakeLink(DUPLICATE_NODE, o, 0);
            && !IsFragment(w) && KeyOk(blocks, fragments, w, [o])
            && Bag(blocks, fragments, w, [o]) == multiset(ListValues(blocks[o]))
  {
    hide LinkType, FragmentOffset, MakeLink, ListOk;
    LinkParts(DUPLICATE_NODE, o, 0);
    var chain := [o];
    assert chain[..0] == [];
    assert ChainOk(blocks, chain);
    assert ChainBag(blocks, chain[..0]) == multiset{};
  }

  /** A node with the values of a full slot and one more. */
  predicate SlotAndOne(node: seq<int>, words: seq<int>, j: nat, value: int) {
    && SlotOk(words, j) && ListOk(node) && node[LEFT] == NULL && node[RIGHT] == NULL
    && |ListValues(node)| > NUM_FRAGMENT_VALUES
    && multiset(ListValues(node)) == multiset(SlotValues(words, j)) + multiset{value}
  }

  lemma {:induction false} SlotTakenOver(node: seq<int>, words: seq<int>, j: nat, value: int)
    requires SlotOk(words, j) && TakesOver(node, SlotValues(words, j)) && SlotCount(words, j) >= NUM_FRAGMENT_VALUES
    ensures ListHasRoom(node) && SlotAndOne(ListInsert(node, value), words, j, value)
  {
    hide Ascending;
    ListInserted(node, value);
  }

  /** A node with one slot in use concerns one key only. */
  lemma {:induction false} OthersElsewhere(blocks: Blocks, fragments: set<int>, links: map<int, int>, chains: Chains,
                                           blocks': Blocks, k: int, o: int, j: nat)
    requires DuplicatesOk(blocks, fragments, links, chains) && k in links
    requires o in fragments && o in blocks && |blocks[o]| == NODE_WORDS && j < SLOTS
    requires links[k] == MakeLink(DUPLICATE_FRAGMENT, o, j)
    requires forall i :: 0 <= i < SLOTS && i != j ==> SlotCount(blocks[o], i) == 0
    requires forall x :: x in blocks && x != o ==> x in blocks' && blocks'[x] == blocks[x]
    ensures forall k2 :: k2 in links && k2 != k ==> Untouched(blocks, blocks', fragments - {o}, links[k2], chains[k2])
    ensures forall k2 :: k2 in links && k2 != k ==> o !in chains[k2]
  {
    hide LinkType, FragmentOffset, FragmentIndex, MakeLink, IsOffset, SameSlot, ListOk, IsArray, SlotsOwned, SlotCount;
    forall k2 | k2 in links && k2 != k
      ensures Untouched(blocks, blocks', fragments - {o}, links[k2], chains[k2]) && o !in chains[k2]
    {
      var w, chain := links[k2], chains[k2];
      assert KeyOk(blocks, fragments, w, chain);
      assert forall x :: x in chain ==> x in blocks && x !in fragments;
      if IsFragment(w) {
        PartsMakeLink(w);
        LinkParts(DUPLICATE_FRAGMENT, o, j);
        assert Apart(links[k], chains[k], w, chain);
        assert FragmentOffset(w) != o;
        SameSlotSelf(blocks[FragmentOffset(w)], FragmentIndex(w));
      }
    }
  }

  /** A full slot alone in its node: the node becomes the duplicate node of the key. */
  lemma {:induction false} NodeReused(blocks: Blocks, fragments: set<int>, links: map<int, int>, chains: Chains,
                                      k: int, o: int, j: nat, node: seq<int>, value: int)
    requires DuplicatesOk(blocks, fragments, links, chains) && k in links && IsFragment(links[k])
    requires o == FragmentOffset(links[k]) && j == FragmentIndex(links[k])
    requires o in blocks && SlotAndOne(node, blocks[o], j, value)
    requires forall i :: 0 <= i < SLOTS && i != j ==> SlotCount(blocks[o], i) == 0
    ensures Added(blocks, fragments, links, chains, blocks[o := node], fragments - {o},
                  links[k := MakeLink(DUPLICATE_NODE, o, 0)], chains[k := [o]], k, value)
  {
    hide LinkType, FragmentOffset, FragmentIndex, MakeLink, IsOffset, ListOk, SlotValues, SlotsOwned, Untouched, Added, SlotOk;
    var w := MakeLink(DUPLICATE_NODE, o, 0);
    assert KeyOk(blocks, fragments, links[k], chains[k]) && IsDuplicate(links[k]);
    var blocks', fragments' := blocks[o := node], fragments - {o};
    PartsMakeLink(links[k]);
    assert IsOffset(o);
    SingleNode(blocks', fragments', o);
    OthersElsewhere(blocks, fragments, links, chains, blocks', k, o, j);
    assert FragmentsOk(blocks', fragments');
    OwnedElsewhere(blocks, fragments, links, blocks', k, w, o, j);
    Conclude(blocks, fragments, links, chains, blocks', fragments', k, w, [o], value);
  }

  lemma {:induction false} OwnedElsewhere(blocks: Blocks, fragments: set<int>, links: map<int, int>, blocks': Blocks,
                                          k: int, w: int, o: int, j: nat)
    requires FragmentsOk(blocks, fragments) && SlotsOwned(blocks, fragments, links)
    requires FragmentsOk(blocks', fragments - {o}) && o in fragments && j < SLOTS
    requires k in links && links[k] == MakeLink(DUPLICATE_FRAGMENT, o, j)
    requires forall x :: x in fragments && x != o ==> blocks'[x] == blocks[x]
    ensures SlotsOwned(blocks', fragments - {o}, links[k := w])
  {
    hide LinkType, FragmentOffset, FragmentIndex, MakeLink, IsOffset, SlotCount, Owned;
    LinkParts(DUPLICATE_FRAGMENT, o, j);
    forall x, i | x in fragments - {o} && 0 <= i < SLOTS && SlotCount(blocks'[x], i) != 0
      ensures Owned(links[k := w], MakeLink(DUPLICATE_FRAGMENT, x, i))
    {
      LinkParts(DUPLICATE_FRAGMENT, x, i);
      OwnedStill(links, k, w, MakeLink(DUPLICATE_FRAGMENT, x, i));
    }
  }

  /** A full slot in a shared node: the values move to a new node and the slot is freed. */
  lemma {:induction false} SlotLeft(blocks: Blocks, fragments: set<int>, links: map<int, int>, chains: Chains,
                                    k: int, o: int, j: nat, cleared: seq<int>, n: int, node: seq<int>, value: int)
    requires DuplicatesOk(blocks, fragments, links, chains) && k in links && IsFragment(links[k])
    requires o == FragmentOffset(links[k]) && j == FragmentIndex(links[k]) && j < SLOTS
    requires o in blocks && OnlySlot(blocks[o], cleared, j) && SlotCount(cleared, j) == 0
    requires n !in blocks && IsOffset(n) && SlotAndOne(node, blocks[o], j, value)
    ensures Added(blocks, fragments, links, chains, blocks[o := cleared][n := node], fragments,
                  links[k := MakeLink(DUPLICATE_NODE, n, 0)], chains[k := [n]], k, value)
  {
    assert |cleared| == NODE_WORDS;
    hide LinkType, FragmentOffset, FragmentIndex, MakeLink, IsOffset, ListOk, SlotValues, SlotsOwned, Untouched, Added, SlotOk, OnlySlot, SlotCount;
    var w := MakeLink(DUPLICATE_NODE, n, 0);
    assert KeyOk(blocks, fragments, links[k], chains[k]) && IsDuplicate(links[k]);
    var blocks' := blocks[o := cleared][n := node];
    PartsMakeLink(links[k]);
    SingleNode(blocks', fragments, n);
    OthersBesideSlot(blocks, fragments, links, chains, blocks', fragments, k, o, j);
    assert FragmentsOk(blocks', fragments);
    SlotsOwnedBeside(blocks, fragments, links, blocks', k, w, o, j);
    forall k2 | k2 in links && k2 != k
      ensures Apart(links[k2], chains[k2], w, [n])
    {
      ChainInside(blocks, fragments, links[k2], chains[k2]);
    }
    Conclude(blocks, fragments, links, chains, blocks', fragments, k, w, [n], value);
  }

  lemma {:induction false} ChainInside(blocks: Blocks, fragments: set<int>, w: int, chain: seq<int>)
    requires KeyOk(blocks, fragments, w, chain)
    ensures forall o :: o in chain ==> o in blocks && o !in fragments
  {
  }

  /** One more value in a node of the chain that is not full. */
  lemma {:induction false} ListGrows(blocks: Blocks, fragments: set<int>, links: map<int, int>, chains: Chains,
                                     k: int, i: nat, words: seq<int>, value: int)
    requires DuplicatesOk(blocks, fragments, links, chains) && k in links && IsDuplicate(links[k]) && !IsFragment(links[k])
    requires i < |chains[k]| && chains[k][i] in blocks && ListOk(blocks[chains[k][i]]) && ListOk(words)
    requires words[LEFT] == blocks[chains[k][i]][LEFT] && words[RIGHT] == blocks[chains[k][i]][RIGHT]
    requires multiset(ListValues(words)) == multiset(ListValues(blocks[chains[k][i]])) + multiset{value}
    ensures Added(blocks, fragments, links, chains, blocks[chains[k][i] := words], fragments, links, chains, k, value)
  {
    hide LinkType, FragmentOffset, FragmentIndex, MakeLink, SlotsOwned, Untouched, Added, Apart, ListValues, ListOk;
    var w, chain := links[k], chains[k];
    assert KeyOk(blocks, fragments, w, chain);
    var blocks' := blocks[chain[i] := words];
    assert chain[i] in chain;
    ChainStays(blocks, chain, i, words);
    ChainBagChange(blocks, chain, i, words, value);
    OthersBesideChain(blocks, fragments, links, chains, blocks', k);
    assert KeyOk(blocks', fragments, w, chain);
    SlotsOwnedSame(blocks, fragments, links, blocks', k, w);
    assert links[k := w] == links && chains[k := chain] == chains;
    assert forall k2 :: k2 in links && k2 != k ==> Apart(links[k2], chains[k2], w, chain);
    Conclude(blocks, fragments, links, chains, blocks', fragments, k, w, chain, value);
  }

  lemma {:induction false} ChainStays(blocks: Blocks, chain: seq<int>, i: nat, words: seq<int>)
    requires ChainOk(blocks, chain) && i < |chain| && ListOk(words)
    requires words[LEFT] == blocks[chain[i]][LEFT] && words[RIGHT] == blocks[chain[i]][RIGHT]
    ensures ChainOk(blocks[chain[i] := words], chain)
  {
    hide IsArray;
    var blocks' := blocks[chain[i] := words];
    forall m: nat | m + 1 < |chain|
      ensures Linked(blocks', chain, m)
    {
      assert Linked(blocks, chain, m);
    }
  }

  /** A full chain gets another node. */
  lemma {:induction false} ChainGrows(blocks: Blocks, fragments: set<int>, links: map<int, int>, chains: Chains,
                                      k: int, n: int, node: seq<int>, value: int)
    requires DuplicatesOk(blocks, fragments, links, chains) && k in links && IsDuplicate(links[k]) && !IsFragment(links[k])
    requires |chains[k]| > 0 && n !in blocks && IsOffset(n)
    requires var z := chains[k][|chains[k]| - 1];
             && z in blocks && |blocks[z]| == NODE_WORDS
             && ListOk(node) && node[LEFT] == z && node[RIGHT] == NULL && multiset(ListValues(node)) == multiset{value}
    ensures var z := chains[k][|chains[k]| - 1];
            Added(blocks, fragments, links, chains, blocks[z := blocks[z][RIGHT := n]][n := node], fragments,
                  links, chains[k := chains[k] + [n]], k, value)
  {
    hide LinkType, FragmentOffset, FragmentIndex, MakeLink, SlotsOwned, Untouched, Added, ListValues, ListOk;
    var w, chain := links[k], chains[k];
    assert KeyOk(blocks, fragments, w, chain);
    var z := chain[|chain| - 1];
    var blocks', chain' := blocks[z := blocks[z][RIGHT := n]][n := node], chain + [n];
    assert z in chain;
    ChainExtends(blocks, chain, n, node);
    OthersBesideChain(blocks, fragments, links, chains, blocks', k);
    assert KeyOk(blocks', fragments, w, chain');
    SlotsOwnedSame(blocks, fragments, links, blocks', k, w);
    assert links[k := w] == links;
    forall k2 | k2 in links && k2 != k
      ensures Apart(links[k2], chains[k2], w, chain')
    {
      ChainInside(blocks, fragments, links[k2], chains[k2]);
      assert Apart(links[k2], chains[k2], w, chain);
    }
    Conclude(blocks, fragments, links, chains, blocks', fragments, k, w, chain', value);
  }

  lemma {:induction false} RightOnly(words: seq<int>, right: int)
    requires ListOk(words)
    ensures ListOk(words[RIGHT := right]) && ListValues(words[RIGHT := right]) == ListValues(words)
  {
    var words' := words[RIGHT := right];
    assert Values(words', ARRAY) == Values(words, ARRAY);
  }

  lemma {:induction false} ChainExtends(blocks: Blocks, chain: seq<int>, n: int, node: seq<int>)
    requires ChainOk(blocks, chain) && n !in blocks && IsOffset(n)
    requires ListOk(node) && node[LEFT] == chain[|chain| - 1] && node[RIGHT] == NULL
    ensures var z := chain[|chain| - 1];
            var blocks' := blocks[z := blocks[z][RIGHT := n]][n := node];
            && ChainOk(blocks', chain + [n])
            && ChainBag(blocks', chain + [n]) == ChainBag(blocks, chain) + multiset(ListValues(node))
  {
    hide ListValues;
    var m := |chain| - 1;
    var z := chain[m];
    RightOnly(blocks[z], n);
    var blocks', chain' := blocks[z := blocks[z][RIGHT := n]][n := node], chain + [n];
    assert |blocks[z]| == |node| == NODE_WORDS;
    hide ListOk;
    forall i: nat | i + 1 < |chain'|
      ensures Linked(blocks', chain', i)
    {
      if i + 1 < |chain| {
        assert Linked(blocks, chain, i);
      }
    }
    assert chain'[..m + 1] == chain;
    ChainBagSame(blocks, blocks', chain[..m]);
    assert ChainBag(blocks', chain) == ChainBag(blocks, chain);
  }

  // ---------- taking a value out of a slot ----------

  /** The key has one value less; everything else is stored as before. */
  ghost predicate TakenOut(blocks: Blocks, fragments: set<int>, links: map<int, int>, chains: Chains,
                           blocks': Blocks, fragments': set<int>, links': map<int, int>, k: int, value: int) {
    && DuplicatesOk(blocks, fragments, links, chains)
    && DuplicatesOk(blocks', fragments', links', chains)
    && k in links
    && var m := Stored(blocks, fragments, links, chains);
       Stored(blocks', fragments', links', chains) == m[k := m[k] - multiset{value}]
  }

  lemma {:induction false} ConcludeLess(blocks: Blocks, fragments: set<int>, links: map<int, int>, chains: Chains,
                                        blocks': Blocks, fragments': set<int>, k: int, w: int, value: int)
    requires DuplicatesOk(blocks, fragments, links, chains) && k in links && chains[k] == []
    requires FragmentsOk(blocks', fragments') && SlotsOwned(blocks', fragments', links[k := w])
    requires KeyOk(blocks', fragments', w, [])
    requires Bag(blocks', fragments', w, []) == Bag(blocks, fragments, links[k], chains[k]) - multiset{value}
    requires forall k2 :: k2 in links && k2 != k ==> Untouched(blocks, blocks', fragments', links[k2], chains[k2])
    requires IsFragment(w) ==> w == links[k]
    ensures TakenOut(blocks, fragments, links, chains, blocks', fragments', links[k := w], k, value)
  {
    hide KeyOk, Bag, SlotsOwned, Untouched, FragmentsOk, LinkType;
    forall k2 | k2 in links && k2 != k
      ensures Apart(links[k2], chains[k2], w, [])
    {
      assert Apart(links[k2], chains[k2], links[k], chains[k]);
    }
    OneKeyMoves(blocks, fragments, links, chains, blocks', fragments', k, w, []);
    assert chains[k := []] == chains;
  }

  /** A slot that still has two values or more after one is taken out. */
  lemma {:induction false} SlotShrinks(blocks: Blocks, fragments: set<int>, links: map<int, int>, chains: Chains,
                                       k: int, o: int, j: nat, words: seq<int>, value: int)
    requires DuplicatesOk(blocks, fragments, links, chains) && k in links && IsFragment(links[k])
    requires o == FragmentOffset(links[k]) && j == FragmentIndex(links[k]) && j < SLOTS
    requires o in blocks && SlotOk(blocks[o], j) && OnlySlot(blocks[o], words, j) && SlotOk(words, j) && SlotCount(words, j) >= 2
    requires multiset(SlotValues(words, j)) == multiset(SlotValues(blocks[o], j)) - multiset{value}
    ensures TakenOut(blocks, fragments, links, chains, blocks[o := words], fragments, links, k, value)
  {
    assert |words| == NODE_WORDS;
    hide LinkType, FragmentOffset, FragmentIndex, MakeLink, IsOffset, SlotOk, SlotValues, OnlySlot, SlotsOwned, Untouched, TakenOut, SlotCount;
    var w := links[k];
    assert KeyOk(blocks, fragments, w, chains[k]) && IsDuplicate(w) && chains[k] == [];
    PartsMakeLink(w);
    var blocks' := blocks[o := words];
    assert FragmentsOk(blocks', fragments);
    FragmentKeyOk(blocks', fragments, o, j);
    OthersBesideSlot(blocks, fragments, links, chains, blocks', fragments, k, o, j);
    SlotsOwnedBeside(blocks, fragments, links, blocks', k, w, o, j);
    assert links[k := w] == links;
    ConcludeLess(blocks, fragments, links, chains, blocks', fragments, k, w, value);
  }

  /** The last value left goes back into the leaf and the slot is free. */
  lemma {:induction false} SlotToPlain(blocks: Blocks, fragments: set<int>, links: map<int, int>, chains: Chains,
                                       k: int, o: int, j: nat, words: seq<int>, rest: int, value: int)
    requires DuplicatesOk(blocks, fragments, links, chains) && k in links && IsFragment(links[k]) && !IsDuplicate(rest) && IsWord(rest)
    requires o == FragmentOffset(links[k]) && j == FragmentIndex(links[k]) && j < SLOTS
    requires o in blocks && SlotOk(blocks[o], j) && OnlySlot(blocks[o], words, j) && SlotCount(words, j) == 0
    requires multiset{rest} == multiset(SlotValues(blocks[o], j)) - multiset{value}
    ensures TakenOut(blocks, fragments, links, chains, blocks[o := words], fragments, links[k := rest], k, value)
  {
    assert |words| == NODE_WORDS;
    hide LinkType, FragmentOffset, FragmentIndex, MakeLink, IsOffset, SlotOk, SlotValues, OnlySlot, SlotsOwned, Untouched, TakenOut, SlotCount;
    assert KeyOk(blocks, fragments, links[k], chains[k]) && IsDuplicate(links[k]) && chains[k] == [];
    PartsMakeLink(links[k]);
    var blocks' := blocks[o := words];
    assert FragmentsOk(blocks', fragments);
    OthersBesideSlot(blocks, fragments, links, chains, blocks', fragments, k, o, j);
    SlotsOwnedBeside(blocks, fragments, links, blocks', k, rest, o, j);
    ConcludeLess(blocks, fragments, links, chains, blocks', fragments, k, rest, value);
  }

  /** The same for the only slot in use: the node is given up. */
  lemma {:induction false} NodeToPlain(blocks: Blocks, fragments: set<int>, links: map<int, int>, chains: Chains,
                                       k: int, o: int, j: nat, rest: int, value: int)
    requires DuplicatesOk(blocks, fragments, links, chains) && k in links && IsFragment(links[k]) && !IsDuplicate(rest) && IsWord(rest)
    requires o == FragmentOffset(links[k]) && j == FragmentIndex(links[k]) && j < SLOTS
    requires o in blocks && SlotOk(blocks[o], j)
    requires forall i :: 0 <= i < SLOTS && i != j ==> SlotCount(blocks[o], i) == 0
    requires multiset{rest} == multiset(SlotValues(blocks[o], j)) - multiset{value}
    ensures TakenOut(blocks, fragments, links, chains, blocks - {o}, fragments - {o}, links[k := rest], k, value)
  {
    assert |blocks[o]| == NODE_WORDS;
    hide LinkType, FragmentOffset, FragmentIndex, MakeLink, IsOffset, SlotOk, SlotValues, SlotsOwned, Untouched, TakenOut, SlotCount;
    assert KeyOk(blocks, fragments, links[k], chains[k]) && IsDuplicate(links[k]) && chains[k] == [];
    PartsMakeLink(links[k]);
    var blocks' := blocks - {o};
    OthersElsewhere(blocks, fragments, links, chains, blocks', k, o, j);
    assert FragmentsOk(blocks', fragments - {o});
    OwnedElsewhere(blocks, fragments, links, blocks', k, rest, o, j);
    ConcludeLess(blocks, fragments, links, chains, blocks', fragments - {o}, k, rest, value);
  }

  /** A key with a single value is taken out of the leaf. */
  lemma {:induction false} KeyGone(blocks: Blocks, fragments: set<int>, links: map<int, int>, chains: Chains, k: int)
    requires DuplicatesOk(blocks, fragments, links, chains) && k in links && !IsDuplicate(links[k])
    ensures DuplicatesOk(blocks, fragments, links - {k}, chains - {k})
    ensures Stored(blocks, fragments, links - {k}, chains - {k}) == Stored(blocks, fragments, links, chains) - {k}
  {
    hide KeyOk, Apart, SlotCount, LinkType, MakeLink, Bag;
    var links' := links - {k};
    forall o, j | o in fragments && 0 <= j < SLOTS && SlotCount(blocks[o], j) != 0
      ensures Owned(links', MakeLink(DUPLICATE_FRAGMENT, o, j))
    {
      LinkParts(DUPLICATE_FRAGMENT, o, j);
      var k2 :| k2 in links && links[k2] == MakeLink(DUPLICATE_FRAGMENT, o, j);
      assert links'[k2] == links[k2];
    }
  }

  /** The storage of a key follows from the number of its values. */
  lemma {:induction false} StorageBySize(blocks: Blocks, fragments: set<int>, links: map<int, int>, chains: Chains, k: int)
    requires DuplicatesOk(blocks, fragments, links, chains) && k in links
    ensures var size := |Stored(blocks, fragments, links, chains)[k]|;
            && (size == 1 <==> !IsDuplicate(links[k]))
            && (2 <= size <= NUM_FRAGMENT_VALUES <==> IsFragment(links[k]))
            && (size > NUM_FRAGMENT_VALUES <==> IsDuplicate(links[k]) && !IsFragment(links[k]))
  {
    hide Ascending, ChainOk;
    assert KeyOk(blocks, fragments, links[k], chains[k]);
    if IsFragment(links[k]) {
      var vs := SlotValues(blocks[FragmentOffset(links[k])], FragmentIndex(links[k]));
      assert |multiset(vs)| == |vs|;
    }
  }
}
