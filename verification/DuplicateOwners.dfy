/** Which key owns which slot and which node, and how a key's values move from one kind
of storage to the next without touching those of another key. */
module DuplicateOwners {
  import opened SortedArrays
  import opened Links
  import opened Words
  import opened DuplicateLists

  type Chains = map<int, seq<int>>

  predicate IsFragment(w: int) {
    LinkType(w) == DUPLICATE_FRAGMENT
  }

  /** The storage behind one value word: a single value is the word itself, two to seven
      values are in a slot, and more in nodes of their own.  `chain` names those nodes. */
  predicate KeyOk(blocks: Blocks, fragments: set<int>, w: int, chain: seq<int>) {
    IsWord(w) &&
    if !IsDuplicate(w) then chain == []
    else if IsFragment(w) then
      && chain == []
      && FragmentOffset(w) in fragments && FragmentOffset(w) in blocks
      && FragmentIndex(w) < SLOTS && SlotOk(blocks[FragmentOffset(w)], FragmentIndex(w))
      && SlotCount(blocks[FragmentOffset(w)], FragmentIndex(w)) >= 2
    else
      && LinkType(w) == DUPLICATE_NODE
      && ChainOk(blocks, chain) && FragmentOffset(w) == chain[0] && |ChainBag(blocks, chain)| > NUM_FRAGMENT_VALUES
      && forall o :: o in chain ==> o !in fragments
  }

  /** The values of the key. */
  function Bag(blocks: Blocks, fragments: set<int>, w: int, chain: seq<int>): multiset<int>
    requires KeyOk(blocks, fragments, w, chain)
  {
    if !IsDuplicate(w) then multiset{w}
    else if IsFragment(w) then multiset(SlotValues(blocks[FragmentOffset(w)], FragmentIndex(w)))
    else ChainBag(blocks, chain)
  }

  /** Two keys share neither a slot nor a node. */
  predicate Apart(w1: int, chain1: seq<int>, w2: int, chain2: seq<int>) {
    && (IsFragment(w1) && IsFragment(w2) ==> w1 != w2)
    && (forall o :: o in chain1 ==> o !in chain2)
  }

  predicate Owned(links: map<int, int>, w: int) {
    exists k :: k in links && links[k] == w
  }

  predicate FragmentsOk(blocks: Blocks, fragments: set<int>) {
    forall o :: o in fragments ==> o in blocks && |blocks[o]| == NODE_WORDS && IsOffset(o)
  }

  /** A slot that is in use belongs to a key. */
  predicate SlotsOwned(blocks: Blocks, fragments: set<int>, links: map<int, int>)
    requires FragmentsOk(blocks, fragments)
  {
    forall o, j :: o in fragments && 0 <= j < SLOTS && SlotCount(blocks[o], j) != 0
      ==> Owned(links, MakeLink(DUPLICATE_FRAGMENT, o, j))
  }

  ghost predicate EachKeyOk(blocks: Blocks, fragments: set<int>, links: map<int, int>, chains: Chains) {
    && chains.Keys == links.Keys
    && (forall k :: k in links ==> KeyOk(blocks, fragments, links[k], chains[k]))
  }

  ghost predicate AllApart(links: map<int, int>, chains: Chains)
    requires chains.Keys == links.Keys
  {
    forall k1, k2 :: k1 in links && k2 in links && k1 != k2 ==> Apart(links[k1], chains[k1], links[k2], chains[k2])
  }

  ghost predicate DuplicatesOk(blocks: Blocks, fragments: set<int>, links: map<int, int>, chains: Chains) {
    && FragmentsOk(blocks, fragments)
    && EachKeyOk(blocks, fragments, links, chains)
    && AllApart(links, chains)
    && SlotsOwned(blocks, fragments, links)
  }

  /** The multimap that is stored. */
  ghost function Stored(blocks: Blocks, fragments: set<int>, links: map<int, int>, chains: Chains): map<int, multiset<int>>
    requires EachKeyOk(blocks, fragments, links, chains)
  {
    map k | k in links :: Bag(blocks, fragments, links[k], chains[k])
  }

  // ---------- no node is lost ----------

  predicate Uses(w: int, chain: seq<int>, o: int) {
    (IsFragment(w) && FragmentOffset(w) == o) || o in chain
  }

  ghost predicate NodeUsed(links: map<int, int>, chains: Chains, o: int) {
    exists k :: k in links && k in chains && Uses(links[k], chains[k], o)
  }

  /** Every node for duplicates is reached from the word of a key. */
  ghost predicate NodesUsed(nodes: set<int>, links: map<int, int>, chains: Chains) {
    forall o :: o in nodes ==> NodeUsed(links, chains, o)
  }

  /** A change to one key: the nodes that are new or were its own are accounted for. */
  lemma {:induction false} StillUsed(nodes: set<int>, links: map<int, int>, chains: Chains,
                                     nodes': set<int>, links': map<int, int>, chains': Chains, k: int)
    requires NodesUsed(nodes, links, chains)
    requires forall x :: x in links && x in chains && x != k ==> x in links' && x in chains' && links'[x] == links[x] && chains'[x] == chains[x]
    requires forall o :: o in nodes' && (o in nodes ==> k in links && k in chains && Uses(links[k], chains[k], o)) ==> NodeUsed(links', chains', o)
    ensures NodesUsed(nodes', links', chains')
  {
    hide Uses;
    forall o | o in nodes'
      ensures NodeUsed(links', chains', o)
    {
      if o in nodes {
        var x :| x in links && x in chains && Uses(links[x], chains[x], o);
        if x != k {
          assert Uses(links'[x], chains'[x], o);
        }
      }
    }
  }

  /** The same where the key is given another word and other nodes: `o` is the node it used
      or will use. */
  lemma {:induction false} StillUsedBut(nodes: set<int>, links: map<int, int>, chains: Chains, nodes': set<int>,
                                        k: int, w: int, chain: seq<int>, o: int)
    requires NodesUsed(nodes, links, chains) && nodes' <= nodes + {o} && k in links && k in chains
    requires forall x :: x in nodes && x != o && Uses(links[k], chains[k], x) ==> Uses(w, chain, x)
    requires o in nodes' ==> Uses(w, chain, o) || NodeUsed(links[k := w], chains[k := chain], o)
    ensures NodesUsed(nodes', links[k := w], chains[k := chain])
  {
    hide Uses;
    var links', chains' := links[k := w], chains[k := chain];
    forall x | x in nodes' && (x in nodes ==> Uses(links[k], chains[k], x))
      ensures NodeUsed(links', chains', x)
    {
      if x != o || Uses(w, chain, o) {
        assert Uses(links'[k], chains'[k], x);
      }
    }
    StillUsed(nodes, links, chains, nodes', links', chains', k);
  }

  /** Another slot of a fragment node is in use: another key reaches the node. */
  lemma {:induction false} OtherUser(blocks: Blocks, fragments: set<int>, links: map<int, int>, chains: Chains,
                                     k: int, o: int, j: nat, i: nat, w: int, chain: seq<int>)
    requires DuplicatesOk(blocks, fragments, links, chains) && k in links && links[k] == MakeLink(DUPLICATE_FRAGMENT, o, j)
    requires o in fragments && o in blocks && i < SLOTS && j < SLOTS && i != j && SlotCount(blocks[o], i) != 0
    ensures NodeUsed(links[k := w], chains[k := chain], o)
  {
    hide SlotCount, KeyOk, MakeLink, LinkType, FragmentOffset, FragmentIndex;
    var x :| x in links && links[x] == MakeLink(DUPLICATE_FRAGMENT, o, i);
    LinkParts(DUPLICATE_FRAGMENT, o, i);
    LinkParts(DUPLICATE_FRAGMENT, o, j);
    var links', chains' := links[k := w], chains[k := chain];
    assert x != k && x in chains;
    assert x in links' && x in chains' && Uses(links'[x], chains'[x], o);
  }

  // ---------- what a change leaves alone ----------

  /** All that is read for this key is as it was. */
  predicate Untouched(blocks: Blocks, blocks': Blocks, fragments': set<int>, w: int, chain: seq<int>) {
    && (IsFragment(w) ==>
          && FragmentIndex(w) < SLOTS
          && FragmentOffset(w) in fragments' && FragmentOffset(w) in blocks && FragmentOffset(w) in blocks'
          && SameSlot(blocks[FragmentOffset(w)], blocks'[FragmentOffset(w)], FragmentIndex(w)))
    && (forall o :: o in chain ==> o in blocks && o in blocks' && o !in fragments' && blocks'[o] == blocks[o])
  }

  lemma {:induction false} ChainUntouched(blocks: Blocks, blocks': Blocks, chain: seq<int>)
    requires ChainOk(blocks, chain)
    requires forall o :: o in chain ==> o in blocks' && blocks'[o] == blocks[o]
    ensures ChainOk(blocks', chain) && ChainBag(blocks', chain) == ChainBag(blocks, chain)
  {
    hide ListOk;
    assert forall i :: 0 <= i < |chain| ==> chain[i] in chain;
    ChainBagSame(blocks, blocks', chain);
    forall i: nat | i + 1 < |chain|
      ensures Linked(blocks', chain, i)
    {
      assert Linked(blocks, chain, i);
    }
  }

  lemma {:induction false} UntouchedKeeps(blocks: Blocks, blocks': Blocks, fragments: set<int>, fragments': set<int>, w: int, chain: seq<int>)
    requires KeyOk(blocks, fragments, w, chain) && Untouched(blocks, blocks', fragments', w, chain)
    ensures KeyOk(blocks', fragments', w, chain)
    ensures Bag(blocks', fragments', w, chain) == Bag(blocks, fragments, w, chain)
  {
    hide SlotOk, SameSlot, ChainOk, SlotValues, ListOk;
    if !IsDuplicate(w) {
    } else if IsFragment(w) {
      SlotRead(blocks[FragmentOffset(w)], blocks'[FragmentOffset(w)], FragmentIndex(w));
    } else {
      ChainUntouched(blocks, blocks', chain);
    }
  }

  lemma {:induction false} ApartMoves(links: map<int, int>, chains: Chains, k: int, w: int, chain: seq<int>)
    requires chains.Keys == links.Keys && AllApart(links, chains)
    requires forall k2 :: k2 in links && k2 != k ==> Apart(links[k2], chains[k2], w, chain)
    ensures chains[k := chain].Keys == links[k := w].Keys && AllApart(links[k := w], chains[k := chain])
  {
    hide LinkType;
    var links', chains' := links[k := w], chains[k := chain];
    assert chains'.Keys == links'.Keys;
    forall k1, k2 | k1 in links' && k2 in links' && k1 != k2
      ensures Apart(links'[k1], chains'[k1], links'[k2], chains'[k2])
    {
      if k1 != k && k2 != k {
        assert Apart(links[k1], chains[k1], links[k2], chains[k2]);
      } else if k1 == k {
        assert Apart(links[k2], chains[k2], w, chain);
      }
    }
  }

  /** Moving one key to other storage that nobody else uses. */
  lemma {:induction false} OneKeyMoves(blocks: Blocks, fragments: set<int>, links: map<int, int>, chains: Chains,
                                       blocks': Blocks, fragments': set<int>, k: int, w: int, chain: seq<int>)
    requires DuplicatesOk(blocks, fragments, links, chains)
    requires FragmentsOk(blocks', fragments') && SlotsOwned(blocks', fragments', links[k := w])
    requires KeyOk(blocks', fragments', w, chain)
    requires forall k2 :: k2 in links && k2 != k ==> Untouched(blocks, blocks', fragments', links[k2], chains[k2])
    requires forall k2 :: k2 in links && k2 != k ==> Apart(links[k2], chains[k2], w, chain)
    ensures DuplicatesOk(blocks', fragments', links[k := w], chains[k := chain])
    ensures Stored(blocks', fragments', links[k := w], chains[k := chain])
            == Stored(blocks, fragments, links, chains)[k := Bag(blocks', fragments', w, chain)]
  {
    hide KeyOk, Untouched, FragmentsOk, SlotsOwned, Bag, Apart;
    var links', chains' := links[k := w], chains[k := chain];
    forall k2 | k2 in links && k2 != k
      ensures KeyOk(blocks', fragments', links[k2], chains[k2])
      ensures Bag(blocks', fragments', links[k2], chains[k2]) == Bag(blocks, fragments, links[k2], chains[k2])
    {
      UntouchedKeeps(blocks, blocks', fragments, fragments', links[k2], chains[k2]);
    }
    ApartMoves(links, chains, k, w, chain);
  }
}
