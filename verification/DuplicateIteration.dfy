/** Walking through a tree with duplicates: every value of every key, once. */
module DuplicateIteration {
  import opened Options
  import opened TreeNode
  import opened TreeShape
  import opened TreeInsert
  import opened BTree
  import opened TreeIteration
  import opened SortedArrays
  import opened Links
  import opened Words
  import opened DuplicateLists
  import opened DuplicateOwners
  import opened DuplicateTree

  // ---------- the values of a key in the order of the walk ----------

  function ChainListing(blocks: Blocks, chain: seq<int>): seq<int>
    requires forall i :: 0 <= i < |chain| ==> chain[i] in blocks && ListOk(blocks[chain[i]])
  {
    if chain == [] then []
    else
      var n := |chain| - 1;
      ChainListing(blocks, chain[..n]) + ListValues(blocks[chain[n]])
  }

  lemma {:induction false} ChainListingCounted(blocks: Blocks, chain: seq<int>)
    requires forall i :: 0 <= i < |chain| ==> chain[i] in blocks && ListOk(blocks[chain[i]])
    ensures multiset(ChainListing(blocks, chain)) == ChainBag(blocks, chain)
  {
    hide ListOk;
    if chain != [] {
      ChainListingCounted(blocks, chain[..|chain| - 1]);
    }
  }

  /** The listing of a chain continues that of its first nodes. */
  lemma {:induction false} ChainListingAt(blocks: Blocks, chain: seq<int>, i: nat)
    requires forall i :: 0 <= i < |chain| ==> chain[i] in blocks && ListOk(blocks[chain[i]])
    requires i < |chain|
    ensures var s, vs := ChainListing(blocks, chain[..i]), ListValues(blocks[chain[i]]);
            && ChainListing(blocks, chain[..i + 1]) == s + vs
            && |s| + |vs| <= |ChainListing(blocks, chain)|
            && (forall j :: 0 <= j < |vs| ==> ChainListing(blocks, chain)[|s| + j] == vs[j])
            && (i + 1 == |chain| ==> |s| + |vs| == |ChainListing(blocks, chain)|)
    decreases |chain|
  {
    hide ListOk, ListValues;
    assert chain[..i + 1][..i] == chain[..i];
    var n := |chain| - 1;
    if i == n {
      assert chain[..i + 1] == chain;
    } else {
      ChainListingAt(blocks, chain[..n], i);
      assert chain[..n][..i] == chain[..i] && chain[..n][..i + 1] == chain[..i + 1];
    }
  }

  function Listing(blocks: Blocks, fragments: set<int>, w: int, chain: seq<int>): (r: seq<int>)
    requires KeyOk(blocks, fragments, w, chain)
  {
    if !IsDuplicate(w) then [w]
    else if IsFragment(w) then SlotValues(blocks[FragmentOffset(w)], FragmentIndex(w))
    else ChainListing(blocks, chain)
  }

  lemma {:induction false} ListingCounted(blocks: Blocks, fragments: set<int>, w: int, chain: seq<int>)
    requires KeyOk(blocks, fragments, w, chain)
    ensures multiset(Listing(blocks, fragments, w, chain)) == Bag(blocks, fragments, w, chain)
  {
    hide LinkType, SlotOk, ListOk, SlotValues;
    if IsDuplicate(w) && !IsFragment(w) {
      ChainListingCounted(blocks, chain);
    }
  }

  // ---------- the position inside the values of a key ----------

  /** `at` values of the key have been returned; `place` is the place in its chain. */
  ghost predicate SpotOk(blocks: Blocks, fragments: set<int>, w: int, chain: seq<int>, spot: Spot, at: nat, place: nat) {
    && KeyOk(blocks, fragments, w, chain)
    && at <= |Listing(blocks, fragments, w, chain)|
    && if spot.node == NULL then at == |Listing(blocks, fragments, w, chain)|
       else
         && IsDuplicate(w) && spot.next <= spot.count
         && if spot.isFragment then
              && IsFragment(w) && spot.node == w
              && spot.count == |Listing(blocks, fragments, w, chain)| && at == spot.next
            else
              && !IsFragment(w) && place < |chain| && FragmentOffset(spot.node) == chain[place]
              && spot.count == |ListValues(blocks[chain[place]])|
              && at == |ChainListing(blocks, chain[..place])| + spot.next
  }

  /** The first value of a key. */
  method FirstValue(blocks: Blocks, ghost fragments: set<int>, w: int, ghost chain: seq<int>)
    returns (value: int, spot: Spot, flag: nat)
    requires KeyOk(blocks, fragments, w, chain)
    ensures SpotOk(blocks, fragments, w, chain, spot, 1, 0)
    ensures value == Listing(blocks, fragments, w, chain)[0]
    ensures flag == if IsDuplicate(w) then 1 else 0
  {
    hide AllClose, Ascending, AllWords, IsWord;
    value, spot, flag := w, Spot(NULL, 0, 0, false), 0;
    var t := LinkType(w);
    if t == DUPLICATE_FRAGMENT || t == DUPLICATE_NODE {
      var words := blocks[FragmentOffset(w)];
      var start := if t == DUPLICATE_FRAGMENT then SLOT_WORDS * FragmentIndex(w) else ARRAY;
      if t == DUPLICATE_NODE {
        assert chain[..0] == [];
        ChainListingAt(blocks, chain, 0);
        assert ListValues(words)[0] == words[ARRAY + 1];
      }
      spot := Spot(w, 1, words[start], t == DUPLICATE_FRAGMENT);
      value, flag := words[start + 1], 1;
    }
  }

  /** The next value of the same key, if there is one. */
  method NextValue(blocks: Blocks, ghost fragments: set<int>, ghost w: int, ghost chain: seq<int>,
                   spot: Spot, ghost at: nat, ghost place: nat)
    returns (found: bool, value: int, spot': Spot, ghost place': nat)
    requires SpotOk(blocks, fragments, w, chain, spot, at, place) && spot.node != NULL
    ensures found <==> at < |Listing(blocks, fragments, w, chain)|
    ensures found ==> value == Listing(blocks, fragments, w, chain)[at]
    ensures SpotOk(blocks, fragments, w, chain, spot', if found then at + 1 else at, place')
    ensures found || spot'.node == NULL
  {
    hide LinkType, IsArray, IsWord, IsOffset;
    found, value, spot', place' := false, 0, spot.(node := NULL), place;
    if spot.isFragment {
      if spot.next < spot.count {
        var words := blocks[FragmentOffset(spot.node)];
        value := words[SLOT_WORDS * FragmentIndex(spot.node) + 1 + spot.next];
        found, spot' := true, spot.(next := spot.next + 1);
      }
    } else {
      found, value, spot', place' := NextInChain(blocks, w, chain, spot, at, place);
    }
  }

  /** The same in a chain: a node that is used up is left for the next one. */
  method NextInChain(blocks: Blocks, ghost w: int, ghost chain: seq<int>, spot: Spot, ghost at: nat, ghost place: nat)
    returns (found: bool, value: int, spot': Spot, ghost place': nat)
    requires ChainOk(blocks, chain) && spot.node != NULL && !spot.isFragment
    requires place < |chain| && FragmentOffset(spot.node) == chain[place] && spot.next <= spot.count
    requires spot.count == |ListValues(blocks[chain[place]])| && at == |ChainListing(blocks, chain[..place])| + spot.next
    ensures found <==> at < |ChainListing(blocks, chain)|
    ensures found ==> value == ChainListing(blocks, chain)[at]
    ensures found ==> && !spot'.isFragment && spot'.node != NULL && place' < |chain| && FragmentOffset(spot'.node) == chain[place']
                      && spot'.next <= spot'.count && spot'.count == |ListValues(blocks[chain[place']])|
                      && at + 1 == |ChainListing(blocks, chain[..place'])| + spot'.next
    ensures !found ==> spot'.node == NULL && at == |ChainListing(blocks, chain)|
  {
    hide IsArray, FragmentOffset, AllClose, Ascending;
    ChainListingAt(blocks, chain, place);
    spot', place' := spot, place;
    var words := blocks[FragmentOffset(spot.node)];
    if spot.next >= spot.count {
      spot' := spot.(node := words[RIGHT]);
      if spot'.node == NULL {
        assert place + 1 < |chain| ==> Linked(blocks, chain, place) && IsOffset(chain[place + 1]);
        return false, 0, spot', place;
      }
      assert Linked(blocks, chain, place);
      place' := place + 1;
      OffsetAlone(chain[place']);
      ChainListingAt(blocks, chain, place');
      words := blocks[spot'.node];
      spot' := Spot(spot'.node, 0, words[ARRAY], false);
    }
    assert ListValues(words)[spot'.next] == words[ARRAY + 1 + spot'.next];
    found, value := true, words[ARRAY + 1 + spot'.next];
    spot' := spot'.(next := spot'.next + 1);
  }

  /** The values of every key, as a walk returns them. */
  ghost function Listings(blocks: Blocks, fragments: set<int>, links: map<int, int>, chains: Chains): (r: map<int, seq<int>>)
    requires EachKeyOk(blocks, fragments, links, chains)
  {
    map k | k in links :: Listing(blocks, fragments, links[k], chains[k])
  }

  lemma {:induction false} ListingsCounted(blocks: Blocks, fragments: set<int>, links: map<int, int>, chains: Chains)
    requires EachKeyOk(blocks, fragments, links, chains)
    ensures var lists, stored := Listings(blocks, fragments, links, chains), Stored(blocks, fragments, links, chains);
            lists.Keys == stored.Keys && forall k :: k in lists ==> multiset(lists[k]) == stored[k]
  {
    hide KeyOk, Listing, Bag;
    forall k | k in links
      ensures multiset(Listing(blocks, fragments, links[k], chains[k])) == Bag(blocks, fragments, links[k], chains[k])
    {
      ListingCounted(blocks, fragments, links[k], chains[k]);
    }
  }

  /** Value number `at'` of `key` comes next. */
  ghost predicate Follows(lists: map<int, seq<int>>, last: Bound, at: nat, key: int, at': nat) {
    && key in lists && 1 <= at' <= |lists[key]|
    && if last == Some(key) then at' == at + 1
       else at' == 1 && Behind(last, key) && (forall k :: k in lists && Behind(last, k) ==> key <= k) && UsedUp(lists, last, at)
  }

  /** All values of the last key have been returned. */
  ghost predicate UsedUp(lists: map<int, seq<int>>, last: Bound, at: nat) {
    last.Some? && last.value in lists ==> at == |lists[last.value]|
  }

  class DuplicateIterator {
    const keys: TreeIterator
    const owner: DuplicateTree
    var spot: Spot
    ghost const lists: map<int, seq<int>>
    ghost var at: nat         // values of the last key that have been returned
    ghost var place: nat

    ghost predicate Valid()
      reads this, keys, owner, keys.tree, owner.tree
    {
      && keys.tree == owner.tree && keys.Valid() && owner.Valid()
      && lists == Listings(owner.tree.duplicates, owner.fragments, owner.tree.contents, owner.chains)
      && (keys.last.None? ==> spot.node == NULL)
      && (keys.last.Some? ==> AtSpot(keys.last.value))
    }

    ghost predicate AtSpot(k: int)
      reads this, owner, owner.tree
    {
      && k in owner.tree.contents && k in owner.chains
      && SpotOk(owner.tree.duplicates, owner.fragments, owner.tree.contents[k], owner.chains[k], spot, at, place)
    }

    constructor (owner: DuplicateTree)
      requires owner.Valid()
      ensures this.owner == owner && Valid() && keys.last.None? && at == 0 && fresh(keys)
    {
      hide Holds, AllFit, StoreOk, NoneLost, Ahead;
      this.owner := owner;
      var it := new TreeIterator(owner.tree);
      it.Rewind();
      keys := it;
      lists := Listings(owner.tree.duplicates, owner.fragments, owner.tree.contents, owner.chains);
      spot, at, place := Spot(NULL, 0, 0, false), 0, 0;
    }

    /** Another value of the last key. */
    method GetDuplicate() returns (found: bool, value: int)
      requires Valid()
      modifies this
      ensures Valid()
      ensures found ==> keys.last.Some? && Follows(lists, keys.last, old(at), keys.last.value, at)
                        && value == lists[keys.last.value][old(at)]
      ensures !found ==> at == old(at) && UsedUp(lists, keys.last, at)
    {
      hide Holds, AllFit, StoreOk, NoneLost, Ahead, DuplicatesOk, KeyOk, LinkType, Listing;
      found, value := false, 0;
      ghost var k := if keys.last.Some? then keys.last.value else 0;
      if spot.node != NULL {
        var spot';
        ghost var place';
        found, value, spot', place' := NextValue(owner.tree.duplicates, owner.fragments, owner.tree.contents[k], owner.chains[k],
                                                 spot, at, place);
        spot, place := spot', place';
        if found {
          at := at + 1;
        }
      }
    }

    /** The first value of the next key. */
    method GetNextKey() returns (found: bool, key: int, value: int, flag: nat)
      requires Valid() && UsedUp(lists, keys.last, at)
      modifies this, keys
      ensures found ==> Valid() && keys.last == Some(key) && key in owner.tree.contents
      ensures found ==> Behind(old(keys.last), key) && Follows(lists, old(keys.last), old(at), key, at) && value == lists[key][0]
      ensures found ==> flag == if IsDuplicate(owner.tree.contents[key]) then 1 else 0
      ensures !found ==> forall k :: k in lists ==> !Behind(old(keys.last), k)
    {
      hide Holds, AllFit, StoreOk, NoneLost, Ahead, SpotOk, KeyOk, LinkType, Listing, AllApart, SlotsOwned, FragmentsOk;
      var link;
      found, key, link := keys.NextKey();
      value, flag := 0, 0;
      if found {
        value, spot, flag := FirstValue(owner.tree.duplicates, owner.fragments, link, owner.chains[key]);
        at, place := 1, 0;
        SpotStarted(owner.tree.duplicates, owner.fragments, link, owner.chains[key], spot);
      }
    }

    static lemma {:induction false} SpotStarted(blocks: Blocks, fragments: set<int>, w: int, chain: seq<int>, spot: Spot)
      requires SpotOk(blocks, fragments, w, chain, spot, 1, 0)
      ensures KeyOk(blocks, fragments, w, chain) && |Listing(blocks, fragments, w, chain)| >= 1
    {
    }

    /** The next value: another one of the same key (`flag` 2, and `key` is not set), or the
        first one of the next key. */
    method GetNextEntry() returns (found: bool, key: int, value: int, flag: nat)
      requires Valid()
      modifies this, keys
      ensures found ==> Valid() && keys.last.Some? && Follows(lists, old(keys.last), old(at), keys.last.value, at)
      ensures found ==> value == lists[keys.last.value][at - 1]
      ensures found ==> if flag == 2 then keys.last == old(keys.last) else keys.last == Some(key) != old(keys.last)
      ensures found && flag != 2 ==>
                key in owner.tree.contents && flag == if IsDuplicate(owner.tree.contents[key]) then 1 else 0
      ensures !found ==> UsedUp(lists, old(keys.last), old(at)) && forall k :: k in lists ==> !Behind(old(keys.last), k)
    {
      hide Holds, AllFit, StoreOk, NoneLost, Ahead, DuplicatesOk, SpotOk, LinkType, Listings;
      key := 0;
      found, value := GetDuplicate();
      if found {
        flag := 2;
      } else {
        found, key, value, flag := GetNextKey();
      }
    }
  }

  // ---------- a whole walk ----------

  /** The values listed for a key. */
  function ValuesOf(entries: seq<(int, int)>, k: int): seq<int> {
    if entries == [] then []
    else
      var n := |entries| - 1;
      ValuesOf(entries[..n], k) + if entries[n].0 == k then [entries[n].1] else []
  }

  lemma {:induction false} ValuesOneMore(entries: seq<(int, int)>, key: int, value: int, k: int)
    ensures ValuesOf(entries + [(key, value)], k) == ValuesOf(entries, k) + if k == key then [value] else []
  {
    assert (entries + [(key, value)])[..|entries|] == entries;
  }

  /** What has to be listed for a key so far. */
  function Due(lists: map<int, seq<int>>, last: Bound, at: nat, k: int): seq<int> {
    if k !in lists || Behind(last, k) then []
    else if last == Some(k) && at <= |lists[k]| then lists[k][..at]
    else lists[k]
  }

  /** Up to the last key everything is listed, of that key the first `at` values. */
  ghost predicate Walked(lists: map<int, seq<int>>, entries: seq<(int, int)>, last: Bound, at: nat) {
    && (forall i, j :: 0 <= i < j < |entries| ==> entries[i].0 <= entries[j].0)
    && (forall i :: 0 <= i < |entries| ==> !Behind(last, entries[i].0))
    && (forall k :: ValuesOf(entries, k) == Due(lists, last, at, k))
  }

  lemma {:induction false} DueOneMore(lists: map<int, seq<int>>, at: nat, key: int, k: int)
    requires key in lists && at < |lists[key]|
    ensures Due(lists, Some(key), at + 1, k) == Due(lists, Some(key), at, k) + if k == key then [lists[key][at]] else []
  {
    assert lists[key][..at + 1] == lists[key][..at] + [lists[key][at]];
  }

  lemma {:induction false} WalkOn(lists: map<int, seq<int>>, entries: seq<(int, int)>, at: nat, key: int, value: int)
    requires Walked(lists, entries, Some(key), at) && key in lists && at < |lists[key]| && value == lists[key][at]
    ensures Walked(lists, entries + [(key, value)], Some(key), at + 1)
  {
    hide ValuesOf, Due;
    var entries' := entries + [(key, value)];
    forall k
      ensures ValuesOf(entries', k) == Due(lists, Some(key), at + 1, k)
    {
      ValuesOneMore(entries, key, value, k);
      DueOneMore(lists, at, key, k);
    }
  }

  /** A next key is begun where the last one is used up. */
  lemma {:induction false} WalkToNext(lists: map<int, seq<int>>, entries: seq<(int, int)>, last: Bound, at: nat, key: int)
    requires Walked(lists, entries, last, at) && key in lists && Behind(last, key)
    requires last.Some? && last.value in lists ==> at == |lists[last.value]|
    requires forall k :: k in lists && Behind(last, k) ==> key <= k
    ensures Walked(lists, entries, Some(key), 0)
  {
    forall k
      ensures ValuesOf(entries, k) == Due(lists, Some(key), 0, k)
    {
      assert ValuesOf(entries, k) == Due(lists, last, at, k);
    }
  }

  /** One step of the walk. */
  lemma {:induction false} WalkStep(lists: map<int, seq<int>>, entries: seq<(int, int)>, last: Bound, at: nat, key: int, at': nat)
    requires Walked(lists, entries, last, at) && Follows(lists, last, at, key, at')
    ensures Walked(lists, entries + [(key, lists[key][at' - 1])], Some(key), at')
  {
    hide Walked;
    if last == Some(key) {
      WalkOn(lists, entries, at, key, lists[key][at]);
    } else {
      WalkToNext(lists, entries, last, at, key);
      WalkOn(lists, entries, 0, key, lists[key][0]);
    }
  }

  /** A whole walk: keys in ascending order, and for every key exactly its values. */
  method ListAllValues(owner: DuplicateTree) returns (entries: seq<(int, int)>)
    requires owner.Valid()
    ensures forall i, j :: 0 <= i < j < |entries| ==> entries[i].0 <= entries[j].0
    ensures forall k :: k in owner.Contents() ==> multiset(ValuesOf(entries, k)) == owner.Contents()[k]
    ensures forall k :: k !in owner.Contents() ==> ValuesOf(entries, k) == []
  {
    hide Holds, AllFit, StoreOk, NoneLost, Ahead, SpotOk, Walked, ValuesOf, AllApart, SlotsOwned, FragmentsOk, EachKeyOk, Stored, Listings;
    ListingsCounted(owner.tree.duplicates, owner.fragments, owner.tree.contents, owner.chains);
    var it := new DuplicateIterator(owner);
    entries := [];
    var current := 0;
    ghost var lists := it.lists;
    ghost var left := lists.Keys;
    StartWalk(lists);
    while true
      invariant it.owner == owner && it.Valid() && it.lists == lists
      invariant it.keys.last.Some? ==> current == it.keys.last.value && current in lists
      invariant Walked(lists, entries, it.keys.last, it.at)
      invariant left == set k | k in lists && Behind(it.keys.last, k)
      decreases left, if it.keys.last.Some? then |lists[current]| - it.at else 0
    {
      ghost var last, at := it.keys.last, it.at;
      var found, key, value, flag := it.GetNextEntry();
      if !found {
        EndWalk(lists, entries, last, at);
        break;
      }
      if flag == 2 {
        key := current;
      }
      WalkStep(lists, entries, last, at, key, it.at);
      entries := entries + [(key, value)];
      assert last != Some(key) ==> key in left;
      left := set k | k in lists && Behind(it.keys.last, k);
      assert key !in left;
      current := key;
    }
  }

  lemma {:induction false} StartWalk(lists: map<int, seq<int>>)
    ensures Walked(lists, [], None, 0)
  {
  }

  lemma {:induction false} EndWalk(lists: map<int, seq<int>>, entries: seq<(int, int)>, last: Bound, at: nat)
    requires Walked(lists, entries, last, at)
    requires last.Some? && last.value in lists ==> at == |lists[last.value]|
    requires forall k :: k in lists ==> !Behind(last, k)
    ensures forall i, j :: 0 <= i < j < |entries| ==> entries[i].0 <= entries[j].0
    ensures forall k :: ValuesOf(entries, k) == if k in lists then lists[k] else []
  {
    forall k
      ensures ValuesOf(entries, k) == if k in lists then lists[k] else []
    {
      assert ValuesOf(entries, k) == Due(lists, last, at, k);
    }
  }
}
