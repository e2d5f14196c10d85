/** Where the values of a key with duplicates are stored: up to seven in a slot of a
fragment node, which several keys share, and more in a chain of nodes of its own. */
module DuplicateLists {
  import opened Sequences
  import opened SortedArrays
  import opened Memory
  import opened Links
  import opened Words
  import opened TreeNode

  const NODE_WORDS := 128
  const SLOT_WORDS := 8
  const SLOTS := 16
  const NUM_FRAGMENT_VALUES := 7
  const NUM_DUPLICATE_VALUES := 125

  // The words of a duplicate node: left link, right link, sorted array.
  const LEFT := 0
  const RIGHT := 1
  const ARRAY := 2

  type Blocks = map<int, seq<int>>

  // ---------- a slot of a fragment node ----------

  function SlotCount(words: seq<int>, j: nat): int
    requires |words| == NODE_WORDS && j < SLOTS
  {
    words[SLOT_WORDS * j]
  }

  predicate SlotOk(words: seq<int>, j: nat) {
    && |words| == NODE_WORDS && j < SLOTS
    && 1 <= SlotCount(words, j) <= NUM_FRAGMENT_VALUES
    && IsArray(words, SLOT_WORDS * j)
  }

  function SlotValues(words: seq<int>, j: nat): seq<int>
    requires SlotOk(words, j)
  {
    Values(words, SLOT_WORDS * j)
  }

  predicate SameSlot(words: seq<int>, words': seq<int>, j: nat)
    requires j < SLOTS
  {
    && |words| == |words'| == NODE_WORDS
    && words[SLOT_WORDS * j..SLOT_WORDS * j + SLOT_WORDS] == words'[SLOT_WORDS * j..SLOT_WORDS * j + SLOT_WORDS]
  }

  /** Only slot `j` differs. */
  predicate OnlySlot(words: seq<int>, words': seq<int>, j: nat) {
    && |words| == |words'| == NODE_WORDS
    && forall i :: 0 <= i < SLOTS && i != j ==> SameSlot(words, words', i)
  }

  lemma {:induction false} SlotRead(words: seq<int>, words': seq<int>, j: nat)
    requires j < SLOTS && SameSlot(words, words', j)
    ensures SlotCount(words', j) == SlotCount(words, j)
    ensures SlotOk(words, j) ==> SlotOk(words', j) && SlotValues(words', j) == SlotValues(words, j)
  {
    var b := SLOT_WORDS * j;
    var s, s' := words[b..b + SLOT_WORDS], words'[b..b + SLOT_WORDS];
    assert s[0] == words[b] && s'[0] == words'[b];
    if SlotOk(words, j) {
      Slice(words, b, b + SLOT_WORDS, 1, 1 + s[0]);
      Slice(words', b, b + SLOT_WORDS, 1, 1 + s[0]);
    }
  }

  /** Words changed inside slot `j` only. */
  lemma {:induction false} InsideSlot(words: seq<int>, words': seq<int>, j: nat)
    requires |words| == |words'| == NODE_WORDS && j < SLOTS
    requires forall i :: 0 <= i < NODE_WORDS && !(SLOT_WORDS * j <= i < SLOT_WORDS * j + SLOT_WORDS) ==> words'[i] == words[i]
    ensures OnlySlot(words, words', j)
  {
    forall i | 0 <= i < SLOTS && i != j
      ensures SameSlot(words, words', i)
    {
      var b := SLOT_WORDS * i;
      assert words[b..b + SLOT_WORDS] == words'[b..b + SLOT_WORDS];
    }
  }

  predicate SlotHasRoom(words: seq<int>, j: nat) {
    && |words| == NODE_WORDS && j < SLOTS
    && 0 <= SlotCount(words, j) < NUM_FRAGMENT_VALUES && IsArray(words, SLOT_WORDS * j)
  }

  /** One more value in a slot that is not full. */
  function SlotInsert(words: seq<int>, j: nat, value: int): (r: seq<int>)
    requires SlotHasRoom(words, j)
    ensures |r| == NODE_WORDS
  {
    Inserted(words, SLOT_WORDS * j, value)
  }

  lemma {:induction false} SlotInserted(words: seq<int>, j: nat, value: int)
    requires SlotHasRoom(words, j) && IsWord(value)
    ensures var words' := SlotInsert(words, j, value);
            && SlotOk(words', j) && SlotCount(words', j) == SlotCount(words, j) + 1 && OnlySlot(words, words', j)
            && multiset(SlotValues(words', j)) == multiset(Values(words, SLOT_WORDS * j)) + multiset{value}
  {
    hide Ascending, Inserted, InsertIndex;
    var b := SLOT_WORDS * j;
    InsertedIs(words, b, value);
    InsertedInOrder(words, b, value);
    var words' := SlotInsert(words, j, value);
    InsideSlot(words, words', j);
  }

  lemma {:induction false} OnlySlotTwice(a: seq<int>, b: seq<int>, c: seq<int>, j: nat)
    requires OnlySlot(a, b, j) && OnlySlot(b, c, j)
    ensures OnlySlot(a, c, j)
  {
    forall i | 0 <= i < SLOTS && i != j
      ensures SameSlot(a, c, i)
    {
      assert SameSlot(a, b, i) && SameSlot(b, c, i);
    }
  }

  lemma {:induction false} EmptySlot(words: seq<int>, j: nat)
    requires |words| == NODE_WORDS && j < SLOTS && SlotCount(words, j) == 0
    ensures SlotHasRoom(words, j) && Values(words, SLOT_WORDS * j) == []
  {
  }

  /** The first two values of a free slot. */
  function SlotOpened(words: seq<int>, j: nat, first: int, second: int): (r: seq<int>)
    requires |words| == NODE_WORDS && j < SLOTS && SlotCount(words, j) == 0 && IsWord(first)
    ensures |r| == NODE_WORDS
  {
    EmptySlot(words, j);
    SlotInserted(words, j, first);
    SlotInsert(SlotInsert(words, j, first), j, second)
  }

  lemma {:induction false} SlotOpens(words: seq<int>, j: nat, first: int, second: int)
    requires |words| == NODE_WORDS && j < SLOTS && SlotCount(words, j) == 0 && IsWord(first) && IsWord(second)
    ensures var words' := SlotOpened(words, j, first, second);
            && SlotOk(words', j) && SlotCount(words', j) == 2 && OnlySlot(words, words', j)
            && multiset(SlotValues(words', j)) == multiset{first} + multiset{second}
  {
    hide Ascending, SlotInsert, OnlySlot;
    EmptySlot(words, j);
    SlotInserted(words, j, first);
    var one := SlotInsert(words, j, first);
    SlotInserted(one, j, second);
    OnlySlotTwice(words, one, SlotInsert(one, j, second), j);
  }

  /** One value less in a slot; `behind` is the word behind the node, which is read when the
      last slot is full. */
  lemma {:induction false} SlotLess(words: seq<int>, behind: int, after: seq<int>, j: nat, value: int)
    requires SlotOk(words, j) && LessOne(words + [behind], after, SLOT_WORDS * j, value)
    ensures var words' := after[..NODE_WORDS];
            && |words'| == NODE_WORDS && IsArray(words', SLOT_WORDS * j) && OnlySlot(words, words', j)
            && SlotCount(words', j) == SlotCount(words, j) - 1
            && multiset(Values(words', SLOT_WORDS * j)) + multiset{value} == multiset(SlotValues(words, j))
  {
    hide Ascending;
    var b, words' := SLOT_WORDS * j, after[..NODE_WORDS];
    InsideSlot(words, words', j);
    assert Values(words + [behind], b) == SlotValues(words, j);
    assert |Values(after, b)| + 1 == |SlotValues(words, j)| by {
      assert |multiset(Values(after, b)) + multiset{value}| == |multiset(SlotValues(words, j))|;
    }
    assert Values(words', b) == Values(after, b);
  }

  /** A slot given up. */
  function SlotCleared(words: seq<int>, j: nat): (r: seq<int>)
    requires |words| == NODE_WORDS && j < SLOTS
    ensures |r| == NODE_WORDS
  {
    seq(NODE_WORDS, i requires 0 <= i < NODE_WORDS =>
      if SLOT_WORDS * j <= i < SLOT_WORDS * j + SLOT_WORDS then 0 else words[i])
  }

  lemma {:induction false} SlotClears(words: seq<int>, j: nat)
    requires |words| == NODE_WORDS && j < SLOTS
    ensures SlotCount(SlotCleared(words, j), j) == 0 && OnlySlot(words, SlotCleared(words, j), j)
  {
    InsideSlot(words, SlotCleared(words, j), j);
  }

  // ---------- a duplicate node ----------

  /** No two values are 2^63 or more apart. */
  predicate AllClose(vs: seq<int>) {
    forall i, j :: 0 <= i < |vs| && 0 <= j < |vs| ==> Near(vs[i], vs[j])
  }

  /** The array of a node is in order, unless some of its values are far apart. */
  predicate ListOk(words: seq<int>) {
    && |words| == NODE_WORDS
    && 1 <= words[ARRAY] <= NUM_DUPLICATE_VALUES
    && (AllClose(Values(words, ARRAY)) ==> Ascending(Values(words, ARRAY)))
  }

  predicate ListHasRoom(words: seq<int>) {
    && |words| == NODE_WORDS && 0 <= words[ARRAY] < NUM_DUPLICATE_VALUES
    && (AllClose(Values(words, ARRAY)) ==> Ascending(Values(words, ARRAY)))
  }

  function ListValues(words: seq<int>): seq<int>
    requires ListOk(words)
  {
    Values(words, ARRAY)
  }

  /** One more value in a duplicate node that is not full. */
  lemma {:induction false} ListInserted(words: seq<int>, value: int)
    requires ListHasRoom(words)
    ensures var words' := ListInsert(words, value);
            && ListOk(words') && words'[LEFT] == words[LEFT] && words'[RIGHT] == words[RIGHT]
            && words'[ARRAY] == words[ARRAY] + 1
            && multiset(ListValues(words')) == multiset(Values(words, ARRAY)) + multiset{value}
  {
    hide Ascending, Inserted, InsertIndex, AllClose;
    InsertedIs(words, ARRAY, value);
    var vs := Values(words, ARRAY);
    if AllClose(Insert(vs, InsertIndex(vs, value), value)) {
      CloseBefore(vs, InsertIndex(vs, value), value);
      InsertedInOrder(words, ARRAY, value);
    }
  }

  lemma {:induction false} CloseBefore(vs: seq<int>, i: nat, x: int)
    requires i <= |vs| && AllClose(Insert(vs, i, x))
    ensures AllClose(vs) && AllNear(vs, x)
  {
    hide Near;
    var vs' := Insert(vs, i, x);
    forall j, k | 0 <= j < |vs| && 0 <= k < |vs|
      ensures Near(vs[j], vs[k]) && Near(vs[j], x)
    {
      var j', k' := if j < i then j else j + 1, if k < i then k else k + 1;
      assert vs'[j'] == vs[j] && vs'[k'] == vs[k] && vs'[i] == x;
      assert Near(vs'[j'], vs'[k']) && Near(vs'[j'], vs'[i]);
    }
  }

  function ListInsert(words: seq<int>, value: int): (r: seq<int>)
    requires ListHasRoom(words)
    ensures |r| == NODE_WORDS
  {
    Inserted(words, ARRAY, value)
  }

  /** bplustree_node::Initialize on a node with any old contents. */
  function Initialized(junk: seq<int>): (r: seq<int>)
    requires |junk| == NODE_WORDS
    ensures |r| == NODE_WORDS
  {
    junk[LEFT := NULL][RIGHT := NULL][ARRAY := NULL]
  }

  /** A fragment node made into a duplicate node: slot `j` moves to the front. */
  function Reused(words: seq<int>, j: nat): (r: seq<int>)
    requires |words| == NODE_WORDS && j < SLOTS
    ensures |r| == NODE_WORDS
  {
    Moved(words, ARRAY, SLOT_WORDS * j, SLOT_WORDS)[LEFT := NULL][RIGHT := NULL]
  }

  /** A new duplicate node with the values of a slot. */
  function CopiedOut(junk: seq<int>, words: seq<int>, j: nat): (r: seq<int>)
    requires |junk| == NODE_WORDS && SlotOk(words, j)
    ensures |r| == NODE_WORDS
  {
    var vs := SlotValues(words, j);
    var node := Initialized(junk)[ARRAY := |vs|];
    node[..ARRAY + 1] + vs + node[ARRAY + 1 + |vs|..]
  }

  predicate TakesOver(node: seq<int>, vs: seq<int>) {
    && ListOk(node) && node[LEFT] == NULL && node[RIGHT] == NULL && ListValues(node) == vs
  }

  lemma {:induction false} ReusedHolds(words: seq<int>, j: nat)
    requires SlotOk(words, j)
    ensures TakesOver(Reused(words, j), SlotValues(words, j))
  {
    hide Ascending;
    assert Values(Reused(words, j), ARRAY) == SlotValues(words, j);
  }

  lemma {:induction false} CopiedHolds(junk: seq<int>, words: seq<int>, j: nat)
    requires |junk| == NODE_WORDS && SlotOk(words, j)
    ensures TakesOver(CopiedOut(junk, words, j), SlotValues(words, j))
  {
    hide Ascending;
    assert Values(CopiedOut(junk, words, j), ARRAY) == SlotValues(words, j);
  }

  /** A new node behind the last one of a chain, with one value. */
  function NewLast(junk: seq<int>, left: int, value: int): (r: seq<int>)
    requires |junk| == NODE_WORDS
    ensures |r| == NODE_WORDS
  {
    ListInsert(Initialized(junk)[LEFT := left][ARRAY := 0], value)
  }

  lemma {:induction false} NewLastHolds(junk: seq<int>, left: int, value: int)
    requires |junk| == NODE_WORDS
    ensures var node := NewLast(junk, left, value);
            ListOk(node) && node[LEFT] == left && node[RIGHT] == NULL && multiset(ListValues(node)) == multiset{value}
  {
    var node := Initialized(junk)[LEFT := left][ARRAY := 0];
    assert Values(node, ARRAY) == [];
    ListInserted(node, value);
  }

  // ---------- chains of duplicate nodes ----------

  predicate Linked(blocks: Blocks, chain: seq<int>, i: nat)
    requires i + 1 < |chain|
  {
    && chain[i] in blocks && chain[i + 1] in blocks
    && |blocks[chain[i]]| == |blocks[chain[i + 1]]| == NODE_WORDS
    && blocks[chain[i]][RIGHT] == chain[i + 1] && blocks[chain[i + 1]][LEFT] == chain[i]
  }

  predicate ChainOk(blocks: Blocks, chain: seq<int>) {
    && |chain| > 0
    && (forall i :: 0 <= i < |chain| ==> chain[i] in blocks && IsOffset(chain[i]) && ListOk(blocks[chain[i]]))
    && (forall i, j :: 0 <= i < j < |chain| ==> chain[i] != chain[j])
    && (forall i: nat | i + 1 < |chain| :: Linked(blocks, chain, i))
    && blocks[chain[0]][LEFT] == NULL
    && blocks[chain[|chain| - 1]][RIGHT] == NULL
  }

  /** The values stored in the nodes of a chain. */
  function ChainBag(blocks: Blocks, chain: seq<int>): multiset<int>
    requires forall i :: 0 <= i < |chain| ==> chain[i] in blocks && ListOk(blocks[chain[i]])
  {
    if chain == [] then multiset{}
    else
      var n := |chain| - 1;
      ChainBag(blocks, chain[..n]) + multiset(ListValues(blocks[chain[n]]))
  }

  lemma {:induction false} ChainBagSame(blocks: Blocks, blocks': Blocks, chain: seq<int>)
    requires forall i :: 0 <= i < |chain| ==> chain[i] in blocks && ListOk(blocks[chain[i]])
    requires forall i :: 0 <= i < |chain| ==> chain[i] in blocks' && blocks'[chain[i]] == blocks[chain[i]]
    ensures ChainBag(blocks', chain) == ChainBag(blocks, chain)
  {
    if chain != [] {
      ChainBagSame(blocks, blocks', chain[..|chain| - 1]);
    }
  }

  /** One node of a chain gets another array. */
  lemma {:induction false} ChainBagChange(blocks: Blocks, chain: seq<int>, i: nat, words: seq<int>, value: int)
    requires i < |chain| && ListOk(words)
    requires forall i :: 0 <= i < |chain| ==> chain[i] in blocks && ListOk(blocks[chain[i]])
    requires forall i, j :: 0 <= i < j < |chain| ==> chain[i] != chain[j]
    requires multiset(ListValues(words)) == multiset(ListValues(blocks[chain[i]])) + multiset{value}
    ensures ChainBag(blocks[chain[i] := words], chain) == ChainBag(blocks, chain) + multiset{value}
  {
    hide ListOk, ListValues;
    var n := |chain| - 1;
    if i == n {
      assert forall m :: 0 <= m < n ==> chain[..n][m] == chain[m] != chain[i];
      ChainBagSame(blocks, blocks[chain[i] := words], chain[..n]);
    } else {
      var front := chain[..n];
      assert front[i] == chain[i] && chain[n] != chain[i];
      ChainBagChange(blocks, front, i, words, value);
    }
  }
}
