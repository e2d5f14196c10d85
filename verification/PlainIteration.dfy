/** Walking through a tree without duplicates as it is done: a value that looks like a link
to duplicates is followed all the same. */
module PlainIteration {
  import opened Options
  import opened Words
  import opened TreeNode
  import opened TreeShape
  import opened TreeInsert
  import opened BTree
  import opened TreeIteration
  import opened Links
  import opened DuplicateLists

  /** Word `i` counted from the beginning of the node at `o`, whatever is packed there. */
  type Memory = (int, int) -> int

  /** What a call answers: the first entry of a key with its flag, one more value, the end,
      or an error. */
  datatype Answer = Single(key: int, value: int, flag: nat) | Further(value: int) | Ended | Broken

  predicate TakenForLink(w: int) {
    LinkType(w) == DUPLICATE_NODE || LinkType(w) == DUPLICATE_FRAGMENT
  }

  /** The words taken for links are the negative ones. */
  lemma {:induction false} NegativeIsLink(w: int)
    requires IsWord(w)
    ensures TakenForLink(w) <==> w < 0
  {
    assert w % WORD == if w >= 0 then w else w + WORD;
  }

  /** Where the count of the values stands that a link leads to. */
  function CountAt(link: int): int {
    if LinkType(link) == DUPLICATE_FRAGMENT then SLOT_WORDS * FragmentIndex(link) else ARRAY
  }

  /** bplustree_node::CountDuplicates: the low byte of the count. */
  function CountDuplicates(memory: Memory, o: int, at: int): (n: nat)
    ensures n < 256
  {
    memory(o, at) % 256
  }

  /** The answer for a key with value `v`. */
  function FirstAnswer(memory: Memory, maximumSize: int, key: int, v: int): (a: Answer)
    ensures a == Broken || (a.Single? && a.key == key)
  {
    if !TakenForLink(v) then Single(key, v, 0)
    else if !Inside(FragmentOffset(v), maximumSize) then Broken
    else if CountDuplicates(memory, FragmentOffset(v), CountAt(v)) == 0 then Single(key, 0, 0)
    else Single(key, memory(FragmentOffset(v), CountAt(v) + 1), 1)
  }

  /** It is right exactly if the value is not negative, whatever stands in the nodes. */
  lemma {:induction false} AnswerRight(memory: Memory, maximumSize: int, key: int, v: int)
    requires IsWord(v)
    ensures FirstAnswer(memory, maximumSize, key, v) == Single(key, v, 0) <==> v >= 0
  {
    hide LinkType;
    NegativeIsLink(v);
  }

  class PlainIterator {
    const keys: TreeIterator
    const memory: Memory
    var spot: Spot

    constructor (tree: Tree, memory: Memory)
      requires tree.Valid()
      ensures keys.tree == tree && this.memory == memory && fresh(keys)
      ensures keys.Valid() && keys.last.None? && spot.node == NULL
    {
      hide Holds, AllFit, StoreOk, NoneLost, Ahead;
      var it := new TreeIterator(tree);
      it.Rewind();
      keys, this.memory, spot := it, memory, Spot(NULL, 0, 0, false);
    }

    /** One more value behind a link. */
    method NextDuplicate() returns (found: bool, value: int)
      requires spot.node != NULL
      modifies this`spot
      ensures !found ==> spot.node == NULL
    {
      found, value := false, 0;
      var o := FragmentOffset(spot.node);
      if Inside(o, keys.tree.maximumSize) && (!spot.isFragment || spot.next < spot.count) {
        if !spot.isFragment && spot.next >= spot.count {
          o := memory(o, RIGHT);
          spot := spot.(node := o);
          if o != NULL && Inside(o, keys.tree.maximumSize) {
            spot := Spot(o, 0, CountDuplicates(memory, o, ARRAY), false);
          }
        }
        if spot.next < spot.count {
          // the index is a signed byte
          var start := if spot.isFragment then SLOT_WORDS * FragmentIndex(spot.node) else ARRAY;
          value := memory(o, start + 1 + if spot.next < 128 then spot.next else spot.next - 256);
          spot := spot.(next := spot.next + 1);
          return true, value;
        }
      }
      spot := spot.(node := NULL);
    }

    /** TreeIterator::Traverse: the next key is answered rightly unless its value is taken for
        a link. */
    method GetNextEntry() returns (answer: Answer)
      requires keys.Placed()
      modifies this`spot, keys
      ensures keys.Placed()
      ensures old(keys.Valid() && spot.node == NULL) ==>
                if forall k :: k in keys.tree.contents ==> !Behind(old(keys.last), k) then answer == Ended
                else
                  && keys.Valid() && keys.last.Some?
                  && var k := keys.last.value;
                     && k in keys.tree.contents && Behind(old(keys.last), k)
                     && (forall k' :: k' in keys.tree.contents && Behind(old(keys.last), k') ==> k <= k')
                     && answer == FirstAnswer(memory, keys.tree.maximumSize, k, keys.tree.contents[k])
                     && (!TakenForLink(keys.tree.contents[k]) ==> spot.node == NULL)
    {
      hide Holds, AllFit, StoreOk, NoneLost, Ahead, LinkType, Inside;
      if spot.node != NULL {
        var found, value := NextDuplicate();
        if found {
          return Further(value);
        }
      }
      var found, key, word := keys.NextKey();
      if !found {
        return Ended;
      }
      if !TakenForLink(word) {
        return Single(key, word, 0);
      }
      spot := spot.(node := word);
      var o := FragmentOffset(word);
      if !Inside(o, keys.tree.maximumSize) {
        return Broken;
      }
      var count := CountDuplicates(memory, o, CountAt(word));
      spot := spot.(isFragment := LinkType(word) == DUPLICATE_FRAGMENT, count := count);
      if count == 0 {
        spot := spot.(node := NULL);
        return Single(key, 0, 0);
      }
      spot := spot.(next := 1);
      answer := Single(key, memory(o, CountAt(word) + 1), 1);
    }
  }

  // ---------- a whole walk ----------

  predicate IsRight(a: Answer, contents: map<int, int>) {
    a.Single? && a.key in contents && a == Single(a.key, contents[a.key], 0)
  }

  predicate Answered(answers: seq<Answer>, contents: map<int, int>, k: int) {
    k in contents && Single(k, contents[k], 0) in answers
  }

  /** The entries up to `last`, each once, in ascending order. */
  ghost predicate Listed(answers: seq<Answer>, contents: map<int, int>, last: Bound) {
    && (forall i :: 0 <= i < |answers| ==> IsRight(answers[i], contents) && !Behind(last, answers[i].key))
    && (forall i, j :: 0 <= i < j < |answers| ==> answers[i].Single? && answers[j].Single? && answers[i].key < answers[j].key)
    && (forall k :: k in contents && !Behind(last, k) ==> contents[k] >= 0 && Answered(answers, contents, k))
  }

  lemma {:induction false} ListMore(answers: seq<Answer>, contents: map<int, int>, last: Bound, key: int)
    requires Listed(answers, contents, last) && key in contents && Behind(last, key) && contents[key] >= 0
    requires forall k :: k in contents && Behind(last, k) ==> key <= k
    ensures Listed(answers + [Single(key, contents[key], 0)], contents, Some(key))
  {
    var answers' := answers + [Single(key, contents[key], 0)];
    assert answers'[|answers|] == Single(key, contents[key], 0);
    forall k | k in contents && !Behind(Some(key), k)
      ensures contents[k] >= 0 && Answered(answers', contents, k)
    {
      if k != key {
        assert Answered(answers, contents, k);
      }
    }
  }

  /** Every entry once, in ascending order, with its value and as a single one, and then the
      end. */
  ghost predicate IsWholeWalk(answers: seq<Answer>, contents: map<int, int>) {
    && |answers| > 0 && answers[|answers| - 1] == Ended
    && (forall i :: 0 <= i < |answers| - 1 ==> IsRight(answers[i], contents))
    && (forall i, j :: 0 <= i < j < |answers| - 1 ==> answers[i].Single? && answers[j].Single? && answers[i].key < answers[j].key)
    && (forall k :: k in contents ==> Answered(answers, contents, k))
  }

  ghost predicate NoneNegative(contents: map<int, int>) {
    forall k :: k in contents ==> contents[k] >= 0
  }

  lemma {:induction false} NothingListed(contents: map<int, int>)
    ensures Listed([], contents, None)
  {
  }

  /** Answer `b` is wrong, that of `key`; the keys in front of it are answered rightly. */
  ghost predicate BadAt(answers: seq<Answer>, contents: map<int, int>, b: nat, key: int) {
    && b < |answers| && !IsRight(answers[b], contents) && answers[b] != Ended
    && key in contents && contents[key] < 0
    && forall k :: k in contents && k < key ==> Answered(answers, contents, k)
  }

  lemma {:induction false} WrongAnswer(answers: seq<Answer>, contents: map<int, int>, last: Bound, answer: Answer, key: int)
    requires Listed(answers, contents, last) && key in contents && contents[key] < 0
    requires forall k :: k in contents && Behind(last, k) ==> key <= k
    requires answer == Broken || (answer.Single? && answer.key == key && answer != Single(key, contents[key], 0))
    ensures BadAt(answers + [answer], contents, |answers|, key)
  {
    forall k | k in contents && k < key
      ensures Answered(answers + [answer], contents, k)
    {
      assert Answered(answers, contents, k);
    }
  }

  lemma {:induction false} StillBad(answers: seq<Answer>, contents: map<int, int>, b: nat, key: int, answer: Answer)
    requires BadAt(answers, contents, b, key)
    ensures BadAt(answers + [answer], contents, b, key)
  {
    forall k | k in contents && k < key
      ensures Answered(answers + [answer], contents, k)
    {
      assert Answered(answers, contents, k);
    }
  }

  lemma {:induction false} NotWhole(answers: seq<Answer>, contents: map<int, int>, b: nat, key: int)
    requires BadAt(answers, contents, b, key)
    ensures !IsWholeWalk(answers, contents) && !NoneNegative(contents)
    ensures forall k :: k in contents && (forall k' :: k' in contents && k' <= k ==> contents[k'] >= 0)
              ==> Answered(answers, contents, k)
  {
  }

  lemma {:induction false} AllListed(answers: seq<Answer>, contents: map<int, int>, last: Bound)
    requires Listed(answers, contents, last) && forall k :: k in contents ==> !Behind(last, k)
    ensures IsWholeWalk(answers + [Ended], contents) && NoneNegative(contents)
    ensures forall k :: k in contents ==> Answered(answers + [Ended], contents, k)
  {
    var answers' := answers + [Ended];
    forall k | k in contents
      ensures Answered(answers', contents, k)
    {
      assert Answered(answers, contents, k);
    }
  }

  /** The value -1 under one key: the walk ends in an error. */
  lemma {:induction false} MinusOneFails(memory: Memory, maximumSize: int, key: int)
    requires maximumSize < TYPE_UNIT - NODE_SIZE
    ensures FirstAnswer(memory, maximumSize, key, -1) == Broken
  {
    assert -1 % WORD == WORD - 1 && -1 % TYPE_UNIT == TYPE_UNIT - 1;
    assert FragmentOffset(-1) == TYPE_UNIT - NODE_SIZE;
  }

  /** A value of type 1 is returned as it is, although its key cannot be removed. */
  lemma {:induction false} TypeOneReturned(memory: Memory, maximumSize: int, key: int, v: int)
    requires TYPE_UNIT <= v < WORD / 2
    ensures IsDuplicate(v) && FirstAnswer(memory, maximumSize, key, v) == Single(key, v, 0)
  {
    PlainValues(v);
    NegativeIsLink(v);
  }

  /** The keys still to come. */
  ghost function ToCome(contents: map<int, int>, last: Bound): set<int> {
    set k | k in contents && Behind(last, k)
  }

  lemma {:induction false} AllToCome(contents: map<int, int>)
    ensures |ToCome(contents, None)| == |contents|
  {
    assert ToCome(contents, None) == contents.Keys;
  }

  lemma {:induction false} OneLessToCome(contents: map<int, int>, last: Bound, key: int)
    requires key in contents && Behind(last, key) && forall k :: k in contents && Behind(last, k) ==> key <= k
    ensures key in ToCome(contents, last) && ToCome(contents, Some(key)) == ToCome(contents, last) - {key}
    ensures |ToCome(contents, Some(key))| == |ToCome(contents, last)| - 1
  {
    assert ToCome(contents, Some(key)) == ToCome(contents, last) - {key};
  }

  /** Calls up to the end or the first error.  They are a whole walk exactly if no value is
      negative; the entries in front of the first negative value are right in any case. */
  method Walk(tree: Tree, memory: Memory, calls: nat) returns (answers: seq<Answer>)
    requires tree.Valid() && forall k :: k in tree.contents ==> IsWord(tree.contents[k])
    ensures calls > |tree.contents| ==> (IsWholeWalk(answers, tree.contents) <==> NoneNegative(tree.contents))
    ensures calls > |tree.contents| ==>
              forall k :: k in tree.contents && (forall k' :: k' in tree.contents && k' <= k ==> tree.contents[k'] >= 0)
                ==> Answered(answers, tree.contents, k)
  {
    hide Holds, Ahead, AllFit, StoreOk, NoneLost, Listed, FirstAnswer, TakenForLink, BadAt, IsWholeWalk, NoneNegative, Answered, ToCome;
    var it := new PlainIterator(tree, memory);
    answers := [];
    ghost var contents := tree.contents;
    ghost var good, bad: nat, wrong := true, 0, 0;
    AllToCome(contents);
    assert Listed(answers, contents, None) by {
      NothingListed(contents);
    }
    while |answers| < calls
      invariant it.keys.tree == tree && it.keys.Placed() && contents == tree.contents
      invariant good ==> it.keys.Valid() && it.spot.node == NULL && Listed(answers, contents, it.keys.last)
      invariant good ==> |ToCome(contents, it.keys.last)| + |answers| == |contents|
      invariant !good ==> BadAt(answers, contents, bad, wrong)
      decreases calls - |answers|
    {
      ghost var last, before := it.keys.last, answers;
      var answer := it.GetNextEntry();
      answers := answers + [answer];
      if answer == Ended {
        if good {
          AllListed(before, contents, last);
        } else {
          StillBad(before, contents, bad, wrong, answer);
          NotWhole(answers, contents, bad, wrong);
        }
        return;
      }
      if good {
        ghost var key := it.keys.last.value;
        AnswerRight(memory, tree.maximumSize, key, contents[key]);
        NegativeIsLink(contents[key]);
        if contents[key] >= 0 {
          ListMore(before, contents, last, key);
          OneLessToCome(contents, last, key);
        } else {
          good, bad, wrong := false, |before|, key;
          WrongAnswer(before, contents, last, answer, key);
        }
      } else {
        StillBad(before, contents, bad, wrong, answer);
      }
      if answer == Broken {
        break;
      }
    }
    if !good {
      NotWhole(answers, contents, bad, wrong);
    }
  }
}
