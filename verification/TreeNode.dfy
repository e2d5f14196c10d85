/** A node of the B+tree: a sorted list of keys with one value each, the links to its
siblings, and the overflow link that makes it an index node. */
module TreeNode {
  import opened Sequences


  const NULL := -1             // BPLUSTREE_NULL
  const NODE_SIZE := 1024      // BPLUSTREE_NODE_SIZE
  const HEADER_SIZE := 28      // sizeof(bplustree_node)
  const PER_KEY := 10          // sizeof(uint16) + sizeof(off_t)
  const MIN_KEY_LENGTH := 1
  const MAX_KEY_LENGTH := 256

  /** A key: its place in the order of the tree's key type, and its length in bytes. */
  datatype Key = Key(order: int, length: nat)

  datatype Node = Node(left: int, right: int, overflow: int, keys: seq<Key>, values: seq<int>) {
    predicate Valid() {
      |keys| == |values|
    }

    predicate IsLeaf() {
      overflow == NULL
    }

    /** The node that index `i` leads to. */
    function Child(i: nat): int
      requires Valid() && i <= |keys|
    {
      if i < |values| then values[i] else overflow
    }
  }

  const EMPTY_NODE := Node(NULL, NULL, NULL, [], [])

  predicate Sorted(keys: seq<Key>) {
    forall i, j :: 0 <= i < j < |keys| ==> keys[i].order < keys[j].order
  }

  /** Where `k` stands or would stand: behind all smaller keys. */
  function Position(keys: seq<Key>, k: int): (p: nat)
    ensures p <= |keys|
    ensures forall i :: 0 <= i < p ==> keys[i].order < k
    ensures p < |keys| ==> keys[p].order >= k
  {
    if keys == [] || keys[0].order >= k then 0
    else
      var p := Position(keys[1..], k);
      assert forall i :: 1 <= i < p + 1 ==> keys[i] == keys[1..][i - 1];
      1 + p
  }

  /** In a sorted node only one place has the smaller keys in front. */
  lemma {:induction false} PositionUnique(keys: seq<Key>, k: int, p: nat)
    requires Sorted(keys) && p <= |keys|
    requires p > 0 ==> keys[p - 1].order < k
    requires p < |keys| ==> keys[p].order >= k
    ensures Position(keys, k) == p
  {
  }

  predicate Has(keys: seq<Key>, k: int) {
    var p := Position(keys, k);
    p < |keys| && keys[p].order == k
  }

  /** The binary search of BPlusTree::FindKey. */
  method FindKey(node: Node, k: int) returns (found: bool, index: nat, next: int)
    requires node.Valid() && Sorted(node.keys)
    ensures index == Position(node.keys, k)
    ensures found <==> Has(node.keys, k)
    ensures next == node.Child(index)
  {
    var keys := node.keys;
    if |keys| == 0 {
      return false, 0, node.overflow;
    }
    var first, last, saveIndex := 0, |keys| - 1, 0;
    while first <= last
      invariant 0 <= first <= last + 1 <= |keys|
      invariant forall i :: 0 <= i < first ==> keys[i].order < k
      invariant forall i :: last < i < |keys| ==> keys[i].order > k
      invariant first > last ==> saveIndex == first
    {
      var i := (first + last) / 2;
      if k < keys[i].order {
        last := i - 1;
        saveIndex := i;
      } else if k > keys[i].order {
        first := i + 1;
        saveIndex := first;
      } else {
        PositionUnique(keys, k, i);
        return true, i, node.values[i];
      }
    }
    PositionUnique(keys, k, saveIndex);
    found, index := false, saveIndex;
    next := if saveIndex == |keys| then node.overflow else node.values[saveIndex];
  }

  // ---------- entries ----------

  /** BPlusTree::InsertKey. */
  function InsertKey(node: Node, i: nat, key: Key, value: int): (r: Node)
    requires node.Valid() && i <= |node.keys|
    ensures r.Valid()
  {
    node.(keys := Insert(node.keys, i, key), values := Insert(node.values, i, value))
  }

  /** BPlusTree::RemoveKey on a leaf. */
  function RemoveKey(node: Node, i: nat): (r: Node)
    requires node.Valid() && i < |node.keys|
    ensures r.Valid()
  {
    node.(keys := Remove(node.keys, i), values := Remove(node.values, i))
  }

  // ---------- space ----------

  function RoundUp(bytes: nat): (r: nat)
    ensures bytes <= r < bytes + 8
  {
    (bytes + 7) / 8 * 8
  }

  function Bytes(keys: seq<Key>): nat {
    if keys == [] then 0 else Bytes(keys[..|keys| - 1]) + keys[|keys| - 1].length
  }

  function Size(bytes: nat, count: nat): nat {
    RoundUp(HEADER_SIZE + bytes) + count * PER_KEY
  }

  /** The bytes of the node that are in use. */
  function Used(node: Node): nat {
    Size(Bytes(node.keys), |node.keys|)
  }

  lemma {:induction false} BytesConcat(a: seq<Key>, b: seq<Key>)
    ensures Bytes(a + b) == Bytes(a) + Bytes(b)
    decreases |b|
  {
    if b == [] {
      assert a + b == a;
    } else {
      BytesConcat(a, b[..|b| - 1]);
      assert (a + b)[..|a + b| - 1] == a + b[..|b| - 1];
    }
  }

  lemma {:induction false} BytesInsert(keys: seq<Key>, i: nat, key: Key)
    requires i <= |keys|
    ensures Bytes(Insert(keys, i, key)) == Bytes(keys) + key.length
  {
    assert keys == keys[..i] + keys[i..];
    assert Insert(keys, i, key) == keys[..i] + [key] + keys[i..];
    BytesConcat(keys[..i], keys[i..]);
    BytesConcat(keys[..i] + [key], keys[i..]);
    BytesConcat(keys[..i], [key]);
    assert [key][..0] == [];
  }

  lemma {:induction false} BytesRemove(keys: seq<Key>, i: nat)
    requires i < |keys|
    ensures Bytes(Remove(keys, i)) == Bytes(keys) - keys[i].length
  {
    assert Insert(Remove(keys, i), i, keys[i]) == keys;
    BytesInsert(Remove(keys, i), i, keys[i]);
  }

  lemma {:induction false} BytesSplit(keys: seq<Key>, i: nat)
    requires i <= |keys|
    ensures Bytes(keys) == Bytes(keys[..i]) + Bytes(keys[i..])
  {
    assert keys == keys[..i] + keys[i..];
    BytesConcat(keys[..i], keys[i..]);
  }

  // ---------- the place to split ----------

  const HALF := NODE_SIZE / 2

  /** What SplitNode takes for the size of a node with the first `out` keys, the new key
      among them or not.  As long as the new key is not reached, the bytes of the last
      key are not counted yet. */
  function Counted(keys: seq<Key>, keyIndex: nat, newLength: nat, out: nat): nat
    requires 1 <= out <= |keys| + 1
  {
    Size(Bytes(keys[..out - 1]) + if keyIndex < out then newLength else 0, out)
  }

  /** The first count that reaches half a node. */
  predicate IsSplitPoint(keys: seq<Key>, keyIndex: nat, newLength: nat, out: nat) {
    && 1 <= out <= |keys| + 1
    && Counted(keys, keyIndex, newLength, out) >= HALF
    && forall o :: 1 <= o < out ==> Counted(keys, keyIndex, newLength, o) < HALF
  }

  /** The first loop of SplitNode: how many of the keys go to the new node. */
  method SplitPoint(keys: seq<Key>, keyIndex: nat, newLength: nat) returns (out: nat)
    requires keyIndex <= |keys| && newLength >= MIN_KEY_LENGTH
    requires Size(Bytes(keys) + newLength, |keys| + 1) >= NODE_SIZE
    ensures IsSplitPoint(keys, keyIndex, newLength, out)
  {
    hide Size;
    var bytes, bytesBefore, bytesAfter := 0, 0, 0;
    var at := 0;
    out := 0;
    var total := 0;    // inKeyLengths[at - 1]
    assert keys[..0] == [];
    assert keys[..|keys|] == keys;
    while at < |keys| + 1
      invariant at <= |keys| && out <= |keys|
      invariant bytes == if out > keyIndex then newLength else 0
      invariant at == if out > keyIndex then out - 1 else out
      invariant total == Bytes(keys[..at])
      invariant if out > keyIndex then bytesBefore + bytesAfter == total else bytesAfter == 0
      invariant forall o :: 1 <= o <= out ==> Counted(keys, keyIndex, newLength, o) < HALF
      decreases |keys| + 1 - out
    {
      if bytes == 0 {
        bytesBefore := total;
      }
      if at == keyIndex && bytes == 0 {
        bytes := newLength;
      } else {
        assert keys[..at + 1][..at] == keys[..at];
        total := total + keys[at].length;
        if keyIndex < out {
          bytesAfter := total - bytesBefore;
        }
        at := at + 1;
      }
      out := out + 1;
      assert bytesBefore + bytesAfter == Bytes(keys[..out - 1]);
      if Size(bytesBefore + bytesAfter + bytes, out) >= HALF {
        return;
      }
    }
  }

  lemma {:induction false} SplitPointUnique(keys: seq<Key>, keyIndex: nat, newLength: nat, out: nat, out': nat)
    requires IsSplitPoint(keys, keyIndex, newLength, out) && IsSplitPoint(keys, keyIndex, newLength, out')
    ensures out == out'
  {
    hide Counted;
  }

  /** The new node takes all keys only if the new one is the last of them. */
  lemma {:induction false} LastSplitPoint(keys: seq<Key>, keyIndex: nat, newLength: nat, out: nat)
    requires keyIndex <= |keys| && MIN_KEY_LENGTH <= newLength <= MAX_KEY_LENGTH
    requires forall i :: 0 <= i < |keys| ==> keys[i].length <= MAX_KEY_LENGTH
    requires Size(Bytes(keys) + newLength, |keys| + 1) >= NODE_SIZE
    requires IsSplitPoint(keys, keyIndex, newLength, out) && out == |keys| + 1
    ensures keyIndex == |keys| && Counted(keys, keyIndex, newLength, out) >= NODE_SIZE
  {
    assert keys[..|keys|] == keys;
    if |keys| > 0 {
      assert Counted(keys, keyIndex, newLength, |keys|) < HALF;
    }
  }

  const SHORT_KEY := 248

  /** With keys of at most 248 bytes the old node always keeps a key. */
  lemma {:induction false} ShortKeysSplitProperly(keys: seq<Key>, keyIndex: nat, newLength: nat, out: nat)
    requires keyIndex <= |keys| && MIN_KEY_LENGTH <= newLength <= SHORT_KEY
    requires forall i :: 0 <= i < |keys| ==> keys[i].length <= SHORT_KEY
    requires Size(Bytes(keys) + newLength, |keys| + 1) >= NODE_SIZE
    requires IsSplitPoint(keys, keyIndex, newLength, out)
    ensures 1 <= out <= |keys|
  {
    assert |keys| > 0;
    var n := |keys|;
    if out == n + 1 {
      assert Counted(keys, keyIndex, newLength, n) < HALF;
      RoundUpStep(HEADER_SIZE + Bytes(keys[..n - 1]), keys[n - 1].length + newLength);
    }
  }

  lemma {:induction false} RoundUpStep(bytes: nat, more: nat)
    requires more <= 496
    ensures RoundUp(bytes + more) <= RoundUp(bytes) + 496
  {
  }

  lemma {:induction false} BytesOneMore(keys: seq<Key>, key: Key)
    ensures Bytes(keys + [key]) == Bytes(keys) + key.length
  {
    assert (keys + [key])[..|keys|] == keys;
  }

  /** Longer keys can leave the old node empty: three keys and a fourth behind them. */
  lemma {:induction false} LongKeysEmptyTheNode(a: Key, b: Key, c: Key)
    requires a.length == 226 && b.length == 226 && c.length == 256
    ensures Size(Bytes([a, b, c]) + 256, 4) >= NODE_SIZE
    ensures IsSplitPoint([a, b, c], 3, 256, 4)
  {
    hide Bytes;
    FourBytes(a, b, c, c);
    var keys := [a, b, c];
    assert keys[..0] == [] && keys[..1] == [a] && keys[..2] == [a, b] && keys[..3] == keys;
  }

  // ---------- the size of the parts ----------

  predicate LengthsOk(keys: seq<Key>) {
    forall i :: 0 <= i < |keys| ==> MIN_KEY_LENGTH <= keys[i].length <= MAX_KEY_LENGTH
  }

  /** The node does not reach over the end of its block. */
  predicate Fits(node: Node) {
    LengthsOk(node.keys) && Used(node) <= NODE_SIZE
  }

  predicate ShortKeys(keys: seq<Key>) {
    forall i :: 0 <= i < |keys| ==> keys[i].length <= SHORT_KEY
  }

  /** The bytes of the first keys after the new key was inserted. */
  lemma {:induction false} BytesBefore(keys: seq<Key>, i: nat, key: Key, out: nat)
    requires i <= |keys| && 1 <= out <= |keys| + 1 && (out <= i ==> out <= |keys|)
    ensures Bytes(Insert(keys, i, key)[..out])
         == if out <= i then Bytes(keys[..out]) else Bytes(keys[..out - 1]) + key.length
  {
    if out <= i {
      assert Insert(keys, i, key)[..out] == keys[..out];
    } else {
      assert Insert(keys, i, key)[..out] == Insert(keys[..out - 1], i, key);
      BytesInsert(keys[..out - 1], i, key);
    }
  }

  /** The new node fits its block exactly if it does not get the new key, or the size that
      was counted for it is not too large: the loop stops at half a node, but the key it
      stops at may be a long one that was not counted before. */
  lemma {:induction false} LeftExact(keys: seq<Key>, i: nat, key: Key, out: nat)
    requires i <= |keys| && Size(Bytes(keys), |keys|) <= NODE_SIZE
    requires IsSplitPoint(keys, i, key.length, out)
    ensures Size(Bytes(Insert(keys, i, key)[..out]), out) <= NODE_SIZE
       <==> out <= i || Counted(keys, i, key.length, out) <= NODE_SIZE
  {
    hide Bytes, Insert, Size;
    BytesBefore(keys, i, key, out);
    if out <= i {
      BytesSplit(keys, out);
      SizeGrows(Bytes(keys[..out]), Bytes(keys), out, |keys|);
    }
  }

  lemma {:induction false} SizeGrows(bytes: nat, bytes': nat, count: nat, count': nat)
    requires bytes <= bytes' && count <= count'
    ensures Size(bytes, count) <= Size(bytes', count')
  {
  }

  /** The old node always fits. */
  lemma {:induction false} RightAlways(keys: seq<Key>, i: nat, key: Key, out: nat, skip: nat)
    requires i <= |keys| && key.length <= MAX_KEY_LENGTH && Size(Bytes(keys), |keys|) <= NODE_SIZE
    requires IsSplitPoint(keys, i, key.length, out) && out <= skip <= |keys| + 1
    ensures Size(Bytes(Insert(keys, i, key)[skip..]), |keys| + 1 - skip) <= NODE_SIZE
  {
    hide Bytes;
    var merged := Insert(keys, i, key);
    BytesInsert(keys, i, key);
    BytesSplit(merged, skip);
    BytesSplit(merged[..skip], out);
    assert merged[..skip][..out] == merged[..out];
    BytesBefore(keys, i, key, out);
    if out <= |keys| {
      BytesSplit(keys[..out], out - 1);
      assert keys[..out][..out - 1] == keys[..out - 1];
    }
  }

  /** Keys of at most 248 bytes never make the new node too large. */
  lemma {:induction false} ShortKeysCountSmall(keys: seq<Key>, i: nat, length: nat, out: nat)
    requires ShortKeys(keys) && length <= SHORT_KEY
    requires IsSplitPoint(keys, i, length, out) && out <= |keys|
    ensures out <= i || Counted(keys, i, length, out) < NODE_SIZE
  {
    hide Bytes;
    NoBytes();
    assert keys[..0] == [];
    if out >= 2 {
      BytesSplit(keys[..out - 1], out - 2);
      BytesOneMore([], keys[out - 2]);
      assert keys[..out - 1][out - 2..] == [] + [keys[out - 2]];
      assert Counted(keys, i, length, out - 1) < HALF;
      assert keys[..out - 1][..out - 2] == keys[..out - 2];
      RoundUpStep(HEADER_SIZE + Bytes(keys[..out - 2]), keys[out - 2].length + length);
    }
  }

  lemma {:induction false} NoBytes()
    ensures Bytes([]) == 0
  {
  }

  lemma {:induction false} FourBytes(a: Key, b: Key, c: Key, d: Key)
    ensures var keys := [a, b, c, d];
            && keys[..0] == [] && keys[..1] == [a] && keys[..2] == [a, b] && keys[..3] == [a, b, c]
            && Bytes([]) == 0 && Bytes([a]) == a.length && Bytes([a, b]) == a.length + b.length
            && Bytes([a, b, c]) == a.length + b.length + c.length
            && Bytes(keys) == a.length + b.length + c.length + d.length
  {
    BytesOneMore([], a);
    BytesOneMore([a], b);
    BytesOneMore([a, b], c);
    BytesOneMore([a, b, c], d);
    assert [] + [a] == [a] && [a] + [b] == [a, b] && [a, b] + [c] == [a, b, c] && [a, b, c] + [d] == [a, b, c, d];
  }

  /** Four keys of 226, 226, 256 and 1 bytes and a fifth of 256 between the last two: the
      old node keeps a key, and yet the new node reaches over the end of its block. */
  lemma {:induction false} LongKeysOverrun(a: Key, b: Key, c: Key, d: Key, key: Key)
    requires a.length == 226 && b.length == 226 && c.length == 256 && d.length == 1 && key.length == 256
    ensures Size(Bytes([a, b, c, d]), 4) < NODE_SIZE <= Size(Bytes([a, b, c, d]) + 256, 5)
    ensures IsSplitPoint([a, b, c, d], 3, 256, 4)
    ensures Size(Bytes(Insert([a, b, c, d], 3, key)[..4]), 4) > NODE_SIZE
  {
    hide Bytes, Insert;
    FourBytes(a, b, c, d);
    LeftExact([a, b, c, d], 3, key, 4);
  }
}
