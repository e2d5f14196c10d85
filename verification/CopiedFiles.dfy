/** The hash table of files that have been copied: for every inode of a device the path it
was copied to first. */
module CopiedFiles {

  const NULL := -1

  datatype Entry = Entry(ino: int, dev: int, node: string, link: int) {
    function Key(): (int, int) {
      (ino, dev)
    }
  }

  /** The place of an inode in the pointer vector; the inode number counts as unsigned. */
  function Bucket(ino: int, modulus: int): (b: int)
    requires modulus > 0
    ensures 0 <= b < modulus
  {
    ino % 0x1_0000_0000_0000_0000 % modulus
  }

  /** The last of the first `n` entries that belongs to bucket `b`. */
  function Last(entries: seq<Entry>, n: nat, modulus: int, b: int): (k: int)
    requires n <= |entries| && modulus > 0
    ensures -1 <= k < n && (k >= 0 ==> Bucket(entries[k].ino, modulus) == b)
    ensures forall j :: k < j < n ==> Bucket(entries[j].ino, modulus) != b
  {
    if n == 0 then NULL
    else if Bucket(entries[n - 1].ino, modulus) == b then n - 1
    else Last(entries, n - 1, modulus, b)
  }

  /** Every bucket points to its last entry and every entry to the one before it in its
      bucket, so that chains run towards the first entry and end. */
  ghost predicate Chained(hash: seq<int>, entries: seq<Entry>, n: nat, modulus: int) {
    && modulus > 0 && |hash| == modulus && n <= |entries|
    && (forall b :: 0 <= b < modulus ==> hash[b] == Last(entries, n, modulus, b))
    && (forall k :: 0 <= k < n ==> entries[k].link == Last(entries, k, modulus, Bucket(entries[k].ino, modulus)))
  }

  ghost predicate Distinct(entries: seq<Entry>, n: nat)
    requires n <= |entries|
  {
    forall i, j :: 0 <= i < j < n ==> entries[i].Key() != entries[j].Key()
  }

  /** The paths of the first `n` entries. */
  function Paths(entries: seq<Entry>, n: nat): map<(int, int), string>
    requires n <= |entries|
  {
    if n == 0 then map[] else Paths(entries, n - 1)[entries[n - 1].Key() := entries[n - 1].node]
  }

  lemma {:induction false} PathsKeys(entries: seq<Entry>, n: nat, key: (int, int))
    requires n <= |entries|
    ensures key in Paths(entries, n) <==> exists k :: 0 <= k < n && entries[k].Key() == key
  {
    if n > 0 {
      PathsKeys(entries, n - 1, key);
      assert entries[n - 1].Key() == key ==> exists k :: 0 <= k < n && entries[k].Key() == key;
    }
  }

  lemma {:induction false} PathsAt(entries: seq<Entry>, n: nat, k: nat)
    requires k < n <= |entries| && Distinct(entries, n)
    ensures entries[k].Key() in Paths(entries, n) && Paths(entries, n)[entries[k].Key()] == entries[k].node
  {
    if k < n - 1 {
      PathsAt(entries, n - 1, k);
    }
  }

  predicate SameButLinks(a: seq<Entry>, b: seq<Entry>, n: nat) {
    n <= |a| && n <= |b| && forall k :: 0 <= k < n ==> a[k].Key() == b[k].Key() && a[k].node == b[k].node
  }

  lemma {:induction false} PathsSame(a: seq<Entry>, b: seq<Entry>, n: nat)
    requires SameButLinks(a, b, n)
    ensures Paths(a, n) == Paths(b, n)
  {
    if n > 0 {
      PathsSame(a, b, n - 1);
    }
  }

  lemma {:induction false} LastSame(a: seq<Entry>, b: seq<Entry>, n: nat, modulus: int, bucket: int)
    requires SameButLinks(a, b, n) && modulus > 0
    ensures Last(a, n, modulus, bucket) == Last(b, n, modulus, bucket)
  {
    if n > 0 {
      assert a[n - 1].Key() == b[n - 1].Key();
      LastSame(a, b, n - 1, modulus, bucket);
    }
  }

  /** A new entry at the head of its chain. */
  lemma {:induction false} ChainedMore(hash: seq<int>, entries: seq<Entry>, n: nat, modulus: int, e: Entry)
    requires Chained(hash, entries, n, modulus) && n < |entries| && e.link == hash[Bucket(e.ino, modulus)]
    ensures Chained(hash[Bucket(e.ino, modulus) := n], entries[n := e], n + 1, modulus)
  {
    hide Bucket;
    var b, hash', entries' := Bucket(e.ino, modulus), hash[Bucket(e.ino, modulus) := n], entries[n := e];
    forall c | 0 <= c < modulus
      ensures hash'[c] == Last(entries', n + 1, modulus, c)
    {
      LastSame(entries, entries', n, modulus, c);
    }
    forall k | 0 <= k < n + 1
      ensures entries'[k].link == Last(entries', k, modulus, Bucket(entries'[k].ino, modulus))
    {
      LastSame(entries, entries', k, modulus, Bucket(entries'[k].ino, modulus));
    }
  }

  /** Where a search for a key stands: behind `ep` it is not. */
  ghost predicate Searching(entries: seq<Entry>, n: nat, modulus: int, key: (int, int), ep: int) {
    && modulus > 0 && n <= |entries| && -1 <= ep < n
    && (ep >= 0 ==> Bucket(entries[ep].ino, modulus) == Bucket(key.0, modulus))
    && forall k :: ep < k < n ==> entries[k].Key() != key
  }

  lemma {:induction false} SearchBegins(hash: seq<int>, entries: seq<Entry>, n: nat, modulus: int, key: (int, int))
    requires Chained(hash, entries, n, modulus)
    ensures Searching(entries, n, modulus, key, hash[Bucket(key.0, modulus)])
  {
    hide Bucket;
  }

  lemma {:induction false} SearchGoesOn(hash: seq<int>, entries: seq<Entry>, n: nat, modulus: int, key: (int, int), ep: int)
    requires Chained(hash, entries, n, modulus) && Searching(entries, n, modulus, key, ep) && ep >= 0 && entries[ep].Key() != key
    ensures entries[ep].link < ep && Searching(entries, n, modulus, key, entries[ep].link)
  {
    hide Bucket;
    var b := Bucket(key.0, modulus);
    assert entries[ep].link == Last(entries, ep, modulus, b);
  }

  lemma {:induction false} SearchFails(entries: seq<Entry>, n: nat, modulus: int, key: (int, int))
    requires Searching(entries, n, modulus, key, NULL)
    ensures key !in Paths(entries, n)
  {
    PathsKeys(entries, n, key);
  }

  lemma {:induction false} DistinctMore(entries: seq<Entry>, n: nat, e: Entry)
    requires n < |entries| && Distinct(entries, n) && e.Key() !in Paths(entries, n)
    ensures Distinct(entries[n := e], n + 1) && Paths(entries[n := e], n + 1) == Paths(entries, n)[e.Key() := e.node]
  {
    PathsKeys(entries, n, e.Key());
    PathsSame(entries, entries[n := e], n);
  }

  /** The map an insertion should give. */
  function Remembered(m: map<(int, int), string>, key: (int, int), node: string): map<(int, int), string> {
    if key in m then m else m[key := node]
  }

  datatype Found = Nothing | Path(node: string)

  class Table {
    var modulus: int
    var hash: seq<int>
    var entries: seq<Entry>
    var firstFree: nat

    ghost predicate Valid()
      reads this
    {
      && |entries| > 0 && firstFree <= |entries|
      && Chained(hash, entries, firstFree, modulus) && Distinct(entries, firstFree)
    }

    ghost function Contents(): map<(int, int), string>
      requires firstFree <= |entries|
      reads this
    {
      Paths(entries, firstFree)
    }

    /** hash_init. */
    constructor (modulus: int, size: int)
      requires modulus > 0 && size > 0
      ensures Valid() && Contents() == map[]
    {
      this.modulus, firstFree := modulus, 0;
      hash := seq(modulus, _ => NULL);
      entries := seq(size, _ => Entry(0, 0, "", NULL));
    }

    /** forget_all. */
    method ForgetAll()
      requires modulus > 0 && |entries| > 0
      modifies this`hash, this`firstFree
      ensures Valid() && firstFree == 0 && Contents() == map[]
    {
      firstFree := 0;
      hash := seq(modulus, _ => NULL);
    }

    /** hash_insert2: searches the chain of the bucket, and puts a new entry at its head. */
    method InsertEntry(ino: int, dev: int, node: string) returns (found: Found)
      requires Valid() && firstFree < |entries|
      modifies this`hash, this`entries, this`firstFree
      ensures Valid() && |entries| == |old(entries)|
      ensures (ino, dev) in old(Contents()) ==>
                && found == Path(old(Contents())[(ino, dev)]) && hash == old(hash) && entries == old(entries) && firstFree == old(firstFree)
      ensures (ino, dev) !in old(Contents()) ==>
                && found == Nothing && firstFree == old(firstFree) + 1
                && entries[old(firstFree)].Key() == (ino, dev) && entries[old(firstFree)].node == node
                && forall k :: 0 <= k < |entries| && k != old(firstFree) ==> entries[k] == old(entries)[k]
      ensures Contents() == Remembered(old(Contents()), (ino, dev), node)
    {
      hide Chained, Distinct, Paths, Searching;
      var ep := Find(ino, dev);
      if ep != NULL {
        return Path(entries[ep].node);
      }
      assert Bucket(ino, modulus) < |hash| by {
        ChainedSizes(hash, entries, firstFree, modulus);
      }
      var b := Bucket(ino, modulus);
      var e := Entry(ino, dev, node, hash[b]);
      ChainedMore(hash, entries, firstFree, modulus, e);
      DistinctMore(entries, firstFree, e);
      hash := hash[b := firstFree];
      entries := entries[firstFree := e];
      firstFree := firstFree + 1;
      found := Nothing;
    }

    static lemma {:induction false} ChainedSizes(hash: seq<int>, entries: seq<Entry>, n: nat, modulus: int)
      requires Chained(hash, entries, n, modulus)
      ensures modulus > 0 && |hash| == modulus
    {
    }

    /** The search of hash_insert2: follows the chain of the bucket. */
    method Find(ino: int, dev: int) returns (ep: int)
      requires Valid()
      ensures ep == NULL <==> (ino, dev) !in Contents()
      ensures ep != NULL ==> 0 <= ep < firstFree && entries[ep].Key() == (ino, dev) && Contents()[(ino, dev)] == entries[ep].node
    {
      ChainedSizes(hash, entries, firstFree, modulus);
      SearchBegins(hash, entries, firstFree, modulus, (ino, dev));
      hide Chained, Distinct, Paths;
      ep := hash[Bucket(ino, modulus)];
      while ep != NULL
        invariant Searching(entries, firstFree, modulus, (ino, dev), ep)
        decreases ep
      {
        if entries[ep].ino == ino && entries[ep].dev == dev {
          PathsAt(entries, firstFree, ep);
          return;
        }
        SearchGoesOn(hash, entries, firstFree, modulus, (ino, dev), ep);
        ep := entries[ep].link;
      }
      SearchFails(entries, firstFree, modulus, (ino, dev));
    }

    /** Doubles the table in place: every entry is inserted again where it already stands. */
    method Rehash()
      requires Valid()
      modifies this
      ensures Valid() && Contents() == old(Contents()) && firstFree == old(firstFree)
      ensures |entries| == 2 * |old(entries)| && SameButLinks(entries, old(entries), firstFree)
    {
      hide Chained, Paths, Distinct, SameButLinks;
      ghost var entries0, n := entries, firstFree;
      ChainedSizes(hash, entries, firstFree, modulus);
      GrownSame(entries, seq(|entries|, _ => Entry(0, 0, "", NULL)), firstFree);
      modulus := 2 * modulus;
      entries := entries + seq(|entries|, _ => Entry(0, 0, "", NULL));
      var left := firstFree;
      ForgetAll();
      var i := 0;
      while left > 0
        invariant i + left == n && firstFree == i && Valid() && |entries| == 2 * |entries0|
        invariant SameButLinks(entries, entries0, n)
        decreases left
      {
        NotThereYet(entries, entries0, i, n);
        ghost var before := entries;
        var _ := InsertEntry(entries[i].ino, entries[i].dev, entries[i].node);
        SameAgain(entries, before, entries0, i, n);
        i, left := i + 1, left - 1;
      }
      PathsSame(entries, entries0, n);
    }

    static lemma {:induction false} GrownSame(entries: seq<Entry>, more: seq<Entry>, n: nat)
      requires n <= |entries|
      ensures SameButLinks(entries + more, entries, n)
    {
    }

    /** An entry is not found among those in front of it. */
    static lemma {:induction false} NotThereYet(entries: seq<Entry>, entries0: seq<Entry>, i: nat, n: nat)
      requires i < n && SameButLinks(entries, entries0, n) && Distinct(entries0, n)
      ensures entries[i].Key() !in Paths(entries, i)
    {
      PathsKeys(entries, i, entries[i].Key());
    }

    static lemma {:induction false} SameAgain(entries: seq<Entry>, before: seq<Entry>, entries0: seq<Entry>, i: nat, n: nat)
      requires i < n <= |entries| && |before| == |entries| && SameButLinks(before, entries0, n)
      requires entries[i].Key() == before[i].Key() && entries[i].node == before[i].node
      requires forall k :: 0 <= k < |entries| && k != i ==> entries[k] == before[k]
      ensures SameButLinks(entries, entries0, n)
    {
    }

    /** remember_copied: remembers a path unless there is one for the inode already. */
    method Remember(ino: int, dev: int, node: string) returns (found: Found)
      requires Valid()
      modifies this
      ensures Valid()
      ensures found == if (ino, dev) in old(Contents()) then Path(old(Contents())[(ino, dev)]) else Nothing
      ensures Contents() == Remembered(old(Contents()), (ino, dev), node)
    {
      if firstFree >= |entries| {
        Rehash();
      }
      found := InsertEntry(ino, dev, node);
    }
  }

  datatype File = File(ino: int, dev: int, node: string)

  /** The first path of every file. */
  function FirstPaths(files: seq<File>): map<(int, int), string> {
    if files == [] then map[]
    else
      var n := |files| - 1;
      Remembered(FirstPaths(files[..n]), (files[n].ino, files[n].dev), files[n].node)
  }

  /** Any sequence of files, whatever sizes the table begins with. */
  method RememberAll(modulus: int, size: int, files: seq<File>) returns (t: Table)
    requires modulus > 0 && size > 0
    ensures t.Valid() && t.Contents() == FirstPaths(files) && fresh(t)
  {
    hide Chained, Distinct, Paths;
    t := new Table(modulus, size);
    var i := 0;
    while i < |files|
      invariant 0 <= i <= |files| && t.Valid() && fresh(t)
      invariant t.Contents() == FirstPaths(files[..i])
    {
      var _ := t.Remember(files[i].ino, files[i].dev, files[i].node);
      assert files[..i + 1][..i] == files[..i];
      i := i + 1;
    }
    assert files[..i] == files;
  }
}
