/** The sorted array of the journal's block lists and of the duplicate lists: a count
word followed by that many values in ascending order, edited in place.  Values are
compared by their difference, which wraps around if they are far apart. */
module SortedArrays {
  import opened Sequences
  import opened Memory
  import opened Words

  predicate Ascending(s: seq<int>) {
    forall i, j :: 0 <= i < j < |s| ==> s[i] <= s[j]
  }

  // ---------- values ----------

  /** Where a new value goes: behind all values that are not greater. */
  function InsertionPoint(a: seq<int>, x: int): (i: nat)
    ensures i <= |a|
    ensures forall j :: 0 <= j < i ==> a[j] <= x
    ensures i < |a| ==> a[i] > x
  {
    if a == [] || a[0] > x then 0
    else
      var i := InsertionPoint(a[1..], x);
      assert forall j :: 1 <= j < i + 1 ==> a[j] == a[1..][j - 1];
      1 + i
  }

  function SortedInsert(a: seq<int>, x: int): seq<int> {
    Insert(a, InsertionPoint(a, x), x)
  }

  /** Ascending order is kept and exactly one value is added. */
  lemma {:induction false} SortedInsertKeeps(a: seq<int>, x: int)
    requires Ascending(a)
    ensures Ascending(SortedInsert(a, x))
    ensures multiset(SortedInsert(a, x)) == multiset(a) + multiset{x}
  {
    var p := InsertionPoint(a, x);
    InsertCounted(a, p, x);
    forall i, j | 0 <= i < j < |a| + 1
      ensures SortedInsert(a, x)[i] <= SortedInsert(a, x)[j]
    {
      assert p < |a| && j > p ==> a[p] <= a[j - 1];
    }
  }

  lemma {:induction false} RemoveKeeps(a: seq<int>, i: nat)
    requires Ascending(a) && i < |a|
    ensures Ascending(Remove(a, i))
    ensures multiset(Remove(a, i)) + multiset{a[i]} == multiset(a)
  {
    InsertRemoved(a, i);
    InsertCounted(Remove(a, i), i, a[i]);
  }

  /** Among equal values it does not matter where the new one goes. */
  lemma {:induction false} InsertAnywhere(a: seq<int>, x: int, i: nat)
    requires Ascending(a) && i <= |a|
    requires i > 0 ==> a[i - 1] <= x
    requires i < |a| ==> x <= a[i]
    ensures Insert(a, i, x) == SortedInsert(a, x)
  {
    var p := InsertionPoint(a, x);
    assert forall j :: 0 <= j < i ==> a[j] <= x by {
      assert forall j :: 0 <= j < i - 1 ==> a[j] <= a[i - 1];
    }
    assert forall j :: i <= j < p ==> a[j] == x by {
      assert forall j :: i <= j < p ==> a[i] <= a[j];
    }
  }

  /** The ascending sequence of some values. */
  ghost function InOrder(bag: multiset<int>): (s: seq<int>)
    ensures Ascending(s) && multiset(s) == bag
    decreases |bag|
  {
    if bag == multiset{} then []
    else
      NotEmpty(bag);
      var x :| x in bag;
      var s := InOrder(bag - multiset{x});
      SortedInsertKeeps(s, x);
      SortedInsert(s, x)
  }

  lemma {:induction false} NotEmpty(bag: multiset<int>)
    requires bag != multiset{}
    ensures exists x :: x in bag
  {
    if forall x :: x !in bag {
      assert false;
    }
  }

  /** There is only one. */
  lemma {:induction false} InOrderUnique(a: seq<int>, b: seq<int>)
    requires Ascending(a) && Ascending(b) && multiset(a) == multiset(b)
    ensures a == b
    decreases |a|
  {
    hide Ascending;
    if a == [] || b == [] {
      assert |a| == |multiset(a)| == |multiset(b)| == |b|;
    } else {
      var n, m := |a| - 1, |b| - 1;
      LastIsSame(a, b);
      FrontCounted(a);
      FrontCounted(b);
      FrontAscends(a);
      FrontAscends(b);
      InOrderUnique(a[..n], b[..m]);
    }
  }

  lemma {:induction false} LastIsSame(a: seq<int>, b: seq<int>)
    requires Ascending(a) && Ascending(b) && multiset(a) == multiset(b) && a != [] && b != []
    ensures a[|a| - 1] == b[|b| - 1]
  {
    LastIsGreatest(a, b[|b| - 1]);
    LastIsGreatest(b, a[|a| - 1]);
    hide Ascending;
    FrontCounted(a);
    FrontCounted(b);
  }

  lemma {:induction false} LastIsGreatest(a: seq<int>, x: int)
    requires Ascending(a) && a != []
    ensures x in multiset(a) ==> x <= a[|a| - 1]
  {
  }

  lemma {:induction false} FrontCounted(a: seq<int>)
    requires a != []
    ensures var n := |a| - 1; a == a[..n] + [a[n]] && multiset(a[..n]) == multiset(a) - multiset{a[n]} && a[n] in multiset(a)
  {
    assert a == a[..|a| - 1] + [a[|a| - 1]];
  }

  lemma {:induction false} FrontAscends(a: seq<int>)
    requires Ascending(a) && a != []
    ensures Ascending(a[..|a| - 1])
  {
  }

  // ---------- the search ----------

  /** The binary search between two indices: whether the value was found, and the last
      index looked at. */
  function Searched(vs: seq<int>, x: int, min: nat, max: int, index: nat): (r: (bool, nat))
    requires min <= max + 1 <= |vs| && (index < |vs| || min <= max)
    ensures r.1 < |vs|
    decreases max - min + 1
  {
    if min > max then (false, index)
    else
      var i := (min + max) / 2;
      var cmp := Difference(vs[i], x);
      if cmp < 0 then Searched(vs, x, i + 1, max, i)
      else if cmp > 0 then Searched(vs, x, min, i - 1, i)
      else (true, i)
  }

  predicate Finds(vs: seq<int>, x: int) {
    vs != [] && Searched(vs, x, 0, |vs| - 1, 0).0
  }

  /** All values a search without wrapping looks at are near. */
  predicate ProbesNear(vs: seq<int>, x: int, min: nat, max: int)
    requires min <= max + 1 <= |vs|
    decreases max - min + 1
  {
    min > max ||
    (var i := (min + max) / 2;
     && Near(vs[i], x)
     && if vs[i] < x then ProbesNear(vs, x, i + 1, max) else vs[i] > x ==> ProbesNear(vs, x, min, i - 1))
  }

  lemma {:induction false} SearchedIsThere(vs: seq<int>, x: int, min: nat, max: int, index: nat)
    requires min <= max + 1 <= |vs| && (index < |vs| || min <= max) && AllWords(vs) && IsWord(x)
    ensures var r := Searched(vs, x, min, max, index); r.0 ==> min <= r.1 <= max && vs[r.1] == x
    decreases max - min + 1
  {
    if min <= max {
      var i := (min + max) / 2;
      if Near(vs[i], x) {
        NearDifference(vs[i], x);
      } else {
        FarDifference(vs[i], x);
      }
      hide Difference;
      if Difference(vs[i], x) < 0 {
        SearchedIsThere(vs, x, i + 1, max, i);
      } else if Difference(vs[i], x) > 0 {
        SearchedIsThere(vs, x, min, i - 1, i);
      }
    }
  }

  lemma {:induction false} SearchedExactly(vs: seq<int>, x: int, min: nat, max: int, index: nat)
    requires min <= max + 1 <= |vs| && (index < |vs| || min <= max) && AllWords(vs) && IsWord(x) && Ascending(vs)
    requires (forall j :: 0 <= j < min ==> vs[j] < x) && (forall j :: max < j < |vs| ==> vs[j] > x)
    ensures Searched(vs, x, min, max, index).0 <==> x in vs && ProbesNear(vs, x, min, max)
    decreases max - min + 1
  {
    if min <= max {
      hide Difference, Near, IsWord;
      var i := (min + max) / 2;
      if Near(vs[i], x) {
        NearDifference(vs[i], x);
        if vs[i] < x {
          SearchedExactly(vs, x, i + 1, max, i);
        } else if vs[i] > x {
          SearchedExactly(vs, x, min, i - 1, i);
        }
      } else {
        FarProbe(vs, x, min, max, index);
      }
    }
  }

  /** A far value sends the search the wrong way. */
  lemma {:induction false} FarProbe(vs: seq<int>, x: int, min: nat, max: int, index: nat)
    requires min <= max < |vs| && AllWords(vs) && IsWord(x) && Ascending(vs) && !Near(vs[(min + max) / 2], x)
    ensures !Searched(vs, x, min, max, index).0
  {
    hide Difference;
    var i := (min + max) / 2;
    assert IsWord(vs[i]);
    FarDifference(vs[i], x);
    if vs[i] > x {
      SearchedIsThere(vs, x, i + 1, max, i);
    } else {
      SearchedIsThere(vs, x, min, i - 1, i);
    }
  }

  /** A value that is there is found exactly if all values the search has to look at are
      near it. */
  lemma {:induction false} FindsExactly(vs: seq<int>, x: int)
    requires AllWords(vs) && IsWord(x) && Ascending(vs)
    ensures Finds(vs, x) <==> x in vs && ProbesNear(vs, x, 0, |vs| - 1)
  {
    if vs != [] {
      SearchedExactly(vs, x, 0, |vs| - 1, 0);
    }
  }

  /** All values are near the one looked for. */
  predicate AllNear(vs: seq<int>, x: int) {
    forall i :: 0 <= i < |vs| ==> Near(vs[i], x)
  }

  /** `x` is not in the array and belongs between the values beside index `p`. */
  predicate BelongsAt(vs: seq<int>, x: int, p: nat) {
    p <= |vs| && (p > 0 ==> vs[p - 1] < x) && (p < |vs| ==> x < vs[p])
  }

  /** What a search should say. */
  predicate RightAnswer(vs: seq<int>, x: int, r: (bool, nat)) {
    && r.1 < |vs|
    && if r.0 then vs[r.1] == x
       else x !in vs && BelongsAt(vs, x, if vs[r.1] <= x then r.1 + 1 else r.1)
  }

  lemma {:induction false} NearFinds(vs: seq<int>, x: int, min: nat, max: int, index: nat)
    requires min <= max + 1 <= |vs| && (index < |vs| || min <= max) && Ascending(vs) && AllNear(vs, x)
    requires (forall j :: 0 <= j < min ==> vs[j] < x) && (forall j :: max < j < |vs| ==> vs[j] > x)
    requires min > max ==> index == min - 1 || index == max + 1
    ensures RightAnswer(vs, x, Searched(vs, x, min, max, index))
    decreases max - min + 1
  {
    hide Difference, Near;
    if min <= max {
      var i := (min + max) / 2;
      assert Near(vs[i], x);
      NearDifference(vs[i], x);
      hide AllNear, RightAnswer;
      if vs[i] < x {
        NearFinds(vs, x, i + 1, max, i);
      } else if vs[i] > x {
        NearFinds(vs, x, min, i - 1, i);
      } else {
        FoundIsRight(vs, x, i);
      }
    }
  }

  lemma {:induction false} FoundIsRight(vs: seq<int>, x: int, i: nat)
    requires i < |vs| && vs[i] == x
    ensures RightAnswer(vs, x, (true, i))
  {
  }

  lemma {:induction false} NearFound(vs: seq<int>, x: int)
    requires Ascending(vs) && AllNear(vs, x)
    ensures Finds(vs, x) <==> x in vs
  {
    if vs != [] {
      NearFinds(vs, x, 0, |vs| - 1, 0);
      hide Searched;
    }
  }

  /** Where the code inserts a value: after a search in longer arrays, after a scan in
      short ones. */
  function InsertIndex(vs: seq<int>, x: int): (i: nat)
    ensures i <= |vs|
  {
    if |vs| > 8 then
      var (found, i) := Searched(vs, x, 0, |vs| - 1, 0);
      if !found && vs[i] <= x then i + 1 else i
    else InsertionPoint(vs, x)
  }

  /** In short arrays, and among values that are near, the place keeps the order. */
  lemma {:induction false} InsertIndexRight(vs: seq<int>, x: int)
    requires Ascending(vs) && (|vs| <= 8 || AllNear(vs, x))
    ensures Insert(vs, InsertIndex(vs, x), x) == SortedInsert(vs, x)
  {
    if |vs| > 8 {
      NearFinds(vs, x, 0, |vs| - 1, 0);
      hide Searched;
      InsertAnywhere(vs, x, InsertIndex(vs, x));
    }
  }

  /** Values between two bounds. */
  predicate Between(vs: seq<int>, low: int, high: int) {
    forall i :: 0 <= i < |vs| ==> low <= vs[i] <= high
  }

  ghost predicate SearchesRight(low: int, high: int) {
    forall vs, x :: Ascending(vs) && Between(vs, low, high) && low <= x <= high ==> (Finds(vs, x) <==> x in vs)
  }

  ghost predicate InsertsRight(low: int, high: int) {
    forall vs, x :: Ascending(vs) && Between(vs, low, high) && low <= x <= high ==> Ascending(Insert(vs, InsertIndex(vs, x), x))
  }

  /** Every search is right exactly if the values are less than 2^63 apart. */
  lemma {:induction false} SearchesRightExactly(low: int, high: int)
    requires IsWord(low) && IsWord(high) && low <= high
    ensures SearchesRight(low, high) <==> high - low < WORD / 2
  {
    if high - low < WORD / 2 {
      forall vs, x | Ascending(vs) && Between(vs, low, high) && low <= x <= high
        ensures Finds(vs, x) <==> x in vs
      {
        NearFound(vs, x);
      }
    } else {
      FarMissed(low, high);
      assert low in [low, high, high];
    }
  }

  lemma {:induction false} FarMissed(low: int, high: int)
    requires IsWord(low) && IsWord(high) && high - low >= WORD / 2
    ensures Ascending([low, high, high]) && Between([low, high, high], low, high) && !Finds([low, high, high], low)
  {
    FarDifference(high, low);
    hide Difference;
    var vs := [low, high, high];
    assert Searched(vs, low, 3, 2, 2) == (false, 2);
    assert Searched(vs, low, 2, 2, 1) == (false, 2);
  }

  /** Every insertion keeps the order under the same condition. */
  lemma {:induction false} InsertsRightExactly(low: int, high: int)
    requires IsWord(low) && IsWord(high) && low <= high
    ensures InsertsRight(low, high) <==> high - low < WORD / 2
  {
    if high - low < WORD / 2 {
      forall vs, x | Ascending(vs) && Between(vs, low, high) && low <= x <= high
        ensures Ascending(Insert(vs, InsertIndex(vs, x), x))
      {
        InsertIndexRight(vs, x);
        SortedInsertKeeps(vs, x);
      }
    } else {
      FarMisplaced(low, high);
    }
  }

  lemma {:induction false} FarMisplaced(low: int, high: int)
    requires IsWord(low) && IsWord(high) && high - low >= WORD / 2
    ensures var vs := seq(9, _ => high);
            Ascending(vs) && Between(vs, low, high) && !Ascending(Insert(vs, InsertIndex(vs, low), low))
  {
    FarDifference(high, low);
    hide Difference;
    var vs := seq(9, _ => high);
    assert Searched(vs, low, 9, 8, 8) == (false, 8);
    assert Searched(vs, low, 8, 8, 7) == (false, 8);
    assert Searched(vs, low, 7, 8, 6) == (false, 8);
    assert Searched(vs, low, 5, 8, 4) == (false, 8);
    assert InsertIndex(vs, low) == 8;
    assert Insert(vs, 8, low)[7] == high && Insert(vs, 8, low)[8] == low;
  }

  /** The value 1 is not found behind the smallest word. */
  lemma {:induction false} OneMissed()
    ensures 1 in [-WORD / 2, 1] && Ascending([-WORD / 2, 1]) && !Finds([-WORD / 2, 1], 1)
  {
    FarDifference(-WORD / 2, 1);
    hide Difference;
    assert Searched([-WORD / 2, 1], 1, 0, -1, 0) == (false, 0);
  }

  // ---------- words ----------

  predicate HasRoom(words: seq<int>, base: nat) {
    base < |words| && 0 <= words[base] && base + 1 + words[base] <= |words|
  }

  /** The values of the array whose count is word `base`. */
  function Values(words: seq<int>, base: nat): seq<int>
    requires HasRoom(words, base)
  {
    words[base + 1..base + 1 + words[base]]
  }

  /** An array in order. */
  predicate IsArray(words: seq<int>, base: nat) {
    HasRoom(words, base) && Ascending(Values(words, base)) && AllWords(Values(words, base))
  }

  /** The words with one value more in the array at `base`. */
  function Inserted(words: seq<int>, base: nat, value: int): (r: seq<int>)
    requires HasRoom(words, base) && base + 1 + words[base] < |words|
    ensures |r| == |words|
  {
    var vs := Values(words, base);
    words[..base] + [words[base] + 1] + Insert(vs, InsertIndex(vs, value), value) + words[base + 2 + words[base]..]
  }

  /** An insertion adds the value to its own array and reaches no other word. */
  lemma {:induction false} InsertedIs(words: seq<int>, base: nat, value: int)
    requires HasRoom(words, base) && base + 1 + words[base] < |words|
    ensures var r, vs := Inserted(words, base, value), Values(words, base);
            && HasRoom(r, base) && r[base] == words[base] + 1
            && Values(r, base) == Insert(vs, InsertIndex(vs, value), value)
            && multiset(Values(r, base)) == multiset(vs) + multiset{value}
            && forall j :: 0 <= j < |r| && !(base <= j <= base + 1 + words[base]) ==> r[j] == words[j]
  {
    hide InsertIndex;
    var r, vs := Inserted(words, base, value), Values(words, base);
    InsertCounted(vs, InsertIndex(vs, value), value);
    assert Values(r, base) == Insert(vs, InsertIndex(vs, value), value);
  }

  /** An array in order that is short, or whose values are near, stays in order. */
  lemma {:induction false} InsertedInOrder(words: seq<int>, base: nat, value: int)
    requires HasRoom(words, base) && base + 1 + words[base] < |words| && Ascending(Values(words, base))
    requires words[base] <= 8 || AllNear(Values(words, base), value)
    ensures HasRoom(Inserted(words, base, value), base) && Ascending(Values(Inserted(words, base, value), base))
  {
    hide InsertIndex, Inserted, AllNear, Ascending, Insert;
    InsertedIs(words, base, value);
    InsertIndexRight(Values(words, base), value);
    SortedInsertKeeps(Values(words, base), value);
  }

  lemma {:induction false} InsertedStepwise(words: seq<int>, base: nat, value: int)
    requires HasRoom(words, base) && base + 1 + words[base] < |words|
    ensures var i := InsertIndex(Values(words, base), value);
            && i <= words[base]
            && Moved(words, base + 2 + i, base + 1 + i, words[base] - i)[base + 1 + i := value][base := words[base] + 1]
               == Inserted(words, base, value)
  {
    hide InsertIndex;
    var vs := Values(words, base);
    var i := InsertIndex(vs, value);
    var r := Inserted(words, base, value);
    var m := Moved(words, base + 2 + i, base + 1 + i, words[base] - i)[base + 1 + i := value][base := words[base] + 1];
    forall j | 0 <= j < |words|
      ensures m[j] == r[j]
    {
      if base < j < base + 2 + words[base] {
        assert r[j] == Insert(vs, i, value)[j - base - 1];
      }
    }
  }

  /** One occurrence of a value is gone, and no word outside the old values has changed. */
  predicate LessOne(words: seq<int>, words': seq<int>, base: nat, value: int) {
    && IsArray(words, base) && IsArray(words', base) && |words'| == |words|
    && multiset(Values(words', base)) + multiset{value} == multiset(Values(words, base))
    && forall j :: 0 <= j < |words| && !(base <= j <= base + words[base]) ==> words'[j] == words[j]
  }

  /** Closing the gap of a value that is taken out. */
  lemma {:induction false} RemovedIs(words: seq<int>, base: nat, index: nat)
    requires IsArray(words, base) && base + 1 + words[base] < |words| && index < words[base]
    ensures LessOne(words, Moved(words, base + 1 + index, base + 2 + index, words[base] - index)[base := words[base] - 1],
                    base, words[base + 1 + index])
  {
    hide Ascending;
    var r := Moved(words, base + 1 + index, base + 2 + index, words[base] - index)[base := words[base] - 1];
    RemoveKeeps(Values(words, base), index);
    assert Values(r, base) == Remove(Values(words, base), index);
  }

  // ---------- the array in place ----------

  /** Binary search; `index` is the last value looked at. */
  method FindInternal(words: array<int>, base: nat, value: int) returns (found: bool, index: nat)
    requires HasRoom(words[..], base)
    ensures words[base] > 0 ==> (found, index) == Searched(Values(words[..], base), value, 0, words[base] - 1, 0)
    ensures words[base] == 0 ==> !found
  {
    hide Difference;
    ghost var vs := Values(words[..], base);
    var min, max := 0, words[base] - 1;
    index := 0;
    while min <= max
      invariant 0 <= min <= max + 1 <= words[base]
      invariant words[base] > 0 ==> index < words[base]
      invariant words[base] > 0 ==> Searched(vs, value, min, max, index) == Searched(vs, value, 0, words[base] - 1, 0)
      decreases max - min + 1
    {
      index := (min + max) / 2;
      assert words[base + 1 + index] == vs[index];
      var cmp := Difference(words[base + 1 + index], value);
      if cmp < 0 {
        min := index + 1;
      } else if cmp > 0 {
        max := index - 1;
      } else {
        return true, index;
      }
    }
    found := false;
  }

  /** Index of a value, or -1. */
  method Find(words: array<int>, base: nat, value: int) returns (index: int)
    requires HasRoom(words[..], base) && AllWords(Values(words[..], base)) && IsWord(value)
    ensures index == -1 <==> !Finds(Values(words[..], base), value)
    ensures index != -1 ==> 0 <= index < words[base] && words[base + 1 + index] == value
  {
    hide Searched;
    var found, i := FindInternal(words, base, value);
    index := if found then i else -1;
    if found {
      SearchedIsThere(Values(words[..], base), value, 0, words[base] - 1, 0);
      assert words[base + 1 + i] == Values(words[..], base)[i];
    }
  }

  /** The insertion point: binary search in longer arrays, a scan in short ones. */
  method FindPlace(words: array<int>, base: nat, value: int) returns (i: nat)
    requires HasRoom(words[..], base)
    ensures i == InsertIndex(Values(words[..], base), value)
  {
    hide Searched, Difference;
    ghost var vs := Values(words[..], base);
    if words[base] > 8 {
      var found, index := FindInternal(words, base, value);
      i := index;
      assert words[base + 1 + i] == vs[i];
      if !found && words[base + 1 + i] <= value {
        i := i + 1;
      }
    } else {
      i := 0;
      while i < words[base] && words[base + 1 + i] <= value
        invariant i <= words[base]
        invariant forall j :: 0 <= j < i ==> vs[j] <= value
      {
        assert words[base + 1 + i] == vs[i];
        i := i + 1;
      }
      assert i < words[base] ==> words[base + 1 + i] == vs[i];
    }
  }

  /** Inserts a value in place; there has to be a free word behind the last value. */
  method InsertValue(words: array<int>, base: nat, value: int)
    requires HasRoom(words[..], base) && base + 1 + words[base] < words.Length
    modifies words
    ensures words[..] == Inserted(old(words[..]), base, value)
  {
    hide Inserted, Moved, InsertIndex;
    var i := FindPlace(words, base, value);
    InsertedStepwise(words[..], base, value);
    var n := words[base];
    Move(words, base + 2 + i, base + 1 + i, n - i);
    Store(words, base + 1 + i, value);
    Store(words, base, n + 1);
  }

  /** Removes one occurrence of a value in place, if the search finds it.  One word more
      than the remaining values is moved, so there has to be one behind the last value. */
  method RemoveValue(words: array<int>, base: nat, value: int) returns (found: bool)
    requires IsArray(words[..], base) && base + 1 + words[base] < words.Length && IsWord(value)
    modifies words
    ensures found <==> Finds(old(Values(words[..], base)), value)
    ensures if found then LessOne(old(words[..]), words[..], base, value) else words[..] == old(words[..])
  {
    hide Moved, LessOne, Finds;
    var index := Find(words, base, value);
    if index == -1 {
      return false;
    }
    var n := words[base];
    RemovedIs(words[..], base, index);
    Move(words, base + 1 + index, base + 2 + index, n - index);
    Store(words, base, n - 1);
    found := true;
  }
}
