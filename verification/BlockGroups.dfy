/** An allocation group: its bitmap and what is remembered about it. */
module BlockGroups {
  import opened BlockBitmap

  datatype Group = Group(numBits: int, firstFree: int, largest: int, largestFirst: int, freeBits: int)

  /** AllocationGroup::AddFreeRange. */
  function AddFreeRange(group: Group, start: int, blocks: int): Group {
    group.(firstFree := if group.firstFree == -1 then start else group.firstFree,
           largest := if group.largest < blocks then blocks else group.largest,
           largestFirst := if group.largest < blocks then start else group.largestFirst,
           freeBits := group.freeBits + blocks)
  }

  // ---------- free blocks ----------

  /** Blocks `s` to `s + n` are free. */
  predicate FreeRun(bits: seq<bool>, s: int, n: int) {
    0 <= s && s + n <= |bits| && forall b :: s <= b < s + n ==> !bits[b]
  }

  predicate UsedRun(bits: seq<bool>, s: int, n: int) {
    0 <= s && s + n <= |bits| && forall b :: s <= b < s + n ==> bits[b]
  }

  function FreeIn(bits: seq<bool>): nat {
    if bits == [] then 0 else FreeIn(bits[..|bits| - 1]) + if bits[|bits| - 1] then 0 else 1
  }

  lemma {:induction false} FlipCounts(bits: seq<bool>, i: nat)
    requires i < |bits|
    ensures FreeIn(bits[i := true]) + (if bits[i] then 0 else 1) == FreeIn(bits)
    ensures FreeIn(bits[i := false]) == FreeIn(bits) + if bits[i] then 1 else 0
  {
    var n := |bits| - 1;
    if i == n {
      assert bits[i := true][..n] == bits[..n] && bits[i := false][..n] == bits[..n];
    } else {
      FlipCounts(bits[..n], i);
      assert bits[i := true][..n] == bits[..n][i := true] && bits[i := false][..n] == bits[..n][i := false];
    }
  }

  /** Changing a run that is all free or all used. */
  lemma {:induction false} FillCounts(bits: seq<bool>, s: int, n: int, v: bool)
    requires 0 <= s && 0 <= n && s + n <= |bits| && forall b :: s <= b < s + n ==> bits[b] == !v
    ensures FreeIn(Fill(bits, s, n, v)) == FreeIn(bits) + if v then -n else n
    decreases n
  {
    hide FreeIn;
    if n == 0 {
      assert Fill(bits, s, n, v) == bits;
    } else {
      FillCounts(bits, s, n - 1, v);
      var before := Fill(bits, s, n - 1, v);
      FlipCounts(before, s + n - 1);
      assert before[s + n - 1 := v] == Fill(bits, s, n, v);
    }
  }

  lemma {:induction false} NoneFree(bits: seq<bool>)
    requires FreeIn(bits) == 0
    ensures forall b :: 0 <= b < |bits| ==> bits[b]
  {
    if bits != [] {
      NoneFree(bits[..|bits| - 1]);
    }
  }

  // ---------- a group ----------

  /** The counter is exact, and in front of the first-free mark nothing is free. */
  predicate GroupOk(group: Group, words: seq<Word>) {
    && 0 < group.numBits < ALL_BLOCKS && Holds(words, group.numBits)
    && group.freeBits == FreeIn(Bits(words, group.numBits))
    && -1 <= group.firstFree <= group.numBits
    && forall b :: 0 <= b < group.firstFree ==> Bits(words, group.numBits)[b]
  }

  /** Between `first` and `end` there are no `n` consecutive free blocks. */
  predicate NoRun(bits: seq<bool>, first: int, end: int, n: int) {
    forall s :: first <= s && s + n <= end ==> !FreeRun(bits, s, n)
  }

  /** The free blocks directly in front of `bit`, counted from `first` on. */
  predicate Trailing(bits: seq<bool>, first: int, bit: int, range: int) {
    && 0 <= first && 0 <= range && first <= bit - range && bit <= |bits|
    && FreeRun(bits, bit - range, range)
    && (bit - range > first ==> bits[bit - range - 1])
  }

  lemma {:induction false} NoRunFurther(bits: seq<bool>, first: int, bit: int, range: int, n: int)
    requires Trailing(bits, first, bit, range) && bit < |bits| && 0 < n && NoRun(bits, first, bit, n)
    requires bits[bit] || range + 1 < n
    ensures NoRun(bits, first, bit + 1, n)
  {
    forall s | first <= s && s + n <= bit + 1
      ensures !FreeRun(bits, s, n)
    {
      if s + n == bit + 1 && !bits[bit] {
        assert bits[bit - range - 1];
      }
    }
  }

  /** The first place for `n` blocks from `first` on. */
  predicate FirstPlace(bits: seq<bool>, first: int, s: int, n: int) {
    first <= s && FreeRun(bits, s, n) && forall t :: first <= t < s ==> !FreeRun(bits, t, n)
  }

  /** A free range from its beginning on, as long as it is or as long as is wanted. */
  predicate WholeRange(bits: seq<bool>, first: int, s: int, n: int, maximum: int) {
    && 0 < n && FreeRun(bits, s, n)
    && (s > first ==> s > 0 && bits[s - 1])
    && (n == maximum || s + n == |bits| || bits[s + n])
  }

  /** The search stands in front of `bit`, behind `range` free blocks. */
  ghost predicate Searching(bits: seq<bool>, first: int, bit: int, range: int, need: int) {
    && Trailing(bits, first, bit, range) && 0 < need
    && NoRun(bits, first, bit - range, need)
    && (range < need ==> NoRun(bits, first, bit, need))
  }

  lemma {:induction false} SearchBegins(bits: seq<bool>, first: int, need: int)
    requires 0 <= first <= |bits| && 0 < need
    ensures Searching(bits, first, first, 0, need)
  {
  }

  lemma {:induction false} SearchFree(bits: seq<bool>, first: int, bit: int, range: int, need: int)
    requires Searching(bits, first, bit, range, need) && bit < |bits| && !bits[bit]
    ensures Searching(bits, first, bit + 1, range + 1, need)
  {
    hide NoRun;
    if range + 1 < need {
      NoRunFurther(bits, first, bit, range, need);
    }
  }

  lemma {:induction false} SearchUsed(bits: seq<bool>, first: int, bit: int, range: int, need: int)
    requires Searching(bits, first, bit, range, need) && bit < |bits| && bits[bit] && range < need
    ensures Searching(bits, first, bit + 1, 0, need)
  {
    hide NoRun;
    NoRunFurther(bits, first, bit, range, need);
  }

  /** What is behind a used block has nothing to do with what is in front of it. */
  lemma {:induction false} SearchEnds(bits: seq<bool>, first: int, bit: int, range: int, need: int, maximum: int)
    requires Searching(bits, first, bit, range, need) && range >= need
    requires range == maximum || bit == |bits| || bits[bit]
    ensures FirstPlace(bits, first, bit - range, need) && WholeRange(bits, first, bit - range, range, maximum)
  {
    forall t | first <= t < bit - range
      ensures !FreeRun(bits, t, need)
    {
      if t + need > bit - range {
        assert bits[bit - range - 1];
      }
    }
  }

  lemma {:induction false} SearchRange(bits: seq<bool>, first: int, bit: int, range: int, need: int)
    requires Searching(bits, first, bit, range, need)
    ensures first <= bit - range && bit <= |bits| && FreeRun(bits, bit - range, range)
    ensures range < need ==> NoRun(bits, first, bit, need)
  {
  }

  /** Looks through a bitmap block from `first` on.  On the first pass only a range of
      `maximum` blocks will do, on the second pass the first one of at least `minimum`. */
  method FindRange(words: seq<Word>, numBits: int, first: int, maximum: int, minimum: int, second: bool)
    returns (range: int, rangeStart: int)
    requires Holds(words, numBits) && 0 <= first < numBits && 1 <= minimum <= maximum
    ensures 0 <= range <= maximum && (range > 0 ==> first <= rangeStart && FreeRun(Bits(words, numBits), rangeStart, range))
    ensures range < (if second then minimum else maximum)
            ==> NoRun(Bits(words, numBits), first, numBits, if second then minimum else maximum)
    ensures range >= (if second then minimum else maximum)
            ==> && FirstPlace(Bits(words, numBits), first, rangeStart, if second then minimum else maximum)
                && WholeRange(Bits(words, numBits), first, rangeStart, range, maximum)
  {
    hide FirstPlace, WholeRange, Searching, NoRun, FreeRun;
    ghost var bits, need := Bits(words, numBits), if second then minimum else maximum;
    range, rangeStart := 0, 0;
    var bit := first;
    SearchBegins(bits, first, need);
    while bit < numBits
      invariant first <= bit <= numBits && 0 <= range < maximum
      invariant Searching(bits, first, bit, range, need)
      invariant range > 0 ==> rangeStart == bit - range
      decreases numBits - bit
    {
      SearchRange(bits, first, bit, range, need);
      if !words[bit / WORD_BITS][bit % WORD_BITS] {
        SearchFree(bits, first, bit, range, need);
        if range == 0 {
          rangeStart := bit;
        }
        range := range + 1;
        SearchRange(bits, first, bit + 1, range, need);
        if range >= maximum {
          SearchEnds(bits, first, bit + 1, range, need, maximum);
          return;
        }
      } else if second && range >= minimum {
        SearchEnds(bits, first, bit, range, need, maximum);
        return;
      } else {
        SearchUsed(bits, first, bit, range, need);
        range := 0;
      }
      bit := bit + 1;
    }
    SearchRange(bits, first, bit, range, need);
    if range >= need {
      SearchEnds(bits, first, bit, range, need, maximum);
    }
  }

  // ---------- the bitmap at mount time ----------

  /** What is known of a group after its first `end` bits: how many of them are free, which
      is the first, and where the longest free run is. */
  predicate Summary(bits: seq<bool>, group: Group, end: int) {
    && 0 <= end <= |bits|
    && group.freeBits == FreeIn(bits[..end])
    && (if group.firstFree == -1 then
          group.largest == -1 && forall b :: 0 <= b < end ==> bits[b]
        else
          && 0 <= group.firstFree < end && !bits[group.firstFree]
          && (forall b :: 0 <= b < group.firstFree ==> bits[b])
          && 1 <= group.largest && group.largestFirst + group.largest <= end
          && FreeRun(bits, group.largestFirst, group.largest)
          && NoRun(bits, 0, end, group.largest + 1))
  }

  lemma {:induction false} FreeInRun(bits: seq<bool>, end: int, range: int)
    requires 0 <= end && 0 <= range && FreeRun(bits, end, range)
    ensures FreeIn(bits[..end + range]) == FreeIn(bits[..end]) + range
  {
    if range > 0 {
      FreeInRun(bits, end, range - 1);
      assert bits[..end + range][..end + range - 1] == bits[..end + range - 1];
    }
  }

  lemma {:induction false} ShorterIsFree(bits: seq<bool>, s: int, n: int, m: int)
    requires m <= n
    ensures FreeRun(bits, s, n) ==> FreeRun(bits, s, m)
  {
  }

  /** A free run between two used blocks is added. */
  lemma {:induction false} SummaryRange(bits: seq<bool>, group: Group, end: int, range: int)
    requires Summary(bits, group, end) && 0 < range && FreeRun(bits, end, range) && (end > 0 ==> bits[end - 1])
    ensures Summary(bits, AddFreeRange(group, end, range), end + range)
  {
    FreeInRun(bits, end, range);
    hide FreeIn;
    var group' := AddFreeRange(group, end, range);
    var n := group'.largest + 1;
    forall s | 0 <= s && s + n <= end + range
      ensures !FreeRun(bits, s, n)
    {
      if s < end {
        if s + n <= end {
          if group.firstFree == -1 {
            assert bits[s];
          } else {
            ShorterIsFree(bits, s, n, group.largest + 1);
          }
        } else {
          assert bits[end - 1];
        }
      }
    }
    assert NoRun(bits, 0, end + range, n);
  }

  lemma {:induction false} SummaryUsed(bits: seq<bool>, group: Group, end: int)
    requires Summary(bits, group, end) && end < |bits| && bits[end]
    ensures Summary(bits, group, end + 1)
  {
    assert bits[..end + 1][..end] == bits[..end];
    hide FreeIn;
    if group.firstFree != -1 {
      var n := group.largest + 1;
      forall s | 0 <= s && s + n <= end + 1
        ensures !FreeRun(bits, s, n)
      {
        if s + group.largest == end {
          assert bits[end];
        }
      }
    }
  }

  /** Collects the free ranges of a group, as at mount time.  A group of less than four
      blocks is not looked at and counts as full. */
  method ScanGroup(words: seq<Word>, numBits: int) returns (group: Group)
    requires Holds(words, numBits)
    ensures numBits >= 4 ==> group.numBits == numBits && Summary(Bits(words, numBits), group, numBits)
    ensures numBits < 4 ==> group == Group(numBits, -1, -1, -1, 0)
  {
    hide ScanState, Bits, Summary;
    group := Group(numBits, -1, -1, -1, 0);
    ghost var bits := Bits(words, numBits);
    StartSummary(bits, group);
    var start, range, num, k := 0, 0, 0, 0;
    var rounds := numBits / 4;
    while k < rounds
      invariant 0 <= k <= rounds && 0 <= num <= numBits && (num == numBits || num == WORD_BITS * k)
      invariant group.numBits == numBits && ScanState(bits, group, start, range, num)
      invariant k == 0 ==> group == Group(numBits, -1, -1, -1, 0) && range == 0
    {
      var j := 0;
      while j < WORD_BITS && num < numBits
        invariant 0 <= j <= WORD_BITS && 0 <= num <= numBits && (num < numBits ==> num == WORD_BITS * k + j)
        invariant group.numBits == numBits && ScanState(bits, group, start, range, num)
      {
        BitAt(words, numBits, k, j);
        group, start, range := ScanBit(bits, group, start, range, num, words[k][j]);
        j, num := j + 1, num + 1;
      }
      k := k + 1;
    }
    if range > 0 {
      LastRange(bits, group, start, range, num);
      group := AddFreeRange(group, start, range);
    } else {
      NoRange(bits, group, start, range, num);
    }
  }

  lemma {:induction false} BitAt(words: seq<Word>, numBits: int, k: int, j: int)
    requires Holds(words, numBits) && 0 <= k && 0 <= j < WORD_BITS && WORD_BITS * k + j < numBits
    ensures k < |words| && Bits(words, numBits)[WORD_BITS * k + j] == words[k][j]
  {
  }

  /** In front of bit `num` there is a free range that is not in the summary yet. */
  ghost predicate ScanState(bits: seq<bool>, group: Group, start: int, range: int, num: int) {
    && 0 <= range <= num <= |bits|
    && Summary(bits, group, num - range) && FreeRun(bits, num - range, range)
    && (range > 0 ==> start == num - range)
    && (num - range > 0 ==> bits[num - range - 1])
  }

  method ScanBit(ghost bits: seq<bool>, group: Group, start: int, range: int, num: int, used: bool)
    returns (group': Group, start': int, range': int)
    requires ScanState(bits, group, start, range, num) && num < |bits| && bits[num] == used
    ensures group'.numBits == group.numBits && ScanState(bits, group', start', range', num + 1)
  {
    hide FreeIn, NoRun, FreeRun, Summary;
    group', start', range' := group, start, range;
    if used {
      if range > 0 {
        SummaryRange(bits, group, num - range, range);
        group' := AddFreeRange(group, start, range);
        range' := 0;
      }
      SummaryUsed(bits, group', num);
      EmptyRun(bits, num + 1);
    } else {
      if range == 0 {
        start' := num;
      }
      LongerRun(bits, num - range, range);
      range' := range + 1;
    }
  }

  lemma {:induction false} LastRange(bits: seq<bool>, group: Group, start: int, range: int, num: int)
    requires ScanState(bits, group, start, range, num) && range > 0
    ensures Summary(bits, AddFreeRange(group, start, range), num)
  {
    SummaryRange(bits, group, num - range, range);
  }

  lemma {:induction false} NoRange(bits: seq<bool>, group: Group, start: int, range: int, num: int)
    requires ScanState(bits, group, start, range, num) && range <= 0
    ensures Summary(bits, group, num)
  {
  }

  lemma {:induction false} StartSummary(bits: seq<bool>, group: Group)
    requires group.firstFree == -1 && group.largest == -1 && group.freeBits == 0
    ensures ScanState(bits, group, 0, 0, 0)
  {
  }

  lemma {:induction false} EmptyRun(bits: seq<bool>, s: int)
    requires 0 <= s <= |bits|
    ensures FreeRun(bits, s, 0)
  {
  }

  lemma {:induction false} LongerRun(bits: seq<bool>, s: int, n: int)
    requires FreeRun(bits, s, n) && 0 <= n && s + n < |bits| && !bits[s + n]
    ensures FreeRun(bits, s, n + 1)
  {
  }

  /** A scan leaves a group as the allocator needs it. */
  lemma {:induction false} SummaryOk(words: seq<Word>, group: Group)
    requires 0 < group.numBits < ALL_BLOCKS && Holds(words, group.numBits)
    requires Summary(Bits(words, group.numBits), group, group.numBits)
    ensures GroupOk(group, words)
  {
    hide Bits, FreeIn;
    var bits := Bits(words, group.numBits);
    assert bits[..group.numBits] == bits;
  }

  /** What a scan that does not look at a group says of it is right if there is no free
      block, and only then. */
  lemma {:induction false} FullSummary(words: seq<Word>, numBits: int)
    requires Holds(words, numBits)
    ensures Summary(Bits(words, numBits), Group(numBits, -1, -1, -1, 0), numBits) <==> FreeIn(Bits(words, numBits)) == 0
  {
    hide Bits;
    var bits := Bits(words, numBits);
    assert bits[..numBits] == bits;
    if FreeIn(bits) == 0 {
      NoneFree(bits);
    }
  }
}
