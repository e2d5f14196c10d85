/** The circular log area of a BFS volume.

The journal's pointers are block indices inside the log area and every step is
taken modulo its length.  The proofs use positions that never wrap; `Slot` gives
the block such a position stands for. */
module LogRing {

  /** The block of a ring of `size` blocks that position `p` stands for. */
  function Slot(size: nat, p: nat): (r: nat)
    requires size > 0
    ensures r < size
    ensures p < size ==> r == p
  {
    if p < size then p else Slot(size, p - size)
  }

  /** How many whole laps lie before position `p`. */
  function Lap(size: nat, p: nat): nat
    requires size > 0
  {
    if p < size then 0 else 1 + Lap(size, p - size)
  }

  /** The length of `n` laps. */
  function Laps(size: nat, n: nat): (r: nat)
    ensures n > 0 ==> r >= size
  {
    if n == 0 then 0 else Laps(size, n - 1) + size
  }

  lemma {:induction false} LapsIsProduct(size: nat, n: nat)
    ensures Laps(size, n) == n * size
    decreases n
  {
    if n > 0 {
      LapsIsProduct(size, n - 1);
      assert n * size == (n - 1) * size + size;
    }
  }

  lemma {:induction false} LapsMonotone(size: nat, m: nat, n: nat)
    requires m <= n
    ensures Laps(size, m) <= Laps(size, n)
    ensures m < n ==> Laps(size, m) + size <= Laps(size, n)
    decreases n
  {
    if m < n {
      LapsMonotone(size, m, n - 1);
    }
  }

  /** A position is its whole laps and the rest. */
  lemma {:induction false} LapAndSlot(size: nat, p: nat)
    requires size > 0
    ensures Laps(size, Lap(size, p)) + Slot(size, p) == p
    decreases p
  {
    if p >= size {
      LapAndSlot(size, p - size);
    }
  }

  /** Going round is what the remainder computes. */
  lemma {:induction false} SlotIsRemainder(size: nat, p: nat)
    requires size > 0
    ensures Slot(size, p) == p % size
    decreases p
  {
    if p < size {
      DivUnique(size, p, 0, p);
    } else {
      SlotIsRemainder(size, p - size);
      var q := (p - size) / size;
      assert (q + 1) * size == q * size + size;
      DivUnique(size, p, q + 1, (p - size) % size);
    }
  }

  /** A non-zero number of laps is at least one lap long. */
  lemma {:induction false} WholeLaps(size: nat, laps: int)
    ensures laps >= 1 ==> laps * size >= size
    ensures laps <= 0 ==> laps * size <= 0
    ensures laps <= -1 ==> laps * size + size <= 0
  {
  }

  lemma {:induction false} DivUnique(size: nat, n: nat, q: nat, r: nat)
    requires size > 0 && r < size && n == q * size + r
    ensures n / size == q && n % size == r
  {
    var laps := n / size - q;
    assert laps * size == r - n % size by {
      assert n == n / size * size + n % size;
      assert laps * size == n / size * size - q * size;
    }
    WholeLaps(size, laps);
  }

  /** Two positions less than one lap apart stand for different blocks. */
  lemma {:induction false} DistinctInLap(size: nat, p: nat, q: nat)
    requires size > 0 && p < q < p + size
    ensures Slot(size, p) != Slot(size, q)
    decreases p
  {
    if p >= size {
      DistinctInLap(size, p - size, q - size);
    }
  }

  /** Stepping from a block of the ring is stepping from a position it stands for. */
  lemma {:induction false} SlotStep(size: nat, p: nat, n: nat)
    requires size > 0
    ensures Slot(size, Slot(size, p) + n) == Slot(size, p + n)
    decreases p
  {
    if p >= size {
      SlotStep(size, p - size, n);
    }
  }

  /** `log` with `blocks` stored from position `pos` on, wrapping at the end. */
  function Put<T>(log: seq<T>, size: nat, pos: nat, blocks: seq<T>): (r: seq<T>)
    requires 0 < size <= |log|
    ensures |r| == |log|
    decreases |blocks|
  {
    if blocks == [] then log
    else
      var n := |blocks| - 1;
      Put(log, size, pos, blocks[..n])[Slot(size, pos + n) := blocks[n]]
  }

  /** A stored block is found again as long as the store spans at most one lap. */
  lemma {:induction false} PutStored<T>(log: seq<T>, size: nat, pos: nat, blocks: seq<T>, i: nat)
    requires 0 < size <= |log| && i < |blocks| <= size
    ensures Put(log, size, pos, blocks)[Slot(size, pos + i)] == blocks[i]
    decreases |blocks|
  {
    var n := |blocks| - 1;
    if i < n {
      PutStored(log, size, pos, blocks[..n], i);
      DistinctInLap(size, pos + i, pos + n);
    }
  }

  /** Positions of the lap in front of the store keep their block. */
  lemma {:induction false} PutKeeps<T>(log: seq<T>, size: nat, pos: nat, blocks: seq<T>, q: nat)
    requires 0 < size <= |log|
    requires q < pos && pos + |blocks| <= q + size
    ensures Put(log, size, pos, blocks)[Slot(size, q)] == log[Slot(size, q)]
    decreases |blocks|
  {
    if blocks != [] {
      var n := |blocks| - 1;
      PutKeeps(log, size, pos, blocks[..n], q);
      DistinctInLap(size, q, pos + n);
    }
  }

  /** A position counted in words, taken apart into block and index. */
  lemma {:induction false} WordPosition(perBlock: nat, k: nat, index: nat)
    requires index < perBlock
    ensures Lap(perBlock, Laps(perBlock, k) + index) == k
    ensures Slot(perBlock, Laps(perBlock, k) + index) == index
    decreases k
  {
    if k > 0 {
      WordPosition(perBlock, k - 1, index);
      assert Laps(perBlock, k) + index - perBlock == Laps(perBlock, k - 1) + index;
    }
  }
}
