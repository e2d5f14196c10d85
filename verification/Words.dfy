/** 64-bit words. */
module Words {
  const WORD := 0x1_0000_0000_0000_0000           // 2^64

  /** A signed word. */
  predicate IsWord(w: int) {
    -WORD / 2 <= w < WORD / 2
  }

  predicate AllWords(vs: seq<int>) {
    forall i :: 0 <= i < |vs| ==> IsWord(vs[i])
  }

  /** The signed word with the bits of an unsigned one. */
  function AsSigned(u: int): int {
    if u >= WORD / 2 then u - WORD else u
  }

  /** The difference of two words as a signed word; it wraps around. */
  function Difference(a: int, b: int): int {
    AsSigned((a - b) % WORD)
  }

  /** The difference is a signed word itself. */
  predicate Near(a: int, b: int) {
    IsWord(a - b)
  }

  lemma {:induction false} NearDifference(a: int, b: int)
    requires Near(a, b)
    ensures Difference(a, b) == a - b
  {
    assert (a - b) % WORD == if a - b >= 0 then a - b else a - b + WORD;
  }

  /** Of words that are not near the difference has the wrong sign. */
  lemma {:induction false} FarDifference(a: int, b: int)
    requires IsWord(a) && IsWord(b) && !Near(a, b)
    ensures if a > b then Difference(a, b) < 0 else Difference(a, b) > 0
  {
    assert (a - b) % WORD == if a - b >= 0 then a - b else a - b + WORD;
  }
}
