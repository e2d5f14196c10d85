/** Copying inside a buffer. */
module Memory {

  /** The words with `n` of them copied from one place to another. */
  function Moved<T>(words: seq<T>, to: nat, from: nat, n: nat): (r: seq<T>)
    requires from + n <= |words| && to + n <= |words|
    ensures |r| == |words|
    ensures forall j :: 0 <= j < |r| ==> r[j] == if to <= j < to + n then words[j - to + from] else words[j]
  {
    seq(|words|, j requires 0 <= j < |words| => if to <= j < to + n then words[j - to + from] else words[j])
  }

  method Store<T>(words: array<T>, i: nat, value: T)
    requires i < words.Length
    modifies words
    ensures words[..] == old(words[..])[i := value]
  {
    words[i] := value;
  }

  lemma {:induction false} MoveOneMore<T>(words: seq<T>, to: nat, from: nat, n: nat)
    requires from + n < |words| && to + n < |words|
    ensures Moved(words, to, from, 0) == words
    ensures to <= from ==> var now := Moved(words, to, from, n);
                           now[to + n := now[from + n]] == Moved(words, to, from, n + 1)
    ensures from <= to ==> var now := Moved(words, to + 1, from + 1, n);
                           now[to := now[from]] == Moved(words, to, from, n + 1)
  {
  }

  /** The words are copied upwards from the lowest, or downwards from the highest, so
      that none is overwritten before it has been copied. */
  method Move<T>(words: array<T>, to: nat, from: nat, n: nat)
    requires from + n <= words.Length && to + n <= words.Length
    modifies words
    ensures words[..] == Moved(old(words[..]), to, from, n)
  {
    ghost var before := words[..];
    var i := 0;
    if to <= from {
      while i < n
        invariant 0 <= i <= n
        invariant words[..] == Moved(before, to, from, i)
      {
        hide Moved;
        MoveOneMore(before, to, from, i);
        Store(words, to + i, words[from + i]);
        i := i + 1;
      }
    } else {
      while i < n
        invariant 0 <= i <= n
        invariant words[..] == Moved(before, to + n - i, from + n - i, i)
      {
        hide Moved;
        i := i + 1;
        MoveOneMore(before, to + n - i, from + n - i, i - 1);
        Store(words, to + n - i, words[from + n - i]);
      }
    }
  }

  /** The words with others written over them. */
  function Overlaid<T>(words: seq<T>, at: nat, other: seq<T>): (r: seq<T>)
    requires at + |other| <= |words|
    ensures |r| == |words|
    ensures forall j :: 0 <= j < |r| ==> r[j] == if at <= j < at + |other| then other[j - at] else words[j]
  {
    seq(|words|, j requires 0 <= j < |words| => if at <= j < at + |other| then other[j - at] else words[j])
  }

  lemma {:induction false} OverlayOneMore<T>(words: seq<T>, at: nat, other: seq<T>, n: nat)
    requires at + |other| <= |words| && n < |other|
    ensures Overlaid(words, at, other[..0]) == words
    ensures Overlaid(words, at, other[..n])[at + n := other[n]] == Overlaid(words, at, other[..n + 1])
  {
  }

  method Write<T>(words: array<T>, at: nat, other: seq<T>)
    requires at + |other| <= words.Length
    modifies words
    ensures words[..] == Overlaid(old(words[..]), at, other)
  {
    ghost var before := words[..];
    assert Overlaid(before, at, other[..0]) == before;
    var i := 0;
    while i < |other|
      invariant 0 <= i <= |other|
      invariant words[..] == Overlaid(before, at, other[..i])
    {
      hide Overlaid;
      OverlayOneMore(before, at, other, i);
      Store(words, at + i, other[i]);
      i := i + 1;
    }
    assert other[..i] == other;
  }

  /** Nothing has changed outside a range. */
  ghost predicate SameOutside<T>(m: seq<T>, before: seq<T>, lo: int, hi: int) {
    |m| == |before| && forall y :: 0 <= y < |m| && !(lo <= y < hi) ==> m[y] == before[y]
  }
}
