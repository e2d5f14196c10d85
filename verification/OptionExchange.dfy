/** Exchanging two adjacent segments of an array in place. */
module OptionExchange {

  /** Where element `i` comes from when the segments between `b` and `m` and between `m` and
      `t` are exchanged. */
  function ExchangeFrom(b: int, m: int, t: int, i: int): int {
    if i < b || i >= t then i else if i < b + (t - m) then i - b + m else i - (t - m)
  }

  function Exchanged<T>(s: seq<T>, b: int, m: int, t: int): (r: seq<T>)
    requires 0 <= b <= m <= t <= |s|
    ensures |r| == |s| && forall i :: 0 <= i < |s| ==> r[i] == s[ExchangeFrom(b, m, t, i)]
  {
    seq(|s|, i requires 0 <= i < |s| => s[ExchangeFrom(b, m, t, i)])
  }

  /** The order inside both segments is kept. */
  lemma {:induction false} ExchangedIs<T>(s: seq<T>, b: int, m: int, t: int)
    requires 0 <= b <= m <= t <= |s|
    ensures Exchanged(s, b, m, t) == s[..b] + s[m..t] + s[b..m] + s[t..]
  {
  }

  /** The same for two segments of the same length that are swapped. */
  function SwapFrom(p: int, q: int, n: int, i: int): int {
    if p <= i < p + n then i - p + q else if q <= i < q + n then i - q + p else i
  }

  function Swapped<T>(s: seq<T>, p: int, q: int, n: int): (r: seq<T>)
    requires 0 <= p && 0 <= n && p + n <= q && q + n <= |s|
    ensures |r| == |s| && forall i :: 0 <= i < |s| ==> r[i] == s[SwapFrom(p, q, n, i)]
  {
    seq(|s|, i requires 0 <= i < |s| => s[SwapFrom(p, q, n, i)])
  }

  /** Swapping the shorter bottom segment with the end of the top segment puts it into its
      place and leaves a smaller exchange to do. */
  lemma {:induction false} BottomShort<T>(s: seq<T>, b: int, m: int, t: int)
    requires 0 <= b < m < t <= |s| && m - b < t - m
    ensures Exchanged(Swapped(s, b, t - (m - b), m - b), b, m, t - (m - b)) == Exchanged(s, b, m, t)
  {
    var n, t' := m - b, t - (m - b);
    assert forall i :: 0 <= i < |s| ==> SwapFrom(b, t', n, ExchangeFrom(b, m, t', i)) == ExchangeFrom(b, m, t, i);
    assert forall i :: 0 <= i < |s| ==> 0 <= ExchangeFrom(b, m, t', i) < |s|;
    hide SwapFrom, ExchangeFrom;
  }

  lemma {:induction false} TopShort<T>(s: seq<T>, b: int, m: int, t: int)
    requires 0 <= b < m < t <= |s| && t - m <= m - b
    ensures Exchanged(Swapped(s, b, m, t - m), b + (t - m), m, t) == Exchanged(s, b, m, t)
  {
    var n, b' := t - m, b + (t - m);
    assert forall i :: 0 <= i < |s| ==> SwapFrom(b, m, n, ExchangeFrom(b', m, t, i)) == ExchangeFrom(b, m, t, i);
    assert forall i :: 0 <= i < |s| ==> 0 <= ExchangeFrom(b', m, t, i) < |s|;
    hide SwapFrom, ExchangeFrom;
  }

  lemma {:induction false} NothingToExchange<T>(s: seq<T>, b: int, m: int, t: int)
    requires 0 <= b <= m <= t <= |s| && (b == m || m == t)
    ensures Exchanged(s, b, m, t) == s
  {
  }

  lemma {:induction false} SwapOneMore<T>(s: seq<T>, p: int, q: int, n: int)
    requires 0 <= p && 0 <= n && p + n < q && q + n < |s|
    ensures Swapped(s, p, q, 0) == s
    ensures var x := Swapped(s, p, q, n); x[p + n := x[q + n]][q + n := x[p + n]] == Swapped(s, p, q, n + 1)
  {
  }

  method Swap<T>(a: array<T>, i: int, j: int)
    requires 0 <= i < a.Length && 0 <= j < a.Length
    modifies a
    ensures a[..] == old(a[..])[i := old(a[j])][j := old(a[i])]
  {
    var tem := a[i];
    a[i] := a[j];
    a[j] := tem;
  }

  method SwapSegments<T>(a: array<T>, p: int, q: int, n: int)
    requires 0 <= p && 0 <= n && p + n <= q && q + n <= a.Length
    modifies a
    ensures a[..] == Swapped(old(a[..]), p, q, n)
  {
    ghost var s := a[..];
    assert Swapped(s, p, q, 0) == s;
    hide Swapped;
    var i := 0;
    while i < n
      invariant 0 <= i <= n
      invariant a[..] == Swapped(s, p, q, i)
    {
      SwapOneMore(s, p, q, i);
      Swap(a, p + i, q + i);
      i := i + 1;
    }
  }

  /** One round: the shorter segment is put into its place. */
  method ExchangeShorter<T>(a: array<T>, bottom: int, middle: int, top: int) returns (bottom': int, top': int)
    requires 0 <= bottom < middle < top <= a.Length
    modifies a
    ensures bottom <= bottom' <= middle <= top' <= top && top' - bottom' < top - bottom
    ensures Exchanged(a[..], bottom', middle, top') == Exchanged(old(a[..]), bottom, middle, top)
  {
    hide Exchanged, Swapped, ExchangeFrom, SwapFrom;
    bottom', top' := bottom, top;
    if top - middle > middle - bottom {
      var n := middle - bottom;
      BottomShort(a[..], bottom, middle, top);
      SwapSegments(a, bottom, top - n, n);
      top' := top - n;
    } else {
      var n := top - middle;
      TopShort(a[..], bottom, middle, top);
      SwapSegments(a, bottom, middle, n);
      bottom' := bottom + n;
    }
  }

  /** The rotation, for all segment lengths. */
  method Exchange<T>(a: array<T>, bottom0: int, middle: int, top0: int)
    requires 0 <= bottom0 <= middle <= top0 <= a.Length
    modifies a
    ensures a[..] == Exchanged(old(a[..]), bottom0, middle, top0)
  {
    hide Exchanged;
    var bottom, top := bottom0, top0;
    while top > middle && middle > bottom
      invariant bottom0 <= bottom <= middle <= top <= top0
      invariant Exchanged(a[..], bottom, middle, top) == Exchanged(old(a[..]), bottom0, middle, top0)
      decreases top - bottom
    {
      bottom, top := ExchangeShorter(a, bottom, middle, top);
    }
    NothingToExchange(a[..], bottom, middle, top);
  }
}
