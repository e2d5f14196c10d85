/** The value words of a leaf: a plain value, or a link to where the duplicates of a key
are stored.  A link has its type in the top two bits, a node offset below them, and the
number of a fragment in the low ten bits. */
module Links {
  import opened TreeNode
  import opened Words

  const DUPLICATE_NODE := 2
  const DUPLICATE_FRAGMENT := 3
  const TYPE_UNIT := 0x4000_0000_0000_0000        // 2^62

  /** An offset a link can hold. */
  predicate IsOffset(o: int) {
    0 <= o < TYPE_UNIT && o % NODE_SIZE == 0
  }

  function LinkType(link: int): (t: nat)
    ensures t < 4
  {
    link % WORD / TYPE_UNIT
  }

  /** The bits between the type and the fragment number. */
  function FragmentOffset(link: int): (o: int)
    ensures IsOffset(o)
  {
    link % TYPE_UNIT - link % NODE_SIZE
  }

  function FragmentIndex(link: int): (i: nat)
    ensures i < NODE_SIZE
  {
    link % NODE_SIZE
  }

  /** The three bit fields do not overlap, so that joining them is adding them. */
  function MakeLink(t: nat, offset: int, index: nat): (w: int)
    ensures IsWord(w)
  {
    AsSigned(t % 4 * TYPE_UNIT + FragmentOffset(offset) + index % NODE_SIZE)
  }

  /** Any bit of the type marks a link. */
  predicate IsDuplicate(link: int) {
    LinkType(link) > 0
  }

  lemma {:induction false} Quotient(u: int, q: int, r: int)
    requires u == q * TYPE_UNIT + r && 0 <= r < TYPE_UNIT
    ensures u / TYPE_UNIT == q && u % TYPE_UNIT == r
  {
  }

  /** The parts of the word whose unsigned form is `t * TYPE_UNIT + r`. */
  lemma {:induction false} UnsignedParts(t: nat, r: int)
    requires t < 4 && 0 <= r < TYPE_UNIT
    ensures var w := AsSigned(t * TYPE_UNIT + r);
            LinkType(w) == t && w % TYPE_UNIT == r && FragmentIndex(w) == r % NODE_SIZE
  {
    var u := t * TYPE_UNIT + r;
    Quotient(u, t, r);
    Quotient(u - WORD, t - 4, r);
    assert AsSigned(u) % WORD == u;
  }

  /** A link gives back what it was made of. */
  lemma {:induction false} LinkParts(t: nat, offset: int, index: nat)
    requires t < 4 && IsOffset(offset) && index < NODE_SIZE
    ensures var w := MakeLink(t, offset, index);
            LinkType(w) == t && FragmentOffset(w) == offset && FragmentIndex(w) == index
  {
    hide LinkType, AsSigned;
    assert FragmentOffset(offset) == offset;
    UnsignedParts(t, offset + index);
  }

  lemma {:induction false} OffsetAlone(o: int)
    requires IsOffset(o)
    ensures FragmentOffset(o) == o
  {
  }

  /** Every word is the link made of its parts. */
  lemma {:induction false} PartsMakeLink(w: int)
    requires IsWord(w)
    ensures MakeLink(LinkType(w), FragmentOffset(w), FragmentIndex(w)) == w
  {
    assert FragmentOffset(FragmentOffset(w)) == FragmentOffset(w);
    var u := if w >= 0 then w else w + WORD;
    assert w % WORD == u;
    Quotient(u, u / TYPE_UNIT, u % TYPE_UNIT);
    Quotient(w, if w >= 0 then u / TYPE_UNIT else u / TYPE_UNIT - 4, u % TYPE_UNIT);
  }

  /** The plain values are exactly those from 0 up to 2^62; any other word is taken for
      a link. */
  lemma {:induction false} PlainValues(w: int)
    requires IsWord(w)
    ensures !IsDuplicate(w) <==> 0 <= w < TYPE_UNIT
  {
    assert w % WORD == if w >= 0 then w else w + WORD;
  }
}
