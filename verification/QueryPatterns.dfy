/** Which patterns a query may hold. */
module QueryPatterns {
  import opened QueryParser

  /** A character of a set; `escaped` with a backslash in front. */
  datatype Member = Member(escaped: bool, c: char)

  datatype Piece = Single(c: char) | Escaped(c: char) | Set(members: seq<Member>)

  function MemberText(m: Member): string {
    if m.escaped then ['\\', m.c] else [m.c]
  }

  function MembersText(ms: seq<Member>): string {
    if ms == [] then "]" else MemberText(ms[0]) + MembersText(ms[1..])
  }

  function PieceText(q: Piece): (r: string)
    ensures r != ""
  {
    match q
    case Single(c) => [c]
    case Escaped(c) => ['\\', c]
    case Set(ms) => ['['] + MembersText(ms)
  }

  function PatternText(ps: seq<Piece>): string {
    if ps == [] then "" else PieceText(ps[0]) + PatternText(ps[1..])
  }

  /** No bracket or backslash without a backslash in front of it, and no minus behind a minus. */
  predicate AreMembers(ms: seq<Member>) {
    && (forall k :: 0 <= k < |ms| ==> ms[k].escaped || ms[k].c !in {']', '\\'})
    && (forall m :: 1 <= m < |ms| && ms[m - 1].c == '-' ==> ms[m] != Member(false, '-'))
  }

  predicate IsPiece(q: Piece) {
    match q
    case Single(c) => c !in {'\\', '['}
    case Escaped(_) => true
    case Set(ms) => ms != [] && AreMembers(ms)
  }

  predicate ArePieces(ps: seq<Piece>) {
    forall k :: 0 <= k < |ps| ==> IsPiece(ps[k])
  }

  // ---------- pieces are valid ----------

  lemma {:induction false} Behind(p: string, i: nat, a: string, b: string)
    requires i <= |p| && p[i..] == a + b
    ensures i + |a| <= |p| && p[i + |a|..] == b && p[i..i + |a|] == a
    ensures a != "" ==> p[i] == a[0]
  {
    assert p[i..][|a|..] == p[i + |a|..];
    assert p[i..][..|a|] == p[i..i + |a|];
  }

  lemma {:induction false} PieceStands(p: string, i: nat, ps: seq<Piece>)
    requires i <= |p| && p[i..] == PatternText(ps) && ps != []
    ensures var n := |PieceText(ps[0])|;
            i + n <= |p| && p[i] == PieceText(ps[0])[0] && p[i + n..] == PatternText(ps[1..])
    ensures ps[0].Set? ==> p[i + 1..] == MembersText(ps[0].members) + PatternText(ps[1..])
  {
    hide MembersText;
    var rest := PatternText(ps[1..]);
    Behind(p, i, PieceText(ps[0]), rest);
    if ps[0].Set? {
      var members := MembersText(ps[0].members);
      assert ['['] + members + rest == ['['] + (members + rest);
      Behind(p, i, ['['], members + rest);
    }
  }

  lemma {:induction false} PiecesValid(p: string, i: nat, ps: seq<Piece>)
    requires i <= |p| && p[i..] == PatternText(ps) && ArePieces(ps)
    ensures ValidPattern(p, i)
    decreases |p| - i, 0
  {
    hide MembersText, PatternText, AreMembers, ValidSet;
    if ps == [] {
      NoPieces();
      assert p[i..] == "";
    } else {
      PieceStands(p, i, ps);
      match ps[0]
      case Single(_) => PiecesValid(p, i + 1, ps[1..]);
      case Escaped(_) => PiecesValid(p, i + 2, ps[1..]);
      case Set(ms) =>
        MembersValid(p, i + 1, ms, ps[1..]);
        MembersHead(ms);
        FirstMember(ms);
        assert p[i + 1] == p[i + 1..][0];
    }
  }

  lemma {:induction false} NoPieces()
    ensures PatternText([]) == "" && ArePieces([])
  {
  }

  lemma {:induction false} MembersHead(ms: seq<Member>)
    requires ms != [] && AreMembers(ms)
    ensures ms[0].escaped || ms[0].c !in {']', '\\'}
  {
  }

  lemma {:induction false} FirstMember(ms: seq<Member>)
    ensures MembersText(ms) != ""
    ensures MembersText(ms)[0] == if ms == [] then ']' else if ms[0].escaped then '\\' else ms[0].c
  {
  }

  lemma {:induction false} MemberStands(p: string, j: nat, ms: seq<Member>, tail: string)
    requires j <= |p| && p[j..] == MembersText(ms) + tail && ms != []
    ensures var n := |MemberText(ms[0])|;
            && j + n < |p| && p[j] == MemberText(ms[0])[0] && p[j + n - 1] == ms[0].c
            && p[j + n..] == MembersText(ms[1..]) + tail && p[j + n] == MembersText(ms[1..])[0]
  {
    hide MembersText;
    MembersTextIs(ms);
    var text, rest := MemberText(ms[0]), MembersText(ms[1..]);
    FirstMember(ms[1..]);
    assert text + rest + tail == text + (rest + tail);
    Behind(p, j, text, rest + tail);
    Behind(p, j + |text|, rest, tail);
    assert p[j + |text| - 1] == p[j..j + |text|][|text| - 1];
  }

  lemma {:induction false} MembersTextIs(ms: seq<Member>)
    requires ms != []
    ensures MembersText(ms) == MemberText(ms[0]) + MembersText(ms[1..])
  {
  }

  lemma {:induction false} MembersTail(ms: seq<Member>)
    requires ms != [] && AreMembers(ms)
    ensures AreMembers(ms[1..])
    ensures |ms| > 1 && ms[0].c == '-' ==> ms[1] != Member(false, '-')
  {
  }

  lemma {:induction false} MembersMore(m: Member, ms: seq<Member>)
    requires AreMembers(ms) && (m.escaped || m.c !in {']', '\\'})
    requires ms != [] && m.c == '-' ==> ms[0] != Member(false, '-')
    ensures AreMembers([m] + ms)
    ensures MembersText([m] + ms) == MemberText(m) + MembersText(ms)
  {
    var all := [m] + ms;
    assert all[1..] == ms;
    forall k | 1 <= k < |all| && all[k - 1].c == '-'
      ensures all[k] != Member(false, '-')
    {
      assert all[k] == ms[k - 1];
    }
  }

  lemma {:induction false} MembersValid(p: string, j: nat, ms: seq<Member>, ps: seq<Piece>)
    requires j <= |p| && p[j..] == MembersText(ms) + PatternText(ps) && AreMembers(ms) && ArePieces(ps)
    ensures ValidSet(p, j)
    decreases |p| - j, 1
  {
    hide AreMembers, ArePieces, MembersText, ValidPattern, PatternText;
    FirstMember(ms);
    if ms == [] {
      SetCloses(p, j, PatternText(ps));
      PiecesValid(p, j + 1, ps);
      ClosedSet(p, j);
    } else {
      MemberStands(p, j, ms, PatternText(ps));
      MembersHead(ms);
      MembersTail(ms);
      FirstMember(ms[1..]);
      MembersValid(p, j + |MemberText(ms[0])|, ms[1..], ps);
    }
  }

  lemma {:induction false} SetCloses(p: string, j: nat, tail: string)
    requires j <= |p| && p[j..] == MembersText([]) + tail
    ensures j < |p| && p[j] == ']' && p[j + 1..] == tail
  {
    assert p[j] == p[j..][0];
    assert p[j + 1..] == p[j..][1..];
  }

  lemma {:induction false} ClosedSet(p: string, j: nat)
    requires j < |p| && p[j] == ']'
    ensures ValidSet(p, j) == ValidPattern(p, j + 1)
  {
  }

  // ---------- what is valid consists of pieces ----------

  lemma {:induction false} PiecesMore(q: Piece, ps: seq<Piece>)
    requires IsPiece(q) && ArePieces(ps)
    ensures ArePieces([q] + ps) && PatternText([q] + ps) == PieceText(q) + PatternText(ps)
  {
    assert ([q] + ps)[1..] == ps;
  }

  lemma {:induction false} PiecesOf(p: string, i: nat) returns (ps: seq<Piece>)
    requires i <= |p| && ValidPattern(p, i)
    ensures ArePieces(ps) && PatternText(ps) == p[i..]
    decreases |p| - i, 0
  {
    hide PatternText, ArePieces, AreMembers, MembersText, ValidSet;
    if i == |p| {
      NoPieces();
      ps := [];
    } else if p[i] == '[' {
      var ms, rest := MembersOf(p, i + 1);
      FirstMember(ms);
      assert p[i + 1] == p[i + 1..][0];
      PiecesMore(Set(ms), rest);
      assert p[i..] == ['['] + p[i + 1..];
      assert ['['] + (MembersText(ms) + PatternText(rest)) == ['['] + MembersText(ms) + PatternText(rest);
      ps := [Set(ms)] + rest;
    } else if p[i] == '\\' {
      var rest := PiecesOf(p, i + 2);
      PiecesMore(Escaped(p[i + 1]), rest);
      assert p[i..] == ['\\', p[i + 1]] + p[i + 2..];
      ps := [Escaped(p[i + 1])] + rest;
    } else {
      var rest := PiecesOf(p, i + 1);
      PiecesMore(Single(p[i]), rest);
      assert p[i..] == [p[i]] + p[i + 1..];
      ps := [Single(p[i])] + rest;
    }
  }

  lemma {:induction false} MembersOf(p: string, j: nat) returns (ms: seq<Member>, ps: seq<Piece>)
    requires j <= |p| && ValidSet(p, j)
    ensures AreMembers(ms) && ArePieces(ps) && MembersText(ms) + PatternText(ps) == p[j..]
    decreases |p| - j, 1
  {
    hide AreMembers, ArePieces, ValidPattern, PatternText;
    if j < |p| && p[j] == ']' {
      ClosedSet(p, j);
      ms := [];
      ps := PiecesOf(p, j + 1);
      NoMembers();
    } else {
      var k := if Ch(p, j) == '\\' then j + 1 else j;
      var more;
      more, ps := MembersOf(p, k + 1);
      ms := [Member(k != j, p[k])] + more;
      MemberRead(p, j, k, more, PatternText(ps));
    }
  }

  lemma {:induction false} NoMembers()
    ensures AreMembers([])
  {
  }

  lemma {:induction false} MemberRead(p: string, j: nat, k: nat, more: seq<Member>, tail: string)
    requires j <= k < |p| && k == (if p[j] == '\\' then j + 1 else j) && AreMembers(more)
    requires p[j] != ']' && !(p[k] == '-' && Ch(p, k + 1) == '-') && MembersText(more) + tail == p[k + 1..]
    ensures var ms := [Member(k != j, p[k])] + more; AreMembers(ms) && MembersText(ms) + tail == p[j..]
  {
    hide AreMembers, MembersText;
    var m := Member(k != j, p[k]);
    var rest := MembersText(more);
    FirstMember(more);
    Behind(p, k + 1, rest, tail);
    MembersMore(m, more);
    assert MemberText(m) + rest + tail == MemberText(m) + (rest + tail);
    assert p[j..] == MemberText(m) + p[k + 1..];
  }

  /** A pattern is valid exactly if it consists of characters, escaped characters, and sets
      with at least one member. */
  lemma {:induction false} ValidExactly(p: string)
    ensures ValidPattern(p, 0) <==> exists ps :: ArePieces(ps) && PatternText(ps) == p
  {
    hide ValidPattern, PatternText, ArePieces;
    assert p[0..] == p;
    if ValidPattern(p, 0) {
      var ps := PiecesOf(p, 0);
    }
    forall ps | ArePieces(ps) && PatternText(ps) == p
      ensures ValidPattern(p, 0)
    {
      PiecesValid(p, 0, ps);
    }
  }
}
