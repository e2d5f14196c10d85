/** What a scan of the arguments gives, told by the pieces the arguments are made of: other
arguments, and elements of option characters with an argument behind them or not. */
module OptionPieces {
  import opened OptionScan

  /** What ends an option element: nothing, an argument in the same element, an argument in
      the next one, or an option that is left without the argument it may have. */
  datatype Tail = NoTail | Joined(c: char, text: string) | Apart(c: char, text: string) | Alone(c: char)

  datatype Piece = Other(text: string) | Element(flags: string, tail: Tail)

  /** What ends the arguments: nothing, a delimiter with everything behind it, or an option
      that lacks its argument. */
  datatype End = AllRead | Delimited(rest: seq<string>) | Lacking(flags: string, c: char)

  // ---------- the option string ----------

  /** The first place of the character in the option string has `n` colons behind it. */
  ghost predicate Takes(optstring: string, c: char, n: nat) {
    c != ':' && n <= 2 && exists before: string, after: string :: TakesAt(optstring, c, n, before, after)
  }

  predicate TakesAt(optstring: string, c: char, n: nat, before: string, after: string) {
    && optstring == before + [c] + (if n == 0 then "" else if n == 1 then ":" else "::") + after
    && c !in before && (n < 2 ==> after == "" || after[0] != ':')
  }

  predicate Unlisted(optstring: string, c: char) {
    c == ':' || c !in optstring
  }

  // ---------- arguments made of pieces ----------

  function ElementText(flags: string, tail: string): string {
    "-" + (flags + tail)
  }

  function PieceArguments(p: Piece): seq<string> {
    match p
    case Other(text) => [text]
    case Element(flags, NoTail) => [ElementText(flags, "")]
    case Element(flags, Joined(c, text)) => [ElementText(flags, [c] + text)]
    case Element(flags, Apart(c, text)) => [ElementText(flags, [c]), text]
    case Element(flags, Alone(c)) => [ElementText(flags, [c])]
  }

  function EndArguments(e: End): seq<string> {
    match e
    case AllRead => []
    case Delimited(rest) => ["--"] + rest
    case Lacking(flags, c) => [ElementText(flags, [c])]
  }

  function Arguments(ps: seq<Piece>, e: End): seq<string> {
    if ps == [] then EndArguments(e) else PieceArguments(ps[0]) + Arguments(ps[1..], e)
  }

  /** Characters that take no argument. */
  ghost predicate AreFlags(optstring: string, flags: string) {
    forall k :: 0 <= k < |flags| ==> Takes(optstring, flags[k], 0) || Unlisted(optstring, flags[k])
  }

  ghost predicate TailFits(optstring: string, tail: Tail) {
    match tail
    case NoTail => true
    case Joined(c, text) => (Takes(optstring, c, 1) || Takes(optstring, c, 2)) && text != ""
    case Apart(c, _) => Takes(optstring, c, 1)
    case Alone(c) => Takes(optstring, c, 2)
  }

  ghost predicate Fits(optstring: string, p: Piece) {
    match p
    case Other(text) => text == "" || text[0] != '-' || text == "-"
    case Element(flags, tail) =>
      && AreFlags(optstring, flags) && TailFits(optstring, tail) && (flags != "" || !tail.NoTail?)
      && PieceArguments(p)[0] != "--"
  }

  ghost predicate EndFits(optstring: string, e: End) {
    e.Lacking? ==> AreFlags(optstring, e.flags) && Takes(optstring, e.c, 1) && e.flags + [e.c] != "-"
  }

  ghost predicate AllFit(optstring: string, ps: seq<Piece>) {
    forall k :: 0 <= k < |ps| ==> Fits(optstring, ps[k])
  }

  // ---------- what they give ----------

  function FlagEvent(optstring: string, c: char): Event {
    if Unlisted(optstring, c) then Invalid(c) else Option(c, NoArgument)
  }

  function FlagEvents(optstring: string, flags: string): seq<Event> {
    seq(|flags|, k requires 0 <= k < |flags| => FlagEvent(optstring, flags[k]))
  }

  function PieceEvents(optstring: string, p: Piece): seq<Event> {
    match p
    case Other(_) => []
    case Element(flags, tail) =>
      FlagEvents(optstring, flags)
      + match tail
        case NoTail => []
        case Joined(c, text) => [Option(c, Text(text))]
        case Apart(c, text) => [Option(c, Text(text))]
        case Alone(c) => [Option(c, NoArgument)]
  }

  function EndEvents(optstring: string, e: End): seq<Event> {
    if e.Lacking? then FlagEvents(optstring, e.flags) + [Missing(e.c)] else []
  }

  function Events(optstring: string, ps: seq<Piece>, e: End): seq<Event> {
    if ps == [] then EndEvents(optstring, e) else PieceEvents(optstring, ps[0]) + Events(optstring, ps[1..], e)
  }

  /** The option elements with the arguments that stand alone, and the delimiter. */
  function OptionsOf(ps: seq<Piece>, e: End): seq<string> {
    if ps != [] then (if ps[0].Other? then [] else PieceArguments(ps[0])) + OptionsOf(ps[1..], e)
    else if e.Delimited? then ["--"]
    else EndArguments(e)
  }

  function OthersOf(ps: seq<Piece>, e: End): seq<string> {
    if ps != [] then (if ps[0].Other? then [ps[0].text] else []) + OthersOf(ps[1..], e)
    else if e.Delimited? then e.rest
    else []
  }

  // ---------- the option string is read so ----------

  lemma {:induction false} IndexIs(s: string, before: string, c: char, after: string)
    requires s == before + [c] + after && c !in before
    ensures Index(s, c) == |before|
  {
    var k := Index(s, c);
    assert s[|before|] == c;
    assert forall m :: 0 <= m < |before| ==> s[m] == before[m];
  }

  lemma {:induction false} TakesKind(optstring: string, c: char, n: nat)
    requires Takes(optstring, c, n)
    ensures KindOf(optstring, c) == if n == 0 then Flag else if n == 1 then Required else Optional
    ensures !Unlisted(optstring, c)
  {
    var before, after :| TakesAt(optstring, c, n, before, after);
    var colons := if n == 0 then "" else if n == 1 then ":" else "::";
    var k := |before|;
    assert optstring == before + [c] + (colons + after);
    IndexIs(optstring, before, c, colons + after);
    assert optstring[k] == c;
    assert optstring[k + 1..] == colons + after;
    assert forall m :: 0 <= m < |colons + after| ==> optstring[k + 1 + m] == (colons + after)[m];
  }

  lemma {:induction false} UnlistedKind(optstring: string, c: char)
    requires Unlisted(optstring, c)
    ensures KindOf(optstring, c) == Unknown
  {
  }

  /** Every character is one of these. */
  lemma {:induction false} KindTakes(optstring: string, c: char)
    ensures match KindOf(optstring, c)
            case Unknown => Unlisted(optstring, c)
            case Flag => Takes(optstring, c, 0)
            case Required => Takes(optstring, c, 1)
            case Optional => Takes(optstring, c, 2)
  {
    var k, kind := Index(optstring, c), KindOf(optstring, c);
    if kind == Unknown {
      if c in optstring {
        assert c == ':';
      }
    } else {
      var n := if kind == Flag then 0 else if kind == Required then 1 else 2;
      var colons := if n == 0 then "" else if n == 1 then ":" else "::";
      assert optstring == optstring[..k] + [c] + colons + optstring[k + 1 + n..];
      assert TakesAt(optstring, c, n, optstring[..k], optstring[k + 1 + n..]);
    }
  }

  // ---------- elements ----------

  /** The characters of an element in front of its tail. */
  lemma {:induction false} FlagsRead(optstring: string, a: seq<string>, i: nat, j: nat, flags: string)
    requires i < |a| && j + |flags| < |a[i]| && a[i][j..j + |flags|] == flags && AreFlags(optstring, flags)
    ensures var (events, next) := ElementEvents(optstring, a, i, j + |flags|);
            ElementEvents(optstring, a, i, j) == (FlagEvents(optstring, flags) + events, next)
    decreases |flags|
  {
    hide AreFlags, FlagEvent, ElementEvents;
    if flags != "" {
      var rest := flags[1..];
      var events := ElementEvents(optstring, a, i, j + |flags|).0;
      var e, more := FlagEvent(optstring, flags[0]), FlagEvents(optstring, rest);
      assert [e] + (more + events) == [e] + more + events;
      assert a[i][j + 1..j + 1 + |rest|] == a[i][j..j + |flags|][1..];
      FirstFlag(optstring, flags);
      FlagsRead(optstring, a, i, j + 1, rest);
      assert a[i][j] == a[i][j..j + |flags|][0];
      OneFlag(optstring, a, i, j);
    } else {
      var all := ElementEvents(optstring, a, i, j);
      assert FlagEvents(optstring, flags) + all.0 == all.0;
      assert all == (all.0, all.1);
    }
  }

  lemma {:induction false} FirstFlag(optstring: string, flags: string)
    requires flags != "" && AreFlags(optstring, flags)
    ensures Takes(optstring, flags[0], 0) || Unlisted(optstring, flags[0])
    ensures AreFlags(optstring, flags[1..])
    ensures FlagEvents(optstring, flags) == [FlagEvent(optstring, flags[0])] + FlagEvents(optstring, flags[1..])
  {
  }

  lemma {:induction false} OneFlag(optstring: string, a: seq<string>, i: nat, j: nat)
    requires i < |a| && j < |a[i]| && (Takes(optstring, a[i][j], 0) || Unlisted(optstring, a[i][j]))
    ensures ElementEvents(optstring, a, i, j)
            == if j + 1 == |a[i]| then ([FlagEvent(optstring, a[i][j])], i + 1)
               else Before(FlagEvent(optstring, a[i][j]), ElementEvents(optstring, a, i, j + 1))
  {
    hide KindOf, Takes;
    var c := a[i][j];
    if Takes(optstring, c, 0) {
      TakesKind(optstring, c, 0);
    } else {
      UnlistedKind(optstring, c);
    }
  }

  /** The events of an element with nothing but flags. */
  lemma {:induction false} OnlyFlags(optstring: string, a: seq<string>, i: nat, j: nat, flags: string)
    requires i < |a| && flags != "" && j + |flags| == |a[i]| && a[i][j..] == flags && AreFlags(optstring, flags)
    ensures ElementEvents(optstring, a, i, j) == (FlagEvents(optstring, flags), i + 1)
  {
    hide AreFlags, FlagEvents;
    var n := |flags| - 1;
    assert a[i][j..j + n] == a[i][j..][..n];
    FlagsUpTo(optstring, flags, n);
    FlagsRead(optstring, a, i, j, flags[..n]);
    assert a[i][j + n] == a[i][j..][n];
    OneFlag(optstring, a, i, j + n);
  }

  lemma {:induction false} FlagsUpTo(optstring: string, flags: string, n: nat)
    requires n + 1 == |flags| && AreFlags(optstring, flags)
    ensures AreFlags(optstring, flags[..n]) && (Takes(optstring, flags[n], 0) || Unlisted(optstring, flags[n]))
    ensures FlagEvents(optstring, flags) == FlagEvents(optstring, flags[..n]) + [FlagEvent(optstring, flags[n])]
  {
  }

  /** The option behind the flags of an element. */
  lemma {:induction false} TailRead(optstring: string, a: seq<string>, i: nat, j: nat, c: char, rest: string)
    requires i < |a| && j < |a[i]| && a[i][j..] == [c] + rest
    ensures Takes(optstring, c, 1) && rest == "" ==>
              ElementEvents(optstring, a, i, j)
              == if i + 1 == |a| then ([Missing(c)], i + 1) else ([Option(c, Text(a[i + 1]))], i + 2)
    ensures Takes(optstring, c, 2) && rest == "" ==> ElementEvents(optstring, a, i, j) == ([Option(c, NoArgument)], i + 1)
    ensures (Takes(optstring, c, 1) || Takes(optstring, c, 2)) && rest != "" ==>
              ElementEvents(optstring, a, i, j) == ([Option(c, Text(rest))], i + 1)
  {
    hide KindOf, Takes;
    assert a[i][j] == a[i][j..][0] == c;
    assert a[i][j + 1..] == a[i][j..][1..] == rest;
    if Takes(optstring, c, 1) {
      TakesKind(optstring, c, 1);
    }
    if Takes(optstring, c, 2) {
      TakesKind(optstring, c, 2);
    }
  }

  // ---------- whole scans ----------

  /** The arguments `b` stand at `i`. */
  predicate StandAt(a: seq<string>, i: nat, b: seq<string>) {
    i + |b| <= |a| && a[i..i + |b|] == b
  }

  lemma {:induction false} FirstStands(a: seq<string>, i: nat, b: seq<string>)
    requires StandAt(a, i, b) && b != []
    ensures i < |a| && a[i] == b[0] && (|b| > 1 ==> a[i + 1] == b[1])
  {
    assert a[i] == a[i..i + |b|][0];
    assert |b| > 1 ==> a[i + 1] == a[i..i + |b|][1];
  }

  lemma {:induction false} ElementLayout(flags: string, tail: string)
    ensures var x := ElementText(flags, tail);
            && |x| == 1 + |flags| + |tail| && x[1..1 + |flags|] == flags && x[1 + |flags|..] == tail && x[0] == '-'
            && (tail == "" ==> x[1..] == flags)
  {
  }

  /** An element and its argument, up to the element behind. */
  lemma {:induction false} ElementScan(optstring: string, a: seq<string>, i: nat, p: Piece)
    requires p.Element? && Fits(optstring, p) && StandAt(a, i, PieceArguments(p))
    ensures ElementEvents(optstring, a, i, 1) == (PieceEvents(optstring, p), i + |PieceArguments(p)|)
    ensures !IsNonoption(a[i]) && a[i] != "--"
  {
    hide ElementEvents, AreFlags, Takes, FlagEvents;
    var flags := p.flags;
    FirstStands(a, i, PieceArguments(p));
    match p.tail
    case NoTail =>
      ElementLayout(flags, "");
      assert flags + "" == flags;
      OnlyFlags(optstring, a, i, 1, flags);
      assert FlagEvents(optstring, flags) + [] == FlagEvents(optstring, flags);
    case Joined(c, text) =>
      ElementLayout(flags, [c] + text);
      FlagsRead(optstring, a, i, 1, flags);
      TailRead(optstring, a, i, 1 + |flags|, c, text);
    case Apart(c, text) =>
      LoneTail(optstring, a, i, flags, c);
    case Alone(c) =>
      LoneTail(optstring, a, i, flags, c);
  }

  /** An element that ends with an option that takes an argument. */
  lemma {:induction false} LoneTail(optstring: string, a: seq<string>, i: nat, flags: string, c: char)
    requires i < |a| && a[i] == ElementText(flags, [c]) && AreFlags(optstring, flags)
    ensures Takes(optstring, c, 1) ==>
              ElementEvents(optstring, a, i, 1)
              == if i + 1 == |a| then (FlagEvents(optstring, flags) + [Missing(c)], i + 1)
                 else (FlagEvents(optstring, flags) + [Option(c, Text(a[i + 1]))], i + 2)
    ensures Takes(optstring, c, 2) ==>
              ElementEvents(optstring, a, i, 1) == (FlagEvents(optstring, flags) + [Option(c, NoArgument)], i + 1)
  {
    hide ElementEvents, AreFlags, Takes, FlagEvents;
    ElementLayout(flags, [c]);
    assert [c] + "" == [c];
    FlagsRead(optstring, a, i, 1, flags);
    TailRead(optstring, a, i, 1 + |flags|, c, "");
  }

  function Expected(optstring: string, ps: seq<Piece>, e: End): Scanned {
    Scanned(OptionsOf(ps, e), OthersOf(ps, e), Events(optstring, ps, e))
  }

  lemma {:induction false} EndScan(optstring: string, a: seq<string>, i: nat, e: End)
    requires i <= |a| && a[i..] == EndArguments(e) && EndFits(optstring, e)
    ensures Scan(optstring, a, i) == Expected(optstring, [], e)
  {
    hide ElementEvents, AreFlags, Takes, FlagEvents;
    match e
    case AllRead =>
      assert i == |a|;
    case Delimited(rest) =>
      assert a[i] == a[i..][0];
      assert a[i + 1..] == a[i..][1..];
    case Lacking(flags, c) =>
      assert a[i] == a[i..][0];
      LoneTail(optstring, a, i, flags, c);
      ElementLayout(flags, [c]);
      assert a[i][1..] == flags + [c];
      assert a[i..i + 1] == a[i..];
      assert Scan(optstring, a, i + 1) == Scanned([], [], []);
  }

  lemma {:induction false} PieceScan(optstring: string, a: seq<string>, i: nat, p: Piece)
    requires Fits(optstring, p) && StandAt(a, i, PieceArguments(p))
    ensures i + |PieceArguments(p)| <= |a|
    ensures Scan(optstring, a, i)
            == Join(Scanned(if p.Other? then [] else PieceArguments(p), if p.Other? then [p.text] else [], PieceEvents(optstring, p)),
                    Scan(optstring, a, i + |PieceArguments(p)|))
  {
    hide ElementEvents, AreFlags, Takes, PieceEvents, Join, TailFits;
    FirstStands(a, i, PieceArguments(p));
    if p.Element? {
      ElementScan(optstring, a, i, p);
    } else {
      NoEvents(optstring, p);
    }
  }

  lemma {:induction false} NoEvents(optstring: string, p: Piece)
    ensures p.Other? ==> PieceEvents(optstring, p) == []
  {
  }

  /** The scan of arguments made of pieces gives what the pieces stand for. */
  lemma {:induction false} PiecesScan(optstring: string, a: seq<string>, i: nat, ps: seq<Piece>, e: End)
    requires i <= |a| && a[i..] == Arguments(ps, e) && AllFit(optstring, ps) && EndFits(optstring, e)
    ensures Scan(optstring, a, i) == Expected(optstring, ps, e)
    decreases |ps|
  {
    hide Scan, PieceArguments, PieceEvents, Fits, EndFits, EndArguments;
    if ps == [] {
      EndScan(optstring, a, i, e);
    } else {
      var n := |PieceArguments(ps[0])|;
      assert a[i..i + n] == a[i..][..n];
      assert a[i + n..] == a[i..][n..] == Arguments(ps[1..], e);
      PieceScan(optstring, a, i, ps[0]);
      PiecesScan(optstring, a, i + n, ps[1..], e);
    }
  }

  // ---------- every run ----------

  /** The first character from `j` on that takes an argument. */
  lemma {:induction false} FlagsEnd(optstring: string, x: string, j: nat) returns (n: nat)
    requires j <= |x|
    ensures j <= n <= |x| && AreFlags(optstring, x[j..n])
    ensures n < |x| ==> Takes(optstring, x[n], 1) || Takes(optstring, x[n], 2)
    decreases |x| - j
  {
    hide Takes, KindOf;
    n := j;
    if j < |x| {
      KindTakes(optstring, x[j]);
      if Takes(optstring, x[j], 0) || Unlisted(optstring, x[j]) {
        n := FlagsEnd(optstring, x, j + 1);
        assert x[j..n] == [x[j]] + x[j + 1..n];
      }
    }
  }

  /** The piece or the end of the arguments that begins with an option element. */
  lemma {:induction false} ElementDivides(optstring: string, a: seq<string>, i: nat) returns (ps: seq<Piece>, e: End, next: nat)
    requires i < |a| && !IsNonoption(a[i]) && a[i] != "--"
    ensures i < next <= |a| && AllFit(optstring, ps) && EndFits(optstring, e)
    ensures (|ps| == 1 && e.AllRead?) || (ps == [] && next == |a|)
    ensures a[i..next] == if ps == [] then EndArguments(e) else PieceArguments(ps[0])
  {
    hide AreFlags, Takes;
    var x := a[i];
    var n := FlagsEnd(optstring, x, 1);
    var flags := x[1..n];
    assert x == ElementText(flags, x[n..]);
    ps, e, next := [], AllRead, i + 1;
    if n == |x| {
      ps := [Element(flags, NoTail)];
      assert x[n..] == "";
    } else if n + 1 < |x| {
      ps := [Element(flags, Joined(x[n], x[n + 1..]))];
      assert x[n..] == [x[n]] + x[n + 1..];
    } else {
      assert x[n..] == [x[n]];
      if Takes(optstring, x[n], 2) {
        ps := [Element(flags, Alone(x[n]))];
      } else if i + 1 < |a| {
        ps, next := [Element(flags, Apart(x[n], a[i + 1]))], i + 2;
        assert a[i..i + 2] == [x, a[i + 1]];
      } else {
        e := Lacking(flags, x[n]);
        assert x == ElementText(flags, [x[n]]);
      }
    }
  }

  /** All arguments are made of pieces. */
  lemma {:induction false} Divide(optstring: string, a: seq<string>, i: nat) returns (ps: seq<Piece>, e: End)
    requires i <= |a|
    ensures AllFit(optstring, ps) && EndFits(optstring, e) && a[i..] == Arguments(ps, e)
    decreases |a| - i
  {
    hide PieceArguments, Fits;
    ps, e := [], AllRead;
    if i < |a| {
      if IsNonoption(a[i]) {
        ps, e := Divide(optstring, a, i + 1);
        OtherFits(optstring, a[i]);
        assert a[i..] == [a[i]] + a[i + 1..];
        ps := [Other(a[i])] + ps;
      } else if a[i] == "--" {
        e := Delimited(a[i + 1..]);
        assert a[i..] == [a[i]] + a[i + 1..];
      } else {
        var first, end, next := ElementDivides(optstring, a, i);
        e := end;
        assert a[i..] == a[i..next] + a[next..];
        if first != [] {
          ps, e := Divide(optstring, a, next);
          ps := first + ps;
        }
      }
    }
  }

  lemma {:induction false} OtherFits(optstring: string, x: string)
    requires IsNonoption(x)
    ensures Fits(optstring, Other(x)) && PieceArguments(Other(x)) == [x]
  {
  }

  /** A complete run over any arguments: they are made of pieces, the events are those of the
      pieces in order, and afterwards the options with their arguments stand in front of the
      others, where `optind` points to. */
  method Run(argv: array<string>, optstring: string) returns (events: seq<Event>, optind: nat, ghost ps: seq<Piece>, ghost e: End)
    requires argv.Length > 0 && Permutes(optstring)
    modifies argv
    ensures old(argv[..]) == [old(argv[0])] + Arguments(ps, e) && AllFit(optstring, ps) && EndFits(optstring, e)
    ensures argv[..] == [old(argv[0])] + OptionsOf(ps, e) + OthersOf(ps, e)
    ensures events == Events(optstring, ps, e) && optind == 1 + |OptionsOf(ps, e)|
  {
    hide Scan, AllFit, EndFits, Arguments;
    ghost var a := argv[..];
    ps, e := Divide(optstring, a, 1);
    PiecesScan(optstring, a, 1, ps, e);
    events, optind := ScanArguments(argv, optstring);
    assert a == [a[0]] + a[1..];
  }

  /** Arguments are made of pieces in one way only. */
  lemma {:induction false} OneWay(optstring: string, ps: seq<Piece>, e: End, qs: seq<Piece>, f: End)
    requires AllFit(optstring, ps) && EndFits(optstring, e) && AllFit(optstring, qs) && EndFits(optstring, f)
    requires Arguments(ps, e) == Arguments(qs, f)
    ensures Events(optstring, ps, e) == Events(optstring, qs, f)
    ensures OptionsOf(ps, e) == OptionsOf(qs, f) && OthersOf(ps, e) == OthersOf(qs, f)
  {
    hide Scan, AllFit, EndFits, Arguments;
    var a := Arguments(ps, e);
    assert a[0..] == a;
    PiecesScan(optstring, a, 0, ps, e);
    PiecesScan(optstring, a, 0, qs, f);
  }
}
