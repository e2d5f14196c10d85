/** Scanning the arguments of a program for short options, moving the other arguments
behind them. */
module OptionScan {
  import opened OptionExchange

  datatype Argument = NoArgument | Text(text: string)

  datatype Event =
    | Option(c: char, argument: Argument)
    | Invalid(c: char)          // not an option character
    | Missing(c: char)          // an argument is required and there is none

  // ---------- option characters ----------

  datatype Kind = Unknown | Flag | Required | Optional

  function Index(s: string, c: char): (k: nat)
    ensures k <= |s| && (k < |s| ==> s[k] == c) && forall i :: 0 <= i < k ==> s[i] != c
  {
    if s == "" || s[0] == c then 0
    else
      var k := Index(s[1..], c);
      assert forall i :: 1 <= i < k + 1 ==> s[i] == s[1..][i - 1];
      1 + k
  }

  /** The option string asks for no other ordering. */
  predicate Permutes(optstring: string) {
    optstring == "" || optstring[0] !in {'-', '+'}
  }

  /** What the option string says about a character. */
  function KindOf(optstring: string, c: char): Kind {
    var k := Index(optstring, c);
    if k == |optstring| || c == ':' then Unknown
    else if k + 1 < |optstring| && optstring[k + 1] == ':' then
      if k + 2 < |optstring| && optstring[k + 2] == ':' then Optional else Required
    else Flag
  }

  /** Not an option: no dash in front, or nothing but a dash. */
  predicate IsNonoption(s: string) {
    s == "" || s[0] != '-' || |s| == 1
  }

  // ---------- what a scan should give ----------

  /** The events of element `i` from character `j` on, and the element to go on with. */
  function ElementEvents(optstring: string, a: seq<string>, i: nat, j: nat): (r: (seq<Event>, nat))
    requires i < |a| && j < |a[i]|
    ensures i < r.1 <= |a|
    decreases |a[i]| - j
  {
    var c, rest := a[i][j], a[i][j + 1..];
    match KindOf(optstring, c)
    case Unknown => if rest == "" then ([Invalid(c)], i + 1) else Before(Invalid(c), ElementEvents(optstring, a, i, j + 1))
    case Flag => if rest == "" then ([Option(c, NoArgument)], i + 1) else Before(Option(c, NoArgument), ElementEvents(optstring, a, i, j + 1))
    case Optional => ([Option(c, if rest == "" then NoArgument else Text(rest))], i + 1)
    case Required =>
      if rest != "" then ([Option(c, Text(rest))], i + 1)
      else if i + 1 == |a| then ([Missing(c)], i + 1)
      else ([Option(c, Text(a[i + 1]))], i + 2)
  }

  function Before(e: Event, r: (seq<Event>, nat)): (seq<Event>, nat) {
    ([e] + r.0, r.1)
  }

  /** The options with their arguments and the delimiter, the other arguments, and the
      events, each in the order of the arguments. */
  datatype Scanned = Scanned(options: seq<string>, others: seq<string>, events: seq<Event>)

  function Join(a: Scanned, b: Scanned): Scanned {
    Scanned(a.options + b.options, a.others + b.others, a.events + b.events)
  }

  function Scan(optstring: string, a: seq<string>, i: nat): Scanned
    requires i <= |a|
    decreases |a| - i
  {
    if i == |a| then Scanned([], [], [])
    else if IsNonoption(a[i]) then Join(Scanned([], [a[i]], []), Scan(optstring, a, i + 1))
    else if a[i] == "--" then Scanned([a[i]], a[i + 1..], [])
    else
      var (events, next) := ElementEvents(optstring, a, i, 1);
      Join(Scanned(a[i..next], [], events), Scan(optstring, a, next))
  }

  /** The same from the middle of element `i` on. */
  function ScanFrom(optstring: string, a: seq<string>, i: nat, j: nat): Scanned
    requires i < |a| && j < |a[i]|
  {
    var (events, next) := ElementEvents(optstring, a, i, j);
    Join(Scanned(a[i..next], [], events), Scan(optstring, a, next))
  }

  predicate Divides(s: Scanned, a: seq<string>) {
    multiset(s.options) + multiset(s.others) == multiset(a)
  }

  lemma {:induction false} DividesJoin(s: Scanned, t: Scanned, a: seq<string>, b: seq<string>)
    requires Divides(s, a) && Divides(t, b)
    ensures Divides(Join(s, t), a + b)
  {
    assert multiset(s.options + t.options) == multiset(s.options) + multiset(t.options);
    assert multiset(s.others + t.others) == multiset(s.others) + multiset(t.others);
  }

  /** A scan divides the arguments and loses none. */
  lemma {:induction false} ScanKeeps(optstring: string, a: seq<string>, i: nat)
    requires i <= |a|
    ensures Divides(Scan(optstring, a, i), a[i..])
    decreases |a| - i
  {
    hide ElementEvents, Divides, Join;
    if i == |a| {
      SmallDivides([]);
      assert a[i..] == [];
    } else if IsNonoption(a[i]) {
      ScanKeeps(optstring, a, i + 1);
      OneKeeps(Scanned([], [a[i]], []), Scan(optstring, a, i + 1), a, i, i + 1);
      assert a[i..i + 1] == [a[i]];
    } else if a[i] == "--" {
      SmallDivides(a[i + 1..]);
      OneKeeps(Scanned([a[i]], [], []), Scanned([], a[i + 1..], []), a, i, i + 1);
      Delimited(a[i], a[i + 1..]);
    } else {
      var (events, next) := ElementEvents(optstring, a, i, 1);
      ScanKeeps(optstring, a, next);
      OneKeeps(Scanned(a[i..next], [], events), Scan(optstring, a, next), a, i, next);
    }
  }

  lemma {:induction false} OneKeeps(s: Scanned, t: Scanned, a: seq<string>, i: nat, next: nat)
    requires i <= next <= |a| && (s.options + s.others == a[i..next]) && (s.options == [] || s.others == [])
    requires Divides(t, a[next..])
    ensures Divides(Join(s, t), a[i..])
  {
    assert a[i..] == a[i..next] + a[next..];
    assert Divides(s, a[i..next]) by {
      assert s.options == [] ==> s.options + s.others == s.others;
      assert s.others == [] ==> s.options + s.others == s.options;
    }
    hide Divides;
    DividesJoin(s, t, a[i..next], a[next..]);
  }

  lemma {:induction false} Delimited(x: string, rest: seq<string>)
    ensures Join(Scanned([x], [], []), Scanned([], rest, [])) == Scanned([x], rest, [])
  {
  }

  lemma {:induction false} SmallDivides(b: seq<string>)
    ensures Divides(Scanned(b, [], []), b) && Divides(Scanned([], b, []), b)
  {
  }

  lemma {:induction false} JoinTwice(a: Scanned, b: Scanned, c: Scanned)
    ensures Join(Join(a, b), c) == Join(a, Join(b, c))
  {
  }

  // ---------- the arrangement of the arguments ----------

  /** The options so far stand in front of and behind the other arguments so far; what has
      not been looked at stands where it stood. */
  predicate Arranged(now: seq<string>, a: seq<string>, first: int, last: int, optind: int, options: seq<string>, others: seq<string>) {
    && |now| == |a| > 0 && 1 <= first <= last <= optind <= |a|
    && now[0] == a[0] && now[1..first] + now[last..optind] == options && now[first..last] == others
    && now[optind..] == a[optind..]
  }

  lemma {:induction false} ArrangedExchange(now: seq<string>, a: seq<string>, first: int, last: int, optind: int,
                                            options: seq<string>, others: seq<string>)
    requires Arranged(now, a, first, last, optind, options, others)
    ensures Arranged(Exchanged(now, first, last, optind), a, first + (optind - last), optind, optind, options, others)
  {
    ExchangedIs(now, first, last, optind);
    hide Exchanged;
    var now' := now[..first] + now[last..optind] + now[first..last] + now[optind..];
    var first' := first + (optind - last);
    assert now'[1..first'] == now[1..first] + now[last..optind];
    assert now'[first'..optind] == now[first..last];
    assert now'[optind..] == now[optind..];
    assert now'[optind..optind] == [];
  }

  /** Another argument that is not an option. */
  lemma {:induction false} ArrangedOther(now: seq<string>, a: seq<string>, first: int, optind: int, options: seq<string>, others: seq<string>)
    requires Arranged(now, a, first, optind, optind, options, others) && optind < |a|
    ensures now[optind] == a[optind]
    ensures Arranged(now, a, first, optind + 1, optind + 1, options, others + [a[optind]])
  {
    assert now[optind] == now[optind..][0] == a[optind..][0];
    assert now[first..optind + 1] == now[first..optind] + [now[optind]];
    assert now[optind + 1..] == now[optind..][1..] == a[optind + 1..];
  }

  /** Options behind the other arguments. */
  lemma {:induction false} ArrangedOption(now: seq<string>, a: seq<string>, first: int, last: int, optind: int, next: int,
                                          options: seq<string>, others: seq<string>)
    requires Arranged(now, a, first, last, optind, options, others) && optind <= next <= |a|
    ensures Arranged(now, a, first, last, next, options + a[optind..next], others)
  {
    assert now[optind..next] == now[optind..][..next - optind] == a[optind..next];
    assert now[last..next] == now[last..optind] + now[optind..next];
    assert now[next..] == now[optind..][next - optind..] == a[next..];
  }

  lemma {:induction false} ArrangedEnd(now: seq<string>, a: seq<string>, first: int, options: seq<string>, others: seq<string>)
    requires Arranged(now, a, first, |a|, |a|, options, others)
    ensures now == [a[0]] + options + others && first == 1 + |options|
  {
    assert now == [now[0]] + now[1..first] + now[first..];
  }

  // ---------- the scanner ----------

  class Getopt {
    const argv: array<string>
    const optstring: string
    var optind: nat
    var firstNonopt: nat
    var lastNonopt: nat
    var nextchar: string          // what is left of the current element
    ghost const a: seq<string>    // the arguments as they were given
    ghost var done: Scanned       // what has been returned so far

    /** What is still to come. */
    ghost function Rest(): Scanned
      requires optind <= |a| && (nextchar != "" ==> optind < |a| && |nextchar| < |a[optind]|)
      reads this
    {
      if nextchar == "" then Scan(optstring, a, optind)
      else ScanFrom(optstring, a, optind, |a[optind]| - |nextchar|)
    }

    ghost predicate Valid()
      reads this, argv
    {
      && Arranged(argv[..], a, firstNonopt, lastNonopt, optind, done.options, done.others)
      && (nextchar != "" ==> optind < |a| && |nextchar| < |a[optind]| && nextchar == a[optind][|a[optind]| - |nextchar|..])
      && Join(done, Rest()) == Scan(optstring, a, 1)
    }

    constructor (argv: array<string>, optstring: string)
      requires argv.Length > 0 && Permutes(optstring)
      ensures Valid() && this.argv == argv && this.optstring == optstring && a == argv[..] && done == Scanned([], [], [])
    {
      this.argv, this.optstring := argv, optstring;
      optind, firstNonopt, lastNonopt, nextchar := 1, 1, 1, "";
      a, done := argv[..], Scanned([], [], []);
      new;
      assert argv[..][1..1] == [];
    }

    /** Puts the options processed since behind those in front of the other arguments. */
    method Rotate(ghost options: seq<string>, ghost others: seq<string>)
      requires Arranged(argv[..], a, firstNonopt, lastNonopt, optind, options, others)
      modifies this`firstNonopt, this`lastNonopt, argv
      ensures Arranged(argv[..], a, firstNonopt, lastNonopt, optind, options, others) && lastNonopt == optind
    {
      hide Exchanged, Arranged;
      ArrangedBounds(argv[..], a, firstNonopt, lastNonopt, optind, options, others);
      ArrangedExchange(argv[..], a, firstNonopt, lastNonopt, optind, options, others);
      if firstNonopt != lastNonopt && lastNonopt != optind {
        Exchange(argv, firstNonopt, lastNonopt, optind);
        firstNonopt, lastNonopt := firstNonopt + (optind - lastNonopt), optind;
      } else {
        NothingToExchange(argv[..], firstNonopt, lastNonopt, optind);
        if firstNonopt == lastNonopt {
          firstNonopt := optind;
        }
        lastNonopt := optind;
      }
    }

    method Settle()
      requires Valid() && nextchar == ""
      modifies this`firstNonopt, this`lastNonopt, argv
      ensures Valid() && lastNonopt == optind
    {
      hide Scan, Join, Arranged;
      Rotate(done.options, done.others);
    }

    static lemma {:induction false} ArrangedBounds(now: seq<string>, a: seq<string>, first: int, last: int, optind: int,
                                                   options: seq<string>, others: seq<string>)
      requires Arranged(now, a, first, last, optind, options, others)
      ensures |now| == |a| && 1 <= first <= last <= optind <= |a|
      ensures now[optind..] == a[optind..] && (optind < |a| ==> now[optind] == a[optind])
    {
      assert optind < |a| ==> now[optind] == now[optind..][0] == a[optind..][0];
    }

    /** Passes over arguments that are not options. */
    method SkipOthers()
      requires Valid() && nextchar == "" && lastNonopt == optind
      modifies this`optind, this`lastNonopt, this`done
      ensures Valid() && lastNonopt == optind && optind >= old(optind) && done.events == old(done.events)
      ensures optind < |a| ==> !IsNonoption(a[optind])
    {
      hide Arranged, Scan, Join;
      ArrangedBounds(argv[..], a, firstNonopt, lastNonopt, optind, done.options, done.others);
      while optind < argv.Length && IsNonoption(argv[optind])
        invariant Valid() && nextchar == "" && lastNonopt == optind && old(optind) <= optind <= |a| == argv.Length
        invariant done.events == old(done.events)
        invariant optind < |a| ==> argv[optind] == a[optind]
      {
        ArrangedOther(argv[..], a, firstNonopt, optind, done.options, done.others);
        OneOther(optstring, a, optind, done);
        done := done.(others := done.others + [a[optind]]);
        optind := optind + 1;
        lastNonopt := optind;
        ArrangedBounds(argv[..], a, firstNonopt, lastNonopt, optind, done.options, done.others);
      }
    }

    static lemma {:induction false} OneOther(optstring: string, a: seq<string>, i: nat, done: Scanned)
      requires i < |a| && IsNonoption(a[i])
      ensures Join(done, Scan(optstring, a, i)) == Join(done.(others := done.others + [a[i]]), Scan(optstring, a, i + 1))
    {
      var one, rest := Scanned([], [a[i]], []), Scan(optstring, a, i + 1);
      JoinTwice(done, one, rest);
      assert Join(done, one) == done.(others := done.others + [a[i]]);
    }
  
    /** The end of the options: everything behind the delimiter is another argument. */
    method AtDelimiter()
      requires Valid() && nextchar == "" && lastNonopt == optind && optind < |a| && a[optind] == "--"
      modifies this`optind, this`firstNonopt, this`lastNonopt, this`done, argv
      ensures Valid() && lastNonopt == optind == |a| && done.events == old(done.events)
    {
      hide Arranged, Scan, Join;
      ArrangedBounds(argv[..], a, firstNonopt, lastNonopt, optind, done.options, done.others);
      ArrangedOption(argv[..], a, firstNonopt, lastNonopt, optind, optind + 1, done.options, done.others);
      AllOthers(optstring, a, optind, done);
      ghost var options, others, rest := done.options + [a[optind]], done.others, a[optind + 1..];
      assert a[optind..optind + 1] == [a[optind]];
      optind := optind + 1;
      Rotate(options, others);
      ArrangedRest(argv[..], a, firstNonopt, optind, options, others);
      lastNonopt := argv.Length;
      optind := argv.Length;
      done := done.(options := options, others := others + rest);
    }

    static lemma {:induction false} AllOthers(optstring: string, a: seq<string>, i: nat, done: Scanned)
      requires i < |a| && a[i] == "--"
      ensures Join(done, Scan(optstring, a, i))
              == Join(done.(options := done.options + [a[i]], others := done.others + a[i + 1..]), Scan(optstring, a, |a|))
    {
    }

    static lemma {:induction false} ArrangedRest(now: seq<string>, a: seq<string>, first: int, optind: int, options: seq<string>, others: seq<string>)
      requires Arranged(now, a, first, optind, optind, options, others)
      ensures Arranged(now, a, first, |a|, |a|, options, others + a[optind..])
    {
      assert now[first..|a|] == now[first..optind] + now[optind..];
    }

    /** What holds when all arguments have been looked at. */
    ghost predicate Finished()
      requires |a| > 0
      reads this, argv
    {
      var s := Scan(optstring, a, 1);
      && argv[..] == [a[0]] + s.options + s.others && optind == 1 + |s.options| && done == s
    }

    /** Goes to the next option element; at the end the arguments are the options with
        their arguments in front of the others, each in the order they were given in, and
        `optind` is the first of the others. */
    method Advance() returns (atEnd: bool)
      requires Valid() && nextchar == "" && |a| > 0
      modifies this, argv
      ensures done.events == old(done.events)
      ensures !atEnd ==> Valid() && nextchar == "" && old(optind) <= optind < |a| && lastNonopt == optind
      ensures !atEnd ==> !IsNonoption(a[optind]) && a[optind] != "--"
      ensures atEnd ==> Finished()
    {
      hide Arranged, Scan, Join;
      Settle();
      SkipOthers();
      ArrangedBounds(argv[..], a, firstNonopt, lastNonopt, optind, done.options, done.others);
      if optind != argv.Length && argv[optind] == "--" {
        AtDelimiter();
      }
      atEnd := optind == argv.Length;
      if atEnd {
        NothingLeft(optstring, a, done);
        ArrangedEnd(argv[..], a, firstNonopt, done.options, done.others);
        if firstNonopt != lastNonopt {
          optind := firstNonopt;
        }
      }
    }

    static lemma {:induction false} NothingLeft(optstring: string, a: seq<string>, done: Scanned)
      ensures Join(done, Scan(optstring, a, |a|)) == done
    {
    }
  
    /** The event of the character at hand and where it leads: the next character, or, with
        nothing left of the element, the next element. */
    static function OneEvent(optstring: string, a: seq<string>, i: nat, j: nat): (r: (Event, nat))
      requires i < |a| && j < |a[i]|
      ensures i <= r.1 <= |a| && (r.1 == i ==> j + 1 < |a[i]|)
    {
      var c, rest := a[i][j], a[i][j + 1..];
      match KindOf(optstring, c)
      case Unknown => (Invalid(c), if rest == "" then i + 1 else i)
      case Flag => (Option(c, NoArgument), if rest == "" then i + 1 else i)
      case Optional => (Option(c, if rest == "" then NoArgument else Text(rest)), i + 1)
      case Required =>
        if rest != "" then (Option(c, Text(rest)), i + 1)
        else if i + 1 == |a| then (Missing(c), i + 1)
        else (Option(c, Text(a[i + 1])), i + 2)
    }

    static lemma {:induction false} OneStep(optstring: string, a: seq<string>, i: nat, j: nat, done: Scanned)
      requires i < |a| && j < |a[i]|
      ensures var (e, next) := OneEvent(optstring, a, i, j);
              if next == i then
                Join(done, ScanFrom(optstring, a, i, j)) == Join(done.(events := done.events + [e]), ScanFrom(optstring, a, i, j + 1))
              else
                Join(done, ScanFrom(optstring, a, i, j))
                == Join(done.(options := done.options + a[i..next], events := done.events + [e]), Scan(optstring, a, next))
    {
      hide Scan, KindOf;
      var (e, next) := OneEvent(optstring, a, i, j);
      if next == i {
        assert ElementEvents(optstring, a, i, j) == Before(e, ElementEvents(optstring, a, i, j + 1));
        MoreEvents(done, e, ScanFrom(optstring, a, i, j), ScanFrom(optstring, a, i, j + 1));
      } else {
        assert ElementEvents(optstring, a, i, j) == ([e], next);
        JoinTwice(done, Scanned(a[i..next], [], [e]), Scan(optstring, a, next));
        assert Join(done, Scanned(a[i..next], [], [e])) == done.(options := done.options + a[i..next], events := done.events + [e]);
      }
    }

    static lemma {:induction false} MoreEvents(done: Scanned, e: Event, s: Scanned, t: Scanned)
      requires s == t.(events := [e] + t.events)
      ensures Join(done, s) == Join(done.(events := done.events + [e]), t)
    {
      assert done.events + ([e] + t.events) == (done.events + [e]) + t.events;
    }

    /** One call: the next event, or nothing at the end. */
    method Next() returns (event: seq<Event>)
      requires Valid() && |a| > 0
      modifies this, argv
      ensures |event| <= 1 && done.events == old(done.events) + event
      ensures event != [] ==> Valid()
      ensures event != [] ==> optind > old(optind) || (optind == old(optind) && Left(a, optind, nextchar) < Left(a, old(optind), old(nextchar)))
      ensures event == [] ==> Finished()
    {
      hide Arranged, Scan, Join, ScanFrom, KindOf;
      if nextchar == "" {
        var atEnd := Advance();
        if atEnd {
          return [];
        }
        ArrangedBounds(argv[..], a, firstNonopt, lastNonopt, optind, done.options, done.others);
        NewElement(optstring, a, optind);
        nextchar := argv[optind][1..];
      }
      var e := OneCharacter();
      event := [e];
    }

    /** How much of the current element is left, counting an element not begun as whole. */
    static ghost function Left(a: seq<string>, i: nat, nextchar: string): int {
      if nextchar != "" then |nextchar| else if i < |a| then |a[i]| else 0
    }

    static lemma {:induction false} NewElement(optstring: string, a: seq<string>, i: nat)
      requires i < |a| && !IsNonoption(a[i]) && a[i] != "--"
      ensures Scan(optstring, a, i) == ScanFrom(optstring, a, i, 1)
    {
    }

    /** Handles one option character. */
    method OneCharacter() returns (event: Event)
      requires Valid() && nextchar != ""
      modifies this`optind, this`nextchar, this`done
      ensures Valid() && done.events == old(done.events) + [event]
      ensures optind > old(optind) || (optind == old(optind) && 0 < |nextchar| < |old(nextchar)|)
    {
      hide Arranged, Scan, Join, ScanFrom, KindOf;
      ghost var i, j := optind, |a[optind]| - |nextchar|;
      OneStep(optstring, a, i, j, done);
      ghost var (e, next) := OneEvent(optstring, a, i, j);
      ArrangedBounds(argv[..], a, firstNonopt, lastNonopt, i, done.options, done.others);
      ArrangedOption(argv[..], a, firstNonopt, lastNonopt, i, next, done.options, done.others);
      var c := nextchar[0];
      nextchar := nextchar[1..];
      assert c == a[i][j] && nextchar == a[i][j + 1..];
      var kind := KindOf(optstring, c);
      if nextchar == "" {
        optind := optind + 1;
      }
      match kind {
        case Unknown =>
          event := Invalid(c);
        case Flag =>
          event := Option(c, NoArgument);
        case Optional =>
          if nextchar != "" {
            event := Option(c, Text(nextchar));
            optind := optind + 1;
          } else {
            event := Option(c, NoArgument);
          }
          nextchar := "";
        case Required =>
          if nextchar != "" {
            event := Option(c, Text(nextchar));
            optind := optind + 1;
          } else if optind == argv.Length {
            event := Missing(c);
          } else {
            assert argv[optind] == argv[..][i..][1] == a[i..][1];
            event := Option(c, Text(argv[optind]));
            optind := optind + 1;
          }
          nextchar := "";
      }
      done := if next == i then done.(events := done.events + [e])
              else done.(options := done.options + a[i..next], events := done.events + [e]);
    }
  }

  /** A complete run. */
  method ScanArguments(argv: array<string>, optstring: string) returns (events: seq<Event>, optind: nat)
    requires argv.Length > 0 && Permutes(optstring)
    modifies argv
    ensures var s := Scan(optstring, old(argv[..]), 1);
            argv[..] == [old(argv[0])] + s.options + s.others && optind == 1 + |s.options| && events == s.events
  {
    hide Scan, Join, Arranged;
    var getopt := new Getopt(argv, optstring);
    events := [];
    ghost var a := argv[..];
    Getopt.ArrangedBounds(argv[..], a, getopt.firstNonopt, getopt.lastNonopt, getopt.optind, [], []);
    while true
      invariant getopt.argv == argv && getopt.optstring == optstring && getopt.a == a && |a| > 0
      invariant getopt.Valid() && events == getopt.done.events && getopt.optind <= |a|
      decreases |a| - getopt.optind, Getopt.Left(a, getopt.optind, getopt.nextchar)
    {
      var event := getopt.Next();
      if event == [] {
        break;
      }
      events := events + event;
      Getopt.ArrangedBounds(argv[..], a, getopt.firstNonopt, getopt.lastNonopt, getopt.optind, getopt.done.options, getopt.done.others);
    }
    optind := getopt.optind;
  }
}
