/** Parsing the text of a query. */
module QueryParser {
  import opened QueryTerms

  const NUL := '\0'
  const MAX_LENGTH := 256        // with the terminating character

  /** A term and where the text goes on, no term, or a read or write through a pointer that
      does not point to anything. */
  datatype Result = Parsed(term: Term, pos: nat) | Null(pos: nat) | Crash

  predicate InText(s: string, i: nat, r: Result) {
    r.Crash? || i <= r.pos <= |s|
  }

  function Ch(s: string, i: nat): char {
    if i < |s| then s[i] else NUL
  }

  function SkipWhitespace(s: string, i: nat): (r: nat)
    requires i <= |s|
    ensures i <= r <= |s|
    decreases |s| - i
  {
    if i < |s| && (s[i] == ' ' || s[i] == '\t') then SkipWhitespace(s, i + 1) else i
  }

  /** The end of a string without the whitespace behind it. */
  function TrimEnd(s: string, start: nat, end: nat): (r: nat)
    requires start <= end <= |s|
    ensures start <= r <= end
  {
    if end > start + 1 && (s[end - 1] == ' ' || s[end - 1] == '\t') then TrimEnd(s, start, end - 1) else end
  }

  // ---------- patterns ----------

  predicate IsPattern(s: string) {
    exists i :: 0 <= i < |s| && s[i] in {'*', '?', '['}
  }

  predicate ValidPattern(p: string, i: nat)
    requires i <= |p|
    decreases |p| - i, 0
  {
    if i == |p| then true
    else if p[i] == '\\' then i + 1 < |p| && ValidPattern(p, i + 2)
    else if p[i] == '[' then Ch(p, i + 1) != ']' && i + 1 < |p| && ValidSet(p, i + 1)
    else ValidPattern(p, i + 1)
  }

  /** Inside square brackets. */
  predicate ValidSet(p: string, j: nat)
    requires j <= |p|
    decreases |p| - j, 1
  {
    if Ch(p, j) == ']' then ValidPattern(p, j)
    else
      var k := if Ch(p, j) == '\\' then j + 1 else j;
      k < |p| && !(p[k] == '-' && Ch(p, k + 1) == '-') && ValidSet(p, k + 1)
  }

  // ---------- equations ----------

  /** The end of a quoted string: the closing quote, nothing if there is none, and beyond
      the text if the last character is a backslash. */
  datatype Quoted = Closed(end: nat) | Open | Overrun

  function QuotedEnd(s: string, quote: char, i: nat): (r: Quoted)
    requires i <= |s|
    ensures r.Closed? ==> i <= r.end < |s| && s[r.end] == quote
    decreases |s| - i
  {
    if i == |s| then Open
    else if s[i] == quote then Closed(i)
    else if s[i] != '\\' then QuotedEnd(s, quote, i + 1)
    else if i + 1 == |s| then Overrun
    else QuotedEnd(s, quote, i + 2)
  }

  predicate IsQuote(c: char) {
    c == '"' || c == '\''
  }

  function FindSymbol(s: string, i: nat): (r: nat)
    requires i <= |s|
    ensures i <= r <= |s|
    decreases |s| - i
  {
    if i < |s| && s[i] !in {'=', '<', '>', '!', '&', '|'} then FindSymbol(s, i + 1) else i
  }

  function FindEnd(s: string, i: nat): (r: nat)
    requires i <= |s|
    ensures i <= r <= |s|
    decreases |s| - i
  {
    if i < |s| && s[i] !in {'&', '|', ')'} then FindEnd(s, i + 1) else i
  }

  /** The comparison at a position, if there is one. */
  datatype Symbol = Sign(op: Comparison, length: nat) | NotEqualSign | NoSign

  function SymbolAt(s: string, i: nat): Symbol
    requires i <= |s|
  {
    var more := if Ch(s, i + 1) == '=' then 2 else 1;
    match Ch(s, i)
    case '=' => Sign(Equal, more)
    case '>' => Sign(if more == 2 then GreaterThanOrEqual else GreaterThan, more)
    case '<' => Sign(if more == 2 then LessThanOrEqual else LessThan, more)
    case '!' => if more == 2 then Sign(Unequal, 2) else NotEqualSign
    case _ => NoSign
  }

  predicate Copyable(s: string) {
    |s| + 1 <= MAX_LENGTH
  }

  /** The value of an equation whose attribute and symbol have been read. */
  function ValueAt(s: string, begin: nat, attribute: string, op: Comparison, i: nat): (r: Result)
    requires begin <= i <= |s|
    ensures InText(s, begin, r)
  {
    if IsQuote(Ch(s, i)) then
      match QuotedEnd(s, s[i], i + 1)
      case Open => Null(begin)
      case Overrun => Crash
      case Closed(end) => Finish(s, begin, attribute, op, s[i + 1..end], SkipWhitespace(s, end + 1))
    else
      var end := FindEnd(s, i);
      Finish(s, begin, attribute, op, s[i..TrimEnd(s, i, end)], end)
  }

  function Finish(s: string, begin: nat, attribute: string, op: Comparison, value: string, pos: nat): (r: Result)
    requires begin <= pos <= |s|
    ensures InText(s, begin, r)
  {
    if !Copyable(value) then Null(begin)
    else if (op == Equal || op == Unequal) && IsPattern(value) && !ValidPattern(value, 0) then Null(pos)
    else Parsed(Equation(attribute, op, value), pos)
  }

  /** The rest of an equation behind its attribute. */
  function AfterAttribute(s: string, begin: nat, attribute: string, i: nat): (r: Result)
    requires begin <= i <= |s|
    ensures InText(s, begin, r)
  {
    if attribute == "" then Null(begin)
    else
      match SymbolAt(s, i)
      case NoSign => Null(i)
      case NotEqualSign => Null(begin)
      case Sign(op, n) =>
        if !Copyable(attribute) || i + n > |s| then Null(begin)
        else ValueAt(s, begin, attribute, op, SkipWhitespace(s, i + n))
  }

  /** The constructor of an equation. */
  function EquationAt(s: string, i: nat): (r: Result)
    requires i <= |s|
    ensures InText(s, i, r)
  {
    if IsQuote(Ch(s, i)) then
      match QuotedEnd(s, s[i], i + 1)
      case Open => Null(i)
      case Overrun => Crash
      case Closed(end) =>
        var j := SkipWhitespace(s, end + 1);
        if Ch(s, j) !in {'=', '<', '>', '!'} then Null(j)
        else AfterAttribute(s, i, s[i + 1..end], j)
    else
      var j := FindSymbol(s, i);
      AfterAttribute(s, i, s[i..TrimEnd(s, i, j)], j)
  }

  // ---------- terms ----------

  predicate IsOperator(s: string, i: nat, c: char) {
    Ch(s, i) == c && Ch(s, i + 1) == c && i + 2 <= |s|
  }

  function ParseOr(s: string, i: nat): (r: Result)
    requires i <= |s|
    ensures InText(s, i, r)
    decreases |s| - i, 4
  {
    var left := ParseAnd(s, i);
    if left.Parsed? then OrMore(s, i, left.term, left.pos) else left
  }

  /** The loop over || behind a first term. */
  function OrMore(s: string, begin: nat, left: Term, i: nat): (r: Result)
    requires begin <= i <= |s|
    ensures InText(s, begin, r)
    decreases |s| - i, 3
  {
    if !IsOperator(s, i, '|') then Parsed(left, i)
    else
      var right := ParseAnd(s, i + 2);
      if right.Parsed? then OrMore(s, begin, Operator(false, left, right.term), right.pos) else right
  }

  function ParseAnd(s: string, i: nat): (r: Result)
    requires i <= |s|
    ensures InText(s, i, r)
    decreases |s| - i, 3
  {
    var left := ParseEquation(s, i);
    if left.Parsed? then AndMore(s, i, left.term, left.pos) else left
  }

  /** The loop over && behind a first term. */
  function AndMore(s: string, begin: nat, left: Term, i: nat): (r: Result)
    requires begin <= i <= |s|
    ensures InText(s, begin, r)
    decreases |s| - i, 2
  {
    if !IsOperator(s, i, '&') then Parsed(left, i)
    else
      var right := ParseAnd(s, i + 2);
      if right.Parsed? then AndMore(s, begin, Operator(true, left, right.term), right.pos) else right
  }

  /** An equation, or a term in brackets with or without a negation in front. */
  function ParseEquation(s: string, i: nat): (r: Result)
    requires i <= |s|
    ensures InText(s, i, r)
    decreases |s| - i, 2
  {
    var j := SkipWhitespace(s, i);
    var negated := j < |s| && s[j] == '!';
    var k := if negated then SkipWhitespace(s, j + 1) else j;
    if negated && Ch(s, k) != '(' then Null(k)
    else if k < |s| && s[k] == ')' then Null(k)
    else if k < |s| && s[k] == '(' then Bracketed(s, i, SkipWhitespace(s, k + 1), negated)
    else EquationAt(s, k)
  }

  /** What is in brackets.  The complement is taken even if there is no term. */
  function Bracketed(s: string, begin: nat, i: nat, negated: bool): (r: Result)
    requires begin < i <= |s|
    ensures InText(s, begin, r)
    decreases |s| - i, 5
  {
    var inner := ParseOr(s, i);
    if inner.Crash? then Crash
    else
      var j := SkipWhitespace(s, inner.pos);
      if j == |s| || s[j] != ')' then Null(j)
      else if inner.Null? && negated then Crash
      else
        var pos := SkipWhitespace(s, j + 1);
        if inner.Null? then Null(pos)
        else Parsed(if negated then Complement(inner.term) else inner.term, pos)
  }

  /** The three parsing methods of an expression, with their loops. */
  method OrTerm(s: string, i: nat) returns (r: Result)
    requires i <= |s|
    ensures r == ParseOr(s, i)
    decreases |s| - i, 4
  {
    r := AndTerm(s, i);
    if !r.Parsed? {
      return;
    }
    while IsOperator(s, r.pos, '|')
      invariant r.Parsed? && i <= r.pos <= |s| && ParseOr(s, i) == OrMore(s, i, r.term, r.pos)
      decreases |s| - r.pos
    {
      var right := AndTerm(s, r.pos + 2);
      if !right.Parsed? {
        return right;
      }
      r := Parsed(Operator(false, r.term, right.term), right.pos);
    }
  }

  method AndTerm(s: string, i: nat) returns (r: Result)
    requires i <= |s|
    ensures r == ParseAnd(s, i)
    decreases |s| - i, 3
  {
    r := EquationTerm(s, i);
    if !r.Parsed? {
      return;
    }
    while IsOperator(s, r.pos, '&')
      invariant r.Parsed? && i <= r.pos <= |s| && ParseAnd(s, i) == AndMore(s, i, r.term, r.pos)
      decreases |s| - r.pos
    {
      var right := AndTerm(s, r.pos + 2);
      if !right.Parsed? {
        return right;
      }
      r := Parsed(Operator(true, r.term, right.term), right.pos);
    }
  }

  method EquationTerm(s: string, i: nat) returns (r: Result)
    requires i <= |s|
    ensures r == ParseEquation(s, i)
    decreases |s| - i, 2
  {
    hide ParseOr, EquationAt, Complement;
    var pos := SkipWhitespace(s, i);
    var negated := false;
    if pos < |s| && s[pos] == '!' {
      pos := SkipWhitespace(s, pos + 1);
      if Ch(s, pos) != '(' {
        return Null(pos);
      }
      negated := true;
    }
    if pos == |s| || (s[pos] != ')' && s[pos] != '(') {
      return EquationAt(s, pos);
    } else if s[pos] == ')' {
      return Null(pos);
    }
    r := OrTerm(s, SkipWhitespace(s, pos + 1));
    if r.Crash? {
      return;
    }
    pos := SkipWhitespace(s, r.pos);
    if pos == |s| || s[pos] != ')' {
      return Null(pos);
    }
    if negated {
      if r.Null? {
        return Crash;
      }
      r := Parsed(Complement(r.term), r.pos);
    }
    pos := SkipWhitespace(s, pos + 1);
    r := if r.Null? then Null(pos) else Parsed(r.term, pos);
  }

  // ---------- the text of a term ----------

  function SignText(op: Comparison): string {
    match op
    case Equal => "=="
    case Unequal => "!="
    case GreaterThan => ">"
    case LessThan => "<"
    case GreaterThanOrEqual => ">="
    case LessThanOrEqual => "<="
  }

  /** Every term in brackets, every string in quotes. */
  function Text(t: Term): string {
    match t
    case Equation(a, op, v) => "\"" + ((a + "\"") + (" " + ((SignText(op) + " ") + ("\"" + (v + "\"")))))
    case Operator(isAnd, l, r) => "( " + (Text(l) + ((if isAnd then " && " else " || ") + (Text(r) + " )")))
  }

  predicate Plain(s: string) {
    forall i :: 0 <= i < |s| ==> s[i] !in {'"', '\\', NUL}
  }

  /** What the constructor of an equation accepts. */
  predicate Storable(t: Term)
    requires t.Equation?
  {
    && t.attribute != "" && Copyable(t.attribute) && Copyable(t.value)
    && (t.op == Equal || t.op == Unequal ==> IsPattern(t.value) ==> ValidPattern(t.value, 0))
  }

  predicate Printable(t: Term) {
    match t
    case Equation(a, _, v) => Storable(t) && Plain(a) && Plain(v)
    case Operator(_, l, r) => Printable(l) && Printable(r)
  }

  /** `text` stands at position `i`. */
  predicate StandsAt(s: string, i: nat, text: string) {
    i + |text| <= |s| && s[i..i + |text|] == text
  }

  lemma {:induction false} QuotedPlain(s: string, i: nat, text: string)
    requires StandsAt(s, i, text + "\"") && Plain(text)
    ensures QuotedEnd(s, '"', i) == Closed(i + |text|)
    decreases |text|
  {
    assert s[i] == (text + "\"")[0];
    if text != "" {
      assert text[0] == s[i];
      assert (text + "\"")[1..] == text[1..] + "\"";
      assert s[i + 1..i + 1 + |text[1..] + "\""|] == s[i..i + |text + "\""|][1..];
      QuotedPlain(s, i + 1, text[1..]);
    }
  }

  lemma {:induction false} TwoParts(s: string, i: nat, a: string, b: string)
    ensures StandsAt(s, i, a + b) <==> StandsAt(s, i, a) && StandsAt(s, i + |a|, b)
  {
    if StandsAt(s, i, a + b) {
      assert s[i..i + |a|] == s[i..i + |a + b|][..|a|] == a;
      assert s[i + |a|..i + |a| + |b|] == s[i..i + |a + b|][|a|..] == b;
    }
    if StandsAt(s, i, a) && StandsAt(s, i + |a|, b) {
      assert s[i..i + |a| + |b|] == s[i..i + |a|] + s[i + |a|..i + |a| + |b|];
    }
  }

  lemma {:induction false} OneSpace(s: string, i: nat)
    requires i + 1 < |s| && s[i] == ' ' && s[i + 1] != ' ' && s[i + 1] != '\t'
    ensures SkipWhitespace(s, i) == i + 1
  {
    assert SkipWhitespace(s, i + 1) == i + 1;
  }

  /** The sign of a comparison between two spaces. */
  lemma {:induction false} SignParses(s: string, i: nat, op: Comparison)
    requires StandsAt(s, i, SignText(op) + " ")
    ensures SymbolAt(s, i) == Sign(op, |SignText(op)|)
  {
    var text := SignText(op) + " ";
    assert s[i] == text[0] && s[i + 1] == text[1];
  }

  lemma {:induction false} ValueParses(s: string, begin: nat, a: string, op: Comparison, i: nat, v: string)
    requires begin <= i && StandsAt(s, i, "\"" + (v + "\"")) && Plain(v) && Printable(Equation(a, op, v))
    ensures ValueAt(s, begin, a, op, i) == Parsed(Equation(a, op, v), SkipWhitespace(s, i + 2 + |v|))
  {
    TwoParts(s, i, "\"", v + "\"");
    TwoParts(s, i + 1, v, "\"");
    assert s[i] == s[i..i + 1][0] == '"';
    QuotedPlain(s, i + 1, v);
  }

  lemma {:induction false} FirstChar(s: string, i: nat, text: string)
    requires StandsAt(s, i, text) && text != ""
    ensures i < |s| && s[i] == text[0]
  {
  }

  /** Where the parts of an equation stand; `e` is the quote behind the attribute. */
  lemma {:induction false} EquationLayout(s: string, i: nat, a: string, op: Comparison, v: string)
    requires StandsAt(s, i, Text(Equation(a, op, v)))
    ensures var e, n := i + 1 + |a|, |SignText(op)|;
            && s[i] == '"' && StandsAt(s, i + 1, a + "\"") && StandsAt(s, i + 1, a)
            && e + 2 < |s| && s[e + 1] == ' ' && s[e + 2] == SignText(op)[0]
            && StandsAt(s, e + 2, SignText(op) + " ")
            && e + 3 + n < |s| && s[e + 2 + n] == ' ' && s[e + 3 + n] == '"'
            && StandsAt(s, e + 3 + n, "\"" + (v + "\"")) && |Text(Equation(a, op, v))| == 6 + |a| + n + |v|
  {
    hide StandsAt;
    var e, sign, rest := i + 1 + |a|, SignText(op), "\"" + (v + "\"");
    TwoParts(s, i, "\"", (a + "\"") + (" " + ((sign + " ") + rest)));
    FirstChar(s, i, "\"");
    TwoParts(s, i + 1, a + "\"", " " + ((sign + " ") + rest));
    TwoParts(s, i + 1, a, "\"");
    TwoParts(s, e + 1, " ", (sign + " ") + rest);
    FirstChar(s, e + 1, " ");
    TwoParts(s, e + 2, sign + " ", rest);
    FirstChar(s, e + 2, sign + " ");
    TwoParts(s, e + 2, sign, " ");
    FirstChar(s, e + 2 + |sign|, " ");
    FirstChar(s, e + 3 + |sign|, rest);
  }

  lemma {:induction false} StandingIs(s: string, i: nat, text: string)
    requires StandsAt(s, i, text)
    ensures i + |text| <= |s| && s[i..i + |text|] == text
  {
  }

  lemma {:induction false} EquationParses(s: string, i: nat, t: Term)
    requires t.Equation? && Printable(t) && StandsAt(s, i, Text(t))
    ensures i < |s| && EquationAt(s, i) == Parsed(t, SkipWhitespace(s, i + |Text(t)|)) && s[i] == '"'
  {
    hide QuotedEnd, SkipWhitespace, ValueAt, SymbolAt, Plain, ValidPattern, IsPattern, Text, StandsAt;
    var a, n, v := t.attribute, |SignText(t.op)|, t.value;
    EquationLayout(s, i, a, t.op, v);
    var e := i + 1 + |a|;
    QuotedPlain(s, i + 1, a);
    assert s[i + 1..e] == a by {
      StandingIs(s, i + 1, a);
    }
    OneSpace(s, e + 1);
    SignParses(s, e + 2, t.op);
    OneSpace(s, e + 2 + n);
    ValueParses(s, i, a, t.op, e + 3 + n, v);
  }

  function Sign2(isAnd: bool): char {
    if isAnd then '&' else '|'
  }

  /** Where the parts of a term in brackets stand. */
  lemma {:induction false} BracketLayout(s: string, i: nat, isAnd: bool, l: Term, r: Term)
    requires StandsAt(s, i, Text(Operator(isAnd, l, r)))
    ensures var j := i + 2 + |Text(l)|; var k := j + 4 + |Text(r)|;
            && |Text(Operator(isAnd, l, r))| == k + 2 - i && k + 2 <= |s|
            && s[i] == '(' && s[i + 1] == ' ' && StandsAt(s, i + 2, Text(l))
            && s[j] == ' ' && s[j + 1] == Sign2(isAnd) && s[j + 2] == Sign2(isAnd) && s[j + 3] == ' '
            && StandsAt(s, j + 4, Text(r)) && s[k] == ' ' && s[k + 1] == ')'
  {
    hide StandsAt;
    var op := if isAnd then " && " else " || ";
    var j := i + 2 + |Text(l)|;
    TwoParts(s, i, "( ", Text(l) + (op + (Text(r) + " )")));
    FourChars(s, i, "( ");
    TwoParts(s, i + 2, Text(l), op + (Text(r) + " )"));
    TwoParts(s, j, op, Text(r) + " )");
    FourChars(s, j, op);
    TwoParts(s, j + 4, Text(r), " )");
    FourChars(s, j + 4 + |Text(r)|, " )");
  }

  lemma {:induction false} FourChars(s: string, i: nat, text: string)
    requires StandsAt(s, i, text)
    ensures i + |text| <= |s|
    ensures forall m :: 0 <= m < |text| ==> s[i + m] == text[m]
    ensures |text| >= 2 ==> s[i] == text[0] && s[i + 1] == text[1]
    ensures |text| >= 4 ==> s[i + 2] == text[2] && s[i + 3] == text[3]
  {
  }

  lemma {:induction false} SpaceBefore(s: string, i: nat)
    requires i + 1 <= |s| && s[i] == ' '
    ensures ParseEquation(s, i) == ParseEquation(s, i + 1)
  {
    hide SkipWhitespace, ParseOr, EquationAt;
    assert SkipWhitespace(s, i) == SkipWhitespace(s, i + 1) by {
      SkipsOne(s, i);
    }
  }

  lemma {:induction false} SkipsOne(s: string, i: nat)
    requires i < |s| && s[i] == ' '
    ensures SkipWhitespace(s, i) == SkipWhitespace(s, i + 1)
  {
  }

  lemma {:induction false} NoSpace(s: string, i: nat)
    requires i < |s| && s[i] != ' ' && s[i] != '\t'
    ensures SkipWhitespace(s, i) == i
  {
  }

  predicate BeginsTerm(s: string, i: nat) {
    i < |s| && (s[i] == '"' || s[i] == '(')
  }

  /** Two terms with an operator between them, up to the closing bracket. */
  lemma {:induction false} BothParse(s: string, i: nat, j: nat, k: nat, isAnd: bool, l: Term, r: Term)
    requires i <= j && j + 4 <= k && k + 2 <= |s|
    requires ParseEquation(s, i) == Parsed(l, j + 1) && ParseEquation(s, j + 4) == Parsed(r, k + 1)
    requires s[j + 1] == Sign2(isAnd) && s[j + 2] == Sign2(isAnd) && s[j + 3] == ' ' && s[k + 1] == ')'
    ensures ParseOr(s, i) == Parsed(Operator(isAnd, l, r), k + 1)
  {
    hide ParseEquation;
    SpaceBefore(s, j + 3);
    assert AndMore(s, j + 3, r, k + 1) == Parsed(r, k + 1);
    assert ParseAnd(s, j + 3) == Parsed(r, k + 1);
    var t := Operator(isAnd, l, r);
    assert AndMore(s, i, t, k + 1) == Parsed(t, k + 1);
    assert OrMore(s, i, t, k + 1) == Parsed(t, k + 1);
    if isAnd {
      assert AndMore(s, i, l, j + 1) == Parsed(t, k + 1);
    } else {
      assert AndMore(s, i, l, j + 1) == Parsed(l, j + 1);
      assert ParseAnd(s, i) == Parsed(l, j + 1);
      assert OrMore(s, i, l, j + 1) == Parsed(t, k + 1);
    }
  }

  lemma {:induction false} TermParses(s: string, i: nat, t: Term)
    requires Printable(t) && StandsAt(s, i, Text(t))
    ensures BeginsTerm(s, i) && i + |Text(t)| <= |s|
    ensures ParseEquation(s, i) == Parsed(t, SkipWhitespace(s, i + |Text(t)|))
    decreases t
  {
    hide SkipWhitespace, ParseOr, EquationAt, Text, StandsAt, ParseEquation;
    if t.Equation? {
      EquationParses(s, i, t);
      TextInside(s, i, Text(t));
      NoBracket(s, i);
    } else {
      BracketLayout(s, i, t.isAnd, t.left, t.right);
      var j := i + 2 + |Text(t.left)|;
      var k := j + 4 + |Text(t.right)|;
      TermParses(s, i + 2, t.left);
      TermParses(s, j + 4, t.right);
      OneSpace(s, j);
      OneSpace(s, k);
      BothParse(s, i + 2, j, k, t.isAnd, t.left, t.right);
      BracketsParse(s, i, k, t);
    }
  }

  lemma {:induction false} TextInside(s: string, i: nat, text: string)
    requires StandsAt(s, i, text)
    ensures i + |text| <= |s|
  {
  }

  lemma {:induction false} NoBracket(s: string, i: nat)
    requires i < |s| && s[i] == '"'
    ensures ParseEquation(s, i) == EquationAt(s, i)
  {
    hide EquationAt;
  }

  lemma {:induction false} BracketsParse(s: string, i: nat, k: nat, t: Term)
    requires i + 2 <= k && k + 2 <= |s| && s[i] == '(' && s[i + 1] == ' ' && BeginsTerm(s, i + 2) && s[k + 1] == ')'
    requires ParseOr(s, i + 2) == Parsed(t, k + 1)
    ensures ParseEquation(s, i) == Parsed(t, SkipWhitespace(s, k + 2))
  {
    hide SkipWhitespace, ParseOr;
    NoSpace(s, i);
    OneSpace(s, i + 1);
    NoSpace(s, k + 1);
    assert Bracketed(s, i, i + 2, false) == Parsed(t, SkipWhitespace(s, k + 2));
  }

  /** Parsing the text of a term gives the term back. */
  lemma {:induction false} RoundTrip(t: Term)
    requires Printable(t)
    ensures ParseOr(Text(t), 0) == Parsed(t, |Text(t)|)
  {
    hide SkipWhitespace, ParseEquation, Text, ParseOr;
    var s := Text(t);
    assert s[0..|s|] == s;
    TermParses(s, 0, t);
    AtEnd(s);
    WholeText(s, t);
  }

  lemma {:induction false} AtEnd(s: string)
    ensures SkipWhitespace(s, |s|) == |s|
  {
  }

  /** A negation in front of a bracket gives the complement. */
  lemma {:induction false} NegationParses(t: Term)
    requires Printable(t) && t.Operator?
    ensures ParseOr("!" + Text(t), 0) == Parsed(Complement(t), 1 + |Text(t)|)
  {
    hide SkipWhitespace, ParseOr, Text, Complement;
    var s := "!" + Text(t);
    assert s[1..1 + |Text(t)|] == Text(t);
    BracketLayout(s, 1, t.isAnd, t.left, t.right);
    TermParses(s, 1, t);
    NoSpace(s, 0);
    NoSpace(s, 1);
    AtEnd(s);
    NegatedBracket(s, t);
  }

  lemma {:induction false} NegatedBracket(s: string, t: Term)
    requires |s| >= 2 && s[0] == '!' && s[1] == '(' && SkipWhitespace(s, 0) == 0 && SkipWhitespace(s, 1) == 1
    requires ParseEquation(s, 1) == Parsed(t, |s|)
    ensures ParseOr(s, 0) == Parsed(Complement(t), |s|)
  {
    hide SkipWhitespace, Complement, ParseOr;
    assert Bracketed(s, 1, SkipWhitespace(s, 2), false) == Parsed(t, |s|);
    assert Bracketed(s, 0, SkipWhitespace(s, 2), true) == Parsed(Complement(t), |s|);
    assert ParseEquation(s, 0) == Parsed(Complement(t), |s|);
    WholeText(s, Complement(t));
  }

  lemma {:induction false} WholeText(s: string, t: Term)
    requires ParseEquation(s, 0) == Parsed(t, |s|)
    ensures ParseOr(s, 0) == Parsed(t, |s|)
  {
    hide ParseEquation;
    assert AndMore(s, 0, t, |s|) == Parsed(t, |s|);
    assert ParseAnd(s, 0) == Parsed(t, |s|);
    assert OrMore(s, 0, t, |s|) == Parsed(t, |s|);
  }
}
