/** When parsing a query goes through a pointer it should not: exactly if it comes to the
negation of a bracket without a term, or to a quoted string that ends in a lone backslash. */
module QueryCrash {
  import opened QueryTerms
  import opened QueryParser

  // ---------- the two causes ----------

  /** The number of backslashes at the end, from `i` on. */
  function Backslashes(s: string, i: nat): (n: nat)
    requires i <= |s|
    ensures n <= |s| - i
    decreases |s|
  {
    if i == |s| || s[|s| - 1] != '\\' then 0 else 1 + Backslashes(s[..|s| - 1], i)
  }

  lemma {:induction false} BackslashesBefore(s: string, i: nat)
    requires i < |s|
    ensures var n := Backslashes(s, i + 1);
            Backslashes(s, i) == if n == |s| - i - 1 && s[i] == '\\' then n + 1 else n
    decreases |s|
  {
    if i + 1 < |s| && s[|s| - 1] == '\\' {
      BackslashesBefore(s[..|s| - 1], i);
    } else if i + 1 == |s| {
      assert Backslashes(s[..i], i) == 0;
    }
  }

  /** A string is read beyond the end of the text exactly if no quote closes it and the
      backslashes at the end are not in pairs. */
  lemma {:induction false} OverrunExactly(s: string, quote: char, i: nat)
    requires i <= |s| && quote != '\\'
    ensures QuotedEnd(s, quote, i) == Overrun <==> !QuotedEnd(s, quote, i).Closed? && Backslashes(s, i) % 2 == 1
    decreases |s| - i
  {
    if i < |s| && s[i] != quote {
      BackslashesBefore(s, i);
      if s[i] != '\\' {
        OverrunExactly(s, quote, i + 1);
      } else if i + 1 < |s| {
        BackslashesBefore(s, i + 1);
        OverrunExactly(s, quote, i + 2);
      }
    }
  }

  /** The value of an equation is such a string; its symbol stands at `i`. */
  predicate ValueOverruns(s: string, attribute: string, i: nat)
    requires i <= |s|
  {
    && attribute != "" && Copyable(attribute)
    && SymbolAt(s, i).Sign? && i + SymbolAt(s, i).length <= |s|
    && var j := SkipWhitespace(s, i + SymbolAt(s, i).length);
       IsQuote(Ch(s, j)) && QuotedEnd(s, s[j], j + 1) == Overrun
  }

  /** The attribute or the value of the equation at `i` is such a string. */
  predicate EquationOverruns(s: string, i: nat)
    requires i <= |s|
  {
    if IsQuote(Ch(s, i)) then
      var end := QuotedEnd(s, s[i], i + 1);
      || end == Overrun
      || (&& end.Closed?
          && var j := SkipWhitespace(s, end.end + 1);
             Ch(s, j) in {'=', '<', '>', '!'} && ValueOverruns(s, s[i + 1..end.end], j))
    else
      var j := FindSymbol(s, i);
      ValueOverruns(s, s[i..TrimEnd(s, i, j)], j)
  }

  /** Where the bracket opens, if the term at `i` is one in brackets. */
  function Opens(s: string, i: nat): (k: nat)
    requires i <= |s|
    ensures i <= k <= |s|
  {
    var j := SkipWhitespace(s, i);
    if Ch(s, j) == '!' && j < |s| then SkipWhitespace(s, j + 1) else j
  }

  predicate IsNegated(s: string, i: nat)
    requires i <= |s|
  {
    var j := SkipWhitespace(s, i);
    j < |s| && s[j] == '!'
  }

  predicate IsBracket(s: string, i: nat)
    requires i <= |s|
  {
    Opens(s, i) < |s| && s[Opens(s, i)] == '('
  }

  function Inside(s: string, i: nat): (k: nat)
    requires i <= |s| && IsBracket(s, i)
    ensures i < k <= |s|
  {
    SkipWhitespace(s, Opens(s, i) + 1)
  }

  /** A negated bracket that is closed and has no term in it. */
  predicate NegatesNothing(s: string, i: nat)
    requires i <= |s|
  {
    && IsNegated(s, i) && IsBracket(s, i)
    && var inner := ParseOr(s, Inside(s, i));
       inner.Null? && var j := SkipWhitespace(s, inner.pos); j < |s| && s[j] == ')'
  }

  /** A quoted string that is read beyond the end of the text. */
  predicate ReadsBeyond(s: string, i: nat)
    requires i <= |s|
  {
    var j := SkipWhitespace(s, i);
    Ch(s, j) !in {'!', '(', ')'} && EquationOverruns(s, j)
  }

  // ---------- where the parser comes to ----------

  /** The parser, started at `i`, comes to a term at `k`. */
  ghost predicate ComesOr(s: string, i: nat, k: nat)
    requires i <= |s|
    decreases |s| - i, 4
  {
    || ComesAnd(s, i, k)
    || (ParseAnd(s, i).Parsed? && ComesOrMore(s, ParseAnd(s, i).pos, k))
  }

  ghost predicate ComesOrMore(s: string, i: nat, k: nat)
    requires i <= |s|
    decreases |s| - i, 3
  {
    && IsOperator(s, i, '|')
    && (ComesAnd(s, i + 2, k) || (ParseAnd(s, i + 2).Parsed? && ComesOrMore(s, ParseAnd(s, i + 2).pos, k)))
  }

  ghost predicate ComesAnd(s: string, i: nat, k: nat)
    requires i <= |s|
    decreases |s| - i, 3
  {
    || ComesTerm(s, i, k)
    || (ParseEquation(s, i).Parsed? && ComesAndMore(s, ParseEquation(s, i).pos, k))
  }

  ghost predicate ComesAndMore(s: string, i: nat, k: nat)
    requires i <= |s|
    decreases |s| - i, 2
  {
    && IsOperator(s, i, '&')
    && (ComesAnd(s, i + 2, k) || (ParseAnd(s, i + 2).Parsed? && ComesAndMore(s, ParseAnd(s, i + 2).pos, k)))
  }

  ghost predicate ComesTerm(s: string, i: nat, k: nat)
    requires i <= |s|
    decreases |s| - i, 2
  {
    k == i || (IsBracket(s, i) && ComesOr(s, Inside(s, i), k))
  }

  /** The term at `k` makes the parser crash. */
  predicate Fatal(s: string, k: nat) {
    k <= |s| && (NegatesNothing(s, k) || ReadsBeyond(s, k))
  }

  // ---------- the proof ----------

  lemma {:induction false} ValueCrash(s: string, begin: nat, attribute: string, i: nat)
    requires begin <= i <= |s|
    ensures AfterAttribute(s, begin, attribute, i) == Crash <==> ValueOverruns(s, attribute, i)
  {
    hide QuotedEnd, SkipWhitespace, FindEnd, TrimEnd, IsPattern, ValidPattern, Copyable;
  }

  lemma {:induction false} EquationCrash(s: string, i: nat)
    requires i <= |s|
    ensures EquationAt(s, i) == Crash <==> EquationOverruns(s, i)
  {
    hide QuotedEnd, SkipWhitespace, FindSymbol, TrimEnd, AfterAttribute, ValueOverruns;
    if IsQuote(Ch(s, i)) {
      if QuotedEnd(s, s[i], i + 1).Closed? {
        var end := QuotedEnd(s, s[i], i + 1).end;
        ValueCrash(s, i, s[i + 1..end], SkipWhitespace(s, end + 1));
      }
    } else {
      var j := FindSymbol(s, i);
      ValueCrash(s, i, s[i..TrimEnd(s, i, j)], j);
    }
  }

  /** A single term crashes for its own sake or for what is in its brackets. */
  lemma {:induction false} TermCrash(s: string, i: nat)
    requires i <= |s|
    ensures ParseEquation(s, i) == Crash <==> Fatal(s, i) || (IsBracket(s, i) && ParseOr(s, Inside(s, i)) == Crash)
  {
    hide SkipWhitespace, ParseOr, EquationAt, EquationOverruns, Complement;
    var j := SkipWhitespace(s, i);
    if IsBracket(s, i) {
      assert Ch(s, Opens(s, i)) == '(';
    } else {
      EquationCrash(s, j);
    }
  }

  /** Some term the parser comes to is fatal. */
  ghost predicate FatalOr(s: string, i: nat)
    requires i <= |s|
  {
    exists k :: ComesOr(s, i, k) && Fatal(s, k)
  }

  ghost predicate FatalOrMore(s: string, i: nat)
    requires i <= |s|
  {
    exists k :: ComesOrMore(s, i, k) && Fatal(s, k)
  }

  ghost predicate FatalAnd(s: string, i: nat)
    requires i <= |s|
  {
    exists k :: ComesAnd(s, i, k) && Fatal(s, k)
  }

  ghost predicate FatalAndMore(s: string, i: nat)
    requires i <= |s|
  {
    exists k :: ComesAndMore(s, i, k) && Fatal(s, k)
  }

  ghost predicate FatalTerm(s: string, i: nat)
    requires i <= |s|
  {
    exists k :: ComesTerm(s, i, k) && Fatal(s, k)
  }

  /** The parser crashes exactly if it comes to a fatal term. */
  lemma {:induction false} CrashesExactly(s: string, i: nat)
    requires i <= |s|
    ensures ParseOr(s, i) == Crash <==> FatalOr(s, i)
    decreases |s| - i, 4
  {
    hide Fatal, ComesAnd, ComesOrMore;
    AndCrashes(s, i);
    var left := ParseAnd(s, i);
    if left.Parsed? {
      OrMoreCrashes(s, i, left.term, left.pos);
    }
    if FatalOr(s, i) {
      var k :| ComesOr(s, i, k) && Fatal(s, k);
      assert ComesAnd(s, i, k) || (left.Parsed? && ComesOrMore(s, left.pos, k));
    }
    if FatalAnd(s, i) {
      var k :| ComesAnd(s, i, k) && Fatal(s, k);
      assert ComesOr(s, i, k);
    }
    if left.Parsed? && FatalOrMore(s, left.pos) {
      var k :| ComesOrMore(s, left.pos, k) && Fatal(s, k);
      assert ComesOr(s, i, k);
    }
  }

  lemma {:induction false} OrMoreCrashes(s: string, begin: nat, left: Term, i: nat)
    requires begin <= i <= |s|
    ensures OrMore(s, begin, left, i) == Crash <==> FatalOrMore(s, i)
    decreases |s| - i, 3
  {
    hide Fatal, ComesAnd;
    if IsOperator(s, i, '|') {
      AndCrashes(s, i + 2);
      var right := ParseAnd(s, i + 2);
      if right.Parsed? {
        OrMoreCrashes(s, begin, Operator(false, left, right.term), right.pos);
      }
      if FatalAnd(s, i + 2) {
        var k :| ComesAnd(s, i + 2, k) && Fatal(s, k);
        assert ComesOrMore(s, i, k);
      }
      if right.Parsed? && FatalOrMore(s, right.pos) {
        var k :| ComesOrMore(s, right.pos, k) && Fatal(s, k);
        assert ComesOrMore(s, i, k);
      }
    }
  }

  lemma {:induction false} AndCrashes(s: string, i: nat)
    requires i <= |s|
    ensures ParseAnd(s, i) == Crash <==> FatalAnd(s, i)
    decreases |s| - i, 3
  {
    hide Fatal, ComesTerm, ComesAndMore;
    TermCrashes(s, i);
    var left := ParseEquation(s, i);
    if left.Parsed? {
      AndMoreCrashes(s, i, left.term, left.pos);
    }
    if FatalTerm(s, i) {
      var k :| ComesTerm(s, i, k) && Fatal(s, k);
      assert ComesAnd(s, i, k);
    }
    if left.Parsed? && FatalAndMore(s, left.pos) {
      var k :| ComesAndMore(s, left.pos, k) && Fatal(s, k);
      assert ComesAnd(s, i, k);
    }
  }

  lemma {:induction false} AndMoreCrashes(s: string, begin: nat, left: Term, i: nat)
    requires begin <= i <= |s|
    ensures AndMore(s, begin, left, i) == Crash <==> FatalAndMore(s, i)
    decreases |s| - i, 2
  {
    hide Fatal, ComesAnd;
    if IsOperator(s, i, '&') {
      AndCrashes(s, i + 2);
      var right := ParseAnd(s, i + 2);
      if right.Parsed? {
        AndMoreCrashes(s, begin, Operator(true, left, right.term), right.pos);
      }
      if FatalAnd(s, i + 2) {
        var k :| ComesAnd(s, i + 2, k) && Fatal(s, k);
        assert ComesAndMore(s, i, k);
      }
      if right.Parsed? && FatalAndMore(s, right.pos) {
        var k :| ComesAndMore(s, right.pos, k) && Fatal(s, k);
        assert ComesAndMore(s, i, k);
      }
    }
  }

  lemma {:induction false} TermCrashes(s: string, i: nat)
    requires i <= |s|
    ensures ParseEquation(s, i) == Crash <==> FatalTerm(s, i)
    decreases |s| - i, 2
  {
    hide Fatal, ComesOr, ParseEquation, IsBracket, Inside, ParseOr;
    TermCrash(s, i);
    if IsBracket(s, i) {
      CrashesExactly(s, Inside(s, i));
      if FatalOr(s, Inside(s, i)) {
        var k :| ComesOr(s, Inside(s, i), k) && Fatal(s, k);
        assert ComesTerm(s, i, k);
      }
    }
    assert ComesTerm(s, i, i);
  }

  // ---------- what a caller can look for ----------

  /** Somewhere a bracket is negated. */
  predicate NegatesBracket(s: string) {
    exists i :: 0 <= i < |s| && s[i] == '!' && Ch(s, SkipWhitespace(s, i + 1)) == '('
  }

  lemma {:induction false} OverrunEnd(s: string, quote: char, i: nat)
    requires i <= |s| && QuotedEnd(s, quote, i) == Overrun
    ensures |s| > 0 && s[|s| - 1] == '\\'
    decreases |s| - i
  {
    if s[i] != '\\' {
      OverrunEnd(s, quote, i + 1);
    } else if i + 1 < |s| {
      OverrunEnd(s, quote, i + 2);
    }
  }

  lemma {:induction false} ValueEnd(s: string, attribute: string, i: nat)
    requires i <= |s| && ValueOverruns(s, attribute, i)
    ensures |s| > 0 && s[|s| - 1] == '\\'
  {
    hide QuotedEnd, SkipWhitespace;
    var j := SkipWhitespace(s, i + SymbolAt(s, i).length);
    OverrunEnd(s, s[j], j + 1);
  }

  /** A fatal term shows in the text. */
  lemma {:induction false} FatalShows(s: string, k: nat)
    requires Fatal(s, k)
    ensures NegatesBracket(s) || (|s| > 0 && s[|s| - 1] == '\\')
  {
    hide QuotedEnd, SkipWhitespace, ParseOr, FindSymbol, TrimEnd, ValueOverruns;
    var j := SkipWhitespace(s, k);
    if NegatesNothing(s, k) {
      assert s[j] == '!' && Ch(s, SkipWhitespace(s, j + 1)) == '(';
    } else if IsQuote(Ch(s, j)) {
      var end := QuotedEnd(s, s[j], j + 1);
      if end == Overrun {
        OverrunEnd(s, s[j], j + 1);
      } else {
        ValueEnd(s, s[j + 1..end.end], SkipWhitespace(s, end.end + 1));
      }
    } else {
      var m := FindSymbol(s, j);
      ValueEnd(s, s[j..TrimEnd(s, j, m)], m);
    }
  }

  /** A text that does not end in a backslash and negates no bracket never makes the parser
      crash. */
  lemma {:induction false} NeverCrashes(s: string, i: nat)
    requires i <= |s| && !NegatesBracket(s) && (|s| > 0 ==> s[|s| - 1] != '\\')
    ensures ParseOr(s, i) != Crash
  {
    hide ComesOr, ParseOr, Fatal;
    CrashesExactly(s, i);
    if FatalOr(s, i) {
      var k :| ComesOr(s, i, k) && Fatal(s, k);
      FatalShows(s, k);
    }
  }

  /** A text that begins with the negation of a closed bracket without a term, whatever
      follows, makes the parser crash. */
  lemma {:induction false} NegationOfNothing(s: string)
    requires NegatesNothing(s, 0)
    ensures ParseOr(s, 0) == Crash
  {
    hide ParseOr, ParseEquation, IsNegated, IsBracket, ReadsBeyond;
    TermCrash(s, 0);
    FirstTermCrashes(s);
  }

  /** A text that is nothing but a string left open crashes exactly if its backslashes at
      the end are not in pairs. */
  lemma {:induction false} StringLeftOpen(s: string)
    requires |s| > 0 && IsQuote(s[0]) && !QuotedEnd(s, s[0], 1).Closed?
    ensures ParseOr(s, 0) == Crash <==> Backslashes(s, 1) % 2 == 1
  {
    hide ParseOr, QuotedEnd, Backslashes;
    OverrunExactly(s, s[0], 1);
    assert SkipWhitespace(s, 0) == 0;
    assert ParseEquation(s, 0) == EquationAt(s, 0) by {
      hide EquationAt;
    }
    hide ParseEquation;
    FirstTermCrashes(s);
  }

  lemma {:induction false} FirstTermCrashes(s: string)
    ensures ParseEquation(s, 0) == Crash ==> ParseOr(s, 0) == Crash
    ensures ParseEquation(s, 0).Null? ==> ParseOr(s, 0).Null?
  {
    hide ParseEquation;
    assert ParseEquation(s, 0) == Crash ==> ParseAnd(s, 0) == Crash;
  }

  /** The shortest of each kind. */
  lemma {:induction false} ShortCrashes()
    ensures ParseOr("!()", 0) == Crash && ParseOr("\"\\", 0) == Crash
  {
    var s, q := "!()", "\"\\";
    assert SkipWhitespace(s, 0) == 0 && SkipWhitespace(s, 1) == 1 && SkipWhitespace(s, 2) == 2;
    assert ParseEquation(s, 2) == Null(2);
    assert ParseAnd(s, 2) == Null(2);
    assert ParseOr(s, 2) == Null(2);
    NegationOfNothing(s);
    assert Backslashes(q, 1) == 1 + Backslashes(q[..1], 1) == 1;
    StringLeftOpen(q);
  }
}
