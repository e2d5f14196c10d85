/** The parser accepts a text exactly if it is a written query, and gives the term that the
query is written for. */
module QueryGrammar {
  import opened QueryTerms
  import opened QueryParser
  import opened QueryTexts

  /** The end of the text or no blank. */
  predicate NoBlank(s: string, i: nat) {
    i <= |s| && (i < |s| ==> !IsBlank(s[i]))
  }

  // ---------- what the parts of the parser have read ----------

  lemma {:induction false} Skipped(s: string, i: nat)
    requires i <= |s|
    ensures Blanks(s[i..SkipWhitespace(s, i)]) && NoBlank(s, SkipWhitespace(s, i))
    decreases |s| - i
  {
    if i < |s| && IsBlank(s[i]) {
      Skipped(s, i + 1);
      assert s[i..SkipWhitespace(s, i)] == [s[i]] + s[i + 1..SkipWhitespace(s, i)];
    }
  }

  lemma {:induction false} Trimmed(s: string, start: nat, end: nat)
    requires start <= end <= |s| && NoBlank(s, start)
    ensures var r := TrimEnd(s, start, end);
            Blanks(s[r..end]) && (start < end ==> start < r && !IsBlank(s[r - 1]))
    decreases end
  {
    if end > start + 1 && IsBlank(s[end - 1]) {
      Trimmed(s, start, end - 1);
      var r := TrimEnd(s, start, end);
      assert s[r..end] == s[r..end - 1] + [s[end - 1]];
    }
  }

  lemma {:induction false} FoundSymbol(s: string, i: nat)
    requires i <= |s|
    ensures forall k :: i <= k < FindSymbol(s, i) ==> s[k] !in {'=', '<', '>', '!', '&', '|'}
    decreases |s| - i
  {
    if FindSymbol(s, i) != i {
      FoundSymbol(s, i + 1);
    }
  }

  lemma {:induction false} FoundEnd(s: string, i: nat)
    requires i <= |s|
    ensures EndsItem(s, FindEnd(s, i)) && forall k :: i <= k < FindEnd(s, i) ==> s[k] !in {'&', '|', ')'}
    decreases |s| - i
  {
    if FindEnd(s, i) != i {
      FoundEnd(s, i + 1);
    }
  }

  lemma {:induction false} FoundQuote(s: string, quote: char, i: nat)
    requires i <= |s| && IsQuote(quote) && QuotedEnd(s, quote, i).Closed?
    ensures IsEscaped(s[i..QuotedEnd(s, quote, i).end], quote)
    decreases |s| - i
  {
    var end := QuotedEnd(s, quote, i).end;
    if i < end {
      var n := if s[i] == '\\' then 2 else 1;
      FoundQuote(s, quote, i + n);
      assert s[i..end][n..] == s[i + n..end];
    }
  }

  // ---------- an equation ----------

  lemma {:induction false} BareAttributeRead(s: string, i: nat)
    requires i <= |s| && NoBlank(s, i) && !IsQuote(Ch(s, i))
    ensures var k := FindSymbol(s, i); var end := TrimEnd(s, i, k); var text := s[i..end];
            && IsBare(text, {'=', '<', '>', '!', '&', '|'}) && Blanks(s[end..k])
            && EquationAt(s, i) == AfterAttribute(s, i, text, k)
  {
    hide AfterAttribute, TrimEnd, FindSymbol;
    FoundSymbol(s, i);
    Trimmed(s, i, FindSymbol(s, i));
  }

  lemma {:induction false} QuotedAttributeRead(s: string, i: nat)
    requires i < |s| && IsQuote(s[i]) && EquationAt(s, i).Parsed?
    ensures QuotedEnd(s, s[i], i + 1).Closed?
    ensures var end := QuotedEnd(s, s[i], i + 1).end; var k := SkipWhitespace(s, end + 1); var text := s[i + 1..end];
            && IsEscaped(text, s[i]) && s[i..end + 1] == [s[i]] + (text + [s[i]]) && Blanks(s[end + 1..k])
            && EquationAt(s, i) == AfterAttribute(s, i, text, k)
  {
    hide AfterAttribute, QuotedEnd, SkipWhitespace, IsEscaped;
    FoundQuote(s, s[i], i + 1);
    Skipped(s, QuotedEnd(s, s[i], i + 1).end + 1);
  }

  /** An attribute and the blanks behind it. */
  lemma {:induction false} AttributeRead(s: string, i: nat) returns (w: Word, k: nat)
    requires i <= |s| && NoBlank(s, i) && Ch(s, i) !in {'(', ')'} && EquationAt(s, i).Parsed?
    ensures k <= |s| && IsAttribute(w) && i + |WordText(w)| <= k && StandsAt(s, i, WordText(w))
    ensures Blanks(s[i + |WordText(w)|..k]) && EquationAt(s, i) == AfterAttribute(s, i, w.text, k)
  {
    hide EquationAt, AfterAttribute, IsBare, IsEscaped, Blanks, QuotedEnd, SkipWhitespace, TrimEnd, FindSymbol;
    if IsQuote(Ch(s, i)) {
      QuotedAttributeRead(s, i);
      var end := QuotedEnd(s, s[i], i + 1).end;
      w, k := InQuotes(s[i], s[i + 1..end]), SkipWhitespace(s, end + 1);
    } else {
      BareAttributeRead(s, i);
      k := FindSymbol(s, i);
      w := Bare(s[i..TrimEnd(s, i, k)]);
    }
  }

  lemma {:induction false} BareRead(s: string, begin: nat, a: string, op: Comparison, i: nat)
    requires begin <= i <= |s| && NoBlank(s, i) && !IsQuote(Ch(s, i))
    ensures var k := FindEnd(s, i); var end := TrimEnd(s, i, k); var text := s[i..end];
            && IsBare(text, {'&', '|', ')'}) && Blanks(s[end..k]) && NoBlank(s, k)
            && ValueAt(s, begin, a, op, i) == Finish(s, begin, a, op, text, k)
  {
    hide Finish, TrimEnd, FindEnd;
    FoundEnd(s, i);
    Trimmed(s, i, FindEnd(s, i));
  }

  lemma {:induction false} QuotesRead(s: string, begin: nat, a: string, op: Comparison, i: nat)
    requires begin <= i < |s| && IsQuote(s[i]) && QuotedEnd(s, s[i], i + 1).Closed?
    ensures var end := QuotedEnd(s, s[i], i + 1).end; var k := SkipWhitespace(s, end + 1); var text := s[i + 1..end];
            && IsEscaped(text, s[i]) && s[i..end + 1] == [s[i]] + (text + [s[i]]) && Blanks(s[end + 1..k]) && NoBlank(s, k)
            && ValueAt(s, begin, a, op, i) == Finish(s, begin, a, op, text, k)
  {
    hide Finish, QuotedEnd, SkipWhitespace, IsEscaped;
    FoundQuote(s, s[i], i + 1);
    Skipped(s, QuotedEnd(s, s[i], i + 1).end + 1);
  }

  /** A value and the blanks behind it. */
  lemma {:induction false} ValueRead(s: string, begin: nat, a: string, op: Comparison, i: nat) returns (w: Word, k: nat)
    requires begin <= i <= |s| && NoBlank(s, i) && ValueAt(s, begin, a, op, i).Parsed?
    ensures k <= |s| && IsValue(w) && i + |WordText(w)| <= k && StandsAt(s, i, WordText(w)) && NoBlank(s, k)
    ensures Blanks(s[i + |WordText(w)|..k]) && ValueAt(s, begin, a, op, i) == Finish(s, begin, a, op, w.text, k)
  {
    hide Finish, IsBare, IsEscaped, Blanks, QuotedEnd, SkipWhitespace, FindEnd, TrimEnd;
    if IsQuote(Ch(s, i)) {
      QuotesRead(s, begin, a, op, i);
      var end := QuotedEnd(s, s[i], i + 1).end;
      w, k := InQuotes(s[i], s[i + 1..end]), SkipWhitespace(s, end + 1);
    } else {
      BareRead(s, begin, a, op, i);
      k := FindEnd(s, i);
      w := Bare(s[i..TrimEnd(s, i, k)]);
    }
  }

  lemma {:induction false} SignRead(s: string, k: nat)
    requires k <= |s| && SymbolAt(s, k).Sign? && k + SymbolAt(s, k).length <= |s|
    ensures var n := SymbolAt(s, k).length; var sign := s[k..k + n];
            && sign in {"=", "==", "!=", "<", "<=", ">", ">="} && SymbolAt(s, k).op == SignMeans(sign)
            && (|sign| == 1 ==> Ch(s, k + 1) != '=')
  {
    var n := SymbolAt(s, k).length;
    assert s[k..k + n] == if n == 1 then [s[k]] else [s[k], s[k + 1]];
  }

  lemma {:induction false} AfterAttributeRead(s: string, begin: nat, a: string, k: nat)
    requires begin <= k <= |s| && AfterAttribute(s, begin, a, k).Parsed?
    ensures a != "" && Copyable(a) && SymbolAt(s, k).Sign? && k + SymbolAt(s, k).length <= |s|
    ensures AfterAttribute(s, begin, a, k)
            == ValueAt(s, begin, a, SymbolAt(s, k).op, SkipWhitespace(s, k + SymbolAt(s, k).length))
  {
    hide ValueAt, SkipWhitespace, SymbolAt;
  }

  lemma {:induction false} FinishRead(s: string, begin: nat, t: Term, pos: nat)
    requires t.Equation? && begin <= pos <= |s| && t.attribute != "" && Copyable(t.attribute)
    requires Finish(s, begin, t.attribute, t.op, t.value, pos).Parsed?
    ensures Finish(s, begin, t.attribute, t.op, t.value, pos) == Parsed(t, pos) && Storable(t)
  {
    hide ValidPattern, IsPattern;
  }

  /** An equation that is accepted is well spelled. */
  lemma {:induction false} EquationRead(s: string, i: nat) returns (e: Spelling)
    requires i <= |s| && var j := SkipWhitespace(s, i); Ch(s, j) !in {'(', ')'} && EquationAt(s, j).Parsed?
    ensures WellSpelled(e) && StandsAt(s, i, SpellingText(e)) && NoBlank(s, i + |SpellingText(e)|)
    ensures EquationAt(s, SkipWhitespace(s, i)) == Parsed(SpellingTerm(e), i + |SpellingText(e)|) && Storable(SpellingTerm(e))
  {
    hide EquationAt, AfterAttribute, ValueAt, SymbolAt, SkipWhitespace, Storable, Copyable, IsValue, IsAttribute, SignMeans, WordText,
      SpellingText, Blanks, Finish, StandsAt;
    var j := SkipWhitespace(s, i);
    Skipped(s, i);
    var w, k := AttributeRead(s, j);
    AfterAttributeRead(s, j, w.text, k);
    var op, n := SymbolAt(s, k).op, k + SymbolAt(s, k).length;
    SignRead(s, k);
    var m := SkipWhitespace(s, n);
    Skipped(s, n);
    var v, pos := ValueRead(s, j, w.text, op, m);
    FinishRead(s, j, Equation(w.text, op, v.text), pos);
    e := Spelling(s[i..j], w, s[j + |WordText(w)|..k], s[k..n], s[n..m], v, s[m + |WordText(v)|..pos]);
    PartStands(s, i, j);
    PartStands(s, j + |WordText(w)|, k);
    PartStands(s, k, n);
    PartStands(s, n, m);
    PartStands(s, m + |WordText(v)|, pos);
    PutTogether(s, i, e);
    NotASign(s, m, v);
  }

  lemma {:induction false} PartStands(s: string, i: nat, j: nat)
    requires i <= j <= |s|
    ensures StandsAt(s, i, s[i..j]) && |s[i..j]| == j - i
  {
  }

  /** Parts that stand one behind the other are the text of the equation. */
  lemma {:induction false} PutTogether(s: string, i: nat, e: Spelling)
    requires var j := i + |e.lead|; var l := j + |WordText(e.attribute)|; var k := l + |e.before|;
             var n := k + |e.sign|; var m := n + |e.after|; var o := m + |WordText(e.value)|;
             && StandsAt(s, i, e.lead) && StandsAt(s, j, WordText(e.attribute)) && StandsAt(s, l, e.before)
             && StandsAt(s, k, e.sign) && StandsAt(s, n, e.after) && StandsAt(s, m, WordText(e.value))
             && StandsAt(s, o, e.behind)
    ensures StandsAt(s, i, SpellingText(e))
    ensures i + |SpellingText(e)|
            == i + |e.lead| + |WordText(e.attribute)| + |e.before| + |e.sign| + |e.after| + |WordText(e.value)| + |e.behind|
  {
    hide StandsAt, WordText;
    var j := i + |e.lead|;
    var l := j + |WordText(e.attribute)|;
    var k := l + |e.before|;
    var n := k + |e.sign|;
    var p5 := WordText(e.value) + e.behind;
    var p4 := e.after + p5;
    var p3 := e.sign + p4;
    var p2 := e.before + p3;
    TwoParts(s, n + |e.after|, WordText(e.value), e.behind);
    TwoParts(s, n, e.after, p5);
    TwoParts(s, k, e.sign, p4);
    TwoParts(s, l, e.before, p3);
    TwoParts(s, j, WordText(e.attribute), p2);
    TwoParts(s, i, e.lead, WordText(e.attribute) + p2);
  }

  lemma {:induction false} NotASign(s: string, m: nat, w: Word)
    requires StandsAt(s, m, WordText(w))
    ensures w.Bare? && w.text != "" ==> Ch(s, m) == w.text[0]
  {
    StandsCharacters(s, m, WordText(w));
  }

  // ---------- items and queries ----------

  /** The term of `d` is what the parser has read from `i` up to `k`. */
  ghost predicate ReadUpTo(s: string, i: nat, k: nat, text: string) {
    StandsAt(s, i, text) && i + |text| == k && NoBlank(s, k)
  }

  /** A term in brackets: its opening bracket stands at `k`. */
  lemma {:induction false} BracketRead(s: string, i: nat, j: nat, k: nat)
    requires i <= j < |s| && j == SkipWhitespace(s, i) && s[j] in {'!', '('} && ParseEquation(s, i).Parsed?
    requires k == if s[j] == '!' then SkipWhitespace(s, j + 1) else j
    ensures k < |s| && s[k] == '(' && ParseOr(s, k + 1).Parsed?
    ensures var inner := ParseOr(s, k + 1); var m := SkipWhitespace(s, inner.pos);
            && m < |s| && s[m] == ')'
            && ParseEquation(s, i) == Parsed(if s[j] == '!' then Complement(inner.term) else inner.term, SkipWhitespace(s, m + 1))
  {
    hide EquationAt, ParseOr, SkipWhitespace, Complement;
    if k < |s| {
      OrSkips(s, k + 1);
    }
  }

  lemma {:induction false} SingleRead(s: string, i: nat) returns (t: Item)
    requires i <= |s| && ParseEquation(s, i).Parsed? && Ch(s, SkipWhitespace(s, i)) !in {'!', '('}
    ensures WrittenItem(t) && ItemTerm(t) == ParseEquation(s, i).term && ReadUpTo(s, i, ParseEquation(s, i).pos, ItemText(t))
  {
    hide EquationAt, ParseOr, SkipWhitespace, WellSpelled, Storable;
    var e := EquationRead(s, i);
    t := Single(e);
  }

  lemma {:induction false} NoneIsBlank()
    ensures Blanks("")
  {
  }

  lemma {:induction false} BracketsStand(s: string, i: nat, t: Item)
    requires t.Brackets?
    requires var j := i + |t.lead|; var k := if t.negated then j + 1 + |t.gap| else j;
             var m := k + 1 + |DisjunctionText(t.inner)|;
             && StandsAt(s, i, t.lead) && (t.negated ==> j < |s| && s[j] == '!' && StandsAt(s, j + 1, t.gap))
             && k < |s| && s[k] == '(' && StandsAt(s, k + 1, DisjunctionText(t.inner)) && m < |s| && s[m] == ')'
             && StandsAt(s, m + 1, t.behind)
    ensures var j := i + |t.lead|; var k := if t.negated then j + 1 + |t.gap| else j;
            StandsAt(s, i, ItemText(t)) && i + |ItemText(t)| == k + 2 + |DisjunctionText(t.inner)| + |t.behind|
  {
    hide DisjunctionText, StandsAt;
    var j := i + |t.lead|;
    var k := if t.negated then j + 1 + |t.gap| else j;
    var m := k + 1 + |DisjunctionText(t.inner)|;
    var p3 := ")" + t.behind;
    var p2 := DisjunctionText(t.inner) + p3;
    var p1 := "(" + p2;
    var not := if t.negated then "!" + t.gap else "";
    OneStands(s, m, ')');
    TwoParts(s, m, ")", t.behind);
    TwoParts(s, k + 1, DisjunctionText(t.inner), p3);
    OneStands(s, k, '(');
    TwoParts(s, k, "(", p2);
    if t.negated {
      OneStands(s, j, '!');
      TwoParts(s, j, "!", t.gap);
    } else {
      NothingStands(s, j);
    }
    TwoParts(s, j, not, p1);
    TwoParts(s, i, t.lead, not + p1);
  }

  /** The item made from what stands between the brackets. */
  lemma {:induction false} BracketsMade(s: string, i: nat, j: nat, k: nat, inner: Disjunction) returns (t: Item)
    requires i <= j < |s| && j == SkipWhitespace(s, i) && s[j] in {'!', '('} && ParseEquation(s, i).Parsed?
    requires k == (if s[j] == '!' then SkipWhitespace(s, j + 1) else j) && k < |s|
    requires Written(inner) && ParseOr(s, k + 1).Parsed? && DisjunctionTerm(inner) == ParseOr(s, k + 1).term
    requires ReadUpTo(s, k + 1, ParseOr(s, k + 1).pos, DisjunctionText(inner))
    ensures WrittenItem(t) && ItemTerm(t) == ParseEquation(s, i).term && ReadUpTo(s, i, ParseEquation(s, i).pos, ItemText(t))
  {
    hide ParseEquation, ParseOr, SkipWhitespace, Complement, ItemText, Blanks, DisjunctionText, DisjunctionTerm, Written;
    BracketRead(s, i, j, k);
    var negated, m := s[j] == '!', ParseOr(s, k + 1).pos;
    StopsThere(s, m);
    var pos := SkipWhitespace(s, m + 1);
    t := Brackets(s[i..j], negated, if negated then s[j + 1..k] else "", inner, s[m + 1..pos]);
    Skipped(s, i);
    Skipped(s, j + 1);
    Skipped(s, m + 1);
    NoneIsBlank();
    BracketsStand(s, i, t);
  }

  lemma {:induction false} ItemRead(s: string, i: nat) returns (t: Item)
    requires i <= |s| && ParseEquation(s, i).Parsed?
    ensures WrittenItem(t) && ItemTerm(t) == ParseEquation(s, i).term && ReadUpTo(s, i, ParseEquation(s, i).pos, ItemText(t))
    decreases |s| - i, 2
  {
    hide ParseEquation, ParseOr, Complement, ItemText, WrittenItem, ItemTerm, ReadUpTo;
    var j := SkipWhitespace(s, i);
    if Ch(s, j) !in {'!', '('} {
      t := SingleRead(s, i);
    } else {
      var k := if s[j] == '!' then SkipWhitespace(s, j + 1) else j;
      BracketRead(s, i, j, k);
      var inner := DisjunctionRead(s, k + 1);
      t := BracketsMade(s, i, j, k, inner);
    }
  }

  lemma {:induction false} OneStands(s: string, i: nat, c: char)
    requires i < |s| && s[i] == c
    ensures StandsAt(s, i, [c])
  {
  }

  lemma {:induction false} ConjunctionRead(s: string, i: nat) returns (c: Conjunction)
    requires i <= |s| && ParseAnd(s, i).Parsed?
    ensures WrittenTerms(c) && ConjunctionTerm(c) == ParseAnd(s, i).term
    ensures ReadUpTo(s, i, ParseAnd(s, i).pos, ConjunctionText(c)) && !IsOperator(s, ParseAnd(s, i).pos, '&')
    decreases |s| - i, 3
  {
    hide ParseEquation, WrittenItem, ItemTerm, ItemText, StandsAt;
    var t := ItemRead(s, i);
    var m := ParseEquation(s, i).pos;
    if IsOperator(s, m, '&') {
      var rest := ConjunctionRead(s, m + 2);
      c := And(t, rest);
      OperatorStands(s, i, m, ItemText(t), '&', ConjunctionText(rest));
      assert AndMore(s, i, ConjunctionTerm(c), ParseAnd(s, m + 2).pos) == Parsed(ConjunctionTerm(c), ParseAnd(s, m + 2).pos);
    } else {
      c := Last(t);
    }
  }

  lemma {:induction false} OperatorStands(s: string, i: nat, m: nat, left: string, c: char, right: string)
    requires StandsAt(s, i, left) && m == i + |left| && IsOperator(s, m, c) && StandsAt(s, m + 2, right)
    ensures StandsAt(s, i, left + ([c, c] + right))
  {
    assert s[m..m + 2] == [c, c];
    TwoParts(s, m, [c, c], right);
    TwoParts(s, i, left, [c, c] + right);
  }

  lemma {:induction false} DisjunctionRead(s: string, i: nat) returns (d: Disjunction)
    requires i <= |s| && ParseOr(s, i).Parsed?
    ensures Written(d) && DisjunctionTerm(d) == ParseOr(s, i).term && ReadUpTo(s, i, ParseOr(s, i).pos, DisjunctionText(d))
    decreases |s| - i, 5
  {
    hide ParseAnd, OrMore, WrittenTerms, ConjunctionTerm, ConjunctionText, StandsAt;
    var c := ConjunctionRead(s, i);
    d := MoreRead(s, i, First(c), ParseAnd(s, i).pos);
  }

  /** The loop over ||, behind a disjunction that has been read. */
  lemma {:induction false} MoreRead(s: string, i: nat, left: Disjunction, k: nat) returns (d: Disjunction)
    requires i <= k && Written(left) && ReadUpTo(s, i, k, DisjunctionText(left)) && OrMore(s, i, DisjunctionTerm(left), k).Parsed?
    ensures var r := OrMore(s, i, DisjunctionTerm(left), k);
            Written(d) && DisjunctionTerm(d) == r.term && ReadUpTo(s, i, r.pos, DisjunctionText(d))
    decreases |s| - k, 4
  {
    hide ParseAnd, WrittenTerms, ConjunctionTerm, ConjunctionText, StandsAt;
    d := left;
    if IsOperator(s, k, '|') {
      var c := ConjunctionRead(s, k + 2);
      OperatorStands(s, i, k, DisjunctionText(left), '|', ConjunctionText(c));
      d := MoreRead(s, i, Or(left, c), ParseAnd(s, k + 2).pos);
    }
  }

  /** A text is read to its end exactly if it is a written query, with the term of that query. */
  lemma {:induction false} AcceptsExactly(s: string, t: Term)
    ensures ParseOr(s, 0) == Parsed(t, |s|) <==> exists d :: Written(d) && DisjunctionText(d) == s && DisjunctionTerm(d) == t
  {
    hide ParseOr, Written, DisjunctionTerm, DisjunctionText;
    if ParseOr(s, 0) == Parsed(t, |s|) {
      var d := DisjunctionRead(s, 0);
      StandingIs(s, 0, DisjunctionText(d));
    }
    forall d | Written(d) && DisjunctionText(d) == s && DisjunctionTerm(d) == t
      ensures ParseOr(s, 0) == Parsed(t, |s|)
    {
      QueryParses(d);
    }
  }
}
