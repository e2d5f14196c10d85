/** How a query may be written, and that it is parsed to the term it is written for: strings
with and without quotes, blanks between the parts, brackets, negations, and && binding
closer than ||. */
module QueryTexts {
  import opened QueryTerms
  import opened QueryParser

  // ---------- the written form ----------

  /** A string without quotes or in quotes of either kind. */
  datatype Word = Bare(text: string) | InQuotes(quote: char, text: string)

  /** An equation with the blanks in front of it, between its parts and behind it. */
  datatype Spelling = Spelling(lead: string, attribute: Word, before: string, sign: string, after: string, value: Word,
                               behind: string)

  datatype Item =
    | Single(spelling: Spelling)
    | Brackets(lead: string, negated: bool, gap: string, inner: Disjunction, behind: string)

  /** Items with && between them. */
  datatype Conjunction = Last(item: Item) | And(item: Item, rest: Conjunction)

  /** Conjunctions with || between them. */
  datatype Disjunction = First(terms: Conjunction) | Or(rest: Disjunction, terms: Conjunction)

  function WordText(w: Word): string {
    match w
    case Bare(text) => text
    case InQuotes(quote, text) => [quote] + (text + [quote])
  }

  function SpellingText(e: Spelling): string {
    e.lead + (WordText(e.attribute) + (e.before + (e.sign + (e.after + (WordText(e.value) + e.behind)))))
  }

  function ItemText(t: Item): string
    decreases t, 0
  {
    match t
    case Single(e) => SpellingText(e)
    case Brackets(lead, negated, gap, inner, behind) =>
      lead + ((if negated then "!" + gap else "") + ("(" + (DisjunctionText(inner) + (")" + behind))))
  }

  function ConjunctionText(c: Conjunction): string {
    match c
    case Last(item) => ItemText(item)
    case And(item, rest) => ItemText(item) + ("&&" + ConjunctionText(rest))
  }

  function DisjunctionText(d: Disjunction): string {
    match d
    case First(terms) => ConjunctionText(terms)
    case Or(rest, terms) => DisjunctionText(rest) + ("||" + ConjunctionText(terms))
  }

  // ---------- the term it is written for ----------

  function SignMeans(sign: string): Comparison {
    if sign == ">" then GreaterThan
    else if sign == "<" then LessThan
    else if sign == ">=" then GreaterThanOrEqual
    else if sign == "<=" then LessThanOrEqual
    else if sign == "!=" then Unequal
    else Equal
  }

  function SpellingTerm(e: Spelling): Term {
    Equation(e.attribute.text, SignMeans(e.sign), e.value.text)
  }

  function ItemTerm(t: Item): Term {
    match t
    case Single(e) => SpellingTerm(e)
    case Brackets(_, negated, _, inner, _) =>
      if negated then Complement(DisjunctionTerm(inner)) else DisjunctionTerm(inner)
  }

  /** && groups to the right. */
  function ConjunctionTerm(c: Conjunction): Term {
    match c
    case Last(item) => ItemTerm(item)
    case And(item, rest) => Operator(true, ItemTerm(item), ConjunctionTerm(rest))
  }

  /** || groups to the left. */
  function DisjunctionTerm(d: Disjunction): Term {
    match d
    case First(terms) => ConjunctionTerm(terms)
    case Or(rest, terms) => Operator(false, DisjunctionTerm(rest), ConjunctionTerm(terms))
  }

  // ---------- what may be written ----------

  predicate IsBlank(c: char) {
    c == ' ' || c == '\t'
  }

  predicate Blanks(s: string) {
    forall i :: 0 <= i < |s| ==> IsBlank(s[i])
  }

  /** No character of `stops` in it, and neither a blank at its ends nor a quote in front. */
  predicate IsBare(s: string, stops: set<char>) {
    && (forall i :: 0 <= i < |s| ==> s[i] !in stops)
    && (s != "" ==> !IsBlank(s[0]) && !IsQuote(s[0]) && !IsBlank(s[|s| - 1]))
  }

  /** Every backslash stands in front of another character, and other quotes do not occur. */
  predicate IsEscaped(s: string, quote: char) {
    s == "" || (if s[0] == '\\' then |s| > 1 && IsEscaped(s[2..], quote) else s[0] != quote && IsEscaped(s[1..], quote))
  }

  predicate IsValue(w: Word) {
    match w
    case Bare(text) => IsBare(text, {'&', '|', ')'})
    case InQuotes(quote, text) => IsQuote(quote) && IsEscaped(text, quote)
  }

  predicate IsAttribute(w: Word) {
    match w
    case Bare(text) => IsBare(text, {'=', '<', '>', '!', '&', '|'}) && (text != "" ==> text[0] !in {'(', ')'})
    case InQuotes(quote, text) => IsQuote(quote) && IsEscaped(text, quote)
  }

  predicate WellSpelled(e: Spelling) {
    && Blanks(e.lead) && Blanks(e.before) && Blanks(e.after) && Blanks(e.behind)
    && e.sign in {"=", "==", "!=", "<", "<=", ">", ">="}
    && IsAttribute(e.attribute) && IsValue(e.value)
    // a value that begins with = would be read as part of the sign
    && (|e.sign| == 1 && e.after == "" && e.value.text != "" && e.value.Bare? ==> e.value.text[0] != '=')
  }

  predicate WrittenItem(t: Item) {
    match t
    case Single(e) => WellSpelled(e) && Storable(SpellingTerm(e))
    case Brackets(lead, _, gap, inner, behind) => Blanks(lead) && Blanks(gap) && Blanks(behind) && Written(inner)
  }

  predicate WrittenTerms(c: Conjunction) {
    match c
    case Last(item) => WrittenItem(item)
    case And(item, rest) => WrittenItem(item) && WrittenTerms(rest)
  }

  predicate Written(d: Disjunction) {
    match d
    case First(terms) => WrittenTerms(terms)
    case Or(rest, terms) => Written(rest) && WrittenTerms(terms)
  }

  // ---------- characters and blanks ----------

  /** The end of the text or a character behind which no item goes on. */
  predicate EndsItem(s: string, i: nat) {
    i == |s| || (i < |s| && s[i] in {'&', '|', ')'})
  }

  lemma {:induction false} SkipsBlanks(s: string, i: nat, blanks: string)
    requires StandsAt(s, i, blanks) && Blanks(blanks)
    ensures SkipWhitespace(s, i) == SkipWhitespace(s, i + |blanks|)
    decreases |blanks|
  {
    if blanks != "" {
      assert s[i] == blanks[0];
      assert s[i + 1..i + 1 + |blanks[1..]|] == s[i..i + |blanks|][1..];
      SkipsBlanks(s, i + 1, blanks[1..]);
    }
  }

  lemma {:induction false} StopsThere(s: string, i: nat)
    requires i <= |s| && (i < |s| ==> !IsBlank(s[i]))
    ensures SkipWhitespace(s, i) == i
  {
  }

  lemma {:induction false} TrimsBlanks(s: string, start: nat, end: nat, blanks: string)
    requires start <= end && StandsAt(s, end, blanks) && Blanks(blanks)
    requires start < end ==> !IsBlank(s[end - 1])
    requires start == end ==> blanks == ""
    ensures TrimEnd(s, start, end + |blanks|) == end
    decreases |blanks|
  {
    if blanks != "" {
      var n := |blanks| - 1;
      assert s[end + n] == blanks[n];
      assert s[end..end + n] == s[end..end + |blanks|][..n];
      TrimsBlanks(s, start, end, blanks[..n]);
    }
  }

  lemma {:induction false} FindsSymbol(s: string, i: nat, j: nat)
    requires i <= j < |s| && s[j] in {'=', '<', '>', '!', '&', '|'}
    requires forall k :: i <= k < j ==> s[k] !in {'=', '<', '>', '!', '&', '|'}
    ensures FindSymbol(s, i) == j
    decreases j - i
  {
    if i < j {
      FindsSymbol(s, i + 1, j);
    }
  }

  lemma {:induction false} FindsEnd(s: string, i: nat, j: nat)
    requires i <= j && EndsItem(s, j) && forall k :: i <= k < j ==> s[k] !in {'&', '|', ')'}
    ensures FindEnd(s, i) == j
    decreases j - i
  {
    if i < j {
      FindsEnd(s, i + 1, j);
    }
  }

  lemma {:induction false} QuoteCloses(s: string, i: nat, text: string, quote: char)
    requires IsQuote(quote) && IsEscaped(text, quote) && StandsAt(s, i, text + [quote])
    ensures QuotedEnd(s, quote, i) == Closed(i + |text|)
    decreases |text|
  {
    var whole := text + [quote];
    assert s[i] == whole[0];
    if text != "" {
      var n := if text[0] == '\\' then 2 else 1;
      assert whole[n..] == text[n..] + [quote];
      assert s[i + n..i + n + |whole[n..]|] == s[i..i + |whole|][n..];
      QuoteCloses(s, i + n, text[n..], quote);
    }
  }

  // ---------- equations ----------

  /** The attribute at `j`, the blanks behind it and the sign at `k`. */
  lemma {:induction false} BareAttribute(s: string, j: nat, text: string, before: string, k: nat)
    requires Blanks(before) && k == j + |text| + |before| && k < |s| && s[k] in {'=', '<', '>', '!'}
    requires StandsAt(s, j, text) && StandsAt(s, j + |text|, before)
    requires text != "" && IsBare(text, {'=', '<', '>', '!', '&', '|'})
    ensures EquationAt(s, j) == AfterAttribute(s, j, text, k)
  {
    hide AfterAttribute, QuotedEnd, SkipWhitespace, TrimEnd, FindSymbol;
    StandsCharacters(s, j, text);
    StandsCharacters(s, j + |text|, before);
    FindsSymbol(s, j, k);
    TrimsBlanks(s, j, j + |text|, before);
  }

  lemma {:induction false} QuotedAttribute(s: string, j: nat, quote: char, text: string, before: string, k: nat)
    requires Blanks(before) && k == j + 2 + |text| + |before| && k < |s| && s[k] in {'=', '<', '>', '!'}
    requires StandsAt(s, j, [quote] + (text + [quote])) && StandsAt(s, j + 2 + |text|, before)
    requires IsQuote(quote) && IsEscaped(text, quote)
    ensures EquationAt(s, j) == AfterAttribute(s, j, text, k)
  {
    hide AfterAttribute, QuotedEnd, SkipWhitespace, TrimEnd, FindSymbol, IsEscaped;
    SkipsBlanks(s, j + 2 + |text|, before);
    StopsThere(s, k);
    TwoParts(s, j, [quote], text + [quote]);
    StandsCharacters(s, j, [quote]);
    QuoteCloses(s, j + 1, text, quote);
    TwoParts(s, j + 1, text, [quote]);
  }

  lemma {:induction false} AttributeParses(s: string, j: nat, w: Word, before: string, k: nat)
    requires Blanks(before) && k == j + |WordText(w)| + |before| && k < |s| && s[k] in {'=', '<', '>', '!'}
    requires StandsAt(s, j, WordText(w)) && StandsAt(s, j + |WordText(w)|, before)
    requires IsAttribute(w) && WordText(w) != ""
    ensures EquationAt(s, j) == AfterAttribute(s, j, w.text, k)
  {
    hide AfterAttribute, EquationAt, IsEscaped, StandsAt;
    match w
    case Bare(text) => BareAttribute(s, j, text, before, k);
    case InQuotes(quote, text) => QuotedAttribute(s, j, quote, text, before, k);
  }

  lemma {:induction false} StandsCharacters(s: string, i: nat, text: string)
    requires StandsAt(s, i, text)
    ensures i + |text| <= |s| && forall k {:trigger s[k]} :: i <= k < i + |text| ==> s[k] == text[k - i]
    ensures text != "" ==> s[i] == text[0] && s[i + (|text| - 1)] == text[|text| - 1]
  {
    var part := s[i..i + |text|];
    forall k | i <= k < i + |text|
      ensures s[k] == text[k - i]
    {
      assert s[k] == part[k - i];
    }
  }

  /** The value at `m`, and the blanks behind it up to the end of the item. */
  lemma {:induction false} BareReads(s: string, begin: nat, a: string, op: Comparison, m: nat, text: string, behind: string)
    requires begin <= m && Blanks(behind) && IsBare(text, {'&', '|', ')'}) && (text == "" ==> behind == "")
    requires StandsAt(s, m, text) && StandsAt(s, m + |text|, behind) && EndsItem(s, m + |text| + |behind|)
    ensures ValueAt(s, begin, a, op, m) == Finish(s, begin, a, op, text, m + |text| + |behind|)
  {
    hide QuotedEnd, SkipWhitespace, TrimEnd, FindEnd, Finish;
    var end := m + |text|;
    var e := end + |behind|;
    StandsCharacters(s, m, text);
    StandsCharacters(s, end, behind);
    FindsEnd(s, m, e);
    TrimsBlanks(s, m, end, behind);
  }

  lemma {:induction false} QuotedReads(s: string, begin: nat, a: string, op: Comparison, m: nat, quote: char, text: string,
                                       behind: string)
    requires begin <= m && Blanks(behind) && IsQuote(quote) && IsEscaped(text, quote)
    requires StandsAt(s, m, [quote] + (text + [quote])) && StandsAt(s, m + 2 + |text|, behind)
    requires EndsItem(s, m + 2 + |text| + |behind|)
    ensures ValueAt(s, begin, a, op, m) == Finish(s, begin, a, op, text, m + 2 + |text| + |behind|)
  {
    hide QuotedEnd, SkipWhitespace, TrimEnd, FindEnd, IsEscaped, Finish;
    SkipsBlanks(s, m + 2 + |text|, behind);
    StopsThere(s, m + 2 + |text| + |behind|);
    TwoParts(s, m, [quote], text + [quote]);
    StandsCharacters(s, m, [quote]);
    QuoteCloses(s, m + 1, text, quote);
    TwoParts(s, m + 1, text, [quote]);
  }

  lemma {:induction false} ValueReads(s: string, begin: nat, a: string, op: Comparison, m: nat, w: Word, behind: string)
    requires begin <= m && Blanks(behind) && EndsItem(s, m + |WordText(w)| + |behind|)
    requires StandsAt(s, m, WordText(w)) && StandsAt(s, m + |WordText(w)|, behind)
    requires IsValue(w) && (w == Bare("") ==> behind == "")
    ensures ValueAt(s, begin, a, op, m) == Finish(s, begin, a, op, w.text, m + |WordText(w)| + |behind|)
  {
    hide ValueAt, Finish, IsBare, IsEscaped;
    match w
    case Bare(text) => BareReads(s, begin, a, op, m, text, behind);
    case InQuotes(quote, text) => QuotedReads(s, begin, a, op, m, quote, text, behind);
  }

  lemma {:induction false} SignReads(s: string, k: nat, sign: string)
    requires StandsAt(s, k, sign) && sign in {"=", "==", "!=", "<", "<=", ">", ">="}
    requires |sign| == 1 ==> Ch(s, k + 1) != '='
    ensures SymbolAt(s, k) == Sign(SignMeans(sign), |sign|)
  {
    StandsCharacters(s, k, sign);
    if |sign| == 2 {
      assert s[k + 1] == sign[1];
    }
  }

  /** Where the parts of an equation stand. */
  lemma {:induction false} SpellingLayout(s: string, i: nat, e: Spelling)
    requires StandsAt(s, i, SpellingText(e))
    ensures var j := i + |e.lead|; var l := j + |WordText(e.attribute)|; var k := l + |e.before|;
            var n := k + |e.sign|; var m := n + |e.after|; var o := m + |WordText(e.value)|;
            && StandsAt(s, i, e.lead) && StandsAt(s, j, WordText(e.attribute)) && StandsAt(s, l, e.before)
            && StandsAt(s, k, e.sign) && StandsAt(s, n, e.after) && StandsAt(s, m, WordText(e.value))
            && StandsAt(s, o, e.behind) && o + |e.behind| == i + |SpellingText(e)| <= |s|
  {
    hide StandsAt, WordText;
    var j := i + |e.lead|;
    var l := j + |WordText(e.attribute)|;
    var k := l + |e.before|;
    var n := k + |e.sign|;
    var m := n + |e.after|;
    var p5 := WordText(e.value) + e.behind;
    var p4 := e.after + p5;
    var p3 := e.sign + p4;
    var p2 := e.before + p3;
    TwoParts(s, i, e.lead, WordText(e.attribute) + p2);
    TwoParts(s, j, WordText(e.attribute), p2);
    TwoParts(s, l, e.before, p3);
    TwoParts(s, k, e.sign, p4);
    TwoParts(s, n, e.after, p5);
    TwoParts(s, m, WordText(e.value), e.behind);
    TextInside(s, m + |WordText(e.value)|, e.behind);
  }

  /** Blanks, a value and blanks behind a sign. */
  lemma {:induction false} BehindSign(s: string, begin: nat, a: string, op: Comparison, n: nat, after: string, w: Word,
                                      behind: string)
    requires begin <= n && Blanks(after) && Blanks(behind) && IsValue(w)
    requires StandsAt(s, n, after) && StandsAt(s, n + |after|, WordText(w)) && StandsAt(s, n + |after| + |WordText(w)|, behind)
    requires EndsItem(s, n + |after| + |WordText(w)| + |behind|)
    ensures ValueAt(s, begin, a, op, SkipWhitespace(s, n)) == Finish(s, begin, a, op, w.text, n + |after| + |WordText(w)| + |behind|)
    ensures Ch(s, n) == '=' ==> after == "" && WordText(w) != "" && WordText(w)[0] == '='
  {
    hide ValueAt, Finish, SkipWhitespace, StandsAt;
    var m := n + |after|;
    SkipsBlanks(s, n, after);
    BlanksOrValue(s, n, after, w);
    if WordText(w) == "" {
      SkipsBlanks(s, m, behind);
      StandsCharacters(s, m, behind);
      StopsThere(s, m + |behind|);
      NothingStands(s, m + |behind|);
      ValueReads(s, begin, a, op, m + |behind|, w, "");
    } else {
      StopsThere(s, m);
      ValueReads(s, begin, a, op, m, w, behind);
    }
  }

  lemma {:induction false} NothingStands(s: string, i: nat)
    requires i <= |s|
    ensures StandsAt(s, i, "")
  {
  }

  lemma {:induction false} BlanksOrValue(s: string, n: nat, after: string, w: Word)
    requires Blanks(after) && IsValue(w) && StandsAt(s, n, after) && StandsAt(s, n + |after|, WordText(w))
    ensures n + |after| + |WordText(w)| <= |s|
    ensures WordText(w) != "" ==> n + |after| < |s| && s[n + |after|] == WordText(w)[0] && !IsBlank(s[n + |after|])
    ensures after != "" ==> IsBlank(Ch(s, n))
  {
    hide IsEscaped;
    StandsCharacters(s, n, after);
    StandsCharacters(s, n + |after|, WordText(w));
  }

  lemma {:induction false} SignBegins(s: string, k: nat, sign: string)
    requires StandsAt(s, k, sign) && sign in {"=", "==", "!=", "<", "<=", ">", ">="}
    ensures k + |sign| <= |s| && 1 <= |sign| && s[k] in {'=', '<', '>', '!'}
  {
    StandsCharacters(s, k, sign);
  }

  lemma {:induction false} AttributeBegins(s: string, j: nat, w: Word)
    requires StandsAt(s, j, WordText(w)) && IsAttribute(w) && w.text != ""
    ensures WordText(w) != "" && j < |s| && s[j] !in {'!', '(', ')', ' ', '\t'}
  {
    hide IsEscaped;
    StandsCharacters(s, j, WordText(w));
  }

  lemma {:induction false} AfterAttributeIs(s: string, begin: nat, a: string, k: nat, op: Comparison, n: nat)
    requires begin <= k && k + n <= |s| && a != "" && SymbolAt(s, k) == Sign(op, n)
    ensures AfterAttribute(s, begin, a, k)
            == if Copyable(a) then ValueAt(s, begin, a, op, SkipWhitespace(s, k + n)) else Null(begin)
  {
    hide ValueAt, SkipWhitespace, SymbolAt;
  }

  /** The constructor of an equation behind the blanks in front of it. */
  lemma {:induction false} EquationReads(s: string, i: nat, e: Spelling)
    requires WellSpelled(e) && e.attribute.text != "" && StandsAt(s, i, SpellingText(e)) && EndsItem(s, i + |SpellingText(e)|)
    ensures i + |e.lead| < |s| && Ch(s, i + |e.lead|) !in {'!', '(', ')', ' ', '\t'}
    ensures var t, r := SpellingTerm(e), EquationAt(s, i + |e.lead|);
            if Storable(t) then r == Parsed(t, i + |SpellingText(e)|) else r.Null?
  {
    hide EquationAt, AfterAttribute, ValueAt, SymbolAt, SkipWhitespace, StandsAt, ValidPattern, IsPattern, SpellingText, SignMeans,
      IsAttribute, IsValue, WordText, Blanks, Finish;
    SpellingLayout(s, i, e);
    var j := i + |e.lead|;
    var k := j + |WordText(e.attribute)| + |e.before|;
    var n := k + |e.sign|;
    var op := SignMeans(e.sign);
    SignBegins(s, k, e.sign);
    AttributeBegins(s, j, e.attribute);
    AttributeParses(s, j, e.attribute, e.before, k);
    BehindSign(s, j, e.attribute.text, op, n, e.after, e.value, e.behind);
    if |e.sign| == 1 && e.after == "" && WordText(e.value) != "" {
      NoSecondSign(e);
    }
    SignReads(s, k, e.sign);
    AfterAttributeIs(s, j, e.attribute.text, k, op, |e.sign|);
    if Copyable(e.attribute.text) {
      FinishIs(s, j, SpellingTerm(e), i + |SpellingText(e)|);
    }
  }

  /** A value right behind a sign of one character does not begin with =. */
  lemma {:induction false} NoSecondSign(e: Spelling)
    requires WellSpelled(e) && |e.sign| == 1 && e.after == "" && WordText(e.value) != ""
    ensures WordText(e.value)[0] != '='
  {
    hide IsEscaped, IsBare;
  }

  lemma {:induction false} FinishIs(s: string, begin: nat, t: Term, pos: nat)
    requires t.Equation? && begin <= pos <= |s| && t.attribute != "" && Copyable(t.attribute)
    ensures var r := Finish(s, begin, t.attribute, t.op, t.value, pos);
            if Storable(t) then r == Parsed(t, pos) else r.Null?
  {
    hide ValidPattern, IsPattern;
  }

  // ---------- items ----------

  /** Neither a bracket nor a negation: the constructor of an equation is called. */
  lemma {:induction false} CallsEquation(s: string, i: nat, j: nat)
    requires i <= j < |s| && SkipWhitespace(s, i) == SkipWhitespace(s, j) && s[j] !in {'!', '(', ')', ' ', '\t'}
    ensures ParseEquation(s, i) == EquationAt(s, j)
  {
    hide EquationAt, SkipWhitespace;
    StopsThere(s, j);
  }

  lemma {:induction false} NoBareAttribute(s: string, i: nat, k: nat, sign: string)
    requires i <= k <= |s| && SkipWhitespace(s, i) == SkipWhitespace(s, k) && StandsAt(s, k, sign)
    requires sign in {"=", "==", "!=", "<", "<=", ">", ">="}
    ensures ParseEquation(s, i).Null?
  {
    hide ValueAt, SkipWhitespace;
    StandsCharacters(s, k, sign);
    StopsThere(s, k);
    if s[k] == '!' {
      assert s[k + 1] == '=';
      StopsThere(s, k + 1);
    } else {
      FindsSymbol(s, k, k);
      CallsEquation(s, i, k);
    }
  }

  lemma {:induction false} NoAttribute(s: string, i: nat, e: Spelling)
    requires WellSpelled(e) && e.attribute.text == "" && StandsAt(s, i, SpellingText(e))
    ensures ParseEquation(s, i).Null?
  {
    hide ParseEquation, EquationAt, StandsAt, SkipWhitespace, SpellingText, IsValue, IsEscaped, Blanks;
    SpellingLayout(s, i, e);
    var j := i + |e.lead|;
    var k := j + |WordText(e.attribute)| + |e.before|;
    SkipsBlanks(s, i, e.lead);
    SignBegins(s, k, e.sign);
    if e.attribute.Bare? {
      SkipsBlanks(s, j, e.before);
      NoBareAttribute(s, i, k, e.sign);
    } else {
      StandsCharacters(s, j, WordText(e.attribute));
      CallsEquation(s, i, j);
      AttributeParses(s, j, e.attribute, e.before, k);
    }
  }

  /** An equation, written with or without quotes and blanks, is parsed to exactly its
      attribute, comparison and value if it can be stored, and refused otherwise. */
  lemma {:induction false} SpellingParses(s: string, i: nat, e: Spelling)
    requires WellSpelled(e) && StandsAt(s, i, SpellingText(e)) && EndsItem(s, i + |SpellingText(e)|)
    ensures i + |SpellingText(e)| <= |s|
    ensures Storable(SpellingTerm(e)) ==> ParseEquation(s, i) == Parsed(SpellingTerm(e), i + |SpellingText(e)|)
    ensures !Storable(SpellingTerm(e)) ==> ParseEquation(s, i).Null?
  {
    hide EquationAt, StandsAt, ParseEquation, SpellingText, ValidPattern, IsPattern, IsValue, IsAttribute;
    SpellingLayout(s, i, e);
    if e.attribute.text == "" {
      NoAttribute(s, i, e);
    } else {
      SkipsBlanks(s, i, e.lead);
      EquationReads(s, i, e);
      CallsEquation(s, i, i + |e.lead|);
    }
  }

  lemma {:induction false} AndMoreAnywhere(s: string, i: nat, j: nat, left: Term, k: nat)
    requires i <= k <= |s| && j <= k
    ensures AndMore(s, i, left, k) == AndMore(s, j, left, k)
    decreases |s| - k
  {
    if IsOperator(s, k, '&') && ParseAnd(s, k + 2).Parsed? {
      var right := ParseAnd(s, k + 2);
      AndMoreAnywhere(s, i, j, Operator(true, left, right.term), right.pos);
    }
  }

  lemma {:induction false} OrMoreAnywhere(s: string, i: nat, j: nat, left: Term, k: nat)
    requires i <= k <= |s| && j <= k
    ensures OrMore(s, i, left, k) == OrMore(s, j, left, k)
    decreases |s| - k
  {
    if IsOperator(s, k, '|') && ParseAnd(s, k + 2).Parsed? {
      var right := ParseAnd(s, k + 2);
      OrMoreAnywhere(s, i, j, Operator(false, left, right.term), right.pos);
    }
  }

  /** Blanks in front of a term change nothing. */
  lemma {:induction false} OrSkips(s: string, i: nat)
    requires i <= |s|
    ensures ParseOr(s, i) == ParseOr(s, SkipWhitespace(s, i))
  {
    var j := SkipWhitespace(s, i);
    assert ParseEquation(s, i) == ParseEquation(s, j) by {
      hide EquationAt, Bracketed;
      SkipsTwice(s, i);
    }
    var left := ParseEquation(s, i);
    if left.Parsed? {
      AndMoreAnywhere(s, i, j, left.term, left.pos);
      var both := ParseAnd(s, i);
      if both.Parsed? {
        OrMoreAnywhere(s, i, j, both.term, both.pos);
      }
    }
  }

  lemma {:induction false} SkipsTwice(s: string, i: nat)
    requires i <= |s|
    ensures SkipWhitespace(s, SkipWhitespace(s, i)) == SkipWhitespace(s, i)
    decreases |s| - i
  {
    if i < |s| && IsBlank(s[i]) {
      SkipsTwice(s, i + 1);
    }
  }

  /** Where the parts of a term in brackets stand: the opening bracket at `k`. */
  lemma {:induction false} BracketsLayout(s: string, i: nat, t: Item)
    requires t.Brackets? && StandsAt(s, i, ItemText(t))
    ensures var j := i + |t.lead|; var k := if t.negated then j + 1 + |t.gap| else j;
            var m := k + 1 + |DisjunctionText(t.inner)|;
            && StandsAt(s, i, t.lead) && (t.negated ==> j < |s| && s[j] == '!' && StandsAt(s, j + 1, t.gap))
            && k < |s| && s[k] == '(' && StandsAt(s, k + 1, DisjunctionText(t.inner)) && m < |s| && s[m] == ')'
            && StandsAt(s, m + 1, t.behind) && m + 1 + |t.behind| == i + |ItemText(t)| <= |s|
  {
    hide StandsAt, DisjunctionText;
    var j := i + |t.lead|;
    var k := if t.negated then j + 1 + |t.gap| else j;
    var m := k + 1 + |DisjunctionText(t.inner)|;
    var p3 := ")" + t.behind;
    var p2 := DisjunctionText(t.inner) + p3;
    var p1 := "(" + p2;
    var not := if t.negated then "!" + t.gap else "";
    TwoParts(s, i, t.lead, not + p1);
    TwoParts(s, j, not, p1);
    if t.negated {
      TwoParts(s, j, "!", t.gap);
      StandsCharacters(s, j, "!");
    }
    TwoParts(s, k, "(", p2);
    StandsCharacters(s, k, "(");
    TwoParts(s, k + 1, DisjunctionText(t.inner), p3);
    TwoParts(s, m, ")", t.behind);
    StandsCharacters(s, m, ")");
    TextInside(s, m + 1, t.behind);
  }

  /** A bracket at `k` that is closed at `m`. */
  lemma {:induction false} BracketReads(s: string, i: nat, t: Item, k: nat, m: nat, inner: Term)
    requires t.Brackets? && WrittenItem(t) && i + |ItemText(t)| <= |s|
    requires k == i + |t.lead| + (if t.negated then 1 + |t.gap| else 0) && k < m < |s| && s[k] == '(' && s[m] == ')'
    requires StandsAt(s, i, t.lead) && (t.negated ==> s[i + |t.lead|] == '!' && StandsAt(s, i + |t.lead| + 1, t.gap))
    requires ParseOr(s, k + 1) == Parsed(inner, m) && StandsAt(s, m + 1, t.behind) && EndsItem(s, m + 1 + |t.behind|)
    ensures ParseEquation(s, i) == Parsed(if t.negated then Complement(inner) else inner, m + 1 + |t.behind|)
  {
    hide ParseOr, StandsAt, Complement, SkipWhitespace, Written, ItemText;
    var j := i + |t.lead|;
    SkipsBlanks(s, i, t.lead);
    StopsThere(s, j);
    StopsThere(s, k);
    if t.negated {
      SkipsBlanks(s, j + 1, t.gap);
    }
    OrSkips(s, k + 1);
    StopsThere(s, m);
    SkipsBlanks(s, m + 1, t.behind);
    StopsThere(s, m + 1 + |t.behind|);
    assert Bracketed(s, i, SkipWhitespace(s, k + 1), t.negated)
        == Parsed(if t.negated then Complement(inner) else inner, m + 1 + |t.behind|);
  }

  // ---------- whole queries ----------

  lemma {:induction false} ItemParses(s: string, i: nat, t: Item)
    requires WrittenItem(t) && StandsAt(s, i, ItemText(t)) && EndsItem(s, i + |ItemText(t)|)
    ensures i + |ItemText(t)| <= |s| && ParseEquation(s, i) == Parsed(ItemTerm(t), i + |ItemText(t)|)
    decreases t, 0
  {
    hide ParseEquation, ParseOr, StandsAt, ItemText, Complement;
    match t
    case Single(e) =>
      SingleText(e);
      SpellingParses(s, i, e);
    case Brackets(lead, negated, gap, inner, behind) =>
      BracketsLayout(s, i, t);
      var k := i + |lead| + (if negated then 1 + |gap| else 0);
      var m := k + 1 + |DisjunctionText(inner)|;
      DisjunctionParses(s, k + 1, inner);
      StopsOr(s, k + 1, DisjunctionTerm(inner), m);
      BracketReads(s, i, t, k, m, DisjunctionTerm(inner));
  }

  lemma {:induction false} SingleText(e: Spelling)
    ensures ItemText(Single(e)) == SpellingText(e)
  {
  }

  lemma {:induction false} StopsOr(s: string, i: nat, t: Term, m: nat)
    requires i <= m <= |s| && !IsOperator(s, m, '|')
    ensures OrMore(s, i, t, m) == Parsed(t, m)
  {
  }

  /** A conjunction up to a character that does not go on with &&. */
  lemma {:induction false} ConjunctionParses(s: string, i: nat, c: Conjunction)
    requires WrittenTerms(c) && StandsAt(s, i, ConjunctionText(c)) && EndsItem(s, i + |ConjunctionText(c)|)
    requires !IsOperator(s, i + |ConjunctionText(c)|, '&')
    ensures i + |ConjunctionText(c)| <= |s|
    ensures ParseAnd(s, i) == Parsed(ConjunctionTerm(c), i + |ConjunctionText(c)|)
    decreases c, 1
  {
    hide ParseEquation, StandsAt, ItemText, ItemTerm;
    var e := i + |ConjunctionText(c)|;
    match c
    case Last(item) =>
      ItemParses(s, i, item);
      assert AndMore(s, i, ItemTerm(item), e) == Parsed(ItemTerm(item), e);
    case And(item, rest) =>
      var m := i + |ItemText(item)|;
      TwoParts(s, i, ItemText(item), "&&" + ConjunctionText(rest));
      TwoParts(s, m, "&&", ConjunctionText(rest));
      FourChars(s, m, "&&");
      ItemParses(s, i, item);
      ConjunctionParses(s, m + 2, rest);
      assert AndMore(s, i, ConjunctionTerm(c), e) == Parsed(ConjunctionTerm(c), e);
      assert AndMore(s, i, ItemTerm(item), m) == Parsed(ConjunctionTerm(c), e);
  }

  /** A disjunction: the parser has its term and goes on behind it. */
  lemma {:induction false} DisjunctionParses(s: string, i: nat, d: Disjunction)
    requires Written(d) && StandsAt(s, i, DisjunctionText(d)) && EndsItem(s, i + |DisjunctionText(d)|)
    requires !IsOperator(s, i + |DisjunctionText(d)|, '&')
    ensures i + |DisjunctionText(d)| <= |s|
    ensures ParseOr(s, i) == OrMore(s, i, DisjunctionTerm(d), i + |DisjunctionText(d)|)
    decreases d, 1
  {
    hide ParseAnd, StandsAt, ConjunctionText, ConjunctionTerm;
    match d
    case First(terms) => ConjunctionParses(s, i, terms);
    case Or(rest, terms) =>
      var m := i + |DisjunctionText(rest)|;
      TwoParts(s, i, DisjunctionText(rest), "||" + ConjunctionText(terms));
      TwoParts(s, m, "||", ConjunctionText(terms));
      FourChars(s, m, "||");
      DisjunctionParses(s, i, rest);
      ConjunctionParses(s, m + 2, terms);
  }

  /** A query is parsed to the term it is written for: && binds closer than || and groups to
      the right, || groups to the left. */
  lemma {:induction false} QueryParses(d: Disjunction)
    requires Written(d)
    ensures ParseOr(DisjunctionText(d), 0) == Parsed(DisjunctionTerm(d), |DisjunctionText(d)|)
  {
    hide ParseOr, DisjunctionText;
    var s := DisjunctionText(d);
    assert s[0..|s|] == s;
    DisjunctionParses(s, 0, d);
    StopsOr(s, 0, DisjunctionTerm(d), |s|);
  }
}
