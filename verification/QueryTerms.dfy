/** The term tree of a query: what it means, its complement, its score, and how it is
matched against an inode. */
module QueryTerms {

  datatype Comparison = Equal | Unequal | GreaterThan | LessThan | GreaterThanOrEqual | LessThanOrEqual

  datatype Term =
    | Equation(attribute: string, op: Comparison, value: string)
    | Operator(isAnd: bool, left: Term, right: Term)

  /** How the attribute of an inode stands to the value of an equation. */
  datatype Finding =
    | Compared(order: int)      // negative, zero, positive
    | Missing                   // no such attribute, and the equation is not about strings
    | Failed                    // the attribute could not be read

  /** The findings for the equations of a term, from left to right. */
  type Findings = seq<Finding>

  function Leaves(t: Term): nat {
    match t
    case Equation(_, _, _) => 1
    case Operator(_, l, r) => Leaves(l) + Leaves(r)
  }

  predicate Holds(op: Comparison, order: int) {
    match op
    case Equal => order == 0
    case Unequal => order != 0
    case GreaterThan => order > 0
    case LessThan => order < 0
    case GreaterThanOrEqual => order >= 0
    case LessThanOrEqual => order <= 0
  }

  /** With the difference of two numbers the comparisons are those of the numbers. */
  lemma HoldsOfDifference(op: Comparison, a: int, b: int)
    ensures Holds(op, a - b) <==> match op
                                  case Equal => a == b
                                  case Unequal => a != b
                                  case GreaterThan => a > b
                                  case LessThan => a < b
                                  case GreaterThanOrEqual => a >= b
                                  case LessThanOrEqual => a <= b
  {
  }

  predicate EquationHolds(op: Comparison, f: Finding) {
    f.Compared? && Holds(op, f.order)
  }

  /** The meaning of a term. */
  predicate Meaning(t: Term, fs: Findings)
    requires |fs| == Leaves(t)
  {
    match t
    case Equation(_, op, _) => EquationHolds(op, fs[0])
    case Operator(isAnd, l, r) =>
      var a, b := Meaning(l, fs[..Leaves(l)]), Meaning(r, fs[Leaves(l)..]);
      if isAnd then a && b else a || b
  }

  // ---------- the complement ----------

  function ComplementOp(op: Comparison): Comparison {
    match op
    case Equal => Unequal
    case Unequal => Equal
    case GreaterThan => LessThanOrEqual
    case LessThan => GreaterThanOrEqual
    case GreaterThanOrEqual => LessThan
    case LessThanOrEqual => GreaterThan
  }

  function Complement(t: Term): (r: Term)
    ensures Leaves(r) == Leaves(t)
  {
    match t
    case Equation(a, op, v) => Equation(a, ComplementOp(op), v)
    case Operator(isAnd, l, r) => Operator(!isAnd, Complement(l), Complement(r))
  }

  lemma {:induction false} ComplementTwice(t: Term)
    ensures Complement(Complement(t)) == t
  {
    if t.Operator? {
      ComplementTwice(t.left);
      ComplementTwice(t.right);
    }
  }

  predicate AllCompared(fs: Findings) {
    forall i :: 0 <= i < |fs| ==> fs[i].Compared?
  }

  /** De Morgan: the complement means the opposite if every attribute can be compared. */
  lemma {:induction false} ComplementNegates(t: Term, fs: Findings)
    requires |fs| == Leaves(t) && AllCompared(fs)
    ensures Meaning(Complement(t), fs) == !Meaning(t, fs)
  {
    if t.Operator? {
      ComplementNegates(t.left, fs[..Leaves(t.left)]);
      ComplementNegates(t.right, fs[Leaves(t.left)..]);
    }
  }

  /** A disjunction of equations none of which holds. */
  function Refuted(fs: Findings): (t: Term)
    requires |fs| > 0
    ensures Leaves(t) == |fs|
  {
    var e := Equation("a", if fs[0] == Compared(0) then Unequal else Equal, "");
    if |fs| == 1 then e else Operator(false, e, Refuted(fs[1..]))
  }

  lemma {:induction false} RefutedIs(fs: Findings)
    requires |fs| > 0
    ensures !Meaning(Refuted(fs), fs)
    ensures !AllCompared(fs) ==> !Meaning(Complement(Refuted(fs)), fs)
  {
    if |fs| > 1 {
      RefutedIs(fs[1..]);
      assert fs == [fs[0]] + fs[1..];
    }
  }

  ghost predicate ComplementIsNegation(fs: Findings) {
    forall t: Term :: Leaves(t) == |fs| ==> Meaning(Complement(t), fs) == !Meaning(t, fs)
  }

  /** On an inode the complement of every term means the opposite exactly if every
      attribute can be compared: an equation about an attribute that is missing or cannot
      be read fails, and so does its complement. */
  lemma {:induction false} ComplementNegatesExactly(fs: Findings)
    requires |fs| > 0
    ensures ComplementIsNegation(fs) <==> AllCompared(fs)
  {
    if AllCompared(fs) {
      forall t: Term | Leaves(t) == |fs|
        ensures Meaning(Complement(t), fs) == !Meaning(t, fs)
      {
        ComplementNegates(t, fs);
      }
    } else {
      RefutedIs(fs);
      assert Leaves(Refuted(fs)) == |fs|;
    }
  }

  // ---------- scores ----------

  /** Operator::Score: the better one for &&, the worse one for ||. */
  function Score(t: Term, scores: seq<int>): int
    requires |scores| == Leaves(t)
  {
    match t
    case Equation(_, _, _) => scores[0]
    case Operator(isAnd, l, r) =>
      var a, b := Score(l, scores[..Leaves(l)]), Score(r, scores[Leaves(l)..]);
      if isAnd then (if b > a then b else a) else (if b < a then b else a)
  }

  /** The equations that hold are those with a score below `x`. */
  predicate HoldBelow(t: Term, scores: seq<int>, fs: Findings, x: int)
    requires |scores| == |fs| == Leaves(t)
  {
    match t
    case Equation(_, op, _) => EquationHolds(op, fs[0]) == (scores[0] < x)
    case Operator(_, l, r) =>
      && HoldBelow(l, scores[..Leaves(l)], fs[..Leaves(l)], x)
      && HoldBelow(r, scores[Leaves(l)..], fs[Leaves(l)..], x)
  }

  /** The score of a term is below a bound exactly if the term is true when an equation is
      taken to hold if its own score is below the bound. */
  lemma {:induction false} ScoreBelow(t: Term, scores: seq<int>, fs: Findings, x: int)
    requires |scores| == |fs| == Leaves(t) && HoldBelow(t, scores, fs, x)
    ensures Score(t, scores) < x <==> Meaning(t, fs)
  {
    if t.Operator? {
      var n := Leaves(t.left);
      ScoreBelow(t.left, scores[..n], fs[..n], x);
      ScoreBelow(t.right, scores[n..], fs[n..], x);
    }
  }

  /** Whether the right side has the better score. */
  predicate RightFirst(t: Term, scores: seq<int>)
    requires t.Operator? && |scores| == Leaves(t)
  {
    Score(t.right, scores[Leaves(t.left)..]) > Score(t.left, scores[..Leaves(t.left)])
  }

  // ---------- matching as it is done ----------

  datatype Status = MatchOk | NoMatch | Error

  function EquationMatch(op: Comparison, f: Finding): Status {
    match f
    case Compared(order) => if Holds(op, order) then MatchOk else NoMatch
    case Missing => NoMatch
    case Failed => Error
  }

  /** Operator::Match: of a disjunction the right side is looked at only if it has the
      better score. */
  function Match(t: Term, scores: seq<int>, fs: Findings): Status
    requires |scores| == |fs| == Leaves(t)
  {
    match t
    case Equation(_, op, _) => EquationMatch(op, fs[0])
    case Operator(isAnd, l, r) =>
      var n := Leaves(l);
      var a, b := Match(l, scores[..n], fs[..n]), Match(r, scores[n..], fs[n..]);
      if isAnd then (if a != MatchOk then a else b)
      else if RightFirst(t, scores) && b != NoMatch then b
      else a
  }

  /** Matching fails only for an attribute that cannot be read, and always if none can. */
  lemma {:induction false} MatchFails(t: Term, scores: seq<int>, fs: Findings)
    requires |scores| == |fs| == Leaves(t)
    ensures (forall i :: 0 <= i < |fs| ==> !fs[i].Failed?) ==> Match(t, scores, fs) != Error
    ensures (forall i :: 0 <= i < |fs| ==> fs[i].Failed?) ==> Match(t, scores, fs) == Error
  {
    if t.Operator? {
      var n := Leaves(t.left);
      MatchFails(t.left, scores[..n], fs[..n]);
      MatchFails(t.right, scores[n..], fs[n..]);
    }
  }

  /** Every || has its better side on the right. */
  predicate OrsRightFirst(t: Term, scores: seq<int>)
    requires |scores| == Leaves(t)
  {
    match t
    case Equation(_, _, _) => true
    case Operator(isAnd, l, r) =>
      && (isAnd || RightFirst(t, scores))
      && OrsRightFirst(l, scores[..Leaves(l)]) && OrsRightFirst(r, scores[Leaves(l)..])
  }

  /** What matches has the meaning asked for, whatever the scores. */
  lemma {:induction false} MatchSound(t: Term, scores: seq<int>, fs: Findings)
    requires |scores| == |fs| == Leaves(t)
    ensures Match(t, scores, fs) == MatchOk ==> Meaning(t, fs)
  {
    if t.Operator? {
      var n := Leaves(t.left);
      MatchSound(t.left, scores[..n], fs[..n]);
      MatchSound(t.right, scores[n..], fs[n..]);
    }
  }

  lemma {:induction false} MatchComplete(t: Term, scores: seq<int>, fs: Findings)
    requires |scores| == |fs| == Leaves(t) && OrsRightFirst(t, scores) && forall i :: 0 <= i < |fs| ==> !fs[i].Failed?
    ensures Match(t, scores, fs) == if Meaning(t, fs) then MatchOk else NoMatch
  {
    if t.Operator? {
      var n := Leaves(t.left);
      MatchComplete(t.left, scores[..n], fs[..n]);
      MatchComplete(t.right, scores[n..], fs[n..]);
    }
  }

  /** A finding that makes an equation hold, and one that makes it fail. */
  function Hit(op: Comparison): Finding {
    Compared(match op case Unequal => 1 case GreaterThan => 1 case LessThan => -1 case _ => 0)
  }

  function Miss(op: Comparison): Finding {
    Hit(ComplementOp(op))
  }

  /** Findings that make all equations hold, or all fail. */
  function All(t: Term, v: bool): (fs: Findings)
    ensures |fs| == Leaves(t) && AllCompared(fs)
  {
    match t
    case Equation(_, op, _) => [if v then Hit(op) else Miss(op)]
    case Operator(_, l, r) => All(l, v) + All(r, v)
  }

  lemma {:induction false} AllMeans(t: Term, scores: seq<int>, v: bool)
    requires |scores| == Leaves(t)
    ensures Meaning(t, All(t, v)) == v && Match(t, scores, All(t, v)) == if v then MatchOk else NoMatch
  {
    if t.Operator? {
      var n, fs := Leaves(t.left), All(t, v);
      AllMeans(t.left, scores[..n], v);
      AllMeans(t.right, scores[n..], v);
      assert fs[..n] == All(t.left, v) && fs[n..] == All(t.right, v);
    }
  }

  /** Findings that a term with a || the wrong way round is matched wrongly with. */
  function Overlooked(t: Term, scores: seq<int>): (fs: Findings)
    requires |scores| == Leaves(t) && !OrsRightFirst(t, scores)
    ensures |fs| == Leaves(t) && AllCompared(fs)
  {
    var n := Leaves(t.left);
    if !t.isAnd && !RightFirst(t, scores) then All(t.left, false) + All(t.right, true)
    else if !OrsRightFirst(t.left, scores[..n]) then Overlooked(t.left, scores[..n]) + All(t.right, t.isAnd)
    else All(t.left, t.isAnd) + Overlooked(t.right, scores[n..])
  }

  lemma {:induction false} OverlookedIs(t: Term, scores: seq<int>)
    requires |scores| == Leaves(t) && !OrsRightFirst(t, scores)
    ensures Meaning(t, Overlooked(t, scores)) && Match(t, scores, Overlooked(t, scores)) == NoMatch
  {
    var n, fs := Leaves(t.left), Overlooked(t, scores);
    if !t.isAnd && !RightFirst(t, scores) {
      AllMeans(t.left, scores[..n], false);
      AllMeans(t.right, scores[n..], true);
      assert fs[..n] == All(t.left, false) && fs[n..] == All(t.right, true);
    } else if !OrsRightFirst(t.left, scores[..n]) {
      OverlookedIs(t.left, scores[..n]);
      AllMeans(t.right, scores[n..], t.isAnd);
      assert fs[..n] == Overlooked(t.left, scores[..n]) && fs[n..] == All(t.right, t.isAnd);
    } else {
      OverlookedIs(t.right, scores[n..]);
      AllMeans(t.left, scores[..n], t.isAnd);
      assert fs[..n] == All(t.left, t.isAnd) && fs[n..] == Overlooked(t.right, scores[n..]);
    }
  }

  ghost predicate MatchesAsMeant(t: Term, scores: seq<int>)
    requires |scores| == Leaves(t)
  {
    forall fs: Findings :: |fs| == Leaves(t) && AllCompared(fs) ==> (Match(t, scores, fs) == MatchOk) == Meaning(t, fs)
  }

  /** Matching agrees with the meaning on every inode exactly if every || has its better
      side on the right; otherwise some inode that should be found is overlooked. */
  lemma {:induction false} MatchExactly(t: Term, scores: seq<int>)
    requires |scores| == Leaves(t)
    ensures MatchesAsMeant(t, scores) <==> OrsRightFirst(t, scores)
  {
    if OrsRightFirst(t, scores) {
      forall fs: Findings | |fs| == Leaves(t) && AllCompared(fs)
        ensures (Match(t, scores, fs) == MatchOk) == Meaning(t, fs)
      {
        MatchComplete(t, scores, fs);
      }
    } else {
      OverlookedIs(t, scores);
    }
  }
}
