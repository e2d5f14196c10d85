/** How a query goes through its plan: the equations are prepared one after the other, and
the first that cannot be prepared ends the query. */
module QuerySearch {
  import opened QueryTerms
  import opened QueryPlan

  // ---------- preparing an equation ----------

  /** What an equation finds when it is prepared. */
  datatype Surroundings = Surroundings(
    hasIndex: bool,         // there is an index for the attribute
    hasNameIndex: bool,     // there is one for all names
    convertible: bool,      // the value can be converted to the type of the index
    isPattern: bool,
    firstSymbol: int,       // the place of the first symbol of the pattern
    keySize: nat,           // the size of the keys of the index; 0 if it is not fixed
    isString: bool,
    length: nat,            // of the value as a string
    isTime: bool,           // times are stored with some low bits more
    inIndex: bool)          // the search key is in the index

  datatype Preparation = Ready | NotFound | BadValue

  /** TreeIterator::Find. */
  function FindKey(size: int, inIndex: bool): Preparation {
    if size < 1 || size > 256 then BadValue else if inIndex then Ready else NotFound
  }

  /** Equation::PrepareQuery. */
  function Prepare(op: Comparison, s: Surroundings): Preparation {
    var ownIndex := s.hasIndex && op != Unequal;
    if !ownIndex && !s.hasNameIndex then NotFound
    else if !s.convertible then BadValue
    else if !ownIndex || !(op == Equal || op == GreaterThan || op == GreaterThanOrEqual || s.isPattern) then Ready
    else if s.isPattern && s.firstSymbol <= 0 then Ready
    else
      var keySize := if s.isPattern then s.firstSymbol else s.keySize;
      if keySize == 0 && !s.isString then NotFound
      else
        var found := FindKey(if keySize == 0 then s.length else keySize, s.inIndex);
        if !s.isTime && op == Equal && !s.isPattern then found
        else if found == NotFound then Ready
        else found
  }

  /** An equality with an index of its own, a value that fits and no pattern in it can be
      prepared exactly if its value is in the index. */
  lemma EqualityPrepared(s: Surroundings)
    requires s.hasIndex && s.convertible && !s.isPattern && !s.isTime
    requires if s.keySize == 0 then s.isString && 1 <= s.length <= 256 else s.keySize <= 256
    ensures Prepare(Equal, s) == if s.inIndex then Ready else NotFound
  {
  }

  /** All other comparisons fail only for want of an index, a value or a key to start at. */
  lemma OthersPrepared(op: Comparison, s: Surroundings)
    requires op != Equal || s.isPattern || s.isTime
    ensures Prepare(op, s) == Ready <==>
              var ownIndex := s.hasIndex && op != Unequal;
              var starts := op == Equal || op == GreaterThan || op == GreaterThanOrEqual || s.isPattern;
              && (ownIndex || s.hasNameIndex) && s.convertible
              && (ownIndex && starts ==>
                    if s.isPattern then s.firstSymbol <= 256
                    else if s.keySize > 0 then s.keySize <= 256
                    else s.isString && 1 <= s.length <= 256)
  {
  }

  /** An equation can be prepared exactly if there is an index to go through, its value can be
      converted, a search in an index of its own starts at a key of a legal length, and, for an
      equality without a pattern that is not about times, this key is in the index. */
  lemma PreparedExactly(op: Comparison, s: Surroundings)
    ensures Prepare(op, s) == Ready <==>
              var ownIndex := s.hasIndex && op != Unequal;
              var searches := ownIndex && (op in {Equal, GreaterThan, GreaterThanOrEqual} || s.isPattern)
                              && !(s.isPattern && s.firstSymbol <= 0);
              var length := if s.isPattern then s.firstSymbol else if s.keySize > 0 then s.keySize else s.length;
              && (ownIndex || s.hasNameIndex) && s.convertible
              && (searches ==> 1 <= length <= 256 && (s.isPattern || s.keySize > 0 || s.isString))
              && (searches && op == Equal && !s.isPattern && !s.isTime ==> s.inIndex)
    ensures !s.hasIndex && !s.hasNameIndex ==> Prepare(op, s) == NotFound
    ensures (s.hasIndex || s.hasNameIndex) && !s.convertible && op != Unequal ==> Prepare(op, s) == BadValue
  {
  }

  // ---------- what is found ----------

  predicate IsReady(t: Term, s: Surroundings)
    requires t.Equation?
  {
    Prepare(t.op, s) == Ready
  }

  predicate ReadyAt(t: Term, around: seq<Surroundings>, p: Path)
    requires |around| == Leaves(t)
  {
    IsPath(t, p) && At(t, p).Equation? && IsReady(At(t, p), Part(t, around, p)[0])
  }

  /** All equations of the plan from the left to `p` can be prepared. */
  ghost predicate Reached(t: Term, scores: seq<int>, around: seq<Surroundings>, p: Path)
    requires |scores| == |around| == Leaves(t)
  {
    forall q :: InPlan(t, scores, q) && (q == p || LeftOf(q, p)) ==> ReadyAt(t, around, q)
  }

  /** The inode is found before the query ends. */
  ghost predicate FoundInTime(t: Term, scores: seq<int>, around: seq<Surroundings>, fs: Findings)
    requires |scores| == |around| == |fs| == Leaves(t)
  {
    exists p :: FoundAt(t, scores, fs, p, true) && Reached(t, scores, around, p)
  }

  /** All equations of the plan can be prepared. */
  predicate PlanReady(t: Term, scores: seq<int>, around: seq<Surroundings>)
    requires |scores| == |around| == Leaves(t)
  {
    match t
    case Equation(_, _, _) => IsReady(t, around[0])
    case Operator(isAnd, l, r) =>
      && (!(isAnd && RightFirst(t, scores)) ==> PlanReady(l, Side(t, scores, false), Side(t, around, false)))
      && (!isAnd || RightFirst(t, scores) ==> PlanReady(r, Side(t, scores, true), Side(t, around, true)))
  }

  /** The same as FoundInTime, term by term. */
  predicate InTime(t: Term, scores: seq<int>, around: seq<Surroundings>, fs: Findings)
    requires |scores| == |around| == |fs| == Leaves(t)
  {
    match t
    case Equation(_, op, _) => IsReady(t, around[0]) && EquationHolds(op, fs[0])
    case Operator(isAnd, l, r) =>
      var sl, sr := Side(t, scores, false), Side(t, scores, true);
      var al, ar := Side(t, around, false), Side(t, around, true);
      var fl, fr := Side(t, fs, false), Side(t, fs, true);
      if !isAnd then InTime(l, sl, al, fl) || (PlanReady(l, sl, al) && InTime(r, sr, ar, fr))
      else if RightFirst(t, scores) then InTime(r, sr, ar, fr) && Match(l, sl, fl) == MatchOk
      else InTime(l, sl, al, fl) && Match(r, sr, fr) == MatchOk
  }

  lemma {:induction false} ReadyBelow(t: Term, around: seq<Surroundings>, right: bool, p: Path)
    requires |around| == Leaves(t) && t.Operator?
    ensures ReadyAt(t, around, [right] + p)
       <==> ReadyAt(if right then t.right else t.left, Side(t, around, right), p)
  {
    assert ([right] + p)[1..] == p;
  }

  lemma {:induction false} InPlanBelow(t: Term, scores: seq<int>, right: bool, p: Path)
    requires |scores| == Leaves(t) && t.Operator?
    ensures InPlan(t, scores, [right] + p)
       <==> (t.isAnd ==> right == RightFirst(t, scores))
            && InPlan(if right then t.right else t.left, Side(t, scores, right), p)
  {
    assert ([right] + p)[1..] == p;
  }

  lemma {:induction false} PlanReadyIs(t: Term, scores: seq<int>, around: seq<Surroundings>)
    requires |scores| == |around| == Leaves(t)
    ensures PlanReady(t, scores, around) <==> forall q :: InPlan(t, scores, q) ==> ReadyAt(t, around, q)
  {
    hide RightFirst, IsReady;
    if t.Equation? {
      assert InPlan(t, scores, []);
    } else {
      PlanReadyIs(t.left, Side(t, scores, false), Side(t, around, false));
      PlanReadyIs(t.right, Side(t, scores, true), Side(t, around, true));
      hide InPlan, ReadyAt;
      if PlanReady(t, scores, around) {
        forall q | InPlan(t, scores, q)
          ensures ReadyAt(t, around, q)
        {
          PlanPathStarts(t, scores, q);
          InPlanBelow(t, scores, q[0], q[1..]);
          ReadyBelow(t, around, q[0], q[1..]);
        }
      }
      if forall q :: InPlan(t, scores, q) ==> ReadyAt(t, around, q) {
        if !t.isAnd || !RightFirst(t, scores) {
          PlanReadyOnSide(t, scores, around, false);
        }
        if !t.isAnd || RightFirst(t, scores) {
          PlanReadyOnSide(t, scores, around, true);
        }
      }
    }
  }

  lemma {:induction false} PlanReadyOnSide(t: Term, scores: seq<int>, around: seq<Surroundings>, right: bool)
    requires |scores| == |around| == Leaves(t) && t.Operator? && (t.isAnd ==> right == RightFirst(t, scores))
    requires forall q :: InPlan(t, scores, q) ==> ReadyAt(t, around, q)
    ensures var u, s, a := if right then t.right else t.left, Side(t, scores, right), Side(t, around, right);
            forall q :: InPlan(u, s, q) ==> ReadyAt(u, a, q)
  {
    hide RightFirst, InPlan, ReadyAt;
    var u, s, a := if right then t.right else t.left, Side(t, scores, right), Side(t, around, right);
    forall q | InPlan(u, s, q)
      ensures ReadyAt(u, a, q)
    {
      InPlanBelow(t, scores, right, q);
      ReadyBelow(t, around, right, q);
    }
  }

  lemma {:induction false} PlanPathStarts(t: Term, scores: seq<int>, q: Path)
    requires |scores| == Leaves(t) && t.Operator? && InPlan(t, scores, q)
    ensures q != [] && q == [q[0]] + q[1..]
  {
  }

  /** What has to be prepared on one side before `p` is reached there. */
  lemma {:induction false} ReachedBelow(t: Term, scores: seq<int>, around: seq<Surroundings>, right: bool, p: Path)
    requires |scores| == |around| == Leaves(t) && t.Operator?
    requires t.isAnd ==> right == RightFirst(t, scores)
    ensures Reached(t, scores, around, [right] + p) <==>
              && Reached(if right then t.right else t.left, Side(t, scores, right), Side(t, around, right), p)
              && (!t.isAnd && right ==> PlanReady(t.left, Side(t, scores, false), Side(t, around, false)))
  {
    hide RightFirst, InPlan, ReadyAt, PlanReady;
    var u, s, a := if right then t.right else t.left, Side(t, scores, right), Side(t, around, right);
    PlanReadyIs(t.left, Side(t, scores, false), Side(t, around, false));
    assert ([right] + p)[1..] == p;
    if Reached(t, scores, around, [right] + p) {
      forall q | InPlan(u, s, q) && (q == p || LeftOf(q, p))
        ensures ReadyAt(u, a, q)
      {
        InPlanBelow(t, scores, right, q);
        ReadyBelow(t, around, right, q);
        assert ([right] + q)[1..] == q;
      }
      if !t.isAnd && right {
        forall q | InPlan(t.left, Side(t, scores, false), q)
          ensures ReadyAt(t.left, Side(t, around, false), q)
        {
          InPlanBelow(t, scores, false, q);
          ReadyBelow(t, around, false, q);
          assert LeftOf([false] + q, [right] + p);
        }
      }
    }
    if Reached(u, s, a, p) && (!t.isAnd && right ==> PlanReady(t.left, Side(t, scores, false), Side(t, around, false))) {
      forall q | InPlan(t, scores, q) && (q == [right] + p || LeftOf(q, [right] + p))
        ensures ReadyAt(t, around, q)
      {
        PlanPathStarts(t, scores, q);
        InPlanBelow(t, scores, q[0], q[1..]);
        ReadyBelow(t, around, q[0], q[1..]);
      }
    }
  }

  /** The inode is found in time by being found on a side of the term. */
  ghost predicate OnSide(t: Term, scores: seq<int>, around: seq<Surroundings>, fs: Findings, right: bool)
    requires |scores| == |around| == |fs| == Leaves(t) && t.Operator?
  {
    && FoundInTime(if right then t.right else t.left, Side(t, scores, right), Side(t, around, right), Side(t, fs, right))
    && (t.isAnd ==> right == RightFirst(t, scores))
    && (t.isAnd ==> Passes(if right then t.left else t.right, Side(t, scores, !right), Side(t, fs, !right), true))
    && (!t.isAnd && right ==> PlanReady(t.left, Side(t, scores, false), Side(t, around, false)))
  }

  lemma {:induction false} FoundInTimeBelow(t: Term, scores: seq<int>, around: seq<Surroundings>, fs: Findings, right: bool)
    requires |scores| == |around| == |fs| == Leaves(t) && t.Operator?
    requires OnSide(t, scores, around, fs, right)
    ensures FoundInTime(t, scores, around, fs)
  {
    hide RightFirst, FoundAt, Passes, Reached, PlanReady;
    var u, s, a, f := if right then t.right else t.left, Side(t, scores, right), Side(t, around, right), Side(t, fs, right);
    var p :| FoundAt(u, s, f, p, true) && Reached(u, s, a, p);
    FoundOnSide(t, scores, fs, right, p, true);
    ReachedBelow(t, scores, around, right, p);
  }

  /** Both ways to say what is found in time agree. */
  lemma {:induction false} InTimeIs(t: Term, scores: seq<int>, around: seq<Surroundings>, fs: Findings)
    requires |scores| == |around| == |fs| == Leaves(t)
    ensures FoundInTime(t, scores, around, fs) <==> InTime(t, scores, around, fs)
  {
    if t.Equation? {
      assert FoundAt(t, scores, fs, [], true) <==> EquationHolds(t.op, fs[0]);
      assert Reached(t, scores, around, []) <==> IsReady(t, around[0]) by {
        assert InPlan(t, scores, []);
      }
    } else {
      hide RightFirst, FoundAt, Reached, PlanReady, FoundInTime, Match;
      InTimeIs(t.left, Side(t, scores, false), Side(t, around, false), Side(t, fs, false));
      InTimeIs(t.right, Side(t, scores, true), Side(t, around, true), Side(t, fs, true));
      if FoundInTime(t, scores, around, fs) {
        FoundInTimeGoesDown(t, scores, around, fs);
      }
      if InTime(t, scores, around, fs) {
        var right := if t.isAnd then RightFirst(t, scores)
                     else !InTime(t.left, Side(t, scores, false), Side(t, around, false), Side(t, fs, false));
        FoundInTimeBelow(t, scores, around, fs, right);
      }
    }
  }

  lemma {:induction false} FoundInTimeGoesDown(t: Term, scores: seq<int>, around: seq<Surroundings>, fs: Findings)
    requires |scores| == |around| == |fs| == Leaves(t) && t.Operator? && FoundInTime(t, scores, around, fs)
    ensures OnSide(t, scores, around, fs, false) || OnSide(t, scores, around, fs, true)
  {
    hide RightFirst, FoundAt, Passes, Reached, PlanReady;
    var p :| FoundAt(t, scores, fs, p, true) && Reached(t, scores, around, p);
    NotEmpty(t, scores, fs, p, true);
    assert p == [p[0]] + p[1..];
    FoundOnSide(t, scores, fs, p[0], p[1..], true);
    ReachedBelow(t, scores, around, p[0], p[1..]);
  }

  // ---------- when everything is found ----------

  /** The inode is one that can be met: an equation that cannot hold does not. */
  predicate Allowed(t: Term, may: seq<bool>, fs: Findings)
    requires |may| == |fs| == Leaves(t)
  {
    match t
    case Equation(_, op, _) => !fs[0].Failed? && (EquationHolds(op, fs[0]) ==> may[0])
    case Operator(_, l, r) =>
      Allowed(l, Side(t, may, false), Side(t, fs, false)) && Allowed(r, Side(t, may, true), Side(t, fs, true))
  }

  /** Some inode can have the meaning asked for. */
  predicate Possible(t: Term, may: seq<bool>)
    requires |may| == Leaves(t)
  {
    match t
    case Equation(_, _, _) => may[0]
    case Operator(isAnd, l, r) =>
      var a, b := Possible(l, Side(t, may, false)), Possible(r, Side(t, may, true));
      if isAnd then a && b else a || b
  }

  /** Matching overlooks nothing that can be met. */
  predicate MatchesAll(t: Term, scores: seq<int>, may: seq<bool>)
    requires |scores| == |may| == Leaves(t)
  {
    match t
    case Equation(_, _, _) => true
    case Operator(isAnd, l, r) =>
      var ml, mr := Side(t, may, false), Side(t, may, true);
      || (isAnd && !(Possible(l, ml) && Possible(r, mr)))
      || (&& MatchesAll(l, Side(t, scores, false), ml)
          && if isAnd || RightFirst(t, scores) then MatchesAll(r, Side(t, scores, true), mr) else !Possible(r, mr))
  }

  /** The condition under which a query finds all it should: it does not end in front of an
      equation by which an inode can be found, and the other side of an && is matched
      rightly. */
  predicate FindsAll(t: Term, scores: seq<int>, around: seq<Surroundings>, may: seq<bool>)
    requires |scores| == |around| == |may| == Leaves(t)
  {
    match t
    case Equation(_, _, _) => may[0] ==> IsReady(t, around[0])
    case Operator(isAnd, l, r) =>
      var sl, sr := Side(t, scores, false), Side(t, scores, true);
      var al, ar := Side(t, around, false), Side(t, around, true);
      var ml, mr := Side(t, may, false), Side(t, may, true);
      if !isAnd then
        FindsAll(l, sl, al, ml) && if PlanReady(l, sl, al) then FindsAll(r, sr, ar, mr) else !Possible(r, mr)
      else
        || !(Possible(l, ml) && Possible(r, mr))
        || if RightFirst(t, scores) then FindsAll(r, sr, ar, mr) && MatchesAll(l, sl, ml)
           else FindsAll(l, sl, al, ml) && MatchesAll(r, sr, mr)
  }

  lemma {:induction false} Impossible(t: Term, may: seq<bool>, fs: Findings)
    requires |may| == |fs| == Leaves(t) && Allowed(t, may, fs) && Meaning(t, fs)
    ensures Possible(t, may)
  {
    if t.Operator? {
      if Meaning(t.left, Side(t, fs, false)) {
        Impossible(t.left, Side(t, may, false), Side(t, fs, false));
      }
      if Meaning(t.right, Side(t, fs, true)) {
        Impossible(t.right, Side(t, may, true), Side(t, fs, true));
      }
    }
  }

  lemma {:induction false} AllowedMatch(t: Term, scores: seq<int>, may: seq<bool>, fs: Findings)
    requires |scores| == |may| == |fs| == Leaves(t) && Allowed(t, may, fs)
    ensures Match(t, scores, fs) != Error
    ensures MatchesAll(t, scores, may) ==> (Match(t, scores, fs) == MatchOk) == Meaning(t, fs)
  {
    if t.Operator? {
      hide RightFirst;
      AllowedMatch(t.left, Side(t, scores, false), Side(t, may, false), Side(t, fs, false));
      AllowedMatch(t.right, Side(t, scores, true), Side(t, may, true), Side(t, fs, true));
      MatchSound(t, scores, fs);
      if Meaning(t, fs) {
        Impossible(t, may, fs);
      }
      if Meaning(t.right, Side(t, fs, true)) {
        Impossible(t.right, Side(t, may, true), Side(t, fs, true));
      }
    }
  }

  lemma {:induction false} InTimeSound(t: Term, scores: seq<int>, around: seq<Surroundings>, fs: Findings)
    requires |scores| == |around| == |fs| == Leaves(t) && InTime(t, scores, around, fs)
    ensures Meaning(t, fs)
  {
    hide Reached, FoundAt;
    InTimeIs(t, scores, around, fs);
    PlanSound(t, scores, fs);
  }

  lemma {:induction false} FoundAll(t: Term, scores: seq<int>, around: seq<Surroundings>, may: seq<bool>, fs: Findings)
    requires |scores| == |around| == |may| == |fs| == Leaves(t)
    requires FindsAll(t, scores, around, may) && Allowed(t, may, fs) && Meaning(t, fs)
    ensures InTime(t, scores, around, fs)
  {
    if t.Operator? {
      hide RightFirst, PlanReady, Match;
      var sl, sr := Side(t, scores, false), Side(t, scores, true);
      var al, ar := Side(t, around, false), Side(t, around, true);
      var ml, mr := Side(t, may, false), Side(t, may, true);
      var fl, fr := Side(t, fs, false), Side(t, fs, true);
      Impossible(t, may, fs);
      AllowedMatch(t.left, sl, ml, fl);
      AllowedMatch(t.right, sr, mr, fr);
      if Meaning(t.left, fl) {
        Impossible(t.left, ml, fl);
        if FindsAll(t.left, sl, al, ml) {
          FoundAll(t.left, sl, al, ml, fl);
        }
      }
      if Meaning(t.right, fr) {
        Impossible(t.right, mr, fr);
        if FindsAll(t.right, sr, ar, mr) {
          FoundAll(t.right, sr, ar, mr, fr);
        }
      }
    }
  }

  /** Findings by which everything holds that can. */
  function Best(t: Term, may: seq<bool>): (fs: Findings)
    requires |may| == Leaves(t)
    ensures |fs| == Leaves(t)
  {
    match t
    case Equation(_, op, _) => [if may[0] then Hit(op) else Miss(op)]
    case Operator(_, l, r) => Best(l, Side(t, may, false)) + Best(r, Side(t, may, true))
  }

  lemma {:induction false} BestIs(t: Term, may: seq<bool>)
    requires |may| == Leaves(t)
    ensures Allowed(t, may, Best(t, may)) && Meaning(t, Best(t, may)) == Possible(t, may)
  {
    if t.Operator? {
      var fs := Best(t, may);
      BestIs(t.left, Side(t, may, false));
      BestIs(t.right, Side(t, may, true));
      assert Side(t, fs, false) == Best(t.left, Side(t, may, false));
      assert Side(t, fs, true) == Best(t.right, Side(t, may, true));
    }
  }

  lemma {:induction false} NothingAllowed(t: Term, scores: seq<int>, may: seq<bool>)
    requires |scores| == |may| == Leaves(t)
    ensures Allowed(t, may, All(t, false)) && !Meaning(t, All(t, false)) && Match(t, scores, All(t, false)) == NoMatch
  {
    AllMeans(t, scores, false);
    if t.Operator? {
      var fs := All(t, false);
      NothingAllowed(t.left, Side(t, scores, false), Side(t, may, false));
      NothingAllowed(t.right, Side(t, scores, true), Side(t, may, true));
      assert Side(t, fs, false) == All(t.left, false) && Side(t, fs, true) == All(t.right, false);
    }
  }

  lemma {:induction false} MatchMissed(t: Term, scores: seq<int>, may: seq<bool>) returns (fs: Findings)
    requires |scores| == |may| == Leaves(t) && !MatchesAll(t, scores, may)
    ensures |fs| == Leaves(t) && Allowed(t, may, fs) && Meaning(t, fs) && Match(t, scores, fs) != MatchOk
  {
    hide RightFirst;
    var sl, sr := Side(t, scores, false), Side(t, scores, true);
    var ml, mr := Side(t, may, false), Side(t, may, true);
    var l, r;
    if !MatchesAll(t.left, sl, ml) {
      l := MatchMissed(t.left, sl, ml);
      r := if t.isAnd then Best(t.right, mr) else All(t.right, false);
    } else {
      l := if t.isAnd then Best(t.left, ml) else All(t.left, false);
      if t.isAnd || RightFirst(t, scores) {
        r := MatchMissed(t.right, sr, mr);
      } else {
        r := Best(t.right, mr);
      }
    }
    BestIs(t.left, ml);
    BestIs(t.right, mr);
    NothingAllowed(t.left, sl, ml);
    NothingAllowed(t.right, sr, mr);
    fs := l + r;
    assert Side(t, fs, false) == l && Side(t, fs, true) == r;
  }

  /** An inode that is asked for and not found in time. */
  lemma {:induction false} Missed(t: Term, scores: seq<int>, around: seq<Surroundings>, may: seq<bool>) returns (fs: Findings)
    requires |scores| == |around| == |may| == Leaves(t) && !FindsAll(t, scores, around, may)
    ensures |fs| == Leaves(t) && Allowed(t, may, fs) && Meaning(t, fs) && !InTime(t, scores, around, fs)
  {
    if t.Equation? {
      fs := [Hit(t.op)];
      return;
    }
    hide RightFirst, PlanReady, Match;
    var sl, sr := Side(t, scores, false), Side(t, scores, true);
    var al, ar := Side(t, around, false), Side(t, around, true);
    var ml, mr := Side(t, may, false), Side(t, may, true);
    var l, r;
    BestIs(t.left, ml);
    BestIs(t.right, mr);
    NothingAllowed(t.left, sl, ml);
    NothingAllowed(t.right, sr, mr);
    if !t.isAnd {
      if !FindsAll(t.left, sl, al, ml) {
        l := Missed(t.left, sl, al, ml);
        r := All(t.right, false);
      } else {
        l := All(t.left, false);
        if PlanReady(t.left, sl, al) {
          r := Missed(t.right, sr, ar, mr);
        } else {
          r := Best(t.right, mr);
        }
      }
      NotInTime(t.left, sl, al, l);
      NotInTime(t.right, sr, ar, r);
    } else if RightFirst(t, scores) {
      if !FindsAll(t.right, sr, ar, mr) {
        l := Best(t.left, ml);
        r := Missed(t.right, sr, ar, mr);
      } else {
        r := Best(t.right, mr);
        l := MatchMissed(t.left, sl, ml);
      }
    } else {
      if !FindsAll(t.left, sl, al, ml) {
        r := Best(t.right, mr);
        l := Missed(t.left, sl, al, ml);
      } else {
        l := Best(t.left, ml);
        r := MatchMissed(t.right, sr, mr);
      }
    }
    fs := l + r;
    assert Side(t, fs, false) == l && Side(t, fs, true) == r;
  }

  lemma {:induction false} NotInTime(t: Term, scores: seq<int>, around: seq<Surroundings>, fs: Findings)
    requires |scores| == |around| == |fs| == Leaves(t)
    ensures !Meaning(t, fs) ==> !InTime(t, scores, around, fs)
  {
    if InTime(t, scores, around, fs) {
      InTimeSound(t, scores, around, fs);
    }
  }

  ghost predicate SearchedAsMeant(t: Term, scores: seq<int>, around: seq<Surroundings>, may: seq<bool>)
    requires |scores| == |around| == |may| == Leaves(t)
  {
    forall fs: Findings :: |fs| == Leaves(t) && Allowed(t, may, fs) ==>
      FoundInTime(t, scores, around, fs) == Meaning(t, fs)
  }

  /** A query finds just the inodes it is asked for, among all that can be met, exactly if
      it does not end too early and matches rightly. */
  lemma {:induction false} SearchExactly(t: Term, scores: seq<int>, around: seq<Surroundings>, may: seq<bool>)
    requires |scores| == |around| == |may| == Leaves(t)
    ensures SearchedAsMeant(t, scores, around, may) <==> FindsAll(t, scores, around, may)
  {
    hide FoundInTime, Allowed, FindsAll, InTime;
    if FindsAll(t, scores, around, may) {
      forall fs: Findings | |fs| == Leaves(t) && Allowed(t, may, fs)
        ensures FoundInTime(t, scores, around, fs) == Meaning(t, fs)
      {
        InTimeIs(t, scores, around, fs);
        NotInTime(t, scores, around, fs);
        if Meaning(t, fs) {
          FoundAll(t, scores, around, may, fs);
        }
      }
    } else {
      var fs := Missed(t, scores, around, may);
      InTimeIs(t, scores, around, fs);
    }
  }

  predicate AllMay(may: seq<bool>) {
    forall i :: 0 <= i < |may| ==> may[i]
  }

  lemma {:induction false} AllMaySides(t: Term, scores: seq<int>, may: seq<bool>)
    requires |scores| == |may| == Leaves(t) && AllMay(may)
    ensures Possible(t, may)
    ensures MatchesAll(t, scores, may) <==> OrsRightFirst(t, scores)
  {
    if t.Operator? {
      hide RightFirst;
      AllMaySides(t.left, Side(t, scores, false), Side(t, may, false));
      AllMaySides(t.right, Side(t, scores, true), Side(t, may, true));
    }
  }

  /** If every equation may hold, all equations of the plan have to be prepared, and every
      || that is only matched has to have its better side on the right. */
  lemma {:induction false} SearchAnything(t: Term, scores: seq<int>, around: seq<Surroundings>, may: seq<bool>)
    requires |scores| == |around| == |may| == Leaves(t) && AllMay(may)
    ensures FindsAll(t, scores, around, may) <==> PlanReady(t, scores, around) && SidesRightFirst(t, scores)
  {
    if t.Operator? {
      hide RightFirst;
      AllMaySides(t.left, Side(t, scores, false), Side(t, may, false));
      AllMaySides(t.right, Side(t, scores, true), Side(t, may, true));
      SearchAnything(t.left, Side(t, scores, false), Side(t, around, false), Side(t, may, false));
      SearchAnything(t.right, Side(t, scores, true), Side(t, around, true), Side(t, may, true));
    }
  }

  /** A value that is not in its index hides what the other side of a || asks for. */
  lemma {:induction false} ValueNotInIndex(a: Surroundings, b: Surroundings)
    requires a.hasIndex && a.convertible && !a.isPattern && !a.isTime && !a.inIndex
    requires a.keySize == 0 && a.isString && a.length == 1
    ensures var t := Operator(false, Equation("a", Equal, "x"), Equation("b", Equal, "y"));
            var fs := [Compared(1), Compared(0)];
            && Meaning(t, fs) && Allowed(t, [false, true], fs)
            && forall scores: seq<int> :: |scores| == 2 ==> !FoundInTime(t, scores, [a, b], fs)
  {
    var t := Operator(false, Equation("a", Equal, "x"), Equation("b", Equal, "y"));
    var fs := [Compared(1), Compared(0)];
    forall scores: seq<int> | |scores| == 2
      ensures !FoundInTime(t, scores, [a, b], fs)
    {
      hide FoundInTime;
      InTimeIs(t, scores, [a, b], fs);
    }
  }

  // ---------- the search ----------

  /** Whether a query finds an inode: the equations are taken from the end of the plan, and
      the first that cannot be prepared ends the query. */
  method Search(t: Term, scores: seq<int>, around: seq<Surroundings>, fs: Findings) returns (found: bool)
    requires |scores| == |around| == |fs| == Leaves(t)
    ensures found <==> FoundInTime(t, scores, around, fs)
  {
    hide InPlan, WayHolds, LeftOf, Prepare;
    var plan := MakePlan(t, scores);
    var i := |plan|;
    while i > 0
      invariant 0 <= i <= |plan|
      invariant forall j :: i <= j < |plan| ==> !FoundAt(t, scores, fs, plan[j], true) && ReadyAt(t, around, plan[j])
    {
      i := i - 1;
      var p := plan[i];
      InPlanIsLeaf(t, scores, p);
      if Prepare(At(t, p).op, Part(t, around, p)[0]) != Ready {
        EndsSearch(t, scores, around, fs, plan, i);
        return false;
      }
      if EquationMatch(At(t, p).op, Part(t, fs, p)[0]) == MatchOk {
        var ok := CheckUpwards(t, scores, fs, p);
        if ok {
          assert FoundAt(t, scores, fs, p, true);
          AllBefore(t, scores, around, plan, i);
          return true;
        }
      }
    }
    found := false;
    forall p
      ensures !FoundAt(t, scores, fs, p, true)
    {
      if InPlan(t, scores, p) {
        assert p in plan;
      }
    }
  }

  /** The plan from right to left. */
  ghost predicate IsPlan(t: Term, scores: seq<int>, plan: seq<Path>)
    requires |scores| == Leaves(t)
  {
    && (forall p :: p in plan <==> InPlan(t, scores, p))
    && (forall i, j :: 0 <= i < j < |plan| ==> LeftOf(plan[j], plan[i]))
  }

  lemma {:induction false} LeftOfOneWay(p: Path, q: Path)
    requires LeftOf(p, q)
    ensures p != q && !LeftOf(q, p)
  {
    if p[0] == q[0] {
      LeftOfOneWay(p[1..], q[1..]);
    }
  }

  lemma {:induction false} AllBefore(t: Term, scores: seq<int>, around: seq<Surroundings>, plan: seq<Path>, i: nat)
    requires |scores| == |around| == Leaves(t) && IsPlan(t, scores, plan) && i < |plan|
    requires forall j :: i <= j < |plan| ==> ReadyAt(t, around, plan[j])
    ensures Reached(t, scores, around, plan[i])
  {
    hide InPlan, LeftOf, ReadyAt;
    forall q | InPlan(t, scores, q) && (q == plan[i] || LeftOf(q, plan[i]))
      ensures ReadyAt(t, around, q)
    {
      var j :| 0 <= j < |plan| && plan[j] == q;
      if j < i {
        LeftOfOneWay(plan[i], plan[j]);
      }
    }
  }

  /** An equation that cannot be prepared keeps the query from the equations behind it. */
  lemma {:induction false} EndsSearch(t: Term, scores: seq<int>, around: seq<Surroundings>, fs: Findings, plan: seq<Path>, i: nat)
    requires |scores| == |around| == |fs| == Leaves(t) && IsPlan(t, scores, plan) && i < |plan|
    requires !ReadyAt(t, around, plan[i])
    requires forall j :: i < j < |plan| ==> !FoundAt(t, scores, fs, plan[j], true)
    ensures !FoundInTime(t, scores, around, fs)
  {
    hide WayHolds, LeftOf, ReadyAt;
    forall p | FoundAt(t, scores, fs, p, true)
      ensures !Reached(t, scores, around, p)
    {
      var j :| 0 <= j < |plan| && plan[j] == p;
      assert plan[i] in plan;
    }
  }
}
