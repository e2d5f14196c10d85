/** Which equations a query goes through, and what is checked for the inodes found there. */
module QueryPlan {
  import opened QueryTerms

  /** The way from the root of a term to a part of it; true is right. */
  type Path = seq<bool>

  predicate IsPath(t: Term, p: Path) {
    p == [] || (t.Operator? && IsPath(if p[0] then t.right else t.left, p[1..]))
  }

  function At(t: Term, p: Path): Term
    requires IsPath(t, p)
  {
    if p == [] then t else At(if p[0] then t.right else t.left, p[1..])
  }

  /** The part of a sequence, one element for each equation, that belongs to one side. */
  function Side<T>(t: Term, s: seq<T>, right: bool): (r: seq<T>)
    requires t.Operator? && |s| == Leaves(t)
    ensures |r| == Leaves(if right then t.right else t.left)
  {
    if right then s[Leaves(t.left)..] else s[..Leaves(t.left)]
  }

  function Part<T>(t: Term, s: seq<T>, p: Path): (r: seq<T>)
    requires IsPath(t, p) && |s| == Leaves(t)
    ensures |r| == Leaves(At(t, p))
  {
    if p == [] then s else Part(if p[0] then t.right else t.left, Side(t, s, p[0]), p[1..])
  }

  // ---------- the plan ----------

  /** The equations the plan keeps: both sides of ||, the side with the better score of &&. */
  predicate InPlan(t: Term, scores: seq<int>, p: Path)
    requires |scores| == Leaves(t)
  {
    match t
    case Equation(_, _, _) => p == []
    case Operator(isAnd, l, r) =>
      && p != [] && (isAnd ==> p[0] == RightFirst(t, scores))
      && InPlan(if p[0] then r else l, Side(t, scores, p[0]), p[1..])
  }

  lemma {:induction false} InPlanIsLeaf(t: Term, scores: seq<int>, p: Path)
    requires |scores| == Leaves(t) && InPlan(t, scores, p)
    ensures IsPath(t, p) && At(t, p).Equation?
  {
    if t.Operator? {
      InPlanIsLeaf(if p[0] then t.right else t.left, Side(t, scores, p[0]), p[1..]);
    }
  }

  // ---------- checking an inode ----------

  /** The other side of an && on the way holds: as matched, or as meant. */
  predicate Passes(t: Term, scores: seq<int>, fs: Findings, matched: bool)
    requires |scores| == |fs| == Leaves(t)
  {
    if matched then Match(t, scores, fs) == MatchOk else Meaning(t, fs)
  }

  /** The other sides of all && on a path hold. */
  predicate WayHolds(t: Term, scores: seq<int>, fs: Findings, p: Path, matched: bool)
    requires |scores| == |fs| == Leaves(t) && IsPath(t, p)
  {
    p == [] ||
    (&& (t.isAnd ==> Passes(if p[0] then t.left else t.right, Side(t, scores, !p[0]), Side(t, fs, !p[0]), matched))
     && WayHolds(if p[0] then t.right else t.left, Side(t, scores, p[0]), Side(t, fs, p[0]), p[1..], matched))
  }

  /** The inode is found through the equation at `p`. */
  predicate FoundAt(t: Term, scores: seq<int>, fs: Findings, p: Path, matched: bool)
    requires |scores| == |fs| == Leaves(t)
  {
    && InPlan(t, scores, p) && IsPath(t, p) && At(t, p).Equation?
    && EquationHolds(At(t, p).op, Part(t, fs, p)[0])
    && WayHolds(t, scores, fs, p, matched)
  }

  ghost predicate Found(t: Term, scores: seq<int>, fs: Findings, matched: bool)
    requires |scores| == |fs| == Leaves(t)
  {
    exists p :: FoundAt(t, scores, fs, p, matched)
  }

  /** Found in a term by being found on a side of it. */
  lemma {:induction false} FoundOnSide(t: Term, scores: seq<int>, fs: Findings, right: bool, p: Path, matched: bool)
    requires |scores| == |fs| == Leaves(t) && t.Operator?
    ensures FoundAt(t, scores, fs, [right] + p, matched) <==>
              && (t.isAnd ==> right == RightFirst(t, scores)
                              && Passes(if right then t.left else t.right, Side(t, scores, !right), Side(t, fs, !right), matched))
              && FoundAt(if right then t.right else t.left, Side(t, scores, right), Side(t, fs, right), p, matched)
  {
    assert ([right] + p)[1..] == p;
  }

  /** What the sides say about the whole. */
  lemma {:induction false} FoundSides(t: Term, scores: seq<int>, fs: Findings, matched: bool)
    requires |scores| == |fs| == Leaves(t) && t.Operator?
    ensures var l := Found(t.left, Side(t, scores, false), Side(t, fs, false), matched);
            var r := Found(t.right, Side(t, scores, true), Side(t, fs, true), matched);
            var first := RightFirst(t, scores);
            Found(t, scores, fs, matched) <==>
              if !t.isAnd then l || r
              else if first then r && Passes(t.left, Side(t, scores, false), Side(t, fs, false), matched)
              else l && Passes(t.right, Side(t, scores, true), Side(t, fs, true), matched)
  {
    hide FoundAt, Passes, RightFirst;
    if Found(t, scores, fs, matched) {
      var p :| FoundAt(t, scores, fs, p, matched);
      NotEmpty(t, scores, fs, p, matched);
      assert p == [p[0]] + p[1..];
      FoundOnSide(t, scores, fs, p[0], p[1..], matched);
    }
    if Found(t.left, Side(t, scores, false), Side(t, fs, false), matched) {
      var p :| FoundAt(t.left, Side(t, scores, false), Side(t, fs, false), p, matched);
      FoundOnSide(t, scores, fs, false, p, matched);
    }
    if Found(t.right, Side(t, scores, true), Side(t, fs, true), matched) {
      var p :| FoundAt(t.right, Side(t, scores, true), Side(t, fs, true), p, matched);
      FoundOnSide(t, scores, fs, true, p, matched);
    }
  }

  lemma {:induction false} NotEmpty(t: Term, scores: seq<int>, fs: Findings, p: Path, matched: bool)
    requires |scores| == |fs| == Leaves(t) && t.Operator? && FoundAt(t, scores, fs, p, matched)
    ensures p != []
  {
  }

  lemma {:induction false} FoundEquation(t: Term, scores: seq<int>, fs: Findings, matched: bool)
    requires |scores| == |fs| == Leaves(t) && t.Equation?
    ensures Found(t, scores, fs, matched) <==> Meaning(t, fs)
  {
    assert FoundAt(t, scores, fs, [], matched) <==> Meaning(t, fs);
  }

  /** The plan is right: an inode has the meaning asked for exactly if some equation of the
      plan holds for it together with the other side of every && above; this does not
      depend on the scores. */
  lemma {:induction false} PlanFinds(t: Term, scores: seq<int>, fs: Findings)
    requires |scores| == |fs| == Leaves(t)
    ensures Found(t, scores, fs, false) <==> Meaning(t, fs)
  {
    hide FoundAt, RightFirst, Found;
    if t.Equation? {
      FoundEquation(t, scores, fs, false);
    } else {
      PlanFinds(t.left, Side(t, scores, false), Side(t, fs, false));
      PlanFinds(t.right, Side(t, scores, true), Side(t, fs, true));
      FoundSides(t, scores, fs, false);
    }
  }

  /** With the other sides matched as they are, nothing wrong is found. */
  lemma {:induction false} PlanSound(t: Term, scores: seq<int>, fs: Findings)
    requires |scores| == |fs| == Leaves(t)
    ensures Found(t, scores, fs, true) ==> Meaning(t, fs)
  {
    hide FoundAt, RightFirst, Found;
    if t.Equation? {
      FoundEquation(t, scores, fs, true);
    } else {
      PlanSound(t.left, Side(t, scores, false), Side(t, fs, false));
      PlanSound(t.right, Side(t, scores, true), Side(t, fs, true));
      FoundSides(t, scores, fs, true);
      MatchSound(t.left, Side(t, scores, false), Side(t, fs, false));
      MatchSound(t.right, Side(t, scores, true), Side(t, fs, true));
    }
  }

  /** Every || inside a part that is only matched has its better side on the right. */
  predicate SidesRightFirst(t: Term, scores: seq<int>)
    requires |scores| == Leaves(t)
  {
    match t
    case Equation(_, _, _) => true
    case Operator(isAnd, l, r) =>
      var sl, sr := Side(t, scores, false), Side(t, scores, true);
      if !isAnd then SidesRightFirst(l, sl) && SidesRightFirst(r, sr)
      else if RightFirst(t, scores) then SidesRightFirst(r, sr) && OrsRightFirst(l, sl)
      else SidesRightFirst(l, sl) && OrsRightFirst(r, sr)
  }

  lemma {:induction false} PlanComplete(t: Term, scores: seq<int>, fs: Findings)
    requires |scores| == |fs| == Leaves(t) && SidesRightFirst(t, scores) && AllCompared(fs)
    ensures Found(t, scores, fs, true) <==> Meaning(t, fs)
  {
    hide FoundAt, RightFirst, Found;
    if t.Equation? {
      FoundEquation(t, scores, fs, true);
    } else {
      var sl, sr, fl, fr := Side(t, scores, false), Side(t, scores, true), Side(t, fs, false), Side(t, fs, true);
      FoundSides(t, scores, fs, true);
      if !t.isAnd {
        PlanComplete(t.left, sl, fl);
        PlanComplete(t.right, sr, fr);
      } else if RightFirst(t, scores) {
        PlanComplete(t.right, sr, fr);
        MatchComplete(t.left, sl, fl);
      } else {
        PlanComplete(t.left, sl, fl);
        MatchComplete(t.right, sr, fr);
      }
    }
  }

  /** Findings of an inode that the plan overlooks. */
  lemma {:induction false} PlanOverlooks(t: Term, scores: seq<int>) returns (fs: Findings)
    requires |scores| == Leaves(t) && !SidesRightFirst(t, scores)
    ensures |fs| == Leaves(t) && AllCompared(fs) && Meaning(t, fs) && !Found(t, scores, fs, true)
  {
    hide FoundAt, RightFirst, Found;
    var sl, sr, n := Side(t, scores, false), Side(t, scores, true), Leaves(t.left);
    var right := if !t.isAnd then SidesRightFirst(t.left, sl) else RightFirst(t, scores);
    var l, r;
    if right && !SidesRightFirst(t.right, sr) {
      r := PlanOverlooks(t.right, sr);
      l := All(t.left, t.isAnd);
      AllMeans(t.left, sl, t.isAnd);
      PlanSound(t.left, sl, l);
    } else if !right && !SidesRightFirst(t.left, sl) {
      l := PlanOverlooks(t.left, sl);
      r := All(t.right, t.isAnd);
      AllMeans(t.right, sr, t.isAnd);
      PlanSound(t.right, sr, r);
    } else if right {
      l := Overlooked(t.left, sl);
      OverlookedIs(t.left, sl);
      r := All(t.right, true);
      AllMeans(t.right, sr, true);
    } else {
      r := Overlooked(t.right, sr);
      OverlookedIs(t.right, sr);
      l := All(t.left, true);
      AllMeans(t.left, sl, true);
    }
    fs := l + r;
    assert fs[..n] == l && fs[n..] == r;
    FoundSides(t, scores, fs, true);
  }

  ghost predicate FindsAll(t: Term, scores: seq<int>)
    requires |scores| == Leaves(t)
  {
    forall fs: Findings :: |fs| == Leaves(t) && AllCompared(fs) ==> (Found(t, scores, fs, true) <==> Meaning(t, fs))
  }

  /** A query finds all it should exactly if every || outside the plan has its better side
      on the right. */
  lemma {:induction false} PlanExactly(t: Term, scores: seq<int>)
    requires |scores| == Leaves(t)
    ensures FindsAll(t, scores) <==> SidesRightFirst(t, scores)
  {
    hide Found;
    if SidesRightFirst(t, scores) {
      forall fs: Findings | |fs| == Leaves(t) && AllCompared(fs)
        ensures Found(t, scores, fs, true) <==> Meaning(t, fs)
      {
        PlanComplete(t, scores, fs);
      }
    } else {
      var fs := PlanOverlooks(t, scores);
    }
  }

  // ---------- walking up from an equation ----------

  lemma {:induction false} PathStep(t: Term, p: Path, n: nat)
    requires IsPath(t, p) && n < |p|
    ensures IsPath(t, p[..n]) && At(t, p[..n]).Operator?
  {
    if n > 0 {
      PathStep(if p[0] then t.right else t.left, p[1..], n - 1);
      assert p[..n][1..] == p[1..][..n - 1];
    }
  }

  /** The check at the operator above step `n` of the path. */
  predicate LevelHolds(t: Term, scores: seq<int>, fs: Findings, p: Path, n: nat, matched: bool)
    requires |scores| == |fs| == Leaves(t) && IsPath(t, p) && n < |p|
  {
    PathStep(t, p, n);
    var u, s, f := At(t, p[..n]), Part(t, scores, p[..n]), Part(t, fs, p[..n]);
    u.isAnd ==> Passes(if p[n] then u.left else u.right, Side(u, s, !p[n]), Side(u, f, !p[n]), matched)
  }

  lemma {:induction false} LevelBelow(t: Term, scores: seq<int>, fs: Findings, p: Path, n: nat, matched: bool)
    requires |scores| == |fs| == Leaves(t) && IsPath(t, p) && 0 < n < |p|
    ensures LevelHolds(t, scores, fs, p, n, matched)
            == LevelHolds(if p[0] then t.right else t.left, Side(t, scores, p[0]), Side(t, fs, p[0]), p[1..], n - 1, matched)
  {
    hide Passes;
    PathStep(t, p, n);
    assert p[..n][1..] == p[1..][..n - 1];
  }

  /** The checks from the top are the checks from below. */
  lemma {:induction false} WayIsLevels(t: Term, scores: seq<int>, fs: Findings, p: Path, matched: bool)
    requires |scores| == |fs| == Leaves(t) && IsPath(t, p)
    ensures WayHolds(t, scores, fs, p, matched) <==> forall n :: 0 <= n < |p| ==> LevelHolds(t, scores, fs, p, n, matched)
  {
    hide Passes;
    if p != [] {
      var u, s, f := if p[0] then t.right else t.left, Side(t, scores, p[0]), Side(t, fs, p[0]);
      WayIsLevels(u, s, f, p[1..], matched);
      forall n | 0 < n < |p|
        ensures LevelHolds(t, scores, fs, p, n, matched) == LevelHolds(u, s, f, p[1..], n - 1, matched)
      {
        LevelBelow(t, scores, fs, p, n, matched);
      }
      assert p[..0] == [];
      assert LevelHolds(t, scores, fs, p, 0, matched)
          == (t.isAnd ==> Passes(if p[0] then t.left else t.right, Side(t, scores, !p[0]), Side(t, fs, !p[0]), matched));
      if forall n :: 0 <= n < |p| ==> LevelHolds(t, scores, fs, p, n, matched) {
        forall m | 0 <= m < |p| - 1
          ensures LevelHolds(u, s, f, p[1..], m, matched)
        {
          assert LevelHolds(t, scores, fs, p, m + 1, matched);
        }
      }
    }
  }

  /** The loop of Equation::GetNextMatching over the operators above the equation. */
  method CheckUpwards(t: Term, scores: seq<int>, fs: Findings, p: Path) returns (ok: bool)
    requires |scores| == |fs| == Leaves(t) && IsPath(t, p)
    ensures ok <==> WayHolds(t, scores, fs, p, true)
  {
    hide Match, WayHolds;
    WayIsLevels(t, scores, fs, p, true);
    ok := true;
    var n := |p|;
    while n > 0 && ok
      invariant 0 <= n <= |p|
      invariant ok <==> forall m :: n <= m < |p| ==> LevelHolds(t, scores, fs, p, m, true)
    {
      n := n - 1;
      PathStep(t, p, n);
      var parent, s, f := At(t, p[..n]), Part(t, scores, p[..n]), Part(t, fs, p[..n]);
      if parent.isAnd {
        var other := if p[n] then parent.left else parent.right;
        ok := Match(other, Side(parent, s, !p[n]), Side(parent, f, !p[n])) == MatchOk;
      }
      assert LevelHolds(t, scores, fs, p, n, true) == ok;
    }
  }

  // ---------- making the plan ----------

  /** The path takes the side with the better score at every &&. */
  predicate OnPlan(t: Term, scores: seq<int>, q: Path)
    requires |scores| == Leaves(t) && IsPath(t, q)
  {
    q == [] ||
    (&& (t.isAnd ==> q[0] == RightFirst(t, scores))
     && OnPlan(if q[0] then t.right else t.left, Side(t, scores, q[0]), q[1..]))
  }

  lemma {:induction false} PlanBelow(t: Term, scores: seq<int>, q: Path, r: Path)
    requires |scores| == Leaves(t) && IsPath(t, q)
    ensures InPlan(t, scores, q + r) <==> OnPlan(t, scores, q) && InPlan(At(t, q), Part(t, scores, q), r)
  {
    hide RightFirst;
    if q == [] {
      assert q + r == r;
    } else {
      PlanBelow(if q[0] then t.right else t.left, Side(t, scores, q[0]), q[1..], r);
      assert (q + r)[1..] == q[1..] + r;
    }
  }

  lemma {:induction false} StepDown(t: Term, scores: seq<int>, q: Path, right: bool)
    requires |scores| == Leaves(t) && IsPath(t, q) && At(t, q).Operator? && OnPlan(t, scores, q)
    requires At(t, q).isAnd ==> right == RightFirst(At(t, q), Part(t, scores, q))
    ensures IsPath(t, q + [right]) && OnPlan(t, scores, q + [right])
    ensures At(t, q + [right]) == if right then At(t, q).right else At(t, q).left
  {
    hide RightFirst;
    if q != [] {
      StepDown(if q[0] then t.right else t.left, Side(t, scores, q[0]), q[1..], right);
      assert (q + [right])[1..] == q[1..] + [right];
    }
  }

  predicate Prefix(q: Path, p: Path) {
    |q| <= |p| && p[..|q|] == q
  }

  /** An equation of the plan below `q` is `q` itself or below one of the paths that
      follow it. */
  lemma {:induction false} PlanSplits(t: Term, scores: seq<int>, q: Path, p: Path)
    requires |scores| == Leaves(t) && IsPath(t, q) && InPlan(t, scores, p) && Prefix(q, p)
    ensures At(t, q).Equation? ==> p == q
    ensures At(t, q).Operator? ==> exists right: bool ::
              Prefix(q + [right], p) && (At(t, q).isAnd ==> right == RightFirst(At(t, q), Part(t, scores, q)))
  {
    var r := p[|q|..];
    assert p == q + r;
    PlanBelow(t, scores, q, r);
    if At(t, q).Operator? {
      assert Prefix(q + [r[0]], p);
    }
  }

  /** The first difference of the paths is a step to the left in `p`. */
  predicate LeftOf(p: Path, q: Path) {
    p != [] && q != [] && if p[0] == q[0] then LeftOf(p[1..], q[1..]) else !p[0]
  }

  lemma {:induction false} LeftOfLonger(p: Path, q: Path, right: bool)
    requires LeftOf(p, q)
    ensures LeftOf(p + [right], q) && LeftOf(p, q + [right])
  {
    if p[0] == q[0] {
      LeftOfLonger(p[1..], q[1..], right);
      assert (p + [right])[1..] == p[1..] + [right] && (q + [right])[1..] == q[1..] + [right];
    }
  }

  lemma {:induction false} LeftOfSides(q: Path)
    ensures LeftOf(q + [false], q + [true])
  {
    if q != [] {
      LeftOfSides(q[1..]);
      assert (q + [false])[1..] == q[1..] + [false] && (q + [true])[1..] == q[1..] + [true];
    }
  }

  function Size(t: Term): nat {
    match t
    case Equation(_, _, _) => 1
    case Operator(_, l, r) => 1 + Size(l) + Size(r)
  }

  /** The work that is left on the stack. */
  function Weight(t: Term, stack: seq<Path>): nat
    requires forall i :: 0 <= i < |stack| ==> IsPath(t, stack[i])
  {
    if stack == [] then 0 else Weight(t, stack[..|stack| - 1]) + Size(At(t, stack[|stack| - 1]))
  }

  /** Nothing of the plan is lost and nothing is there twice: what is on the stack lies from
      left to right, and the equations chosen are to the right of it, the last one first. */
  ghost predicate PlanState(t: Term, scores: seq<int>, stack: seq<Path>, chosen: seq<Path>)
    requires |scores| == Leaves(t)
  {
    && (forall i :: 0 <= i < |stack| ==> IsPath(t, stack[i]) && OnPlan(t, scores, stack[i]))
    && (forall i :: 0 <= i < |chosen| ==> InPlan(t, scores, chosen[i]))
    && (forall p :: InPlan(t, scores, p) ==> p in chosen || Below(stack, p))
    && (forall i, j :: 0 <= i < j < |chosen| ==> LeftOf(chosen[j], chosen[i]))
    && (forall i, j :: 0 <= i < j < |stack| ==> LeftOf(stack[i], stack[j]))
    && (forall i, j :: 0 <= i < |stack| && 0 <= j < |chosen| ==> LeftOf(stack[i], chosen[j]))
  }

  ghost predicate Below(stack: seq<Path>, p: Path) {
    exists i :: 0 <= i < |stack| && Prefix(stack[i], p)
  }

  lemma {:induction false} BelowPopped(stack: seq<Path>, p: Path)
    requires |stack| > 0 && Below(stack, p)
    ensures Prefix(stack[|stack| - 1], p) || Below(stack[..|stack| - 1], p)
  {
    var n := |stack| - 1;
    var i :| 0 <= i < |stack| && Prefix(stack[i], p);
    if i < n {
      assert Prefix(stack[..n][i], p);
    }
  }

  /** An equation goes from the stack into the plan. */
  lemma {:induction false} PlanTakes(t: Term, scores: seq<int>, stack: seq<Path>, chosen: seq<Path>)
    requires |scores| == Leaves(t) && |stack| > 0 && PlanState(t, scores, stack, chosen) && At(t, stack[|stack| - 1]).Equation?
    ensures PlanState(t, scores, stack[..|stack| - 1], chosen + [stack[|stack| - 1]])
  {
    hide InPlan, OnPlan, Prefix, At, LeftOf;
    var n := |stack| - 1;
    var q, rest, chosen' := stack[n], stack[..n], chosen + [stack[n]];
    LeafInPlan(t, scores, q);
    assert Prefix(q, q) by {
      PrefixSelf(q);
    }
    forall p | InPlan(t, scores, p)
      ensures p in chosen' || Below(rest, p)
    {
      if p in chosen {
        assert p in chosen';
      } else {
        BelowPopped(stack, p);
        if Prefix(q, p) {
          PlanSplits(t, scores, q, p);
          assert p == chosen'[|chosen|];
        }
      }
    }
  }

  lemma {:induction false} PrefixSelf(q: Path)
    ensures Prefix(q, q)
  {
  }

  lemma {:induction false} LeafInPlan(t: Term, scores: seq<int>, q: Path)
    requires |scores| == Leaves(t) && IsPath(t, q) && OnPlan(t, scores, q) && At(t, q).Equation?
    ensures InPlan(t, scores, q)
  {
    PlanBelow(t, scores, q, []);
    assert q + [] == q;
  }

  /** What takes the place of an operator: the sides the plan goes into. */
  predicate Follow(t: Term, scores: seq<int>, q: Path, more: seq<Path>)
    requires |scores| == Leaves(t) && IsPath(t, q) && At(t, q).Operator?
  {
    if At(t, q).isAnd then more == [q + [RightFirst(At(t, q), Part(t, scores, q))]]
    else more == [q + [false], q + [true]]
  }

  lemma {:induction false} FollowFacts(t: Term, scores: seq<int>, q: Path, more: seq<Path>)
    requires |scores| == Leaves(t) && IsPath(t, q) && At(t, q).Operator? && OnPlan(t, scores, q) && Follow(t, scores, q, more)
    ensures forall i :: 0 <= i < |more| ==> more[i] in {q + [false], q + [true]}
    ensures forall i :: 0 <= i < |more| ==> IsPath(t, more[i]) && OnPlan(t, scores, more[i])
    ensures forall i, j :: 0 <= i < j < |more| ==> LeftOf(more[i], more[j])
    ensures forall p :: InPlan(t, scores, p) && Prefix(q, p) ==> Below(more, p)
  {
    hide InPlan, RightFirst, Prefix, At, Part, OnPlan, LeftOf;
    var first := RightFirst(At(t, q), Part(t, scores, q));
    if At(t, q).isAnd {
      StepDown(t, scores, q, first);
    } else {
      StepDown(t, scores, q, false);
      StepDown(t, scores, q, true);
    }
    LeftOfSides(q);
    forall p | InPlan(t, scores, p) && Prefix(q, p)
      ensures Below(more, p)
    {
      PlanSplits(t, scores, q, p);
      var right: bool :| Prefix(q + [right], p) && (At(t, q).isAnd ==> right == first);
      assert q + [right] == more[if At(t, q).isAnd || !right then 0 else 1];
    }
  }

  /** An operator on the stack is replaced by its sides. */
  lemma {:induction false} PlanOpens(t: Term, scores: seq<int>, stack: seq<Path>, chosen: seq<Path>, more: seq<Path>)
    requires |scores| == Leaves(t) && |stack| > 0 && PlanState(t, scores, stack, chosen)
    requires At(t, stack[|stack| - 1]).Operator? && Follow(t, scores, stack[|stack| - 1], more)
    ensures PlanState(t, scores, stack[..|stack| - 1] + more, chosen)
  {
    hide InPlan, OnPlan, Prefix, At, Follow, LeftOf;
    var n := |stack| - 1;
    var q, rest := stack[n], stack[..n];
    var stack' := rest + more;
    FollowFacts(t, scores, q, more);
    forall i | 0 <= i < n
      ensures forall j :: 0 <= j < |more| ==> LeftOf(stack[i], more[j])
    {
      LeftOfLonger(stack[i], q, false);
      LeftOfLonger(stack[i], q, true);
    }
    forall i | 0 <= i < |chosen|
      ensures forall j :: 0 <= j < |more| ==> LeftOf(more[j], chosen[i])
    {
      LeftOfLonger(q, chosen[i], false);
      LeftOfLonger(q, chosen[i], true);
    }
    forall p | InPlan(t, scores, p)
      ensures p in chosen || Below(stack', p)
    {
      if p !in chosen {
        BelowPopped(stack, p);
        BelowEither(rest, more, p);
      }
    }
  }

  lemma {:induction false} BelowEither(a: seq<Path>, b: seq<Path>, p: Path)
    ensures Below(a, p) || Below(b, p) ==> Below(a + b, p)
  {
    hide Prefix;
    if Below(a, p) {
      var i :| 0 <= i < |a| && Prefix(a[i], p);
      assert Prefix((a + b)[i], p);
    } else if Below(b, p) {
      var i :| 0 <= i < |b| && Prefix(b[i], p);
      assert Prefix((a + b)[|a| + i], p);
    }
  }

  lemma {:induction false} WeightOneMore(t: Term, stack: seq<Path>, q: Path)
    requires IsPath(t, q) && forall i :: 0 <= i < |stack| ==> IsPath(t, stack[i])
    ensures Weight(t, stack + [q]) == Weight(t, stack) + Size(At(t, q))
  {
    hide IsPath;
    assert (stack + [q])[..|stack|] == stack;
  }

  /** The stack loop of the query's constructor: the plan has every equation it should
      have, and no other, from right to left. */
  method MakePlan(t: Term, scores: seq<int>) returns (chosen: seq<Path>)
    requires |scores| == Leaves(t)
    ensures forall p :: p in chosen <==> InPlan(t, scores, p)
    ensures forall i, j :: 0 <= i < j < |chosen| ==> LeftOf(chosen[j], chosen[i])
  {
    hide InPlan, Prefix, IsPath, Below, LeftOf;
    var stack: seq<Path> := [[]];
    chosen := [];
    StartPlan(t, scores);
    while stack != []
      invariant PlanState(t, scores, stack, chosen)
      decreases Weight(t, stack)
    {
      var n := |stack| - 1;
      var q, rest := stack[n], stack[..n];
      assert stack == rest + [q];
      WeightOneMore(t, rest, q);
      var term := At(t, q);
      if term.Operator? {
        if !term.isAnd {
          PlanOpens(t, scores, stack, chosen, [q + [false], q + [true]]);
          StepDown(t, scores, q, false);
          StepDown(t, scores, q, true);
          WeightOneMore(t, rest, q + [false]);
          WeightOneMore(t, rest + [q + [false]], q + [true]);
          stack := rest + [q + [false]] + [q + [true]];
          assert stack == rest + [q + [false], q + [true]];
        } else {
          var right := RightFirst(term, Part(t, scores, q));
          PlanOpens(t, scores, stack, chosen, [q + [right]]);
          StepDown(t, scores, q, right);
          WeightOneMore(t, rest, q + [right]);
          stack := rest + [q + [right]];
        }
      } else {
        PlanTakes(t, scores, stack, chosen);
        chosen := chosen + [q];
        stack := rest;
      }
    }
    EndPlan(t, scores, chosen);
  }

  lemma {:induction false} StartPlan(t: Term, scores: seq<int>)
    requires |scores| == Leaves(t)
    ensures PlanState(t, scores, [[]], [])
  {
    hide InPlan;
    forall p: Path
      ensures Below([[]], p)
    {
      assert Prefix([[]][0], p);
    }
  }

  lemma {:induction false} EndPlan(t: Term, scores: seq<int>, chosen: seq<Path>)
    requires |scores| == Leaves(t) && PlanState(t, scores, [], chosen)
    ensures forall p :: p in chosen <==> InPlan(t, scores, p)
  {
    hide InPlan;
  }
}
