/** The benaphore as a protocol of any number of threads: the counter and the semaphore
change in single steps, and the steps of all threads may follow each other in any order. */
module Benaphore {

  type Thread = nat

  /** A thread that is in none of the sets is outside. */
  datatype State = State(
    count: int,                    // the atomic counter
    tokens: nat,                   // the semaphore
    waiting: set<Thread>,          // has to acquire the semaphore
    holding: set<Thread>,          // has the lock
    releasing: set<Thread>)        // has given up the lock and has to release the semaphore

  datatype Step =
    | Enter(t: Thread)             // the atomic_add of Lock
    | Acquire(t: Thread)           // acquire_sem returns
    | Leave(t: Thread)             // the atomic_add of Unlock
    | Release(t: Thread)           // release_sem

  const START := State(1, 0, {}, {}, {})

  predicate Outside(s: State, t: Thread) {
    t !in s.waiting && t !in s.holding && t !in s.releasing
  }

  predicate Enabled(s: State, step: Step) {
    match step
    case Enter(t) => Outside(s, t)
    case Acquire(t) => t in s.waiting && s.tokens > 0
    case Leave(t) => t in s.holding
    case Release(t) => t in s.releasing
  }

  function After(s: State, step: Step): State
    requires Enabled(s, step)
  {
    match step
    case Enter(t) =>
      if s.count <= 0 then s.(count := s.count - 1, waiting := s.waiting + {t})
      else s.(count := s.count - 1, holding := s.holding + {t})
    case Acquire(t) => s.(tokens := s.tokens - 1, waiting := s.waiting - {t}, holding := s.holding + {t})
    case Leave(t) =>
      if s.count < 0 then s.(count := s.count + 1, holding := s.holding - {t}, releasing := s.releasing + {t})
      else s.(count := s.count + 1, holding := s.holding - {t})
    case Release(t) => s.(tokens := s.tokens + 1, releasing := s.releasing - {t})
  }

  /** The counter tells how many threads are inside or want to be, and there is one right to
      the lock: a holder has it, or it is on its way to a waiter. */
  predicate Inv(s: State) {
    && s.waiting !! s.holding && s.waiting !! s.releasing && s.holding !! s.releasing
    && s.count == 1 - |s.waiting| - |s.holding|
    && |s.holding| + |s.releasing| + s.tokens <= 1
    && (|s.waiting| > 0 ==> |s.holding| + |s.releasing| + s.tokens == 1)
    && (|s.releasing| + s.tokens > 0 ==> |s.waiting| > 0)
  }

  lemma {:induction false} MoreAndLess(a: set<Thread>, t: Thread)
    ensures t !in a ==> |a + {t}| == |a| + 1
    ensures t in a ==> |a - {t}| == |a| - 1
  {
  }

  lemma {:induction false} StepKeeps(s: State, step: Step)
    requires Inv(s) && Enabled(s, step)
    ensures Inv(After(s, step))
  {
    MoreAndLess(s.waiting, step.t);
    MoreAndLess(s.holding, step.t);
    MoreAndLess(s.releasing, step.t);
  }

  /** The state after any steps, each possible when it is taken. */
  ghost predicate Reaches(steps: seq<Step>, s: State)
    decreases |steps|
  {
    if steps == [] then s == START
    else
      var n := |steps| - 1;
      exists before :: Reaches(steps[..n], before) && Enabled(before, steps[n]) && s == After(before, steps[n])
  }

  lemma {:induction false} Reachable(steps: seq<Step>, s: State)
    requires Reaches(steps, s)
    ensures Inv(s)
    decreases |steps|
  {
    if steps != [] {
      var n := |steps| - 1;
      var before :| Reaches(steps[..n], before) && Enabled(before, steps[n]) && s == After(before, steps[n]);
      Reachable(steps[..n], before);
      StepKeeps(before, steps[n]);
    }
  }

  /** Where a thread is: each is in one place. */
  datatype Place = Out | Waits | Holds | Releases

  function PlaceOf(s: State, t: Thread): Place {
    if t in s.waiting then Waits else if t in s.holding then Holds else if t in s.releasing then Releases else Out
  }

  /** What every step does to the threads: who enters holds the lock at once exactly if no one
      is inside, and waits otherwise; who leaves wakes a waiter exactly if there is one; and
      all other threads stay where they are. */
  lemma {:induction false} StepMoves(steps: seq<Step>, s: State, step: Step, u: Thread)
    requires Reaches(steps, s) && Enabled(s, step)
    ensures PlaceOf(After(s, step), u)
            == if u != step.t then PlaceOf(s, u)
               else match step
                    case Enter(_) => if s.waiting == {} && s.holding == {} then Holds else Waits
                    case Acquire(_) => Holds
                    case Leave(_) => if s.waiting == {} then Out else Releases
                    case Release(_) => Out
    ensures After(s, step).tokens == s.tokens + (if step.Release? then 1 else if step.Acquire? then -1 else 0)
  {
    Reachable(steps, s);
    CountMeans(s);
  }

  /** What the counter says of the threads. */
  lemma {:induction false} CountMeans(s: State)
    requires Inv(s)
    ensures s.count <= 0 <==> s.waiting != {} || s.holding != {}
    ensures forall t :: t in s.holding ==> (s.count < 0 <==> s.waiting != {})
  {
    forall t | t in s.holding
      ensures s.count < 0 <==> s.waiting != {}
    {
      MoreAndLess(s.holding, t);
    }
  }

  /** Never two threads hold the lock. */
  lemma {:induction false} MutualExclusion(steps: seq<Step>, s: State, t: Thread, u: Thread)
    requires Reaches(steps, s) && t in s.holding && u in s.holding
    ensures t == u
  {
    Reachable(steps, s);
    MoreAndLess(s.holding, t);
  }

  /** No wakeup is lost: while a thread waits and none holds the lock, either the semaphore
      can be acquired or one thread is about to release it; and if no one is inside, the
      next thread gets the lock at once. */
  lemma {:induction false} NoLostWakeup(steps: seq<Step>, s: State)
    requires Reaches(steps, s)
    ensures s.waiting != {} && s.holding == {} ==> (s.tokens == 1 && s.releasing == {}) || (s.tokens == 0 && |s.releasing| == 1)
    ensures s.waiting == {} && s.holding == {} ==> s.count == 1 && s.tokens == 0 && s.releasing == {}
  {
    Reachable(steps, s);
  }

  /** A waiting thread is never stuck: it can go on, or another thread can. */
  lemma {:induction false} Progress(steps: seq<Step>, s: State, t: Thread)
    requires Reaches(steps, s) && t in s.waiting
    ensures Enabled(s, Acquire(t)) || exists u :: Enabled(s, Release(u)) || Enabled(s, Leave(u))
  {
    Reachable(steps, s);
    if s.tokens == 0 {
      if s.holding != {} {
        var u :| u in s.holding;
        assert Enabled(s, Leave(u));
      } else {
        assert s.releasing != {};
        var u :| u in s.releasing;
        assert Enabled(s, Release(u));
      }
    }
  }
}

/** The lock without a semaphore: tickets are drawn from one counter and served by another,
both of 32 bits. */
module TicketLock {

  type Thread = nat

  const WRAP := 0x1_0000_0000

  /** `tickets` holds the number of tickets drawn before that of a thread; `drawn` and
      `served` count all tickets, the counters in memory are their remainders. */
  datatype State = State(
    lock: int,
    unlock: int,
    waiting: map<Thread, int>,     // what atomic_add returned to the thread
    holding: set<Thread>,
    drawn: int,
    served: int,
    tickets: map<Thread, int>)

  datatype Step =
    | Draw(t: Thread)              // the atomic_add of Lock
    | Begin(t: Thread)             // the loop in Lock ends
    | Done(t: Thread)              // the atomic_add of Unlock

  const START := State(0, 0, map[], {}, 0, 0, map[])

  /** The value of a counter in memory. */
  function Low(x: int): int {
    x % WRAP
  }

  function Next(x: int): int {
    (x + 1) % WRAP
  }

  lemma {:induction false} LowNext(x: int)
    ensures Next(Low(x)) == Low(x + 1)
  {
  }

  /** Two numbers closer than the counter's range that look the same are the same. */
  lemma {:induction false} SameLow(a: int, b: int)
    requires b <= a < b + WRAP && Low(a) == Low(b)
    ensures a == b
  {
  }

  /** There are never more threads than there are different tickets. */
  predicate Enabled(s: State, step: Step) {
    match step
    case Draw(t) => t !in s.waiting && t !in s.holding && |s.tickets| < WRAP
    case Begin(t) => t in s.waiting && s.waiting[t] == s.unlock
    case Done(t) => t in s.holding
  }

  function After(s: State, step: Step): State
    requires Enabled(s, step)
  {
    match step
    case Draw(t) =>
      s.(lock := Next(s.lock), waiting := s.waiting[t := s.lock], drawn := s.drawn + 1, tickets := s.tickets[t := s.drawn])
    case Begin(t) => s.(waiting := s.waiting - {t}, holding := s.holding + {t})
    case Done(t) =>
      s.(unlock := Next(s.unlock), holding := s.holding - {t}, served := s.served + 1, tickets := s.tickets - {t})
  }

  /** Every ticket from `served` on belongs to one thread. */
  ghost predicate TicketsOk(tickets: map<Thread, int>, served: int, drawn: int) {
    && served <= drawn && |tickets| == drawn - served <= WRAP
    && (forall t :: t in tickets ==> served <= tickets[t] < drawn)
    && (forall t, u :: t in tickets && u in tickets && t != u ==> tickets[t] != tickets[u])
  }

  /** The threads know their tickets, and only the one with the first can hold the lock. */
  ghost predicate ThreadsOk(tickets: map<Thread, int>, waiting: map<Thread, int>, holding: set<Thread>, served: int) {
    && (forall t :: t in tickets <==> t in waiting || t in holding)
    && (forall t :: t in waiting ==> t !in holding && waiting[t] == Low(tickets[t]))
    && (forall t :: t in holding ==> tickets[t] == served)
  }

  ghost predicate Inv(s: State) {
    && s.lock == Low(s.drawn) && s.unlock == Low(s.served)
    && TicketsOk(s.tickets, s.served, s.drawn) && ThreadsOk(s.tickets, s.waiting, s.holding, s.served)
  }

  lemma {:induction false} KeysMore(m: map<Thread, int>, t: Thread, x: int)
    ensures t !in m ==> |m[t := x]| == |m| + 1
    ensures t in m ==> |m - {t}| == |m| - 1
  {
    assert t !in m ==> m[t := x].Keys == m.Keys + {t};
    assert t in m ==> (m - {t}).Keys == m.Keys - {t};
    assert |m.Keys| == |m| && |m[t := x].Keys| == |m[t := x]| && |(m - {t}).Keys| == |m - {t}|;
  }

  lemma {:induction false} TicketDrawn(tickets: map<Thread, int>, served: int, drawn: int, t: Thread)
    requires TicketsOk(tickets, served, drawn) && t !in tickets && |tickets| < WRAP
    ensures TicketsOk(tickets[t := drawn], served, drawn + 1)
  {
    KeysMore(tickets, t, drawn);
  }

  lemma {:induction false} TicketServed(tickets: map<Thread, int>, served: int, drawn: int, t: Thread)
    requires TicketsOk(tickets, served, drawn) && t in tickets && tickets[t] == served
    ensures TicketsOk(tickets - {t}, served + 1, drawn)
  {
    KeysMore(tickets, t, 0);
    var tickets' := tickets - {t};
    forall u | u in tickets'
      ensures served + 1 <= tickets'[u] < drawn
    {
      assert tickets[u] != tickets[t];
    }
  }

  lemma {:induction false} DrawKeeps(s: State, t: Thread)
    requires Inv(s) && Enabled(s, Draw(t))
    ensures Inv(After(s, Draw(t)))
  {
    hide Low, Next, TicketsOk;
    LowNext(s.drawn);
    TicketDrawn(s.tickets, s.served, s.drawn, t);
  }

  /** The thread with the first ticket is the only one that can hold the lock. */
  lemma {:induction false} FirstTicket(s: State, t: Thread)
    requires Inv(s) && t in s.tickets && s.tickets[t] == s.served
    ensures forall u :: u in s.holding ==> u == t
  {
    hide Low;
  }

  /** Only the thread whose turn it is can begin, and only while no one holds the lock. */
  lemma {:induction false} TurnIsServed(s: State, t: Thread)
    requires Inv(s) && Enabled(s, Begin(t))
    ensures t in s.tickets && s.tickets[t] == s.served && s.holding == {}
  {
    hide Low;
    SameLow(s.tickets[t], s.served);
    FirstTicket(s, t);
  }

  lemma {:induction false} BeginKeeps(s: State, t: Thread)
    requires Inv(s) && Enabled(s, Begin(t))
    ensures Inv(After(s, Begin(t)))
  {
    TurnIsServed(s, t);
    hide Low, TicketsOk;
  }

  lemma {:induction false} DoneKeeps(s: State, t: Thread)
    requires Inv(s) && Enabled(s, Done(t))
    ensures Inv(After(s, Done(t)))
  {
    FirstTicket(s, t);
    hide Low, Next, TicketsOk;
    LowNext(s.served);
    TicketServed(s.tickets, s.served, s.drawn, t);
  }

  ghost predicate Reaches(steps: seq<Step>, s: State)
    decreases |steps|
  {
    if steps == [] then s == START
    else
      var n := |steps| - 1;
      exists before :: Reaches(steps[..n], before) && Enabled(before, steps[n]) && s == After(before, steps[n])
  }

  lemma {:induction false} Reachable(steps: seq<Step>, s: State)
    requires Reaches(steps, s)
    ensures Inv(s)
    decreases |steps|
  {
    if steps != [] {
      var n := |steps| - 1;
      var before :| Reaches(steps[..n], before) && Enabled(before, steps[n]) && s == After(before, steps[n]);
      Reachable(steps[..n], before);
      match steps[n] {
        case Draw(t) => DrawKeeps(before, t);
        case Begin(t) => BeginKeeps(before, t);
        case Done(t) => DoneKeeps(before, t);
      }
    }
  }

  lemma {:induction false} MutualExclusion(steps: seq<Step>, s: State, t: Thread, u: Thread)
    requires Reaches(steps, s) && t in s.holding && u in s.holding
    ensures t == u
  {
    Reachable(steps, s);
    FirstTicket(s, t);
  }

  /** Threads are admitted in the order they drew their tickets: whoever can begin has the
      lowest ticket of all that are waiting. */
  lemma {:induction false} InTicketOrder(steps: seq<Step>, s: State, t: Thread, u: Thread)
    requires Reaches(steps, s) && Enabled(s, Begin(t)) && u in s.waiting
    ensures t in s.tickets && u in s.tickets && s.tickets[t] <= s.tickets[u]
  {
    Reachable(steps, s);
    TurnIsServed(s, t);
    assert u in s.tickets;
  }

  /** The threads that drew a ticket, in that order. */
  function Draws(steps: seq<Step>): seq<Thread> {
    if steps == [] then []
    else
      var n := |steps| - 1;
      Draws(steps[..n]) + if steps[n].Draw? then [steps[n].t] else []
  }

  /** The threads that got the lock, in that order. */
  function Begins(steps: seq<Step>): seq<Thread> {
    if steps == [] then []
    else
      var n := |steps| - 1;
      Begins(steps[..n]) + if steps[n].Begin? then [steps[n].t] else []
  }

  ghost predicate InOrder(s: State, draws: seq<Thread>, begins: seq<Thread>) {
    && |draws| == s.drawn && s.served >= 0
    && (forall t :: t in s.tickets ==> 0 <= s.tickets[t] < |draws| && draws[s.tickets[t]] == t)
    && |begins| == s.served + (if s.holding == {} then 0 else 1)
    && |begins| <= |draws| && begins == draws[..|begins|]
  }

  lemma {:induction false} OrderKept(s: State, step: Step, draws: seq<Thread>, begins: seq<Thread>)
    requires Inv(s) && Enabled(s, step) && InOrder(s, draws, begins)
    ensures InOrder(After(s, step), draws + (if step.Draw? then [step.t] else []), begins + (if step.Begin? then [step.t] else []))
  {
    hide Low, Next;
    match step {
      case Draw(t) =>
      case Begin(t) =>
        TurnIsServed(s, t);
        assert draws[..s.served + 1] == draws[..s.served] + [t];
      case Done(t) =>
        FirstTicket(s, t);
        assert s.holding == {t};
    }
  }

  /** Over every run the threads get the lock in the order in which they drew tickets, and
      no thread is passed over. */
  lemma {:induction false} AdmittedInOrder(steps: seq<Step>, s: State)
    requires Reaches(steps, s)
    ensures InOrder(s, Draws(steps), Begins(steps))
    ensures |Begins(steps)| <= |Draws(steps)| && Begins(steps) == Draws(steps)[..|Begins(steps)|]
    decreases |steps|
  {
    if steps != [] {
      var n := |steps| - 1;
      var before :| Reaches(steps[..n], before) && Enabled(before, steps[n]) && s == After(before, steps[n]);
      AdmittedInOrder(steps[..n], before);
      Reachable(steps[..n], before);
      OrderKept(before, steps[n], Draws(steps[..n]), Begins(steps[..n]));
    }
  }
}
