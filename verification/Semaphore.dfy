/** The counting semaphore as a protocol: an atomic counter in front of a kernel
    semaphore.  Each atomic operation is one step, so every interleaving of any
    number of threads is a run. */
module Semaphore {

  type Tid = nat

  /** `waiting`: threads whose decrement went negative and that are in (or about to
      enter) the kernel wait.  `posting`: threads whose increment found waiters and
      that still owe the kernel a post.  `undoing`: threads that must put back a
      decrement, because they were not to wait or their wait was interrupted.
      The remaining fields count completed calls and what undoing has left over. */
  datatype State = State(
    count: int,
    kernel: nat,
    waiting: set<Tid>,
    posting: set<Tid>,
    undoing: set<Tid>,
    init: nat,
    incs: nat,
    decs: nat,
    surplus: nat)

  datatype Step =
    | Decrement(t: Tid, wait: bool)   // atomic decrement of the counter
    | Wake(t: Tid)                    // the kernel wait succeeds
    | Interrupt(t: Tid)               // the kernel wait fails
    | Undo(t: Tid)                    // atomic increment that puts a decrement back
    | Increment(t: Tid)               // atomic increment of the counter
    | Post(t: Tid)                    // post to the kernel semaphore

  function Start(init: nat): State {
    State(init, 0, {}, {}, {}, init, 0, 0, 0)
  }

  predicate Idle(s: State, t: Tid) {
    t !in s.waiting && t !in s.posting && t !in s.undoing
  }

  predicate Enabled(s: State, e: Step) {
    match e
    case Decrement(t, _) => Idle(s, t)
    case Wake(t) => t in s.waiting && s.kernel > 0
    case Interrupt(t) => t in s.waiting
    case Undo(t) => t in s.undoing
    case Increment(t) => Idle(s, t)
    case Post(t) => t in s.posting
  }

  function Next(s: State, e: Step): State
    requires Enabled(s, e)
  {
    match e
    case Decrement(t, wait) =>
      var val := s.count - 1;
      if val >= 0 then s.(count := val, decs := s.decs + 1)
      else if wait then s.(count := val, waiting := s.waiting + {t})
      else s.(count := val, undoing := s.undoing + {t})
    case Wake(t) => s.(kernel := s.kernel - 1, waiting := s.waiting - {t}, decs := s.decs + 1)
    case Interrupt(t) => s.(waiting := s.waiting - {t}, undoing := s.undoing + {t})
    case Undo(t) =>
      s.(count := s.count + 1, undoing := s.undoing - {t},
         surplus := s.surplus + (if s.count >= 0 then 1 else 0))
    case Increment(t) =>
      var val := s.count + 1;
      if val < 1 then s.(count := val, incs := s.incs + 1, posting := s.posting + {t})
      else s.(count := val, incs := s.incs + 1)
    case Post(t) => s.(kernel := s.kernel + 1, posting := s.posting - {t})
  }

  function Debt(s: State): nat {
    if s.count < 0 then -s.count else 0
  }

  /** The accounting law of the protocol. */
  ghost predicate Balanced(s: State) {
    && s.waiting !! s.posting && s.waiting !! s.undoing && s.posting !! s.undoing
    && |s.waiting| + |s.undoing| + s.surplus == Debt(s) + s.kernel + |s.posting|
    && s.count == s.init + s.incs - s.decs - |s.waiting| - |s.undoing|
  }

  ghost predicate IsRun(init: nat, steps: seq<Step>, states: seq<State>) {
    && |states| == |steps| + 1 && states[0] == Start(init)
    && forall i {:trigger steps[i]} | 0 <= i < |steps| ::
         Enabled(states[i], steps[i]) && states[i + 1] == Next(states[i], steps[i])
  }

  lemma Joins(s: set<Tid>, t: Tid)
    ensures t !in s ==> |s + {t}| == |s| + 1
    ensures t in s ==> |s - {t}| == |s| - 1
  {
    if t in s { assert s == (s - {t}) + {t}; }
  }

  lemma StepKeepsBalance(s: State, e: Step)
    requires Balanced(s) && Enabled(s, e)
    ensures Balanced(Next(s, e)) && Next(s, e).init == s.init
  {
    Joins(s.waiting, e.t);
    Joins(s.posting, e.t);
    Joins(s.undoing, e.t);
    match e {
      case Decrement(t, wait) => DecrementBalanced(s, t, wait);
      case Increment(t) => IncrementBalanced(s, t);
      case Wake(t) =>
      case Interrupt(t) =>
      case Undo(t) =>
      case Post(t) =>
    }
  }

  lemma DecrementBalanced(s: State, t: Tid, wait: bool)
    requires Balanced(s) && Idle(s, t)
    ensures Balanced(Next(s, Decrement(t, wait)))
  {
    Joins(if wait then s.waiting else s.undoing, t);
  }

  lemma IncrementBalanced(s: State, t: Tid)
    requires Balanced(s) && Idle(s, t)
    ensures Balanced(Next(s, Increment(t)))
  {
    Joins(s.posting, t);
  }

  /** Every interleaving keeps the law: waiters, undoers and surplus permits are
      the negative part of the counter, the kernel value and the posts still owed. */
  lemma {:induction false} RunIsBalanced(init: nat, steps: seq<Step>, states: seq<State>, n: nat)
    requires IsRun(init, steps, states) && n <= |steps|
    ensures Balanced(states[n]) && states[n].init == init
  {
    if n == 0 {
    } else {
      RunIsBalanced(init, steps, states, n - 1);
      assert Enabled(states[n - 1], steps[n - 1]);
      StepKeepsBalance(states[n - 1], steps[n - 1]);
    }
  }

  /** A decrement that finds a permit completes at once, waiting or not; one that finds
      none waits, or has to be put back. */
  lemma DecrementTakesPermit(s: State, t: Tid, wait: bool)
    requires Enabled(s, Decrement(t, wait))
    ensures var s' := Next(s, Decrement(t, wait));
            && (s.count >= 1 ==> s' == s.(count := s.count - 1, decs := s.decs + 1) && Idle(s', t))
            && (s.count < 1 ==> s'.decs == s.decs && (t in s'.waiting <==> wait) && (t in s'.undoing <==> !wait))
  {
  }

  /** Completed decrements never exceed the initial count plus the increments and
      the surplus left by undoing. */
  lemma DecrementsBounded(init: nat, steps: seq<Step>, states: seq<State>, n: nat)
    requires IsRun(init, steps, states) && n <= |steps|
    ensures states[n].decs <= init + states[n].incs + states[n].surplus
  {
    RunIsBalanced(init, steps, states, n);
  }

  /** No more decrements have completed than there were permits. */
  predicate WithinPermits(s: State) {
    s.decs <= s.init + s.incs
  }

  /** The bound on completed decrements holds exactly while the counter, the kernel
      value and the posts owed cover what undoing has left over. */
  lemma WithinPermitsIffSurplusCovered(init: nat, steps: seq<Step>, states: seq<State>, n: nat)
    requires IsRun(init, steps, states) && n <= |steps|
    ensures var s := states[n];
            WithinPermits(s) <==> s.surplus <= (if s.count > 0 then s.count else 0) + s.kernel + |s.posting|
  {
    RunIsBalanced(init, steps, states, n);
  }

  // ----- which callers keep the bound -----

  /** What callers of one semaphore may do: wait, ask without waiting, be interrupted while waiting. */
  datatype Discipline = Discipline(wait: bool, poll: bool, interrupt: bool)

  /** Waiting callers are neither interrupted nor mixed with callers that do not wait. */
  predicate Uniform(d: Discipline) {
    !(d.wait && (d.poll || d.interrupt))
  }

  predicate Allows(d: Discipline, e: Step) {
    match e
    case Decrement(_, wait) => if wait then d.wait else d.poll
    case Interrupt(_) => d.interrupt
    case _ => true
  }

  ghost predicate Obeys(steps: seq<Step>, d: Discipline) {
    forall i | 0 <= i < |steps| :: Allows(d, steps[i])
  }

  /** What a uniform discipline keeps: without waiting callers nobody waits and the
      counter with the undoers makes up the permits left; without others nobody undoes. */
  ghost predicate Kept(s: State, d: Discipline) {
    && Balanced(s)
    && if d.wait then s.undoing == {} && s.surplus == 0
       else s.waiting == {} && s.count + |s.undoing| >= 0
  }

  lemma StartKept(init: nat, d: Discipline)
    ensures Kept(Start(init), d)
  {
  }

  lemma StepKept(s: State, e: Step, d: Discipline)
    requires Kept(s, d) && Uniform(d) && Enabled(s, e) && Allows(d, e)
    ensures Kept(Next(s, e), d)
  {
    StepKeepsBalance(s, e);
    Joins(s.undoing, e.t);
  }

  lemma KeptIsWithin(s: State, d: Discipline)
    requires Kept(s, d)
    ensures WithinPermits(s)
  {
  }

  lemma {:induction false} RunKept(init: nat, steps: seq<Step>, states: seq<State>, n: nat, d: Discipline)
    requires IsRun(init, steps, states) && n <= |steps| && Obeys(steps, d) && Uniform(d)
    ensures Kept(states[n], d)
  {
    if n == 0 {
      StartKept(init, d);
    } else {
      RunKept(init, steps, states, n - 1, d);
      assert Enabled(states[n - 1], steps[n - 1]);
      StepKept(states[n - 1], steps[n - 1], d);
    }
  }

  /** With callers that never wait the bound holds in every run. */
  lemma PollersSafe(init: nat, steps: seq<Step>, states: seq<State>, n: nat)
    requires IsRun(init, steps, states) && n <= |steps|
    requires forall i | 0 <= i < |steps| :: steps[i].Decrement? ==> !steps[i].wait
    ensures states[n].waiting == {} && WithinPermits(states[n])
  {
    RunKept(init, steps, states, n, Discipline(false, true, true));
  }

  ghost predicate Guarantees(d: Discipline) {
    forall init: nat, steps: seq<Step>, states: seq<State> ::
      IsRun(init, steps, states) && Obeys(steps, d) ==> WithinPermits(states[|steps|])
  }

  /** A discipline keeps the bound in all its runs if and only if it is uniform. */
  lemma GuaranteesIffUniform(d: Discipline)
    ensures Guarantees(d) <==> Uniform(d)
  {
    if Uniform(d) {
      forall init: nat, steps: seq<Step>, states: seq<State> | IsRun(init, steps, states) && Obeys(steps, d)
        ensures WithinPermits(states[|steps|])
      {
        RunKept(init, steps, states, |steps|, d);
      }
    } else if d.poll {
      var steps, states := NonWaitingRace();
      assert Obeys(steps, d);
    } else {
      var steps, states := InterruptedRace();
      assert Obeys(steps, d);
    }
  }

  ghost predicate OnlyWaiters(steps: seq<Step>) {
    forall i | 0 <= i < |steps| :: !steps[i].Interrupt? && (steps[i].Decrement? ==> steps[i].wait)
  }

  /** With callers that wait and are not interrupted: waiters are exactly the
      negative part of the counter, the kernel value and the posts still owed, and
      no more decrements complete than there were permits. */
  lemma WaitingCallersSafe(init: nat, steps: seq<Step>, states: seq<State>, n: nat)
    requires IsRun(init, steps, states) && n <= |steps| && OnlyWaiters(steps)
    ensures var s := states[n];
            && |s.waiting| == Debt(s) + s.kernel + |s.posting|
            && s.decs <= init + s.incs
  {
    RunIsBalanced(init, steps, states, n);
    RunKept(init, steps, states, n, Discipline(true, false, false));
  }

  /** No wake-up is lost: if a thread waits although no post is owed and the kernel
      value is zero, every permit there ever was has been taken. */
  lemma NoLostWakeup(init: nat, steps: seq<Step>, states: seq<State>, n: nat)
    requires IsRun(init, steps, states) && n <= |steps| && OnlyWaiters(steps)
    requires states[n].waiting != {} && states[n].posting == {} && states[n].kernel == 0
    ensures states[n].decs == init + states[n].incs
  {
    RunIsBalanced(init, steps, states, n);
    RunKept(init, steps, states, n, Discipline(true, false, false));
  }

  /** The law for callers that wait, without the surplus term. */
  ghost predicate Tight(s: State) {
    |s.waiting| + |s.undoing| == Debt(s) + s.kernel + |s.posting|
  }

  /** Putting a decrement back keeps that law exactly when the counter is still
      negative; otherwise an increment has already posted for this thread. */
  lemma UndoIsSafeIffNegative(init: nat, steps: seq<Step>, states: seq<State>, n: nat, t: Tid)
    requires IsRun(init, steps, states) && n <= |steps|
    requires Tight(states[n]) && t in states[n].undoing
    ensures Tight(Next(states[n], Undo(t))) <==> states[n].count < 0
  {
    RunIsBalanced(init, steps, states, n);
    StepKeepsBalance(states[n], Undo(t));
  }

  /** Once broken, the law stays broken: a surplus permit is never absorbed. */
  lemma {:induction false} SurplusStays(init: nat, steps: seq<Step>, states: seq<State>, m: nat, n: nat)
    requires IsRun(init, steps, states) && m <= n <= |steps|
    ensures states[m].surplus <= states[n].surplus
    ensures Tight(states[n]) <==> states[n].surplus == 0
    decreases n
  {
    RunIsBalanced(init, steps, states, n);
    if m == n {
    } else {
      SurplusStays(init, steps, states, m, n - 1);
      assert Enabled(states[n - 1], steps[n - 1]);
    }
  }

  /** A race that leaves a surplus: one increment between a non-waiting decrement and
      its undoing lets two decrements complete on one permit. */
  lemma NonWaitingRace() returns (steps: seq<Step>, states: seq<State>)
    ensures IsRun(0, steps, states) && !WithinPermits(states[|steps|])
    ensures |steps| == 7 && forall i | 0 <= i < 7 :: !steps[i].Interrupt?
  {
    steps := [Decrement(1, false), Increment(2), Undo(1), Post(2), Decrement(3, true), Decrement(4, true), Wake(4)];
    var s1 := Start(0).(count := -1, undoing := {1});
    var s2 := s1.(count := 0, incs := 1, posting := {2});
    var s3 := s2.(count := 1, undoing := {}, surplus := 1);
    var s4 := s3.(kernel := 1, posting := {});
    var s5 := s4.(count := 0, decs := 1);
    var s6 := s5.(count := -1, waiting := {4});
    var s7 := s6.(kernel := 0, waiting := {}, decs := 2);
    states := [Start(0), s1, s2, s3, s4, s5, s6, s7];
    forall i {:trigger steps[i]} | 0 <= i < 7
      ensures Enabled(states[i], steps[i]) && states[i + 1] == Next(states[i], steps[i])
    {
      assert i == 0 || i == 1 || i == 2 || i == 3 || i == 4 || i == 5 || i == 6;
    }
  }

  /** The same with waiting callers of whom one is interrupted after it was posted for. */
  lemma InterruptedRace() returns (steps: seq<Step>, states: seq<State>)
    ensures IsRun(0, steps, states) && !WithinPermits(states[|steps|])
    ensures |steps| == 8 && forall i | 0 <= i < 8 :: steps[i].Decrement? ==> steps[i].wait
  {
    steps := [Decrement(1, true), Increment(2), Post(2), Interrupt(1), Undo(1),
              Decrement(3, true), Decrement(4, true), Wake(4)];
    var s1 := Start(0).(count := -1, waiting := {1});
    var s2 := s1.(count := 0, incs := 1, posting := {2});
    var s3 := s2.(kernel := 1, posting := {});
    var s4 := s3.(waiting := {}, undoing := {1});
    var s5 := s4.(count := 1, undoing := {}, surplus := 1);
    var s6 := s5.(count := 0, decs := 1);
    var s7 := s6.(count := -1, waiting := {4});
    var s8 := s7.(kernel := 0, waiting := {}, decs := 2);
    states := [Start(0), s1, s2, s3, s4, s5, s6, s7, s8];
    forall i {:trigger steps[i]} | 0 <= i < 8
      ensures Enabled(states[i], steps[i]) && states[i + 1] == Next(states[i], steps[i])
    {
      assert i == 0 || i == 1 || i == 2 || i == 3 || i == 4 || i == 5 || i == 6 || i == 7;
    }
  }

  // ----- the spin lock -----

  /** Threads that have seen their compare-and-swap succeed and not yet left. */
  datatype Lock = Lock(word: int, inside: set<Tid>)

  datatype LockStep = TryEnter(t: Tid) | Leave(t: Tid)

  /** One pass of the spin loop, or the store on leaving. */
  function LockNext(k: Lock, e: LockStep): Lock {
    match e
    case TryEnter(t) => if k.word == 0 then Lock(1, k.inside + {t}) else k
    case Leave(t) => Lock(0, k.inside - {t})
  }

  function LockRun(k: Lock, es: seq<LockStep>): Lock
    decreases |es|
  {
    if es == [] then k else LockNext(LockRun(k, es[..|es| - 1]), es[|es| - 1])
  }

  /** Each leave is by a thread that is inside at that point. */
  ghost predicate OnlyOwnersLeave(k: Lock, es: seq<LockStep>) {
    forall i | 0 <= i < |es| && es[i].Leave? :: es[i].t in LockRun(k, es[..i]).inside
  }

  ghost predicate Exclusive(k: Lock) {
    k.word in {0, 1} && |k.inside| == k.word
  }

  /** Mutual exclusion over all runs in which only owners leave. */
  lemma {:induction false} MutualExclusion(es: seq<LockStep>)
    requires OnlyOwnersLeave(Lock(0, {}), es)
    ensures Exclusive(LockRun(Lock(0, {}), es))
    decreases |es|
  {
    if es == [] {
    } else {
      var front, e := es[..|es| - 1], es[|es| - 1];
      forall i | 0 <= i < |front| && front[i].Leave?
        ensures front[i].t in LockRun(Lock(0, {}), front[..i]).inside
      {
        assert front[..i] == es[..i] && front[i] == es[i];
      }
      MutualExclusion(front);
      var k := LockRun(Lock(0, {}), front);
      assert LockRun(Lock(0, {}), es) == LockNext(k, e);
      if e.Leave? {
        assert e.t in k.inside;
        assert k.inside == (k.inside - {e.t}) + {e.t};
      } else if k.word == 0 {
        assert k.inside == {};
      }
    }
  }

  /** In such a run a try enters exactly when nobody is inside, and a leave makes room
      for the next. */
  lemma EntersIffFree(es: seq<LockStep>, t: Tid, u: Tid)
    requires OnlyOwnersLeave(Lock(0, {}), es) && t !in LockRun(Lock(0, {}), es).inside
    ensures var k := LockRun(Lock(0, {}), es);
            && (t in LockNext(k, TryEnter(t)).inside <==> k.inside == {})
            && (u in k.inside ==> t in LockNext(LockNext(k, Leave(u)), TryEnter(t)).inside)
  {
    MutualExclusion(es);
  }

  /** A leave keeps the lock exclusive exactly when the leaver is inside or the lock is free. */
  lemma LeaveIsSafeIffOwner(k: Lock, t: Tid)
    requires Exclusive(k)
    ensures Exclusive(LockNext(k, Leave(t))) <==> t in k.inside || k.word == 0
  {
    if t in k.inside {
      assert k.inside == (k.inside - {t}) + {t};
    } else {
      assert k.inside - {t} == k.inside;
    }
  }
}
