/** The ticket lock as atomic steps of any number of threads, in any interleaving. */
module TicketMutex {

  /** Where a thread is in `lock` and in the life of its guard. */
  datatype Pc = Idle | Waiting(ticket: nat) | Holding(ticket: nat)

  /** The two counters, the threads, and the tickets in the order in which they entered. */
  datatype State = State(nowServing: nat, nextTicket: nat, threads: seq<Pc>, entered: seq<nat>)

  datatype Step =
    | TakeTicket(t: nat)  // next_ticket.fetch_add(1)
    | Poll(t: nat)        // now_serving.load() compared with the ticket
    | Unlock(t: nat)      // guard dropped: now_serving.store(ticket + 1)

  predicate Enabled(s: State, step: Step) {
    && step.t < |s.threads|
    && match step
       case TakeTicket(t) => s.threads[t].Idle?
       case Poll(t) => s.threads[t].Waiting?
       case Unlock(t) => s.threads[t].Holding?
  }

  function Next(s: State, step: Step): State
    requires Enabled(s, step)
  {
    match step
    case TakeTicket(t) =>
      s.(nextTicket := s.nextTicket + 1, threads := s.threads[t := Waiting(s.nextTicket)])
    case Poll(t) =>
      var ticket := s.threads[t].ticket;
      if s.nowServing != ticket then s
      else s.(threads := s.threads[t := Holding(ticket)], entered := s.entered + [ticket])
    case Unlock(t) =>
      s.(nowServing := s.threads[t].ticket + 1, threads := s.threads[t := Idle])
  }

  predicate HasTicket(p: Pc, k: nat) {
    !p.Idle? && p.ticket == k
  }

  ghost predicate Held(s: State) {
    exists t :: 0 <= t < |s.threads| && s.threads[t].Holding?
  }

  /** Outstanding tickets are distinct and fill `[nowServing, nextTicket)`; only the ticket
      being served can hold; tickets have entered in order, without gaps. */
  ghost predicate Invariant(s: State) {
    && s.nowServing <= s.nextTicket
    && (forall t :: 0 <= t < |s.threads| && !s.threads[t].Idle? ==> s.nowServing <= s.threads[t].ticket < s.nextTicket)
    && (forall t, u | 0 <= t < |s.threads| && 0 <= u < |s.threads| && t != u ::
          !s.threads[t].Idle? && !s.threads[u].Idle? ==> s.threads[t].ticket != s.threads[u].ticket)
    && (forall k :: s.nowServing <= k < s.nextTicket ==> Outstanding(s, k))
    && (forall t :: 0 <= t < |s.threads| && s.threads[t].Holding? ==> s.threads[t].ticket == s.nowServing)
    && |s.entered| == s.nowServing + (if Held(s) then 1 else 0)
    && (forall i :: 0 <= i < |s.entered| ==> s.entered[i] == i)
  }

  ghost predicate Outstanding(s: State, k: nat) {
    exists t :: 0 <= t < |s.threads| && HasTicket(s.threads[t], k)
  }

  function Init(n: nat): State {
    State(0, 0, seq(n, _ => Idle), [])
  }

  predicate EnabledRun(s: State, steps: seq<Step>)
    decreases |steps|
  {
    steps == [] || (Enabled(s, steps[0]) && EnabledRun(Next(s, steps[0]), steps[1..]))
  }

  function Run(s: State, steps: seq<Step>): State
    requires EnabledRun(s, steps)
    decreases |steps|
  {
    if steps == [] then s else Run(Next(s, steps[0]), steps[1..])
  }

  lemma {:induction false} TakeTicketKeeps(s: State, t: nat)
    requires Invariant(s) && Enabled(s, TakeTicket(t))
    ensures Invariant(Next(s, TakeTicket(t)))
  {
    var s' := Next(s, TakeTicket(t));
    forall k | s'.nowServing <= k < s'.nextTicket ensures Outstanding(s', k) {
      if k < s.nextTicket {
        assert Outstanding(s, k);
        var u :| 0 <= u < |s.threads| && HasTicket(s.threads[u], k);
        assert HasTicket(s'.threads[u], k);
      } else {
        assert HasTicket(s'.threads[t], k);
      }
    }
    if u :| 0 <= u < |s.threads| && s.threads[u].Holding? { assert s'.threads[u].Holding?; }
    if u :| 0 <= u < |s.threads| && s'.threads[u].Holding? { assert s.threads[u].Holding?; }
  }

  lemma {:induction false} PollKeeps(s: State, t: nat)
    requires Invariant(s) && Enabled(s, Poll(t))
    ensures Invariant(Next(s, Poll(t)))
  {
    var s' := Next(s, Poll(t));
    if s.nowServing == s.threads[t].ticket {
      forall k | s'.nowServing <= k < s'.nextTicket ensures Outstanding(s', k) {
        assert Outstanding(s, k);
        var u :| 0 <= u < |s.threads| && HasTicket(s.threads[u], k);
        assert HasTicket(s'.threads[u], k);
      }
      assert !Held(s);
      assert s'.threads[t].Holding?;
    }
  }

  lemma {:induction false} UnlockKeeps(s: State, t: nat)
    requires Invariant(s) && Enabled(s, Unlock(t))
    ensures Invariant(Next(s, Unlock(t))) && Next(s, Unlock(t)).nowServing == s.nowServing + 1
  {
    var s' := Next(s, Unlock(t));
    forall k | s'.nowServing <= k < s'.nextTicket ensures Outstanding(s', k) {
      assert Outstanding(s, k);
      var u :| 0 <= u < |s.threads| && HasTicket(s.threads[u], k);
      assert HasTicket(s'.threads[u], k);
    }
    assert s.threads[t].Holding?;
    assert !Held(s');
  }

  lemma {:induction false} StepKeeps(s: State, step: Step)
    requires Invariant(s) && Enabled(s, step)
    ensures Invariant(Next(s, step))
    ensures Next(s, step).nowServing == s.nowServing + (if step.Unlock? then 1 else 0)
  {
    hide Invariant;
    match step
    case TakeTicket(t) => TakeTicketKeeps(s, t);
    case Poll(t) => PollKeeps(s, t);
    case Unlock(t) => UnlockKeeps(s, t);
  }

  /** The number of guards dropped in a run. */
  function Unlocks(steps: seq<Step>): nat {
    if steps == [] then 0 else (if steps[0].Unlock? then 1 else 0) + Unlocks(steps[1..])
  }

  /** Every interleaving keeps the invariant, and each unlock serves exactly one more ticket:
      a thread that waits with ticket `k` may enter after exactly `k - nowServing` unlocks,
      whatever else happens in between. */
  lemma {:induction false} RunKeeps(s: State, steps: seq<Step>)
    requires Invariant(s) && EnabledRun(s, steps)
    ensures Invariant(Run(s, steps))
    ensures Run(s, steps).nowServing == s.nowServing + Unlocks(steps)
    decreases |steps|
  {
    hide Invariant;
    if steps != [] {
      StepKeeps(s, steps[0]);
      RunKeeps(Next(s, steps[0]), steps[1..]);
    }
  }

  /** A thread that holds the lock, or whose next poll lets it in. */
  predicate HoldsOrMayEnter(s: State, t: nat)
    requires t < |s.threads|
  {
    s.threads[t].Holding? || (s.threads[t].Waiting? && s.threads[t].ticket == s.nowServing)
  }

  /** The outstanding tickets are exactly those of `[nowServing, nextTicket)`, each with one
      thread. */
  ghost predicate TicketsFill(s: State) {
    && (forall k: nat :: s.nowServing <= k < s.nextTicket <==> Outstanding(s, k))
    && (forall t, u, k | 0 <= t < |s.threads| && 0 <= u < |s.threads| ::
          HasTicket(s.threads[t], k) && HasTicket(s.threads[u], k) ==> t == u)
  }

  /** Only one thread holds the lock, with the ticket being served. */
  ghost predicate Exclusive(s: State) {
    && (forall t, u | 0 <= t < |s.threads| && 0 <= u < |s.threads| ::
          s.threads[t].Holding? && s.threads[u].Holding? ==> t == u)
    && (forall t :: 0 <= t < |s.threads| && s.threads[t].Holding? ==> s.threads[t].ticket == s.nowServing)
  }

  /** While any ticket is outstanding, exactly one thread holds the lock or may enter. */
  ghost predicate NeverStuck(s: State) {
    s.nowServing < s.nextTicket ==>
      exists t :: 0 <= t < |s.threads| && HoldsOrMayEnter(s, t)
                  && forall u :: 0 <= u < |s.threads| && HoldsOrMayEnter(s, u) ==> u == t
  }

  lemma {:induction false} InitInvariant(n: nat)
    ensures Invariant(Init(n))
  {
  }

  lemma {:induction false} InvariantFills(s: State)
    requires Invariant(s)
    ensures TicketsFill(s) && Exclusive(s)
  {
    forall k: nat | Outstanding(s, k) ensures s.nowServing <= k < s.nextTicket {
      var t :| 0 <= t < |s.threads| && HasTicket(s.threads[t], k);
    }
  }

  lemma {:induction false} FilledNeverStuck(s: State)
    requires TicketsFill(s) && Exclusive(s)
    ensures NeverStuck(s)
  {
    if s.nowServing < s.nextTicket {
      assert Outstanding(s, s.nowServing);
      var t :| 0 <= t < |s.threads| && HasTicket(s.threads[t], s.nowServing);
      assert HoldsOrMayEnter(s, t);
      forall u | 0 <= u < |s.threads| && HoldsOrMayEnter(s, u) ensures u == t {
        assert HasTicket(s.threads[u], s.nowServing);
      }
    }
  }

  /** Over every run from the free lock: outstanding tickets are distinct and fill the interval
      between the counters; at most one thread holds the lock, with the ticket being served;
      tickets enter in the order in which they were taken; and while any ticket is outstanding
      exactly one thread holds the lock or may enter, so the lock is never stuck. */
  lemma {:induction false} MutualExclusionAndFifo(n: nat, steps: seq<Step>)
    requires EnabledRun(Init(n), steps)
    ensures var s := Run(Init(n), steps);
            && Invariant(s) && TicketsFill(s) && Exclusive(s) && NeverStuck(s)
            && (forall i :: 0 <= i < |s.entered| ==> s.entered[i] == i)
  {
    hide Run, EnabledRun, Invariant, TicketsFill, Exclusive, NeverStuck;
    InitInvariant(n);
    RunKeeps(Init(n), steps);
    var s := Run(Init(n), steps);
    InvariantFills(s);
    FilledNeverStuck(s);
    InOrder(s);
  }

  lemma {:induction false} InOrder(s: State)
    requires Invariant(s)
    ensures forall i :: 0 <= i < |s.entered| ==> s.entered[i] == i
  {
  }

  /** First come, first served: a thread that still waits with ticket `k` may enter if and only
      if exactly `k - nowServing` guards have been dropped since. */
  lemma {:induction false} EntersAfterItsPredecessors(s: State, steps: seq<Step>, t: nat, k: nat)
    requires Invariant(s) && EnabledRun(s, steps)
    requires t < |Run(s, steps).threads| && Run(s, steps).threads[t] == Waiting(k)
    ensures HoldsOrMayEnter(Run(s, steps), t) <==> Unlocks(steps) == k - s.nowServing
  {
    hide Run, EnabledRun, Invariant;
    RunKeeps(s, steps);
  }

  // ----- Every thread gets in -----

  /** A poll lets its thread in exactly when the thread may enter, and does nothing otherwise. */
  lemma {:induction false} PollEnters(s: State, t: nat)
    requires Enabled(s, Poll(t))
    ensures var s' := Next(s, Poll(t));
            && (s'.threads[t].Holding? <==> HoldsOrMayEnter(s, t))
            && (HoldsOrMayEnter(s, t) ==> s'.threads[t] == Holding(s.threads[t].ticket) && s'.entered == s.entered + [s.threads[t].ticket])
            && (!HoldsOrMayEnter(s, t) ==> s' == s)
  {
  }

  lemma {:induction false} RunCons(s: State, step: Step, steps: seq<Step>)
    requires Enabled(s, step) && EnabledRun(Next(s, step), steps)
    ensures EnabledRun(s, [step] + steps) && Run(s, [step] + steps) == Run(Next(s, step), steps)
  {
    assert ([step] + steps)[1..] == steps;
  }

  /** A waiting thread gets in once its predecessors have entered and left. */
  lemma {:induction false} WaiterEnters(s: State, t: nat) returns (steps: seq<Step>)
    requires Invariant(s) && t < |s.threads| && !s.threads[t].Idle?
    ensures EnabledRun(s, steps) && t < |Run(s, steps).threads| && Run(s, steps).threads[t].Holding?
    decreases s.threads[t].ticket - s.nowServing, if s.threads[t].Holding? then 0 else 1
  {
    hide Invariant, Run, EnabledRun;
    if s.threads[t].Holding? {
      steps := [];
      RunNothing(s);
    } else if s.threads[t].ticket == s.nowServing {
      PollKeeps(s, t);
      PollEnters(s, t);
      RunNothing(Next(s, Poll(t)));
      RunCons(s, Poll(t), []);
      steps := [Poll(t)] + [];
    } else {
      var u := Served(s, t);
      var s1 := s;
      if s.threads[u].Waiting? {
        PollKeeps(s, u);
        s1 := Next(s, Poll(u));
      }
      UnlockKeeps(s1, u);
      TicketBound(Next(s1, Unlock(u)), t);
      var rest := WaiterEnters(Next(s1, Unlock(u)), t);
      RunCons(s1, Unlock(u), rest);
      steps := [Unlock(u)] + rest;
      if s.threads[u].Waiting? {
        RunCons(s, Poll(u), steps);
        steps := [Poll(u)] + steps;
      }
    }
  }

  lemma {:induction false} RunNothing(s: State)
    ensures EnabledRun(s, []) && Run(s, []) == s
  {
  }

  /** Ahead of a thread that waits with a later ticket, another one has the ticket served. */
  lemma {:induction false} Served(s: State, t: nat) returns (u: nat)
    requires Invariant(s) && t < |s.threads| && s.threads[t].Waiting? && s.threads[t].ticket != s.nowServing
    ensures u < |s.threads| && u != t && HasTicket(s.threads[u], s.nowServing) && s.nowServing < s.threads[t].ticket
  {
    assert Outstanding(s, s.nowServing);
    u :| 0 <= u < |s.threads| && HasTicket(s.threads[u], s.nowServing);
  }

  lemma {:induction false} TicketBound(s: State, t: nat)
    requires Invariant(s) && t < |s.threads| && !s.threads[t].Idle?
    ensures s.nowServing <= s.threads[t].ticket
  {
  }

  /** After every run, every thread, wherever it is, can go on to hold the lock. */
  lemma {:induction false} EveryThreadCanEnter(n: nat, before: seq<Step>, t: nat) returns (steps: seq<Step>)
    requires EnabledRun(Init(n), before) && t < |Run(Init(n), before).threads|
    ensures var s := Run(Init(n), before);
            EnabledRun(s, steps) && t < |Run(s, steps).threads| && Run(s, steps).threads[t].Holding?
  {
    hide Invariant, Run, EnabledRun;
    InitInvariant(n);
    RunKeeps(Init(n), before);
    var s := Run(Init(n), before);
    if s.threads[t].Idle? {
      TakeTicketKeeps(s, t);
      var rest := WaiterEnters(Next(s, TakeTicket(t)), t);
      RunCons(s, TakeTicket(t), rest);
      steps := [TakeTicket(t)] + rest;
    } else {
      steps := WaiterEnters(s, t);
    }
  }
}
