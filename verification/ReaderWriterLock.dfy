/** The reader-writer spinlock as atomic steps of any number of threads, in any interleaving,
    on a 64-bit lock word. */
module ReaderWriterLock {
  import opened Bits

  const READER: nat := 2
  const WRITER: nat := 1

  /** `Undoing` is a reader that saw the writer bit and has yet to take its increment back. */
  datatype Pc = Idle | Reading | Undoing | Writing

  datatype State = State(lock: usize, threads: seq<Pc>)

  datatype Step =
    | ReadAdd(t: nat)    // fetch_add(READER), then the test of the writer bit
    | ReadUndo(t: nat)   // fetch_sub(READER) after a failed test
    | ReadDrop(t: nat)   // read guard dropped
    | WriteCas(t: nat)   // compare_exchange(0, WRITER)
    | WriteDrop(t: nat)  // write guard dropped: fetch_and(!WRITER)

  predicate Enabled(s: State, step: Step) {
    && step.t < |s.threads|
    && match step
       case ReadAdd(t) => s.threads[t].Idle?
       case ReadUndo(t) => s.threads[t].Undoing?
       case ReadDrop(t) => s.threads[t].Reading?
       case WriteCas(t) => s.threads[t].Idle?
       case WriteDrop(t) => s.threads[t].Writing?
  }

  /** Atomics wrap. */
  function Wrap(x: int): usize {
    x % WORD
  }

  lemma {:induction false} AndStaysInWord(a: nat, b: nat)
    ensures And(a, b) <= a
    decreases a + b
  {
    if a != 0 || b != 0 { AndStaysInWord(a / 2, b / 2); }
  }

  function Next(s: State, step: Step): State
    requires Enabled(s, step)
  {
    match step
    case ReadAdd(t) =>
      State(Wrap(s.lock + READER), s.threads[t := if And(s.lock, WRITER) != 0 then Undoing else Reading])
    case ReadUndo(t) =>
      State(Wrap(s.lock - READER), s.threads[t := Idle])
    case ReadDrop(t) =>
      State(Wrap(s.lock - READER), s.threads[t := Idle])
    case WriteCas(t) =>
      if s.lock == 0 then State(WRITER, s.threads[t := Writing]) else s
    case WriteDrop(t) =>
      AndStaysInWord(s.lock, Not(WRITER));
      State(And(s.lock, Not(WRITER)), s.threads[t := Idle])
  }

  function Count(threads: seq<Pc>, p: Pc): nat {
    if threads == [] then 0 else (if threads[0] == p then 1 else 0) + Count(threads[1..], p)
  }

  lemma {:induction false} CountUpdate(threads: seq<Pc>, t: nat, q: Pc, p: Pc)
    requires t < |threads|
    ensures Count(threads[t := q], p)
         == Count(threads, p) - (if threads[t] == p then 1 else 0) + (if q == p then 1 else 0)
  {
    if t == 0 {
      assert threads[t := q][1..] == threads[1..];
    } else {
      assert threads[t := q][1..] == threads[1..][t - 1 := q];
      CountUpdate(threads[1..], t - 1, q, p);
    }
  }

  lemma {:induction false} CountBound(threads: seq<Pc>)
    ensures Count(threads, Reading) + Count(threads, Undoing) + Count(threads, Writing) <= |threads|
  {
    if threads != [] { CountBound(threads[1..]); }
  }

  lemma {:induction false} CountPositive(threads: seq<Pc>, t: nat)
    requires t < |threads|
    ensures Count(threads, threads[t]) > 0
  {
    if t > 0 {
      assert threads[1..][t - 1] == threads[t];
      CountPositive(threads[1..], t - 1);
    }
  }

  lemma {:induction false} CountTwo(threads: seq<Pc>, t: nat, u: nat)
    requires t < u < |threads| && threads[t] == threads[u]
    ensures Count(threads, threads[t]) >= 2
  {
    if t == 0 {
      assert threads[1..][u - 1] == threads[u];
      CountPositive(threads[1..], u - 1);
    } else {
      assert threads[1..][t - 1] == threads[t] && threads[1..][u - 1] == threads[u];
      CountTwo(threads[1..], t - 1, u - 1);
    }
  }

  /** The word counts the readers, and those about to step back, in units of two, and the
      writer in bit 0; a writer excludes readers. */
  ghost predicate Invariant(s: State) {
    var readers, undoing, writers := Count(s.threads, Reading), Count(s.threads, Undoing), Count(s.threads, Writing);
    && s.lock == READER * (readers + undoing) + writers
    && writers <= 1
    && (writers == 1 ==> readers == 0)
    && 2 * |s.threads| + 1 < WORD
  }

  lemma {:induction false} BitOperations(x: usize)
    ensures And(x, WRITER) == x % 2 && And(x, Not(WRITER)) == x - x % 2
  {
    AndLowMask(x, 1);
    AndHighMaskWord(x, 1);
    assert Pow2(1) == 2;
  }

  /** A thread moves from one place to another: how the three counts change. */
  lemma {:induction false} Moved(s: State, t: nat, q: Pc)
    requires t < |s.threads|
    ensures var p, r := s.threads[t], s.threads[t := q];
            && Count(s.threads, p) > 0
            && Count(r, Reading) == Count(s.threads, Reading) - (if p == Reading then 1 else 0) + (if q == Reading then 1 else 0)
            && Count(r, Undoing) == Count(s.threads, Undoing) - (if p == Undoing then 1 else 0) + (if q == Undoing then 1 else 0)
            && Count(r, Writing) == Count(s.threads, Writing) - (if p == Writing then 1 else 0) + (if q == Writing then 1 else 0)
            && Count(r, Reading) + Count(r, Undoing) + Count(r, Writing) <= |s.threads|
  {
    hide Count;
    CountPositive(s.threads, t);
    CountUpdate(s.threads, t, q, Reading);
    CountUpdate(s.threads, t, q, Undoing);
    CountUpdate(s.threads, t, q, Writing);
    CountBound(s.threads[t := q]);
  }

  lemma {:induction false} WrapSmall(x: int)
    requires 0 <= x < WORD
    ensures Wrap(x) == x
  {
  }

  lemma {:induction false} StepKeeps(s: State, step: Step)
    requires Invariant(s) && Enabled(s, step)
    ensures Invariant(Next(s, step))
  {
    hide Count, And, Wrap;
    BitOperations(s.lock);
    match step
    case ReadAdd(t) =>
      Moved(s, t, if And(s.lock, WRITER) != 0 then Undoing else Reading);
      WrapSmall(s.lock + READER);
    case ReadUndo(t) =>
      Moved(s, t, Idle);
      WrapSmall(s.lock - READER);
    case ReadDrop(t) =>
      Moved(s, t, Idle);
      WrapSmall(s.lock - READER);
    case WriteCas(t) =>
      Moved(s, t, Writing);
    case WriteDrop(t) =>
      Moved(s, t, Idle);
  }

  function Init(n: nat): State {
    State(0, seq(n, _ => Idle))
  }

  lemma {:induction false} InitCounts(n: nat, p: Pc)
    requires p != Idle
    ensures Count(seq(n, _ => Idle), p) == 0
  {
    if n > 0 {
      assert seq(n, _ => Idle)[1..] == seq(n - 1, _ => Idle);
      InitCounts(n - 1, p);
    }
  }

  predicate EnabledRun(s: State, steps: seq<Step>)
    decreases |steps|
  {
    steps == [] || (Enabled(s, steps[0]) && EnabledRun(Next(s, steps[0]), steps[1..]))
  }

  function Run(s: State, steps: seq<Step>): State
    requires EnabledRun(s, steps)
    decreases |steps|
  {
    if steps == [] then s else Run(Next(s, steps[0]), steps[1..])
  }

  lemma {:induction false} RunKeeps(s: State, steps: seq<Step>)
    requires Invariant(s) && EnabledRun(s, steps)
    ensures Invariant(Run(s, steps))
    decreases |steps|
  {
    hide Invariant;
    if steps != [] {
      StepKeeps(s, steps[0]);
      RunKeeps(Next(s, steps[0]), steps[1..]);
    }
  }

  /** Over every run of fewer than 2^63 - 1 threads: the lock word is exactly the count, a
      writer never coexists with a reader or a second writer, and the word is zero exactly when
      nobody holds the lock or is stepping back. */
  lemma {:induction false} WriterExcludesAll(n: nat, steps: seq<Step>)
    requires 2 * n + 1 < WORD && EnabledRun(Init(n), steps)
    ensures var s := Run(Init(n), steps);
            && s.lock == 2 * (Count(s.threads, Reading) + Count(s.threads, Undoing)) + Count(s.threads, Writing)
            && (forall t, u :: 0 <= t < |s.threads| && 0 <= u < |s.threads| && t != u && s.threads[t].Writing? ==>
                  !s.threads[u].Writing? && !s.threads[u].Reading?)
            && (s.lock == 0 <==> forall t :: 0 <= t < |s.threads| ==> s.threads[t].Idle?)
  {
    InitInvariant(n);
    RunKeeps(Init(n), steps);
    var s := Run(Init(n), steps);
    hide Count, Run;
    forall t, u | 0 <= t < |s.threads| && 0 <= u < |s.threads| && t != u && s.threads[t].Writing?
      ensures !s.threads[u].Writing? && !s.threads[u].Reading?
    {
      CountPositive(s.threads, t);
      CountPositive(s.threads, u);
      if s.threads[u].Writing? {
        if t < u { CountTwo(s.threads, t, u); } else { CountTwo(s.threads, u, t); }
      }
    }
    forall t | 0 <= t < |s.threads| ensures s.lock == 0 ==> s.threads[t].Idle? {
      CountPositive(s.threads, t);
    }
    if forall t :: 0 <= t < |s.threads| ==> s.threads[t].Idle? {
      AllIdle(s.threads);
    }
  }

  lemma {:induction false} AllIdle(threads: seq<Pc>)
    requires forall t :: 0 <= t < |threads| ==> threads[t].Idle?
    ensures Count(threads, Reading) == 0 && Count(threads, Undoing) == 0 && Count(threads, Writing) == 0
  {
    if threads != [] { AllIdle(threads[1..]); }
  }

  // ----- Who gets in, and that everyone can -----

  /** A reader gets in exactly when no writer holds the lock, and steps back otherwise; a writer
      gets in exactly when nobody holds the lock or is stepping back, and nothing happens
      otherwise. Whoever leaves is idle again, and nobody else is moved. */
  lemma {:induction false} StepEnters(s: State, step: Step)
    requires Invariant(s) && Enabled(s, step)
    ensures var s' := Next(s, step);
            var t := step.t;
            && |s'.threads| == |s.threads| && (forall u :: 0 <= u < |s.threads| && u != t ==> s'.threads[u] == s.threads[u])
            && match step
               case ReadAdd(_) => s'.threads[t] == if Count(s.threads, Writing) == 0 then Reading else Undoing
               case WriteCas(_) =>
                 if Count(s.threads, Reading) + Count(s.threads, Undoing) + Count(s.threads, Writing) == 0
                 then s'.threads[t] == Writing else s' == s
               case _ => s'.threads[t] == Idle
  {
    hide Count, And, Wrap;
    BitOperations(s.lock);
  }

  lemma {:induction false} RunCons(s: State, step: Step, steps: seq<Step>)
    requires Enabled(s, step) && EnabledRun(Next(s, step), steps)
    ensures EnabledRun(s, [step] + steps) && Run(s, [step] + steps) == Run(Next(s, step), steps)
  {
    assert ([step] + steps)[1..] == steps;
  }

  lemma {:induction false} RunNothing(s: State)
    ensures EnabledRun(s, []) && Run(s, []) == s
  {
  }

  lemma {:induction false} RunLast(s: State, steps: seq<Step>, step: Step)
    requires EnabledRun(s, steps) && Enabled(Run(s, steps), step)
    ensures EnabledRun(s, steps + [step]) && Run(s, steps + [step]) == Next(Run(s, steps), step)
    decreases |steps|
  {
    if steps == [] {
      RunNothing(Next(s, step));
      RunCons(s, step, []);
      assert steps + [step] == [step] + [];
    } else {
      RunLast(Next(s, steps[0]), steps[1..], step);
      RunCons(s, steps[0], steps[1..] + [step]);
      assert steps + [step] == [steps[0]] + (steps[1..] + [step]);
    }
  }

  function Leave(p: Pc, t: nat): Step
    requires p != Idle
  {
    if p == Reading then ReadDrop(t) else if p == Undoing then ReadUndo(t) else WriteDrop(t)
  }

  function Busy(threads: seq<Pc>): nat {
    Count(threads, Reading) + Count(threads, Undoing) + Count(threads, Writing)
  }

  /** Everyone who is in can leave. */
  lemma {:induction false} AllLeave(s: State) returns (steps: seq<Step>)
    requires Invariant(s)
    ensures EnabledRun(s, steps) && |Run(s, steps).threads| == |s.threads|
    ensures forall t :: 0 <= t < |s.threads| ==> Run(s, steps).threads[t].Idle?
    decreases Busy(s.threads)
  {
    hide Invariant, Count, Run, EnabledRun, Next;
    if t :| 0 <= t < |s.threads| && s.threads[t] != Idle {
      var step := Leave(s.threads[t], t);
      StepKeeps(s, step);
      StepEnters(s, step);
      assert Next(s, step).threads == s.threads[t := Idle];
      Moved(s, t, Idle);
      var rest := AllLeave(Next(s, step));
      RunCons(s, step, rest);
      steps := [step] + rest;
    } else {
      steps := [];
      RunNothing(s);
    }
  }

  /** After every run, every thread, wherever it is, can go on to read, and can go on to write. */
  lemma {:induction false} EveryThreadCanEnter(n: nat, before: seq<Step>, t: nat)
      returns (toRead: seq<Step>, toWrite: seq<Step>)
    requires 2 * n + 1 < WORD && EnabledRun(Init(n), before) && t < |Run(Init(n), before).threads|
    ensures var s := Run(Init(n), before);
            && EnabledRun(s, toRead) && t < |Run(s, toRead).threads| && Run(s, toRead).threads[t].Reading?
            && EnabledRun(s, toWrite) && t < |Run(s, toWrite).threads| && Run(s, toWrite).threads[t].Writing?
  {
    hide Invariant, Count, Run, EnabledRun, Next;
    InitInvariant(n);
    RunKeeps(Init(n), before);
    var s := Run(Init(n), before);
    var out := AllLeave(s);
    RunKeeps(s, out);
    var free := Run(s, out);
    AllIdle(free.threads);
    StepEnters(free, ReadAdd(t));
    StepEnters(free, WriteCas(t));
    RunLast(s, out, ReadAdd(t));
    RunLast(s, out, WriteCas(t));
    toRead, toWrite := out + [ReadAdd(t)], out + [WriteCas(t)];
  }

  lemma {:induction false} InitInvariant(n: nat)
    requires 2 * n + 1 < WORD
    ensures Invariant(Init(n))
  {
    InitCounts(n, Reading);
    InitCounts(n, Undoing);
    InitCounts(n, Writing);
  }
}
