/** Cross-thread injection (pollset_plus::inject_cb and run_pending_asyncs) as the steps
    that the threads interleave, sequentially consistent. A byte in the self-pipe is what
    makes poll(2) return and the runner run. */
module Inject {
  type Callback = nat
  type Thread = nat

  /** Where a thread is in inject_cb(): it holds the lock in all places but the first two. */
  datatype Injector =
    | Calling(cb: Callback)
    | Done
    | Entered(cb: Callback)   // has the lock
    | Appended                // the callback is in async_cbs_
    | MustWake                // has found async_pending_ false and set it
    | Leaving                 // about to release the lock

  /** Where the polling thread is in run_pending_asyncs(). */
  datatype Runner =
    | Elsewhere
    | Draining                // in the loop that reads the self-pipe
    | Drained                 // the pipe was found empty
    | Locked                  // has the lock
    | Cleared                 // async_pending_ is false again
    | Running                 // runs what it has swapped out

  datatype Holder = Free | HeldBy(t: Thread) | HeldByRunner

  datatype State = State(
    capacity: nat,                     // of the pipe, in bytes
    pipe: nat,
    lock: Holder,
    cbs: seq<Callback>,                // async_cbs_
    pending: bool,                     // async_pending_
    threads: map<Thread, Injector>,
    runner: Runner,
    taken: seq<Callback>,              // swapped out and not yet run
    ran: seq<Callback>,                // every callback run, in order
    injected: seq<Callback>            // every callback appended, in order
  )

  ghost predicate Init(s: State) {
    && s.capacity > 0 && s.pipe <= s.capacity
    && s.lock == Free && s.cbs == [] && !s.pending
    && (forall t | t in s.threads :: s.threads[t].Calling?)
    && s.runner == Elsewhere && s.taken == s.ran == s.injected == []
  }

  datatype Step =
    | Call(t: Thread, cb: Callback)  // a thread enters inject_cb()
    | Acquire(t: Thread)
    | Append(t: Thread)
    | Test(t: Thread)
    | Wake(t: Thread)
    | Release(t: Thread)
    | OtherWake                      // wake() from elsewhere, or a signal
    | Start                          // poll() sees the pipe readable
    | Read(n: nat)                   // a read() that returns bytes
    | ReadEmpty                      // a read() that would block
    | RunnerAcquire
    | Clear
    | Swap
    | Run                            // one callback runs
    | Finish

  function Written(s: State): nat {
    if s.pipe < s.capacity then s.pipe + 1 else s.pipe
  }

  ghost predicate Next(s: State, s': State, step: Step) {
    match step
    case Call(t, cb) =>
      && (t in s.threads ==> s.threads[t] == Done)
      && s' == s.(threads := s.threads[t := Calling(cb)])
    case Acquire(t) =>
      && t in s.threads && s.threads[t].Calling? && s.lock == Free
      && s' == s.(lock := HeldBy(t), threads := s.threads[t := Entered(s.threads[t].cb)])
    case Append(t) =>
      && t in s.threads && s.threads[t].Entered?
      && var cb := s.threads[t].cb;
         s' == s.(cbs := s.cbs + [cb], injected := s.injected + [cb], threads := s.threads[t := Appended])
    case Test(t) =>
      && t in s.threads && s.threads[t] == Appended
      && s' == s.(pending := true, threads := s.threads[t := if s.pending then Leaving else MustWake])
    case Wake(t) =>
      && t in s.threads && s.threads[t] == MustWake
      && s' == s.(pipe := Written(s), threads := s.threads[t := Leaving])
    case Release(t) =>
      && t in s.threads && s.threads[t] == Leaving
      && s' == s.(lock := Free, threads := s.threads[t := Done])
    case OtherWake => s' == s.(pipe := Written(s))
    case Start => s.runner == Elsewhere && s.pipe > 0 && s' == s.(runner := Draining)
    case Read(n) =>
      s.runner == Draining && 0 < n <= 128 && n <= s.pipe && s' == s.(pipe := s.pipe - n)
    case ReadEmpty => s.runner == Draining && s.pipe == 0 && s' == s.(runner := Drained)
    case RunnerAcquire =>
      s.runner == Drained && s.lock == Free && s' == s.(runner := Locked, lock := HeldByRunner)
    case Clear => s.runner == Locked && s' == s.(runner := Cleared, pending := false)
    case Swap =>
      s.runner == Cleared && s' == s.(runner := Running, lock := Free, taken := s.cbs, cbs := [])
    case Run =>
      && s.runner == Running && s.taken != []
      && s' == s.(taken := s.taken[1..], ran := s.ran + [s.taken[0]])
    case Finish => s.runner == Running && s.taken == [] && s' == s.(runner := Elsewhere)
  }

  /** The lock is held by exactly the thread that is inside. */
  ghost predicate LockHeld(s: State) {
    && (forall t | t in s.threads :: !(s.threads[t].Calling? || s.threads[t] == Done) <==> s.lock == HeldBy(t))
    && (s.runner in {Locked, Cleared} <==> s.lock == HeldByRunner)
    && (s.lock.HeldBy? ==> s.lock.t in s.threads)
  }

  ghost predicate HolderIs(s: State, pc: Injector) {
    s.lock.HeldBy? && s.lock.t in s.threads && s.threads[s.lock.t] == pc
  }

  /** The runner is past the point where it needs a byte, and has yet to take the callbacks. */
  ghost predicate RunnerOnItsWay(s: State) {
    s.runner in {Draining, Drained, Locked}
  }

  ghost predicate Inv(s: State) {
    && s.capacity > 0 && s.pipe <= s.capacity && LockHeld(s)
    // every callback appended is run, about to be run, or waiting: once, and in order
    && s.injected == s.ran + s.taken + s.cbs
    && (s.taken != [] ==> s.runner == Running)
    // async_pending_ promises a byte, or somebody who is past needing one or about to write it
    && (s.pending ==> s.pipe > 0 || RunnerOnItsWay(s) || HolderIs(s, MustWake))
    && (s.cbs != [] ==> s.pending || HolderIs(s, Appended) || s.runner == Cleared)
    && (HolderIs(s, MustWake) || HolderIs(s, Leaving) ==> s.pending)
    && (s.runner == Cleared ==> !s.pending)
  }

  lemma InitInv(s: State)
    requires Init(s)
    ensures Inv(s)
  {
  }

  predicate ByRunner(step: Step) {
    || step.Start? || step.Read? || step.ReadEmpty? || step.RunnerAcquire?
    || step.Clear? || step.Swap? || step.Run? || step.Finish?
  }

  lemma RunnerInv(s: State, s': State, step: Step)
    requires Inv(s) && Next(s, s', step) && ByRunner(step)
    ensures Inv(s')
  {
    match step
    case Swap => assert s.ran + [] + s.cbs == s.ran + s.cbs + [];
    case Run => assert s.ran + s.taken == (s.ran + [s.taken[0]]) + s.taken[1..];
    case _ =>
  }

  lemma ThreadInv(s: State, s': State, step: Step)
    requires Inv(s) && Next(s, s', step) && !ByRunner(step)
    ensures Inv(s')
  {
    match step
    case Append(t) =>
      assert s.ran + s.taken + (s.cbs + [s.threads[t].cb]) == (s.ran + s.taken + s.cbs) + [s.threads[t].cb];
    case _ =>
  }

  lemma NextInv(s: State, s': State, step: Step)
    requires Inv(s) && Next(s, s', step)
    ensures Inv(s')
  {
    hide Inv, Next;
    if ByRunner(step) {
      RunnerInv(s, s', step);
    } else {
      ThreadInv(s, s', step);
    }
  }

  /** A run: states connected by steps. */
  ghost predicate IsRun(states: seq<State>, steps: seq<Step>) {
    && |states| == |steps| + 1
    && forall i | 0 <= i < |steps| :: Next(states[i], states[i + 1], steps[i])
  }

  lemma {:induction false} RunInv(states: seq<State>, steps: seq<Step>, i: nat)
    requires IsRun(states, steps) && i < |states| && Inv(states[0])
    ensures Inv(states[i])
  {
    hide Inv, Next;
    if i > 0 {
      RunInv(states, steps, i - 1);
      NextInv(states[i - 1], states[i], steps[i - 1]);
    }
  }

  /** No lost wake-up, in every state of every run: a waiting callback has a byte in the pipe, or a
      runner that will still take it, or its injector is still to write the byte. And callbacks
      have run once each, in the order in which they were injected. */
  lemma NoLostWakeup(states: seq<State>, steps: seq<Step>, i: nat)
    requires IsRun(states, steps) && i < |states| && Init(states[0])
    ensures var s := states[i];
      && (s.cbs != [] ==>
            || s.pipe > 0
            || s.runner in {Draining, Drained, Locked, Cleared}
            || HolderIs(s, Appended) || HolderIs(s, MustWake))
      && (s.cbs != [] && s.lock == Free && s.runner in {Elsewhere, Running} ==> s.pipe > 0)
      && s.injected == s.ran + s.taken + s.cbs
  {
    InitInv(states[0]);
    RunInv(states, steps, i);
  }

  /** One step put in front of a run. */
  lemma Prepend(s: State, step: Step, states: seq<State>, steps: seq<Step>)
    requires IsRun(states, steps) && Next(s, states[0], step)
    ensures IsRun([s] + states, [step] + steps)
  {
    hide Next;
    forall i | 0 <= i < |steps| + 1
      ensures Next(([s] + states)[i], ([s] + states)[i + 1], ([step] + steps)[i])
    {
      if i > 0 {
        assert ([s] + states)[i] == states[i - 1] && ([s] + states)[i + 1] == states[i];
      }
    }
  }

  /** The step the runner takes next when nobody holds the lock against it. */
  function RunnerStep(s: State): Step {
    match s.runner
    case Elsewhere => Start
    case Draining => if s.pipe == 0 then ReadEmpty else Read(if s.pipe < 128 then s.pipe else 128)
    case Drained => RunnerAcquire
    case Locked => Clear
    case Cleared => Swap
    case Running => if s.taken == [] then Finish else Run
  }

  /** How far the runner is from having run all that is waiting. */
  function Distance(s: State): nat {
    match s.runner
    case Elsewhere => s.pipe + |s.cbs| + 10
    case Draining => s.pipe + |s.cbs| + 9
    case Drained => |s.cbs| + 8
    case Locked => |s.cbs| + 7
    case Cleared => |s.cbs| + 6
    case Running => |s.taken| + if s.cbs == [] then 0 else s.pipe + |s.cbs| + 11
  }

  /** From every state of every run in which no injector is inside, the runner alone
      gets all waiting callbacks run, in order. */
  lemma {:induction false} Delivered(s: State) returns (states: seq<State>, steps: seq<Step>)
    requires Inv(s) && !s.lock.HeldBy?
    ensures IsRun(states, steps) && states[0] == s
    ensures forall i | 0 <= i < |steps| :: ByRunner(steps[i])
    ensures states[|steps|].ran == s.injected
    decreases Distance(s)
  {
    if s.cbs == [] && s.taken == [] {
      states, steps := [s], [];
      assert s.ran + [] + [] == s.ran;
    } else {
      var step := RunnerStep(s);
      var s' := After(s, step);
      RunnerInv(s, s', step);
      var states', steps' := Delivered(s');
      states, steps := [s] + states', [step] + steps';
      Prepend(s, step, states', steps');
    }
  }

  lemma After(s: State, step: Step) returns (s': State)
    requires Inv(s) && !s.lock.HeldBy? && step == RunnerStep(s) && !(s.cbs == [] && s.taken == [])
    ensures Next(s, s', step) && Distance(s') < Distance(s) && !s'.lock.HeldBy? && s'.injected == s.injected
  {
    match step
    case Start => s' := s.(runner := Draining);
    case Read(n) => s' := s.(pipe := s.pipe - n);
    case ReadEmpty => s' := s.(runner := Drained);
    case RunnerAcquire => s' := s.(runner := Locked, lock := HeldByRunner);
    case Clear => s' := s.(runner := Cleared, pending := false);
    case Swap => s' := s.(runner := Running, lock := Free, taken := s.cbs, cbs := []);
    case Run => s' := s.(taken := s.taken[1..], ran := s.ran + [s.taken[0]]);
    case Finish => s' := s.(runner := Elsewhere);
  }
}
