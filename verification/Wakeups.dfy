/** Blocking readers: the process-shared mutex, the condition variable and the wait loop, with any
    number of readers and submitters. A wait may also end spuriously or by its 20 ms timeout, or be
    refused at once, with the mutex kept, because the nanoseconds of its deadline exceed a second. */
module Wakeups {
  import opened Outcomes

  datatype Pc =
    // a reader inside GetFrame
    | ReaderAtLock
    | ReaderTesting     // holds the mutex, about to evaluate LastId > id
    | ReaderParked      // in pthread_cond_timedwait, mutex given up
    | ReaderWoken       // out of the condition's queue, wants the mutex back
    | ReaderBack        // holds the mutex again, about to check its timeout and error callback
    | ReaderReturned    // Wait returned normally
    | ReaderThrew
    // a submitter inside SubmitFrame
    | SubmitterAtLock
    | SubmitterLocked   // about to read LastId
    | SubmitterHolding(seen: nat)  // read it, about to compare and exchange
    | SubmitterRaised   // about to broadcast
    | SubmitterSignalled
    | SubmitterDone

  datatype Thread = Thread(id: nat, pc: Pc)

  datatype State = State(last: nat, mutex: Option<nat>, threads: map<nat, Thread>)

  datatype Step =
    | Lock(t: nat)
    | Park(t: nat)
    | Refuse(t: nat)      // the timed wait returns an error without giving up the mutex
    | Return(t: nat)
    | WakeUp(t: nat)      // spurious, or the timed wait ran out
    | Reacquire(t: nat)
    | Throw(t: nat)       // waiting time expired, or the error callback threw
    | Retest(t: nat)
    | Look(t: nat)
    | Exchange(t: nat)
    | Broadcast(t: nat)
    | Unlock(t: nat)

  predicate Enabled(s: State, step: Step) {
    step.t in s.threads &&
    var x := s.threads[step.t];
    match step
    case Lock(_) => (x.pc.ReaderAtLock? || x.pc.SubmitterAtLock?) && s.mutex.None?
    case Park(_) => x.pc.ReaderTesting? && s.last <= x.id
    case Refuse(_) => x.pc.ReaderTesting? && s.last <= x.id
    case Return(_) => x.pc.ReaderTesting? && s.last > x.id
    case WakeUp(_) => x.pc.ReaderParked?
    case Reacquire(_) => x.pc.ReaderWoken? && s.mutex.None?
    case Throw(_) => x.pc.ReaderBack?
    case Retest(_) => x.pc.ReaderBack?
    case Look(_) => x.pc.SubmitterLocked?
    case Exchange(_) => x.pc.SubmitterHolding?
    case Broadcast(_) => x.pc.SubmitterRaised?
    case Unlock(_) => x.pc.SubmitterSignalled?
  }

  function At(s: State, t: nat, pc: Pc): map<nat, Thread>
    requires t in s.threads
  {
    s.threads[t := s.threads[t].(pc := pc)]
  }

  /** pthread_cond_broadcast: every parked reader leaves the queue. */
  function Woken(threads: map<nat, Thread>): map<nat, Thread> {
    map t | t in threads :: if threads[t].pc.ReaderParked? then threads[t].(pc := ReaderWoken) else threads[t]
  }

  function Apply(s: State, step: Step): State
    requires Enabled(s, step)
  {
    var t, x := step.t, s.threads[step.t];
    match step
    case Lock(_) =>
      State(s.last, Some(t), At(s, t, if x.pc.ReaderAtLock? then ReaderTesting else SubmitterLocked))
    case Park(_) => State(s.last, None, At(s, t, ReaderParked))
    case Refuse(_) => s.(threads := At(s, t, ReaderBack))
    case Return(_) => State(s.last, None, At(s, t, ReaderReturned))
    case WakeUp(_) => s.(threads := At(s, t, ReaderWoken))
    case Reacquire(_) => State(s.last, Some(t), At(s, t, ReaderBack))
    case Throw(_) => State(s.last, None, At(s, t, ReaderThrew))
    case Retest(_) => s.(threads := At(s, t, ReaderTesting))
    case Look(_) => s.(threads := At(s, t, if s.last >= x.id + 1 then SubmitterRaised else SubmitterHolding(s.last)))
    case Exchange(_) =>
      if s.last == x.pc.seen then State(x.id + 1, s.mutex, At(s, t, SubmitterRaised))
      else s.(threads := At(s, t, SubmitterLocked))
    case Broadcast(_) => s.(threads := Woken(At(s, t, SubmitterSignalled)))
    case Unlock(_) => State(s.last, None, At(s, t, SubmitterDone))
  }

  predicate Possible(s: State, steps: seq<Step>)
    decreases |steps|
  {
    steps == [] || (Enabled(s, steps[0]) && Possible(Apply(s, steps[0]), steps[1..]))
  }

  function Run(s: State, steps: seq<Step>): State
    requires Possible(s, steps)
    decreases |steps|
  {
    if steps == [] then s else Run(Apply(s, steps[0]), steps[1..])
  }

  ghost predicate Initial(s: State) {
    s.mutex.None? && forall t | t in s.threads :: s.threads[t].pc.ReaderAtLock? || s.threads[t].pc.SubmitterAtLock?
  }

  predicate HoldsMutex(pc: Pc) {
    pc.ReaderTesting? || pc.ReaderBack? || pc.SubmitterLocked? || pc.SubmitterHolding? || pc.SubmitterRaised? || pc.SubmitterSignalled?
  }

  /** A reader parked although its frame is there. */
  predicate Overslept(s: State, t: nat)
    requires t in s.threads
  {
    s.threads[t].pc.ReaderParked? && s.last > s.threads[t].id
  }

  predicate ThreadInv(s: State, t: nat)
    requires t in s.threads
  {
    var x := s.threads[t];
    && (HoldsMutex(x.pc) <==> s.mutex == Some(t))
    && (x.pc.ReaderReturned? ==> s.last > x.id)
    && (x.pc.SubmitterHolding? ==> s.last == x.pc.seen <= x.id)
  }

  ghost predicate Inv(s: State) {
    && (forall t | t in s.threads :: ThreadInv(s, t))
    && (s.mutex.Some? ==> s.mutex.value in s.threads)
    && (forall t | t in s.threads && Overslept(s, t) ::
          s.mutex.Some? && s.threads[s.mutex.value].pc.SubmitterRaised?)
  }

  /** A step concerns one thread; a broadcast also moves readers that hold no mutex. */
  lemma OthersStay(s: State, step: Step, t: nat)
    requires Enabled(s, step) && t in s.threads && t != step.t
    ensures t in Apply(s, step).threads
    ensures var x, y := s.threads[t], Apply(s, step).threads[t];
            y == x || (x.pc.ReaderParked? && step.Broadcast? && y == x.(pc := ReaderWoken))
  {
  }

  lemma StepKeepsOversleepers(s: State, step: Step, t: nat)
    requires Inv(s) && Enabled(s, step) && t in Apply(s, step).threads && Overslept(Apply(s, step), t)
    ensures var u := Apply(s, step);
            u.mutex.Some? && u.mutex.value in u.threads && u.threads[u.mutex.value].pc.SubmitterRaised?
  {
    var u := Apply(s, step);
    if t != step.t {
      OthersStay(s, step, t);
      assert step.Exchange? || Overslept(s, t);
    }
  }

  lemma StepKeepsThread(s: State, step: Step, t: nat)
    requires Inv(s) && Enabled(s, step) && t in Apply(s, step).threads
    ensures ThreadInv(Apply(s, step), t)
  {
    assert ThreadInv(s, step.t) && ThreadInv(s, t);
    if t != step.t { OthersStay(s, step, t); }
  }

  lemma StepKeepsInv(s: State, step: Step)
    requires Inv(s) && Enabled(s, step)
    ensures Inv(Apply(s, step))
    ensures s.last <= Apply(s, step).last
  {
    var u := Apply(s, step);
    assert ThreadInv(s, step.t);
    forall t | t in u.threads ensures ThreadInv(u, t) {
      StepKeepsThread(s, step, t);
    }
    forall t | t in u.threads && Overslept(u, t)
      ensures u.mutex.Some? && u.mutex.value in u.threads && u.threads[u.mutex.value].pc.SubmitterRaised?
    {
      StepKeepsOversleepers(s, step, t);
    }
  }

  /** No lost wake-up: in every reachable state with the mutex free, no reader is parked whose frame
      has been published; and a wait that returned normally returned because its frame was there. */
  lemma {:induction false} NoLostWakeup(s: State, steps: seq<Step>)
    requires Inv(s) && Possible(s, steps)
    ensures Inv(Run(s, steps))
    ensures Run(s, steps).mutex.None? ==>
              forall t | t in Run(s, steps).threads :: !Overslept(Run(s, steps), t)
    ensures forall t | t in Run(s, steps).threads && Run(s, steps).threads[t].pc.ReaderReturned? ::
              Run(s, steps).last > Run(s, steps).threads[t].id
    decreases |steps|
  {
    if steps == [] {
    } else {
      StepKeepsInv(s, steps[0]);
      NoLostWakeup(Apply(s, steps[0]), steps[1..]);
    }
  }

  /** Under the mutex the exchange of SubmitFrame never fails: its loop reads LastId once and, unless a
      later frame is published already, publishes its own. */
  lemma SubmitterNeverRetries(s: State, steps: seq<Step>, t: nat)
    requires Inv(s) && Possible(s, steps)
    requires Enabled(Run(s, steps), Exchange(t))
    ensures var u := Run(s, steps);
            Apply(u, Exchange(t)) == State(u.threads[t].id + 1, u.mutex, At(u, t, SubmitterRaised))
            && u.last < u.threads[t].id + 1
  {
    NoLostWakeup(s, steps);
  }

  lemma InitialInv(s: State)
    requires Initial(s)
    ensures Inv(s)
  {
  }

  /** With the mutex free, a reader inside its wait whose frame has been published is never stuck: it
      is already awake, and three steps of its own return from the wait. */
  lemma PublishedReaderCanReturn(s: State, t: nat)
    requires Inv(s) && s.mutex.None? && t in s.threads
    requires s.threads[t].pc.ReaderParked? || s.threads[t].pc.ReaderWoken?
    requires s.last > s.threads[t].id
    ensures s.threads[t].pc.ReaderWoken?
    ensures Possible(s, [Reacquire(t), Retest(t), Return(t)])
    ensures Run(s, [Reacquire(t), Retest(t), Return(t)]) == State(s.last, None, At(s, t, ReaderReturned))
  {
    assert !Overslept(s, t);
    var s1 := Apply(s, Reacquire(t));
    var s2 := Apply(s1, Retest(t));
    assert [Reacquire(t), Retest(t), Return(t)][1..] == [Retest(t), Return(t)];
    assert [Retest(t), Return(t)][1..] == [Return(t)];
    var s3 := Apply(s2, Return(t));
    assert [Return(t)][1..] == [];
    assert Possible(s3, []) && Run(s3, []) == s3;
    assert Possible(s2, [Return(t)]) && Run(s2, [Return(t)]) == s3;
    assert Possible(s1, [Retest(t), Return(t)]) && Run(s1, [Retest(t), Return(t)]) == s3;
  }
}
