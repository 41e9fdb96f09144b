/** Raising LastId: any number of submitters run the read / compare-and-exchange loop of SubmitFrame
    at the same time, with no mutex and no promise about who submits which id. */
module Publication {
  datatype Pc =
    | NotStarted
    | Looking              // about to read LastId
    | Holding(seen: nat)   // read it, about to compare and exchange
    | Finished

  /** `began` is LastId when the thread entered its loop. */
  datatype Submitter = Submitter(id: nat, pc: Pc, began: nat, failures: nat)

  datatype State = State(last: nat, threads: map<nat, Submitter>)

  datatype Step = Begin(t: nat) | Look(t: nat) | Exchange(t: nat)

  predicate Enabled(s: State, step: Step) {
    && step.t in s.threads
    && match step
       case Begin(t) => s.threads[t].pc.NotStarted?
       case Look(t) => s.threads[t].pc.Looking?
       case Exchange(t) => s.threads[t].pc.Holding?
  }

  function Apply(s: State, step: Step): State
    requires Enabled(s, step)
  {
    var x := s.threads[step.t];
    match step
    case Begin(t) => s.(threads := s.threads[t := x.(pc := Looking, began := s.last, failures := 0)])
    case Look(t) =>
      s.(threads := s.threads[t := x.(pc := if s.last >= x.id + 1 then Finished else Holding(s.last))])
    case Exchange(t) =>
      if s.last == x.pc.seen then State(x.id + 1, s.threads[t := x.(pc := Finished)])
      else s.(threads := s.threads[t := x.(pc := Looking, failures := x.failures + 1)])
  }

  predicate Possible(s: State, steps: seq<Step>)
    decreases |steps|
  {
    steps == [] || (Enabled(s, steps[0]) && Possible(Apply(s, steps[0]), steps[1..]))
  }

  function Run(s: State, steps: seq<Step>): State
    requires Possible(s, steps)
    decreases |steps|
  {
    if steps == [] then s else Run(Apply(s, steps[0]), steps[1..])
  }

  ghost predicate AllNotStarted(s: State) {
    forall t | t in s.threads :: s.threads[t].pc.NotStarted? && s.threads[t].failures == 0
  }

  ghost predicate AllFinished(s: State) {
    forall t | t in s.threads :: s.threads[t].pc.Finished?
  }

  /** Each failed exchange means LastId went up since it was read. */
  predicate ThreadInv(x: Submitter, last: nat) {
    && (x.failures > 0 ==> x.began + x.failures <= x.id + 1)
    && (!x.pc.NotStarted? ==> x.began + x.failures <= last)
    && (x.pc.Holding? ==> x.began + x.failures <= x.pc.seen <= x.id && x.pc.seen <= last)
    && (x.pc.Finished? ==> x.id + 1 <= last)
  }

  ghost predicate Inv(s: State, initial: nat) {
    && initial <= s.last
    && (s.last == initial || exists t :: t in s.threads && s.last == s.threads[t].id + 1)
    && forall t | t in s.threads :: ThreadInv(s.threads[t], s.last)
  }

  lemma StepKeepsInv(s: State, step: Step, initial: nat)
    requires Inv(s, initial) && Enabled(s, step)
    ensures Inv(Apply(s, step), initial)
    ensures s.last <= Apply(s, step).last
    ensures forall t :: t in s.threads <==> t in Apply(s, step).threads
    ensures forall t | t in s.threads :: Apply(s, step).threads[t].id == s.threads[t].id
  {
    var u := Apply(s, step);
    assert step.t in u.threads;
    if s.last != initial && u.last == s.last {
      var t :| t in s.threads && s.last == s.threads[t].id + 1;
      assert t in u.threads && u.last == u.threads[t].id + 1;
    } else if u.last != s.last {
      assert u.last == u.threads[step.t].id + 1;
    }
    forall t | t in u.threads ensures ThreadInv(u.threads[t], u.last) {
      assert ThreadInv(s.threads[t], s.last);
    }
  }

  /** In every interleaving LastId never goes down, a submitter's exchange fails at most
      `id + 1 - LastId` times counted from the LastId it started with, and once all have finished
      LastId is the largest of its old value and every submitted id plus one. */
  lemma {:induction false} RaisesToMaximum(s: State, steps: seq<Step>, initial: nat)
    requires Inv(s, initial) && Possible(s, steps)
    ensures var u := Run(s, steps);
            && Inv(u, initial)
            && s.last <= u.last && s.threads.Keys == u.threads.Keys
            && (forall t | t in u.threads :: u.threads[t].id == s.threads[t].id)
            && (forall t | t in u.threads && u.threads[t].failures > 0 ::
                  u.threads[t].failures <= u.threads[t].id + 1 - u.threads[t].began)
            && (AllFinished(u) ==>
                  && initial <= u.last && (forall t | t in s.threads :: s.threads[t].id + 1 <= u.last)
                  && (u.last == initial || exists t :: t in s.threads && u.last == s.threads[t].id + 1))
    decreases |steps|
  {
    if steps == [] {
    } else {
      StepKeepsInv(s, steps[0], initial);
      RaisesToMaximum(Apply(s, steps[0]), steps[1..], initial);
    }
    var u := Run(s, steps);
    assert Inv(u, initial);
    if AllFinished(u) {
      forall t | t in s.threads ensures s.threads[t].id + 1 <= u.last {
        assert ThreadInv(u.threads[t], u.last);
      }
      if u.last != initial {
        var t :| t in u.threads && u.last == u.threads[t].id + 1;
        assert t in s.threads && u.last == s.threads[t].id + 1;
      }
    }
  }

  lemma InitialInv(s: State)
    requires AllNotStarted(s)
    ensures Inv(s, s.last)
  {
  }
}
