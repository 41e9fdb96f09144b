/** The wait loop of one reader, as Synchronization::Wait runs it: the condition is tested with the
    mutex held, each pass through the condition variable ends by a signal or after at most 20 ms. */
module Waiting {
  /** What the reader finds each time it is back with the mutex: LastId by then, whether the timed wait
      ran out, the time since the call, and whether the error callback throws. */
  datatype Wakeup = Wakeup(last: nat, timedOut: bool, elapsed: real, raises: bool)

  datatype Outcome =
    | Ready          // returned normally
    | Expired        // "Waiting time has expired."
    | Interrupted    // the error callback threw
    | StillWaiting   // at the end of what is observed

  predicate Expires(w: Wakeup, timeout: real) {
    w.timedOut && w.elapsed > timeout
  }

  predicate Goes(w: Wakeup, timeout: real) {
    !Expires(w, timeout) && !w.raises
  }

  /** LastId as the loop tests it the k-th time. */
  function TestedLast(last: nat, wakeups: seq<Wakeup>, k: nat): nat
    requires k <= |wakeups|
  {
    if k == 0 then last else wakeups[k - 1].last
  }

  /** The loop gets as far as its k-th test without having returned or thrown. */
  ghost predicate Reaches(id: nat, timeout: real, last: nat, wakeups: seq<Wakeup>, k: nat)
    requires k <= |wakeups|
  {
    forall j | 0 <= j < k :: TestedLast(last, wakeups, j) <= id && Goes(wakeups[j], timeout)
  }

  /** How the loop ends. */
  function Ending(id: nat, timeout: real, last: nat, wakeups: seq<Wakeup>): Outcome
    decreases |wakeups|
  {
    if last > id then Ready
    else if wakeups == [] then StillWaiting
    else if Expires(wakeups[0], timeout) then Expired
    else if wakeups[0].raises then Interrupted
    else Ending(id, timeout, wakeups[0].last, wakeups[1..])
  }

  /** The loop that has reached its k-th test ends as one that starts there. */
  lemma {:induction false} EndingFromTest(id: nat, timeout: real, last: nat, wakeups: seq<Wakeup>, k: nat)
    requires k <= |wakeups| && Reaches(id, timeout, last, wakeups, k)
    ensures Ending(id, timeout, last, wakeups) == Ending(id, timeout, TestedLast(last, wakeups, k), wakeups[k..])
    decreases k
  {
    if k == 0 {
      assert wakeups[0..] == wakeups;
    } else {
      assert Reaches(id, timeout, last, wakeups, k - 1);
      EndingFromTest(id, timeout, last, wakeups, k - 1);
      assert wakeups[k - 1..][1..] == wakeups[k..];
    }
  }

  /** Wait returns normally exactly at the first test that finds LastId > id with no expiry and no thrown
      error before it. */
  method Wait(id: nat, timeout: real, last: nat, wakeups: seq<Wakeup>) returns (r: Outcome, tests: nat)
    ensures r == Ending(id, timeout, last, wakeups)
    ensures tests <= |wakeups| && Reaches(id, timeout, last, wakeups, tests)
    ensures r.Ready? <==> TestedLast(last, wakeups, tests) > id
    ensures r.Ready? <==> exists k :: 0 <= k <= |wakeups| && Reaches(id, timeout, last, wakeups, k) && TestedLast(last, wakeups, k) > id
    ensures r.Expired? <==> TestedLast(last, wakeups, tests) <= id && tests < |wakeups| && Expires(wakeups[tests], timeout)
    ensures r.Interrupted? <==>
              && TestedLast(last, wakeups, tests) <= id && tests < |wakeups|
              && !Expires(wakeups[tests], timeout) && wakeups[tests].raises
    ensures r.StillWaiting? <==> TestedLast(last, wakeups, tests) <= id && tests == |wakeups|
  {
    tests := 0;
    var seen := last;
    while !(seen > id)
      invariant tests <= |wakeups| && seen == TestedLast(last, wakeups, tests)
      invariant Reaches(id, timeout, last, wakeups, tests)
      invariant Ending(id, timeout, last, wakeups) == Ending(id, timeout, seen, wakeups[tests..])
      decreases |wakeups| - tests
    {
      if tests == |wakeups| { return StillWaiting, tests; }
      var w := wakeups[tests];
      if w.timedOut && w.elapsed > timeout { return Expired, tests; }
      if w.raises { return Interrupted, tests; }
      assert wakeups[tests..][1..] == wakeups[tests + 1..];
      seen := w.last;
      tests := tests + 1;
    }
    return Ready, tests;
  }

  /** The deadline is checked before the condition. When a wait that has come as far as its k-th test wakes
      up with its frame there, the frame is returned unless the time ran out in that very slice or the
      error callback throws; in the first case the wait fails although LastId > id. */
  lemma FrameAtDeadlineIsMissed(id: nat, timeout: real, last: nat, wakeups: seq<Wakeup>, k: nat)
    requires k < |wakeups| && Reaches(id, timeout, last, wakeups, k)
    requires TestedLast(last, wakeups, k) <= id < wakeups[k].last
    ensures var r := Ending(id, timeout, last, wakeups);
            && (r == Ready <==> !Expires(wakeups[k], timeout) && !wakeups[k].raises)
            && (r == Expired <==> Expires(wakeups[k], timeout))
  {
    EndingFromTest(id, timeout, last, wakeups, k);
  }

  /** A wait fails as expired exactly when at some test that finds no frame, with no earlier expiry and no
      thrown error, the timed wait ran out after more than the timeout had passed: never before that. */
  lemma {:induction false} ExpiresExactly(id: nat, timeout: real, last: nat, wakeups: seq<Wakeup>)
    ensures Ending(id, timeout, last, wakeups) == Expired <==>
              exists k :: 0 <= k < |wakeups| && Reaches(id, timeout, last, wakeups, k)
                       && TestedLast(last, wakeups, k) <= id && wakeups[k].timedOut && wakeups[k].elapsed > timeout
    decreases |wakeups|
  {
    if Ending(id, timeout, last, wakeups) == Expired { var _ := ExpiryIsFound(id, timeout, last, wakeups); }
    if k :| 0 <= k < |wakeups| && Reaches(id, timeout, last, wakeups, k)
            && TestedLast(last, wakeups, k) <= id && wakeups[k].timedOut && wakeups[k].elapsed > timeout {
      EndingFromTest(id, timeout, last, wakeups, k);
    }
  }

  lemma {:induction false} ExpiryIsFound(id: nat, timeout: real, last: nat, wakeups: seq<Wakeup>) returns (k: nat)
    requires Ending(id, timeout, last, wakeups) == Expired
    ensures k < |wakeups| && Reaches(id, timeout, last, wakeups, k)
    ensures TestedLast(last, wakeups, k) <= id && wakeups[k].timedOut && wakeups[k].elapsed > timeout
    decreases |wakeups|
  {
    if wakeups[0].timedOut && wakeups[0].elapsed > timeout {
      k := 0;
    } else {
      var m := ExpiryIsFound(id, timeout, wakeups[0].last, wakeups[1..]);
      k := m + 1;
      forall j | 0 <= j < k ensures TestedLast(last, wakeups, j) <= id && Goes(wakeups[j], timeout) {
        if j > 0 {
          assert TestedLast(wakeups[0].last, wakeups[1..], j - 1) == TestedLast(last, wakeups, j);
          assert wakeups[1..][j - 1] == wakeups[j];
        }
      }
      assert TestedLast(wakeups[0].last, wakeups[1..], m) == TestedLast(last, wakeups, k);
    }
  }

  /** A frame that arrives ten milliseconds after a deadline of 100 ms, in the slice that began before it;
      had anything else ended that slice, the same frame at the same time would be returned. */
  lemma FrameMissedByOneSlice(w: Wakeup)
    requires w == Wakeup(1, true, 110.0, false)
    ensures Ending(0, 100.0, 0, [w]) == Expired
    ensures Ending(0, 100.0, 0, [w.(timedOut := false)]) == Ready
  {
    assert [w.(timedOut := false)][1..] == [];
  }
}
