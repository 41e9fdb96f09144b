/** Taking exposures through a camera's image stream: a client that asks for consecutive frame ids and
    skips those it can no longer get. */
module Exposures {
  import opened Outcomes
  import opened Tensors
  import opened FrameRing
  import opened Readers

  /** The ids handed to the caller: of the consecutive ids from `first` on, those obtained, until `want`
      of them have been. */
  function Obtained(first: nat, want: int, results: seq<bool>): seq<nat>
    decreases |results|
  {
    if want < 1 || results == [] then []
    else if results[0] then [first] + Obtained(first + 1, want - 1, results[1..])
    else Obtained(first + 1, want, results[1..])
  }

  /** Each yielded id was asked for and obtained, and at most as many as wanted are. */
  lemma {:induction false} ObtainedWereAskedFor(first: nat, want: int, results: seq<bool>)
    ensures |Obtained(first, want, results)| <= Max(want, 0)
    ensures forall id | id in Obtained(first, want, results) ::
              first <= id < first + |results| && results[id - first]
    decreases |results|
  {
    if want < 1 || results == [] {
    } else {
      var left := if results[0] then want - 1 else want;
      ObtainedWereAskedFor(first + 1, left, results[1..]);
      forall id | id in Obtained(first, want, results) ensures first <= id < first + |results| && results[id - first] {
        if !(results[0] && id == first) {
          assert id in Obtained(first + 1, left, results[1..]);
          assert results[1..][id - (first + 1)] == results[id - first];
        }
      }
    }
  }

  /** ... and nothing obtained is dropped: a frame that was returned is missing only if all that were wanted
      had been yielded before it. */
  lemma {:induction false} NothingObtainedIsDropped(first: nat, want: int, results: seq<bool>, i: nat)
    requires i < |results| && results[i] && first + i !in Obtained(first, want, results)
    ensures |Obtained(first, want, results)| == Max(want, 0)
    ensures forall id | id in Obtained(first, want, results) :: id < first + i
    decreases |results|
  {
    if want < 1 {
    } else if i == 0 {
      assert false;
    } else {
      var left := if results[0] then want - 1 else want;
      var rest := Obtained(first + 1, left, results[1..]);
      assert forall id | id in rest :: id in Obtained(first, want, results);
      NothingObtainedIsDropped(first + 1, left, results[1..], i - 1);
    }
  }

  lemma {:induction false} ObtainedIsIncreasing(first: nat, want: int, results: seq<bool>, i: nat, j: nat)
    requires i < j < |Obtained(first, want, results)|
    ensures Obtained(first, want, results)[i] < Obtained(first, want, results)[j]
    decreases |results|
  {
    var left := if results[0] then want - 1 else want;
    var rest := Obtained(first + 1, left, results[1..]);
    if !results[0] {
      ObtainedIsIncreasing(first + 1, left, results[1..], i, j);
    } else if i > 0 {
      ObtainedIsIncreasing(first + 1, left, results[1..], i - 1, j - 1);
    } else {
      ObtainedWereAskedFor(first + 1, left, results[1..]);
      assert rest[j - 1] in rest;
    }
  }

  /** The first id asked for, from the newest id when the acquisition is known to run. */
  function FirstId(wasAcquiring: bool, newest: nat): nat {
    if wasAcquiring then newest + 2 else newest
  }

  predicate Increasing(ids: seq<nat>) {
    forall i, j | 0 <= i < j < |ids| :: ids[i] < ids[j]
  }

  lemma ObtainedInOrder(first: nat, want: int, results: seq<bool>)
    ensures var ids := Obtained(first, want, results);
            && |ids| <= Max(want, 0)
            && Increasing(ids)
            && (forall id | id in ids :: id >= first)
  {
    var ids := Obtained(first, want, results);
    ObtainedWereAskedFor(first, want, results);
    forall i, j | 0 <= i < j < |ids| ensures ids[i] < ids[j] {
      ObtainedIsIncreasing(first, want, results, i, j);
    }
  }

  /** What has been yielded after `i` calls, together with what is still to come, is all that is obtained. */
  ghost predicate SoFar(first: nat, want: int, results: seq<bool>, i: nat, yielded: seq<nat>)
    requires i <= |results|
  {
    yielded + Obtained(first + i, want - |yielded|, results[i..]) == Obtained(first, want, results)
  }

  lemma SoFarNext(first: nat, want: int, results: seq<bool>, i: nat, yielded: seq<nat>)
    requires i < |results| && |yielded| < want && SoFar(first, want, results, i, yielded)
    ensures SoFar(first, want, results, i + 1, if results[i] then yielded + [first + i] else yielded)
  {
    assert results[i..][1..] == results[i + 1..];
  }

  lemma SoFarIsAll(first: nat, want: int, results: seq<bool>, i: nat, yielded: seq<nat>)
    requires i <= |results| && SoFar(first, want, results, i, yielded)
    requires i == |results| || |yielded| >= want
    ensures yielded == Obtained(first, want, results)
  {
    assert Obtained(first + i, want - |yielded|, results[i..]) == [];
  }

  /** How many frames the caller lets the generator yield: it may close it at any frame. */
  function Wanted(exposures: int, closeAt: Option<nat>): int {
    if closeAt.Some? && closeAt.value < exposures then closeAt.value else exposures
  }

  /** take_raw_exposures, from its first next() on. `results` tells for each get_frame call whether it
      returned a frame or threw; the caller may close the generator on receiving a frame, the
      `closeAt`-th. `done` is whether the loop ended within the results. */
  method TakeRawExposures(wasAcquiring: bool, newest: nat, exposures: int, results: seq<bool>, closeAt: Option<nat>)
    returns (yielded: seq<nat>, done: bool, closed: bool, started: bool, ended: bool)
    requires closeAt.Some? ==> closeAt.value > 0
    ensures yielded == Obtained(FirstId(wasAcquiring, newest), Wanted(exposures, closeAt), results)
    ensures Increasing(yielded)
    ensures forall id | id in yielded :: id >= FirstId(wasAcquiring, newest)
    ensures closed <==> closeAt.Some? && closeAt.value == |yielded|
    ensures done <==> !closed && |yielded| == Max(exposures, 0)
    ensures started == !wasAcquiring && ended == (started && (done || closed))
  {
    started, closed, ended := !wasAcquiring, false, false;
    var first := newest;
    if wasAcquiring { first := first + 2; }
    var i, remaining := 0, exposures;
    ghost var wanted := Wanted(exposures, closeAt);
    yielded := [];
    assert results[0..] == results;
    while remaining >= 1 && !closed && i < |results|
      invariant 0 <= i <= |results| && ended == (started && closed)
      invariant if exposures < 1 then yielded == [] && !closed else |yielded| <= exposures
      invariant if closed then closeAt == Some(|yielded|)
                else remaining == exposures - |yielded| && (closeAt.Some? ==> |yielded| < closeAt.value)
      invariant SoFar(first, wanted, results, i, yielded)
    {
      SoFarNext(first, wanted, results, i, yielded);
      if results[i] {
        yielded := yielded + [first + i];
        if closeAt == Some(|yielded|) {
          closed, ended := true, started;
        } else {
          remaining := remaining - 1;
        }
      }
      i := i + 1;
    }
    done := !closed && remaining < 1;
    if done { ended := started; }
    SoFarIsAll(first, wanted, results, i, yielded);
    ObtainedInOrder(first, wanted, results);
  }

  // ----- the frames taken from a ring that is being written -----

  /** One call of get_frame: what the writer does up to the look at the window, what it does during the
      wait if there is one, and whether that wait is given up. */
  datatype Call = Call(until: seq<Step>, waiting: seq<Step>, givesUp: bool)

  datatype Shot = Shot(id: nat, record: Record)

  function Looking(s: System, c: Call): (u: System)
    requires WellSized(s.ring) && Possible(s, c.until)
    ensures WellSized(u.ring)
  {
    Run(s, c.until)
  }

  /** Only a frame that is yet to come is waited for, until it is there or the wait is given up. */
  predicate CanCall(s: System, id: nat, c: Call)
    requires WellSized(s.ring)
  {
    && Possible(s, c.until)
    && Possible(Looking(s, c), c.waiting)
    && var u, v := Looking(s, c), Finished(s, c);
       if u.ring.first <= id && u.ring.last <= id
       then c.givesUp || (id < v.ring.last && v.ring.layout.frames > 0)
       else c.waiting == [] && !c.givesUp && (id < u.ring.first || u.ring.layout.frames > 0)
  }

  function Finished(s: System, c: Call): (v: System)
    requires WellSized(s.ring) && Possible(s, c.until) && Possible(Looking(s, c), c.waiting)
    ensures WellSized(v.ring)
  {
    Run(Looking(s, c), c.waiting)
  }

  predicate Returns(s: System, id: nat, c: Call)
    requires WellSized(s.ring) && CanCall(s, id, c)
  {
    Looking(s, c).ring.first <= id && !c.givesUp
  }

  predicate CanTake(s: System, first: nat, calls: seq<Call>)
    requires WellSized(s.ring)
    decreases |calls|
  {
    calls == [] || (CanCall(s, first, calls[0]) && CanTake(Finished(s, calls[0]), first + 1, calls[1..]))
  }

  function Results(s: System, first: nat, calls: seq<Call>): (r: seq<bool>)
    requires WellSized(s.ring) && CanTake(s, first, calls)
    ensures |r| == |calls|
    decreases |calls|
  {
    if calls == [] then []
    else [Returns(s, first, calls[0])] + Results(Finished(s, calls[0]), first + 1, calls[1..])
  }

  /** The ids and contents that are yielded. */
  function Taken(s: System, first: nat, want: int, calls: seq<Call>): seq<Shot>
    requires WellSized(s.ring) && CanTake(s, first, calls)
    decreases |calls|
  {
    if want < 1 || calls == [] then []
    else
      var t := Finished(s, calls[0]);
      if Returns(s, first, calls[0])
      then [Shot(first, Contents(t.ring, first))] + Taken(t, first + 1, want - 1, calls[1..])
      else Taken(t, first + 1, want, calls[1..])
  }

  /** The ids taken are those the loop obtains when each call returns or throws as the ring has it. */
  lemma {:induction false} TakenAreObtained(s: System, first: nat, want: int, calls: seq<Call>)
    requires WellSized(s.ring) && CanTake(s, first, calls)
    ensures var t := Taken(s, first, want, calls);
            var ids := Obtained(first, want, Results(s, first, calls));
            |t| == |ids| && forall i | 0 <= i < |t| :: t[i].id == ids[i]
    decreases |calls|
  {
    if want < 1 || calls == [] {
    } else {
      var left := if Returns(s, first, calls[0]) then want - 1 else want;
      TakenAreObtained(Finished(s, calls[0]), first + 1, left, calls[1..]);
      assert Results(s, first, calls)[1..] == Results(Finished(s, calls[0]), first + 1, calls[1..]);
    }
  }

  lemma TakenFromFirstOn(s: System, first: nat, want: int, calls: seq<Call>)
    requires WellSized(s.ring) && CanTake(s, first, calls)
    ensures forall x | x in Taken(s, first, want, calls) :: x.id >= first
  {
    var t := Taken(s, first, want, calls);
    TakenAreObtained(s, first, want, calls);
    ObtainedWereAskedFor(first, want, Results(s, first, calls));
    forall i | 0 <= i < |t| ensures t[i].id >= first {
      assert t[i].id in Obtained(first, want, Results(s, first, calls));
    }
  }

  /** When the camera was already acquiring, no yielded frame had even been requested when the newest id
      was sampled: it was taken after the call. At most one frame requested after the sampling is skipped,
      and none when one was in flight; on a stream that never had a frame, one more. */
  lemma YieldedAfterTheCall(s: System, want: int, calls: seq<Call>)
    requires Inv(s) && CanTake(s, FirstId(true, NewestAvailableId(s.ring)), calls)
    ensures forall x | x in Taken(s, FirstId(true, NewestAvailableId(s.ring)), want, calls) :: x.id >= s.ring.next
    ensures FirstId(true, NewestAvailableId(s.ring)) - s.ring.next
         == (if s.ring.last > 0 then 1 else 2) - (if s.phase.Filling? || s.phase.Stamped? then 1 else 0)
  {
    TakenFromFirstOn(s, FirstId(true, NewestAvailableId(s.ring)), want, calls);
  }

  /** Adding one instead of two would not do: a frame might be in flight. */
  lemma OneLessIsTooFew(s: System)
    requires Inv(s) && s.ring.last > 0
    ensures NewestAvailableId(s.ring) + 1 < s.ring.next <==> s.phase.Filling? || s.phase.Stamped?
  {
  }

  // ----- a camera that was not acquiring -----

  /** The frame published last before take_raw_exposures was called is still there: none was published
      until the newest id was sampled, and the stream was not reconfigured and fewer than N ids were
      claimed by the time of the first look. */
  predicate OldFrameRemains(atCall: System, sampled: System, looking: System) {
    && 0 < atCall.ring.last == sampled.ring.last
    && looking.base < atCall.ring.last
    && looking.ring.layout.frames > 0
    && Claimed(looking) < atCall.ring.last + looking.ring.layout.frames
  }

  /** Where the first id asked for stands at the first look. */
  lemma FirstIdIsOldWhen(atCall: System, s: System, u: System)
    requires Inv(atCall) && Inv(s) && Inv(u) && atCall.log <= s.log <= u.log
    ensures var id := FirstId(false, NewestAvailableId(s.ring));
            && (id < atCall.ring.last && Available(u.ring, id) <==> OldFrameRemains(atCall, s, u))
            && (OldFrameRemains(atCall, s, u) ==> Contents(u.ring, id) == atCall.log[|atCall.log| - 1])
            && id + 1 >= atCall.ring.last
  {
  }

  /** In particular for a look right after the sampling. */
  lemma FirstFrameIsOldWhen(s: System, before: nat)
    requires Inv(s) && before <= s.ring.last && s.ring.layout.frames > 0
    ensures var id := FirstId(false, NewestAvailableId(s.ring));
            id < before && Available(s.ring, id) <==>
              s.ring.last == before > 0 && s.base < before && (s.phase.Idle? || s.ring.layout.frames > 1)
  {
  }

  /** Of the frames taken from `first` on, only the first can have an id below `first + 1`. */
  lemma OnlyTheFirst(s: System, first: nat, want: int, calls: seq<Call>, bound: nat)
    requires WellSized(s.ring) && CanTake(s, first, calls) && bound <= first + 1
    ensures var taken := Taken(s, first, want, calls);
            && ((exists x :: x in taken && x.id < bound) <==>
                  want >= 1 && calls != [] && first < bound && Returns(s, first, calls[0]))
            && (forall i | 0 <= i < |taken| && taken[i].id < bound ::
                  i == 0 && taken[0] == Shot(first, Contents(Finished(s, calls[0]).ring, first)))
  {
    var taken := Taken(s, first, want, calls);
    if want < 1 || calls == [] {
    } else {
      var left := if Returns(s, first, calls[0]) then want - 1 else want;
      var rest := Taken(Finished(s, calls[0]), first + 1, left, calls[1..]);
      TakenFromFirstOn(Finished(s, calls[0]), first + 1, left, calls[1..]);
      assert forall i | 0 <= i < |rest| :: rest[i] in rest;
      if first < bound && Returns(s, first, calls[0]) { assert taken[0] in taken; }
    }
  }

  /** On a camera that was not acquiring, an old frame is yielded exactly when one is wanted and the last
      frame of the earlier acquisition remains; then it comes first, and it is the only one. */
  lemma OldFrameIsTakenWhen(atCall: System, before: seq<Step>, want: int, calls: seq<Call>)
    requires Inv(atCall) && Possible(atCall, before)
    requires CanTake(Run(atCall, before), FirstId(false, NewestAvailableId(Run(atCall, before).ring)), calls)
    ensures var s := Run(atCall, before);
            var taken := Taken(s, FirstId(false, NewestAvailableId(s.ring)), want, calls);
            && ((exists x :: x in taken && x.id < atCall.ring.last) <==>
                  want >= 1 && calls != [] && OldFrameRemains(atCall, s, Looking(s, calls[0])))
            && (forall i | 0 <= i < |taken| && taken[i].id < atCall.ring.last ::
                  i == 0 && taken[0] == Shot(|atCall.log| - 1, atCall.log[|atCall.log| - 1]))
  {
    var s := Run(atCall, before);
    var id := FirstId(false, NewestAvailableId(s.ring));
    RunKeepsInv(atCall, before);
    OnlyTheFirst(s, id, want, calls, atCall.ring.last);
    if calls == [] {
      FirstIdIsOldWhen(atCall, s, s);
    } else {
      RunKeepsInv(s, calls[0].until);
      FirstIdIsOldWhen(atCall, s, Looking(s, calls[0]));
      assert id < atCall.ring.last ==>
               (Returns(s, id, calls[0]) <==> Available(Looking(s, calls[0]).ring, id));
    }
  }

  /** Reached from a new stream: one frame of an earlier acquisition, then an exposure is taken before
      the restarted camera has published any. */
  lemma OldFrameIsTaken(s: System, data: seq<Byte>, time: nat)
    requires Fresh(s) && s.ring.layout.frames > 0 && |data| == s.ring.layout.frameBytes
    ensures Possible(s, SubmitSteps(data, time))
    ensures var t, calls := Run(s, SubmitSteps(data, time)), [Call([], [], false)];
            && NewestAvailableId(t.ring) == 0 && t.ring.last == 1
            && CanTake(t, 0, calls) && Taken(t, 0, 1, calls) == [Shot(0, Record(data, time))]
  {
    SubmitIsARun(s, data, time);
    FreshInv(s);
    RunKeepsInv(s, SubmitSteps(data, time));
    var t, call := Run(s, SubmitSteps(data, time)), Call([], [], false);
    assert CanCall(t, 0, call) && Returns(t, 0, call);
    assert CanTake(Finished(t, call), 1, [call][1..]);
    assert Contents(t.ring, 0) == t.log[0];
  }
}
