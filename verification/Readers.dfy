/** Reading frames in turn while a writer runs. Each access a reader makes to the shared header is a
    step of its own, so writer steps may come between any two of them. */
module Readers {
  import opened Tensors
  import opened FrameRing

  datatype Mode = NewestOnly | OldestFirst

  function NewestAvailableId(r: Ring): nat {
    if r.last == 0 then 0 else r.last - 1
  }

  /** The frame GetNextFrame aims for: the first id from the cursor on that is not older than the newest
      frame, or in oldest-first mode not older than the oldest. */
  function Choose(mode: Mode, cursor: nat, newest: nat, oldest: nat): (id: nat)
    ensures id >= cursor && id >= if mode.NewestOnly? then newest else oldest
    ensures id == cursor || id == if mode.NewestOnly? then newest else oldest
  {
    match mode
    case NewestOnly => if newest > cursor then newest else cursor
    case OldestFirst => if cursor < oldest then oldest else cursor
  }

  /** Where a reader is inside GetNextFrame and the GetFrame it calls. */
  datatype Pc =
    | Resting
    | SawNewest(newest: nat)
    | Chosen(id: nat)
    | PastFirst(id: nat)   // found id >= FirstId
    | Missing(id: nat)     // found the frame not available
    | Waiting(id: nat)     // in the condition wait
    | Granted(id: nat)     // may build its view

  /** One returned frame; `intact` tells whether the id was still in the window when it was read. */
  datatype Got = Got(id: nat, record: Record, intact: bool)

  datatype Reader = Reader(start: nat, cursor: nat, mode: Mode, pc: Pc, got: seq<Got>)

  datatype Joint = Joint(sys: System, reader: Reader)

  datatype Move =
    | Write(step: Step)
    | SetMode(mode: Mode)
    | SampleNewest
    | SampleOldest
    | CheckFirst
    | CheckLast
    | CheckFuture(wait: bool)
    | Wake
    | GiveUp
    | Read

  predicate CanMove(j: Joint, m: Move)
    requires WellSized(j.sys.ring)
  {
    match m
    case Write(step) => Enabled(j.sys, step)
    case SetMode(_) => j.reader.pc.Resting?
    case SampleNewest => j.reader.pc.Resting?
    case SampleOldest => j.reader.pc.SawNewest?
    case CheckFirst => j.reader.pc.Chosen?
    case CheckLast => j.reader.pc.PastFirst?
    case CheckFuture(_) => j.reader.pc.Missing?
    case Wake => j.reader.pc.Waiting? && j.sys.ring.last > j.reader.pc.id
    case GiveUp => j.reader.pc.Waiting?
    case Read => j.reader.pc.Granted? && j.sys.ring.layout.frames > 0
  }

  function Moved(j: Joint, m: Move): (k: Joint)
    requires WellSized(j.sys.ring) && CanMove(j, m)
    ensures WellSized(k.sys.ring)
  {
    if m.Write? then j.(sys := Apply(j.sys, m.step))
    else j.(reader := ReaderMoved(j, m))
  }

  function ReaderMoved(j: Joint, m: Move): Reader
    requires WellSized(j.sys.ring) && CanMove(j, m) && !m.Write?
  {
    var r, x := j.sys.ring, j.reader;
    match m
    case SetMode(mode) => x.(mode := mode)
    case SampleNewest => x.(pc := SawNewest(NewestAvailableId(r)))
    case SampleOldest => x.(pc := Chosen(Choose(x.mode, x.cursor, x.pc.newest, r.first)))
    case CheckFirst => x.(pc := if x.pc.id >= r.first then PastFirst(x.pc.id) else Missing(x.pc.id))
    case CheckLast => x.(pc := if x.pc.id < r.last then Granted(x.pc.id) else Missing(x.pc.id))
    case CheckFuture(wait) => x.(pc := if x.pc.id >= r.first && wait then Waiting(x.pc.id) else Resting)
    case Wake => x.(pc := Granted(x.pc.id))
    case GiveUp => x.(pc := Resting)
    case Read =>
      var id := x.pc.id;
      x.(pc := Resting, cursor := id + 1, got := x.got + [Got(id, Contents(r, id), r.first <= id)])
  }

  predicate CanRun(j: Joint, moves: seq<Move>)
    requires WellSized(j.sys.ring)
    decreases |moves|
  {
    moves == [] || (CanMove(j, moves[0]) && CanRun(Moved(j, moves[0]), moves[1..]))
  }

  function RunMoves(j: Joint, moves: seq<Move>): (k: Joint)
    requires WellSized(j.sys.ring) && CanRun(j, moves)
    ensures WellSized(k.sys.ring)
    decreases |moves|
  {
    if moves == [] then j else RunMoves(Moved(j, moves[0]), moves[1..])
  }

  /** A reader right after Open: it will not return frames that were already there. */
  function Opened(s: System): Joint {
    Joint(s, Reader(s.ring.last, s.ring.last, NewestOnly, Resting, []))
  }

  // ----- what holds in every interleaving -----

  predicate HasTarget(pc: Pc) {
    pc.Chosen? || pc.PastFirst? || pc.Missing? || pc.Waiting? || pc.Granted?
  }

  /** Ids only go up, every returned id was published, and an intact frame is its log entry. */
  ghost predicate ReaderInv(j: Joint) {
    var x := j.reader;
    && Inv(j.sys)
    && x.start <= x.cursor
    && (HasTarget(x.pc) ==> x.pc.id >= x.cursor)
    && (x.pc.Granted? ==> x.pc.id < j.sys.ring.last)
    && (forall i | 0 <= i < |x.got| :: x.start <= x.got[i].id < x.cursor && x.got[i].id < |j.sys.log|)
    && (forall a, b | 0 <= a < b < |x.got| :: x.got[a].id < x.got[b].id)
    && (forall i | 0 <= i < |x.got| :: x.got[i].intact ==> x.got[i].record == j.sys.log[x.got[i].id])
  }

  lemma MoveKeepsReaderInv(j: Joint, m: Move)
    requires ReaderInv(j) && CanMove(j, m)
    ensures ReaderInv(Moved(j, m))
    ensures j.sys.log <= Moved(j, m).sys.log && j.reader.got <= Moved(j, m).reader.got
  {
    if m.Write? {
      StepKeepsInv(j.sys, m.step);
    }
  }

  /** Across any interleaving of a writer and a reader, with mode switches and reconfigurations, the
      frames a reader gets have strictly increasing ids, were all published, and carry exactly the
      published record whenever the id was still in the window at the read. */
  lemma {:induction false} ReadersGoForward(j: Joint, moves: seq<Move>)
    requires ReaderInv(j) && CanRun(j, moves)
    ensures ReaderInv(RunMoves(j, moves))
    ensures j.sys.log <= RunMoves(j, moves).sys.log && j.reader.got <= RunMoves(j, moves).reader.got
    ensures RunMoves(j, moves).reader.start == j.reader.start
    decreases |moves|
  {
    if moves == [] {
    } else {
      MoveKeepsReaderInv(j, moves[0]);
      ReadersGoForward(Moved(j, moves[0]), moves[1..]);
    }
  }

  // ----- oldest first skips only evicted frames -----

  predicate StaysOldestFirst(moves: seq<Move>) {
    forall m | m in moves && m.SetMode? :: m.mode.OldestFirst?
  }

  ghost predicate Returned(x: Reader, id: nat) {
    exists i :: 0 <= i < |x.got| && x.got[i].id == id
  }

  ghost predicate SkipsOnlyEvicted(j: Joint) {
    && j.reader.mode.OldestFirst?
    && (forall id: nat | j.reader.start <= id < j.reader.cursor :: Returned(j.reader, id) || id < j.sys.ring.first)
    && (HasTarget(j.reader.pc) ==> j.reader.pc.id == j.reader.cursor || j.reader.pc.id <= j.sys.ring.first)
  }

  lemma MoveSkipsOnlyEvicted(j: Joint, m: Move)
    requires ReaderInv(j) && CanMove(j, m) && SkipsOnlyEvicted(j)
    requires m.SetMode? ==> m.mode.OldestFirst?
    ensures SkipsOnlyEvicted(Moved(j, m))
  {
    var k := Moved(j, m);
    if m.Write? {
      assert j.sys.ring.first <= k.sys.ring.first;
    } else {
      forall id: nat | k.reader.start <= id < k.reader.cursor
        ensures Returned(k.reader, id) || id < k.sys.ring.first
      {
        if id < j.reader.cursor && Returned(j.reader, id) {
          var i :| 0 <= i < |j.reader.got| && j.reader.got[i].id == id;
          assert k.reader.got[i].id == id;
        } else if m.Read? && id == j.reader.pc.id {
          assert k.reader.got[|j.reader.got|].id == id;
        }
      }
    }
  }

  /** In oldest-first mode every id since Open that the reader has passed was either returned or had
      already been evicted. */
  lemma {:induction false} OldestFirstSkipsOnlyEvicted(j: Joint, moves: seq<Move>)
    requires ReaderInv(j) && CanRun(j, moves) && SkipsOnlyEvicted(j) && StaysOldestFirst(moves)
    ensures SkipsOnlyEvicted(RunMoves(j, moves))
    decreases |moves|
  {
    if moves == [] {
    } else {
      MoveKeepsReaderInv(j, moves[0]);
      MoveSkipsOnlyEvicted(j, moves[0]);
      OldestFirstSkipsOnlyEvicted(Moved(j, moves[0]), moves[1..]);
    }
  }

  // ----- a reader that keeps up gets the log -----

  /** The writer has not claimed more than a buffer length past `id`. */
  predicate Within(s: System, id: nat) {
    Claimed(s) <= id + s.ring.layout.frames
  }

  /** Along the run the window covers the cursor whenever it is sampled; nothing is reconfigured. */
  predicate KeepsUp(j: Joint, moves: seq<Move>)
    requires WellSized(j.sys.ring) && CanRun(j, moves)
    decreases |moves|
  {
    moves == [] || (
      && (moves[0].SampleOldest? ==> Within(j.sys, j.reader.cursor))
      && !(moves[0].Write? && moves[0].step.DoReconfigure?)
      && KeepsUp(Moved(j, moves[0]), moves[1..]))
  }

  /** Whenever a frame is read its slot has not been handed out again. */
  predicate NeverOvertaken(j: Joint, moves: seq<Move>)
    requires WellSized(j.sys.ring) && CanRun(j, moves)
    decreases |moves|
  {
    moves == [] || (
      && (moves[0].Read? ==> Undisturbed(j.sys, j.reader.pc.id))
      && NeverOvertaken(Moved(j, moves[0]), moves[1..]))
  }

  ghost predicate InStep(j: Joint) {
    var x := j.reader;
    && x.mode.OldestFirst?
    && j.sys.base <= x.start
    && (HasTarget(x.pc) ==> x.pc.id == x.cursor)
    && |x.got| == x.cursor - x.start
    && (forall i | 0 <= i < |x.got| :: x.got[i].id == x.start + i)
  }

  lemma MoveStaysInStep(j: Joint, m: Move)
    requires ReaderInv(j) && InStep(j) && CanMove(j, m) && (m.SetMode? ==> m.mode.OldestFirst?)
    requires m.SampleOldest? ==> Within(j.sys, j.reader.cursor)
    requires m.Write? ==> !m.step.DoReconfigure?
    ensures InStep(Moved(j, m))
  {
  }

  lemma {:induction false} StaysInStep(j: Joint, moves: seq<Move>)
    requires ReaderInv(j) && InStep(j) && CanRun(j, moves)
    requires StaysOldestFirst(moves) && KeepsUp(j, moves)
    ensures InStep(RunMoves(j, moves))
    decreases |moves|
  {
    if moves == [] {
    } else {
      MoveKeepsReaderInv(j, moves[0]);
      MoveStaysInStep(j, moves[0]);
      StaysInStep(Moved(j, moves[0]), moves[1..]);
    }
  }

  /** Every frame got so far is the one published under its id. */
  ghost predicate Exact(j: Joint) {
    forall i | 0 <= i < |j.reader.got| ::
      j.reader.got[i].id < |j.sys.log| && j.reader.got[i].record == j.sys.log[j.reader.got[i].id]
  }

  lemma {:induction false} StaysExact(j: Joint, moves: seq<Move>)
    requires ReaderInv(j) && Exact(j) && CanRun(j, moves) && NeverOvertaken(j, moves)
    ensures Exact(RunMoves(j, moves))
    decreases |moves|
  {
    if moves == [] {
    } else {
      MoveKeepsReaderInv(j, moves[0]);
      StaysExact(Moved(j, moves[0]), moves[1..]);
    }
  }

  /** The ids from `start` to just before the cursor were got in turn, all of them published; what was got
      from within the window is the record published under its id. */
  ghost predicate Delivered(k: Joint, start: nat) {
    && |k.reader.got| == k.reader.cursor - start
    && forall i | 0 <= i < |k.reader.got| ::
         var g := k.reader.got[i];
         g.id == start + i < |k.sys.log| && (g.intact ==> g.record == k.sys.log[g.id])
  }

  /** Delivery: an oldest-first reader whose cursor is still covered whenever it samples the window returns
      the ids from Open on, each once and in order, even when it is overtaken between a wait and a read;
      a frame whose id was still in the window at its read carries the submitted bytes and time stamp. */
  lemma EveryFrameInOrder(s: System, moves: seq<Move>)
    requires Inv(s)
    requires CanRun(Opened(s), [SetMode(OldestFirst)] + moves)
    requires KeepsUp(Opened(s), [SetMode(OldestFirst)] + moves) && StaysOldestFirst(moves)
    ensures var k := RunMoves(Opened(s), [SetMode(OldestFirst)] + moves);
            Delivered(k, s.ring.last)
  {
    var all := [SetMode(OldestFirst)] + moves;
    var j := Moved(Opened(s), all[0]);
    assert all[1..] == moves;
    ReadersGoForward(j, moves);
    StaysInStep(j, moves);
    var k := RunMoves(j, moves);
    assert RunMoves(Opened(s), all) == k && ReaderInv(k) && InStep(k);
    assert Delivered(k, s.ring.last);
  }

  /** When moreover no frame is read after its slot was handed out again, the reader gets exactly the
      frames published from Open on. */
  lemma EveryFrameAsPublished(s: System, moves: seq<Move>)
    requires Inv(s)
    requires CanRun(Opened(s), [SetMode(OldestFirst)] + moves)
    requires KeepsUp(Opened(s), [SetMode(OldestFirst)] + moves) && StaysOldestFirst(moves)
    requires NeverOvertaken(Opened(s), [SetMode(OldestFirst)] + moves)
    ensures var k := RunMoves(Opened(s), [SetMode(OldestFirst)] + moves);
            && k.reader.cursor <= |k.sys.log|
            && |k.reader.got| == k.reader.cursor - s.ring.last
            && forall i | 0 <= i < |k.reader.got| :: k.reader.got[i].record == k.sys.log[s.ring.last..k.reader.cursor][i]
  {
    EveryFrameInOrder(s, moves);
    var all := [SetMode(OldestFirst)] + moves;
    var j := Moved(Opened(s), all[0]);
    assert all[1..] == moves;
    ReadersGoForward(j, moves);
    StaysInStep(j, moves);
    StaysExact(j, moves);
    var k := RunMoves(j, moves);
    assert RunMoves(Opened(s), all) == k && k.reader.start == s.ring.last && s.log <= k.sys.log;
    if k.reader.got != [] {
      assert k.reader.got[|k.reader.got| - 1].id == k.reader.cursor - 1;
    }
  }

  // ----- one call, undisturbed -----

  /** What GetNextFrame does when no writer step comes in between. */
  function CallMoves(r: Ring, x: Reader, wait: bool): seq<Move> {
    var id := Choose(x.mode, x.cursor, NewestAvailableId(r), r.first);
    [SampleNewest, SampleOldest, CheckFirst]
    + if id < r.first then [CheckFuture(wait)]
      else if id < r.last then [CheckLast, Read]
      else [CheckLast, CheckFuture(wait)]
  }

  /** The call as a whole: the reader returns the chosen frame and moves past it if it is available,
      waits for it if it is yet to come and waiting is allowed, and is as before otherwise. */
  lemma UndisturbedCallIsARun(j: Joint, wait: bool)
    requires WellSized(j.sys.ring) && j.sys.ring.layout.frames > 0 && j.reader.pc.Resting?
    ensures var r, x := j.sys.ring, j.reader;
            var id := Choose(x.mode, x.cursor, NewestAvailableId(r), r.first);
            CanRun(j, CallMoves(r, x, wait))
            && RunMoves(j, CallMoves(r, x, wait)) == j.(reader :=
                 if Available(r, id) then x.(cursor := id + 1, got := x.got + [Got(id, Contents(r, id), true)])
                 else if r.first <= id && wait then x.(pc := Waiting(id))
                 else x)
  {
    var r, x := j.sys.ring, j.reader;
    var id := Choose(x.mode, x.cursor, NewestAvailableId(r), r.first);
    var j3 := j.(reader := x.(pc := if id >= r.first then PastFirst(id) else Missing(id)));
    if id < r.first {
      RunOneMove(j3, CheckFuture(wait), []);
      RunThree(j, [CheckFuture(wait)]);
    } else if id < r.last {
      var j4 := Moved(j3, CheckLast);
      RunOneMove(j4, Read, []);
      RunOneMove(j3, CheckLast, [Read]);
      RunThree(j, [CheckLast, Read]);
    } else {
      var j4 := Moved(j3, CheckLast);
      RunOneMove(j4, CheckFuture(wait), []);
      RunOneMove(j3, CheckLast, [CheckFuture(wait)]);
      RunThree(j, [CheckLast, CheckFuture(wait)]);
    }
  }

  /** A newest-only call on a stream that has frames aims for the last one published, unless the reader is
      past it; on a stream that has none it aims for the reader's own cursor. */
  lemma NewestOnlyAimsFor(r: Ring, cursor: nat)
    ensures var id := Choose(NewestOnly, cursor, NewestAvailableId(r), r.first);
            if r.last > 0 && cursor < r.last then id == r.last - 1 else id == cursor
  {
  }

  /** A newest-only reader that waits on a new stream gets the first frame published on it. */
  lemma FirstFrameOfNewStream(s: System, data: seq<Byte>, time: nat)
    requires Fresh(s) && s.ring.layout.frames > 0 && |data| == s.ring.layout.frameBytes
    ensures var j := Opened(s);
            CanRun(j, CallMoves(s.ring, j.reader, true)) && RunMoves(j, CallMoves(s.ring, j.reader, true)).reader.pc == Waiting(0)
    ensures Possible(s, SubmitSteps(data, time))
    ensures var k := Joint(Run(s, SubmitSteps(data, time)), Opened(s).reader.(pc := Waiting(0)));
            CanRun(k, [Wake, Read]) && RunMoves(k, [Wake, Read]).reader.got == [Got(0, Record(data, time), true)]
  {
    UndisturbedCallIsARun(Opened(s), true);
    SubmitIsARun(s, data, time);
    FreshInv(s);
    RunKeepsInv(s, SubmitSteps(data, time));
    var t := Run(s, SubmitSteps(data, time));
    var k := Joint(t, Opened(s).reader.(pc := Waiting(0)));
    AvailableIsUndisturbed(t, 0);
    var k1 := Moved(k, Wake);
    RunOneMove(k1, Read, []);
    RunOneMove(k, Wake, [Read]);
    assert [Wake] + [Read] == [Wake, Read] && [Read] + [] == [Read];
  }

  lemma RunOneMove(j: Joint, m: Move, rest: seq<Move>)
    requires WellSized(j.sys.ring) && CanMove(j, m) && CanRun(Moved(j, m), rest)
    ensures CanRun(j, [m] + rest) && RunMoves(j, [m] + rest) == RunMoves(Moved(j, m), rest)
  {
    assert ([m] + rest)[1..] == rest;
  }

  /** Up to the first look at FirstId. */
  lemma RunThree(j: Joint, rest: seq<Move>)
    requires WellSized(j.sys.ring) && j.reader.pc.Resting?
    requires var id := Choose(j.reader.mode, j.reader.cursor, NewestAvailableId(j.sys.ring), j.sys.ring.first);
             CanRun(j.(reader := j.reader.(pc := if id >= j.sys.ring.first then PastFirst(id) else Missing(id))), rest)
    ensures var id := Choose(j.reader.mode, j.reader.cursor, NewestAvailableId(j.sys.ring), j.sys.ring.first);
            var j3 := j.(reader := j.reader.(pc := if id >= j.sys.ring.first then PastFirst(id) else Missing(id)));
            var moves := [SampleNewest, SampleOldest, CheckFirst] + rest;
            CanRun(j, moves) && RunMoves(j, moves) == RunMoves(j3, rest)
  {
    var j1 := Moved(j, SampleNewest);
    var j2 := Moved(j1, SampleOldest);
    RunOneMove(j2, CheckFirst, rest);
    RunOneMove(j1, SampleOldest, [CheckFirst] + rest);
    RunOneMove(j, SampleNewest, [SampleOldest] + ([CheckFirst] + rest));
    assert [SampleNewest, SampleOldest, CheckFirst] + rest == [SampleNewest] + ([SampleOldest] + ([CheckFirst] + rest));
  }

  /** GetFrame does not look at FirstId again after its wait: a reader granted frame `id` on a
      one-slot ring that is overtaken by one submission gets the next frame under the old id. */
  lemma OvertakenWaiterGetsNewerFrame(j: Joint, data: seq<Byte>, time: nat)
    requires ReaderInv(j) && j.sys.phase == Idle && j.sys.ring.layout.frames == 1
    requires j.reader.pc.Granted? && j.reader.pc.id == j.sys.ring.last - 1
    requires |data| == j.sys.ring.layout.frameBytes
    ensures Possible(j.sys, SubmitSteps(data, time))
    ensures var k := Joint(Run(j.sys, SubmitSteps(data, time)), j.reader);
            CanMove(k, Read) && Moved(k, Read).reader.got
              == j.reader.got + [Got(j.reader.pc.id, Record(data, time), false)]
  {
    SubmitIsARun(j.sys, data, time);
    var k := Joint(Run(j.sys, SubmitSteps(data, time)), j.reader);
    RunKeepsInv(j.sys, SubmitSteps(data, time));
    assert Slot(k.sys.ring.layout, j.reader.pc.id) == Slot(k.sys.ring.layout, k.sys.ring.last - 1);
    assert Contents(k.sys.ring, k.sys.ring.last - 1) == Record(data, time);
  }
}
