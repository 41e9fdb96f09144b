/** The shared-memory frame ring of a data stream, as a value: its header counters, its layout,
    its timestamp slots and its bytes. The steps a writer takes are functions on that value; a run
    is a sequence of enabled steps. Everything readers may rely on is stated about runs. */
module FrameRing {
  import opened Outcomes
  import opened Tensors

  const MAX_FRAMES := 20
  const MAX_DIMENSIONS := 4

  // ----- layout -----

  /** The parameters stored in the header. `dims` is padded with ones up to four entries. */
  datatype Layout = Layout(
    dtype: DataType, rank: nat, dims: seq<nat>, elements: nat, frameBytes: nat, frames: nat)

  datatype LayoutError = TooManyDimensions | TooManyFrames | ExceedsAllocation

  function MakeLayout(dtype: DataType, dims: seq<nat>, frames: nat): Result<Layout, LayoutError> {
    if |dims| > MAX_DIMENSIONS then Err(TooManyDimensions)
    else if frames > MAX_FRAMES then Err(TooManyFrames)
    else
      var n := Product(dims);
      Ok(Layout(dtype, |dims|, PadWithOnes(dims), n, n * SizeOf(dtype), frames))
  }

  /** The layout shows the shape, type and frame count asked for: its dimensions up to the rank are those
      given, the others are ones, and the counts are those of that shape. */
  ghost predicate Shows(l: Layout, dtype: DataType, dims: seq<nat>, frames: nat) {
    && l.dtype == dtype && l.frames == frames
    && l.rank == |dims| <= 4 && |l.dims| == 4
    && l.dims[..l.rank] == dims && (forall i | l.rank <= i < 4 :: l.dims[i] == 1)
    && l.elements == l.dims[0] * l.dims[1] * l.dims[2] * l.dims[3]
    && l.frameBytes == l.elements * SizeOf(dtype)
  }

  /** Every layout that is made shows what was asked for; none is made of more than four dimensions or
      more than twenty frames. */
  lemma LayoutShowsShape(dtype: DataType, dims: seq<nat>, frames: nat)
    ensures match MakeLayout(dtype, dims, frames)
            case Ok(l) => |dims| <= 4 && frames <= 20 && Shows(l, dtype, dims, frames)
            case Err(e) => if |dims| > 4 then e == TooManyDimensions else frames > 20 && e == TooManyFrames
  {
    if |dims| <= 4 && frames <= 20 { PaddingKeepsProduct(dims); }
  }

  /** Frame ids go round the slots: the first N fill slots 0 to N - 1 in turn, and every id is followed by
      the next slot, or by slot 0 after the last; consecutive slots are adjacent bytes. */
  lemma SlotsGoRound(l: Layout, id: nat)
    requires l.frames > 0
    ensures id < l.frames ==> Slot(l, id) == id
    ensures Slot(l, id + 1) == if Slot(l, id) + 1 == l.frames then 0 else Slot(l, id) + 1
    ensures Offset(l, id) == Slot(l, id) * l.frameBytes
    ensures Slot(l, id) + 1 < l.frames ==> Offset(l, id + 1) == Offset(l, id) + l.frameBytes
  {
    NextRemainder(id, l.frames);
    var k := Slot(l, id);
    assert (k + 1) * l.frameBytes == k * l.frameBytes + l.frameBytes;
  }

  lemma NextRemainder(id: nat, n: nat)
    requires n > 0
    ensures id < n ==> id % n == id
    ensures (id + 1) % n == if id % n + 1 == n then 0 else id % n + 1
  {
    var q, k := id / n, id % n;
    assert id == n * q + k;
    if k + 1 == n {
      QuotientIs(id + 1, n, q + 1, 0);
    } else {
      QuotientIs(id + 1, n, q, k + 1);
    }
    if id < n { QuotientIs(id, n, 0, id); }
  }

  lemma QuotientIs(x: nat, n: nat, q: nat, k: nat)
    requires n > 0 && x == n * q + k && k < n
    ensures x % n == k
  {
    var p, m := x / n, x % n;
    assert x == n * p + m;
    assert n * (p - q) == k - m;
    if p > q { ScaledBound(1, p - q, n); }
    if p < q { ScaledBound(1, q - p, n); }
  }

  /** The size a frame view computes from its four dimensions is the size the layout reserved. */
  lemma FrameViewFillsItsSlot(dtype: DataType, dims: seq<nat>, frames: nat)
    requires MakeLayout(dtype, dims, frames).Ok?
    ensures var l := MakeLayout(dtype, dims, frames).value;
            |l.dims| == MAX_DIMENSIONS && NumElements(l.dims) * SizeOf(l.dtype) == l.frameBytes
  {
    PaddingKeepsProduct(dims);
  }

  function Slot(l: Layout, id: nat): (k: nat)
    requires l.frames > 0
    ensures k < l.frames
  {
    id % l.frames
  }

  function Offset(l: Layout, id: nat): (o: nat)
    requires l.frames > 0
    ensures o + l.frameBytes <= l.frames * l.frameBytes
  {
    ScaledBound(Slot(l, id) + 1, l.frames, l.frameBytes);
    Slot(l, id) * l.frameBytes
  }

  lemma ScaledBound(a: nat, b: nat, c: nat)
    requires a <= b
    ensures a * c <= b * c
  {
  }

  /** Ids less than one buffer length apart never share a slot. */
  lemma NearbyIdsDiffer(n: nat, a: nat, b: nat)
    requires n > 0 && a < b < a + n
    ensures a % n != b % n
  {
    if a % n == b % n {
      var qa, qb := a / n, b / n;
      assert a == n * qa + a % n && b == n * qb + b % n;
      assert b - a == n * (qb - qa);
      if qb > qa { ScaledBound(1, qb - qa, n); }
    }
  }

  /** Different slots are disjoint byte ranges. */
  lemma SlotsAreDisjoint(l: Layout, a: nat, b: nat)
    requires l.frames > 0 && Slot(l, a) != Slot(l, b)
    ensures Offset(l, a) + l.frameBytes <= Offset(l, b) || Offset(l, b) + l.frameBytes <= Offset(l, a)
  {
    if Slot(l, a) < Slot(l, b) {
      ScaledBound(Slot(l, a) + 1, Slot(l, b), l.frameBytes);
    } else {
      ScaledBound(Slot(l, b) + 1, Slot(l, a), l.frameBytes);
    }
  }

  // ----- the ring and what the methods do to it -----

  datatype Ring = Ring(
    layout: Layout, first: nat, last: nat, next: nat, stamps: seq<nat>, bytes: seq<Byte>)

  predicate WellSized(r: Ring) {
    && |r.stamps| == MAX_FRAMES
    && r.layout.frames <= MAX_FRAMES
    && r.layout.frames * r.layout.frameBytes <= |r.bytes|
  }

  /** What a reader finds in the slot of a frame. */
  datatype Record = Record(data: seq<Byte>, stamp: nat)

  function Contents(r: Ring, id: nat): (c: Record)
    requires WellSized(r) && r.layout.frames > 0
    ensures |c.data| == r.layout.frameBytes
  {
    var o := Offset(r.layout, id);
    Record(r.bytes[o..o + r.layout.frameBytes], r.stamps[Slot(r.layout, id)])
  }

  predicate Available(r: Ring, id: nat) {
    r.first <= id < r.last
  }

  /** RequestNewFrame makes the oldest frame unavailable when the window is full ... */
  function Evict(r: Ring): Ring {
    if r.last - r.first == r.layout.frames then r.(first := r.first + 1) else r
  }

  /** ... and then hands out the next id. */
  function Take(r: Ring): Ring {
    r.(next := r.next + 1)
  }

  function Request(r: Ring): Ring {
    Take(Evict(r))
  }

  /** The writer stores one byte through the view of frame `id`. */
  function Store(r: Ring, id: nat, k: nat, b: Byte): Ring
    requires WellSized(r) && r.layout.frames > 0 && k < r.layout.frameBytes
  {
    r.(bytes := r.bytes[Offset(r.layout, id) + k := b])
  }

  function Stamp(r: Ring, id: nat, time: nat): Ring
    requires WellSized(r) && r.layout.frames > 0
  {
    r.(stamps := r.stamps[Slot(r.layout, id) := time])
  }

  function Publish(r: Ring, id: nat): Ring {
    if r.last >= id + 1 then r else r.(last := id + 1)
  }

  function Reconfigure(r: Ring, l: Layout): Ring {
    r.(layout := l, first := r.last)
  }

  predicate Fits(r: Ring, l: Layout) {
    l.frames * l.frameBytes <= |r.bytes|
  }

  // ----- runs of one disciplined writer -----

  /** Where the writer is: it has no frame, it has made room, it is filling the frame it was handed,
      or it has stamped that frame and is about to publish it. */
  datatype Phase = Idle | MadeRoom | Filling | Stamped

  /** The ring together with its history: every published frame in order, and the value of LastId
      when the parameters were last set. */
  datatype System = System(ring: Ring, phase: Phase, log: seq<Record>, base: nat)

  datatype Step =
    | DoEvict
    | DoTake
    | DoStore(k: nat, b: Byte)
    | DoStamp(time: nat)
    | DoPublish
    | DoReconfigure(dtype: DataType, dims: seq<nat>, frames: nat)

  /** Each requested frame is published before the next request or reconfiguration. */
  predicate Enabled(s: System, step: Step)
    requires WellSized(s.ring)
  {
    match step
    case DoEvict => s.phase.Idle? && s.ring.layout.frames > 0
    case DoTake => s.phase.MadeRoom?
    case DoStore(k, _) => s.phase.Filling? && k < s.ring.layout.frameBytes && s.ring.layout.frames > 0 && s.ring.next > 0
    case DoStamp(_) => s.phase.Filling? && s.ring.layout.frames > 0 && s.ring.next > 0
    case DoPublish => s.phase.Stamped? && s.ring.layout.frames > 0 && s.ring.next > 0
    case DoReconfigure(dtype, dims, frames) =>
      && s.phase.Idle?
      && MakeLayout(dtype, dims, frames).Ok?
      && Fits(s.ring, MakeLayout(dtype, dims, frames).value)
  }

  function Apply(s: System, step: Step): (t: System)
    requires WellSized(s.ring) && Enabled(s, step)
    ensures WellSized(t.ring)
  {
    var r := s.ring;
    match step
    case DoEvict => s.(ring := Evict(r), phase := MadeRoom)
    case DoTake => s.(ring := Take(r), phase := Filling)
    case DoStore(k, b) => s.(ring := Store(r, r.next - 1, k, b))
    case DoStamp(time) => s.(ring := Stamp(r, r.next - 1, time), phase := Stamped)
    case DoPublish =>
      s.(ring := Publish(r, r.next - 1), phase := Idle, log := s.log + [Contents(r, r.next - 1)])
    case DoReconfigure(dtype, dims, frames) =>
      s.(ring := Reconfigure(r, MakeLayout(dtype, dims, frames).value), base := r.last)
  }

  predicate Possible(s: System, steps: seq<Step>)
    requires WellSized(s.ring)
    decreases |steps|
  {
    steps == [] || (Enabled(s, steps[0]) && Possible(Apply(s, steps[0]), steps[1..]))
  }

  function Run(s: System, steps: seq<Step>): (t: System)
    requires WellSized(s.ring) && Possible(s, steps)
    ensures WellSized(t.ring)
    decreases |steps|
  {
    if steps == [] then s else Run(Apply(s, steps[0]), steps[1..])
  }

  /** The header right after Create, before any frame. */
  predicate Fresh(s: System) {
    && WellSized(s.ring)
    && s.ring.first == s.ring.last == s.ring.next == s.base == 0
    && s.phase == Idle && s.log == []
  }

  // ----- the invariant -----

  function Max(a: int, b: int): int { if a >= b then a else b }

  /** Ids handed out, counting the one that room has already been made for. */
  function Claimed(s: System): nat {
    s.ring.next + if s.phase.MadeRoom? then 1 else 0
  }

  function Outstanding(s: System): nat {
    if s.phase.Filling? || s.phase.Stamped? then 1 else 0
  }

  /** Published since the last reconfiguration, its slot not handed out again so far. An id that has just
      been made unavailable is still undisturbed. */
  predicate Undisturbed(s: System, id: nat) {
    s.base <= id < s.ring.last && s.ring.next <= id + s.ring.layout.frames
  }

  ghost predicate Faithful(s: System)
    requires WellSized(s.ring) && s.ring.last == |s.log|
  {
    s.ring.layout.frames > 0 ==>
      forall id: nat | Undisturbed(s, id) :: Contents(s.ring, id) == s.log[id]
  }

  /** The counters are functions of the history, and every undisturbed slot, so every available one, holds
      its log entry. */
  ghost predicate Inv(s: System) {
    && WellSized(s.ring)
    && s.ring.last == |s.log|
    && s.ring.next == s.ring.last + Outstanding(s)
    && s.base <= s.ring.last
    && s.ring.first == Max(s.base, Claimed(s) - s.ring.layout.frames)
    && (!s.phase.Idle? ==> s.ring.layout.frames > 0)
    && Faithful(s)
  }

  lemma FreshInv(s: System)
    requires Fresh(s)
    ensures Inv(s)
  {
  }

  /** Whatever is written to one slot leaves the record of an id in another slot alone. */
  lemma StoreElsewhere(r: Ring, writing: nat, id: nat, k: nat, b: Byte)
    requires WellSized(r) && r.layout.frames > 0 && k < r.layout.frameBytes
    requires Slot(r.layout, writing) != Slot(r.layout, id)
    ensures Contents(Store(r, writing, k, b), id) == Contents(r, id)
  {
    SlotsAreDisjoint(r.layout, writing, id);
    var o, t := Offset(r.layout, id), Store(r, writing, k, b);
    assert t.bytes[o..o + r.layout.frameBytes] == r.bytes[o..o + r.layout.frameBytes];
  }

  lemma StampElsewhere(r: Ring, writing: nat, id: nat, time: nat)
    requires WellSized(r) && r.layout.frames > 0
    requires Slot(r.layout, writing) != Slot(r.layout, id)
    ensures Contents(Stamp(r, writing, time), id) == Contents(r, id)
  {
  }

  /** Moving counters leaves every slot alone. */
  lemma CountersTouchNoSlot(r: Ring, t: Ring, id: nat)
    requires WellSized(r) && r.layout.frames > 0
    requires t.bytes == r.bytes && t.stamps == r.stamps && t.layout == r.layout
    ensures Contents(t, id) == Contents(r, id)
  {
  }

  lemma AvailableIsUndisturbed(s: System, id: nat)
    requires Inv(s) && s.ring.layout.frames > 0 && Available(s.ring, id)
    ensures Undisturbed(s, id) && Contents(s.ring, id) == s.log[id]
  {
  }

  /** The frame being filled shares no slot with an undisturbed one. */
  lemma FillingIsApart(s: System, id: nat)
    requires Inv(s) && Outstanding(s) == 1 && Undisturbed(s, id)
    ensures Slot(s.ring.layout, s.ring.next - 1) != Slot(s.ring.layout, id)
  {
    NearbyIdsDiffer(s.ring.layout.frames, id, s.ring.next - 1);
  }

  lemma StepKeepsFaith(s: System, step: Step, id: nat)
    requires Inv(s) && Enabled(s, step) && !step.DoReconfigure?
    requires Undisturbed(Apply(s, step), id) && s.ring.layout.frames > 0
    requires id < |Apply(s, step).log|
    ensures Contents(Apply(s, step).ring, id) == Apply(s, step).log[id]
  {
    if step.DoStore? {
      FillingIsApart(s, id);
      StoreElsewhere(s.ring, s.ring.next - 1, id, step.k, step.b);
    } else if step.DoStamp? {
      FillingIsApart(s, id);
      StampElsewhere(s.ring, s.ring.next - 1, id, step.time);
    } else {
      CountersTouchNoSlot(s.ring, Apply(s, step).ring, id);
    }
  }

  lemma StepKeepsInv(s: System, step: Step)
    requires Inv(s) && Enabled(s, step)
    ensures Inv(Apply(s, step))
    ensures s.log <= Apply(s, step).log
  {
    var t := Apply(s, step);
    assert t.ring.last == |t.log|;
    if !step.DoReconfigure? && s.ring.layout.frames > 0 {
      forall id: nat | Undisturbed(t, id) ensures Contents(t.ring, id) == t.log[id] {
        StepKeepsFaith(s, step, id);
      }
    }
  }

  /** The ring refines an append-only log: along every run the counters and slots are what the
      history says, and the log only grows. */
  lemma {:induction false} RunKeepsInv(s: System, steps: seq<Step>)
    requires Inv(s) && Possible(s, steps)
    ensures Inv(Run(s, steps))
    ensures s.log <= Run(s, steps).log
    decreases |steps|
  {
    if steps == [] {
    } else {
      StepKeepsInv(s, steps[0]);
      RunKeepsInv(Apply(s, steps[0]), steps[1..]);
    }
  }

  /** Everything that is available or being filled lies inside the allocation, each id in a byte
      range of its own, whatever reconfigurations came before. */
  lemma WindowIsLaidOut(s: System, a: nat, b: nat)
    requires Inv(s) && s.ring.layout.frames > 0
    requires s.ring.first <= a < b < s.ring.next
    ensures var l := s.ring.layout;
            && Offset(l, a) + l.frameBytes <= |s.ring.bytes|
            && Offset(l, b) + l.frameBytes <= |s.ring.bytes|
            && (Offset(l, a) + l.frameBytes <= Offset(l, b) || Offset(l, b) + l.frameBytes <= Offset(l, a))
            && Slot(l, a) != Slot(l, b)
  {
    NearbyIdsDiffer(s.ring.layout.frames, a, b);
    SlotsAreDisjoint(s.ring.layout, a, b);
  }

  predicate IsBeingFilled(s: System, id: nat)
    requires s.ring.layout.frames > 0
  {
    Outstanding(s) == 1 && s.ring.next > 0 && Slot(s.ring.layout, id) == Slot(s.ring.layout, s.ring.next - 1)
  }

  /** What a reader that comes late to an id published since the last reconfiguration finds: the newest
      published frame that shares its slot, unless that very slot is being filled. It is the frame itself
      exactly while fewer than N frames were published after it, also when it is no longer available. */
  lemma WhatALateReaderSees(s: System, id: nat)
    requires Inv(s) && s.ring.layout.frames > 0
    requires s.base <= id < s.ring.last
    ensures var n := s.ring.layout.frames;
            var j := s.ring.last - 1 - (s.ring.last - 1 - id) % n;
            && id <= j < |s.log| && (j == id <==> s.ring.last <= id + n)
            && (IsBeingFilled(s, id) <==> s.ring.next > j + n)
            && (!IsBeingFilled(s, id) ==> Contents(s.ring, id) == s.log[j])
            && (s.phase.Idle? ==> (j == id <==> Available(s.ring, id)))
  {
    var n, d := s.ring.layout.frames, s.ring.last - 1 - id;
    var j := s.ring.last - 1 - d % n;
    WholeLaps(n, d);
    AliasesModulo(n, id, d / n);
    assert j == id + d / n * n;
    assert Contents(s.ring, id) == Contents(s.ring, j);
    if s.ring.next > j + n {
      OneLap(n, j);
      assert s.ring.next - 1 == j + n;
    } else {
      assert Undisturbed(s, j);
      if Outstanding(s) == 1 { FillingIsApart(s, j); }
    }
  }

  lemma WholeLaps(n: nat, d: nat)
    requires n > 0
    ensures d / n >= 0 && d % n <= d && d == d / n * n + d % n
    ensures d % n == d <==> d < n
  {
    var q := d / n;
    assert d == n * q + d % n;
    assert n * q == q * n;
    if q > 0 { ScaledBound(1, q, n); }
  }

  lemma {:induction false} RunAppend(s: System, a: seq<Step>, b: seq<Step>)
    requires WellSized(s.ring) && Possible(s, a) && Possible(Run(s, a), b)
    ensures Possible(s, a + b) && Run(s, a + b) == Run(Run(s, a), b)
    decreases |a|
  {
    if a == [] {
      assert a + b == b;
    } else {
      assert (a + b)[1..] == a[1..] + b;
      RunAppend(Apply(s, a[0]), a[1..], b);
    }
  }

  /** After a reconfiguration the newest id is unavailable until the next frame is published; with a
      single slot it is also unavailable from the moment room is made until that publication. */
  lemma NewestIsAvailableWhen(s: System)
    requires Inv(s) && s.ring.last > 0 && s.ring.layout.frames > 0
    ensures Available(s.ring, s.ring.last - 1) <==>
            s.base < s.ring.last && (s.phase.Idle? || s.ring.layout.frames > 1)
  {
  }

  // ----- submitting a whole frame -----

  function Fill(r: Ring, id: nat, data: seq<Byte>): Ring
    requires WellSized(r) && r.layout.frames > 0 && |data| == r.layout.frameBytes
  {
    var o := Offset(r.layout, id);
    r.(bytes := r.bytes[..o] + data + r.bytes[o + |data|..])
  }

  function Submit(r: Ring, data: seq<Byte>, time: nat): Ring
    requires WellSized(r) && r.layout.frames > 0 && |data| == r.layout.frameBytes
  {
    var q := Request(r);
    Publish(Stamp(Fill(q, r.next, data), r.next, time), r.next)
  }

  function Stores(data: seq<Byte>, from: nat): seq<Step>
    requires from <= |data|
    decreases |data| - from
  {
    if from == |data| then [] else [DoStore(from, data[from])] + Stores(data, from + 1)
  }

  function FillSteps(data: seq<Byte>): seq<Step> {
    [DoEvict, DoTake] + Stores(data, 0)
  }

  function SubmitSteps(data: seq<Byte>, time: nat): seq<Step> {
    FillSteps(data) + [DoStamp(time), DoPublish]
  }

  lemma OneMoreByte(bytes: seq<Byte>, o: nat, data: seq<Byte>, from: nat)
    requires o + |data| <= |bytes| && from < |data|
    ensures (bytes[..o] + data[..from] + bytes[o + from..])[o + from := data[from]]
         == bytes[..o] + data[..from + 1] + bytes[o + (from + 1)..]
  {
  }

  /** Storing the remaining bytes one at a time completes the copy of the whole frame. */
  lemma {:induction false} StoresFill(s: System, data: seq<Byte>, from: nat, start: Ring)
    requires WellSized(s.ring) && s.ring.layout.frames > 0 && s.phase == Filling && s.ring.next > 0
    requires |data| == s.ring.layout.frameBytes && from <= |data|
    requires WellSized(start) && start.layout == s.ring.layout
    requires var o := Offset(start.layout, s.ring.next - 1);
             s.ring == start.(bytes := start.bytes[..o] + data[..from] + start.bytes[o + from..])
    ensures Possible(s, Stores(data, from))
    ensures Run(s, Stores(data, from)) == s.(ring := Fill(start, s.ring.next - 1, data))
    decreases |data| - from
  {
    var o := Offset(start.layout, s.ring.next - 1);
    if from == |data| {
      assert data[..from] == data;
    } else {
      var step := DoStore(from, data[from]);
      var t := Apply(s, step);
      OneMoreByte(start.bytes, o, data, from);
      StoresFill(t, data, from + 1, start);
      assert Stores(data, from)[1..] == Stores(data, from + 1);
    }
  }

  lemma RequestIsARun(s: System)
    requires WellSized(s.ring) && s.phase == Idle && s.ring.layout.frames > 0
    ensures Possible(s, [DoEvict, DoTake])
    ensures Run(s, [DoEvict, DoTake]) == s.(ring := Request(s.ring), phase := Filling)
  {
    var t := Apply(s, DoEvict);
    assert [DoEvict, DoTake][1..] == [DoTake] && [DoTake][1..] == [];
    assert Possible(t, [DoTake]) && Run(t, [DoTake]) == Apply(t, DoTake);
  }

  /** Requesting a frame and storing its bytes. */
  lemma FillIsARun(s: System, data: seq<Byte>)
    requires WellSized(s.ring) && s.phase == Idle && s.ring.layout.frames > 0
    requires |data| == s.ring.layout.frameBytes
    ensures Possible(s, FillSteps(data))
    ensures Run(s, FillSteps(data)) == s.(ring := Fill(Request(s.ring), s.ring.next, data), phase := Filling)
  {
    RequestIsARun(s);
    var t := Run(s, [DoEvict, DoTake]);
    var o := Offset(s.ring.layout, s.ring.next);
    assert t.ring.bytes == t.ring.bytes[..o] + data[..0] + t.ring.bytes[o + 0..];
    StoresFill(t, data, 0, t.ring);
    RunAppend(s, [DoEvict, DoTake], Stores(data, 0));
  }

  /** Stamping the filled frame and publishing it. */
  lemma FinishIsARun(s: System, time: nat)
    requires WellSized(s.ring) && s.ring.layout.frames > 0 && s.phase == Filling && s.ring.next > 0
    ensures var steps := [DoStamp(time), DoPublish];
            var r := Stamp(s.ring, s.ring.next - 1, time);
            Possible(s, steps)
            && Run(s, steps) == System(Publish(r, r.next - 1), Idle, s.log + [Contents(r, r.next - 1)], s.base)
  {
    var steps := [DoStamp(time), DoPublish];
    assert steps[1..] == [DoPublish] && [DoPublish][1..] == [];
    var t := Apply(s, DoStamp(time));
    assert Possible(t, [DoPublish]) && Run(t, [DoPublish]) == Apply(t, DoPublish);
  }

  lemma FilledContents(r: Ring, id: nat, data: seq<Byte>, time: nat)
    requires WellSized(r) && r.layout.frames > 0 && |data| == r.layout.frameBytes
    ensures Contents(Stamp(Fill(r, id, data), id, time), id) == Record(data, time)
  {
  }

  /** SubmitData is a run, and it appends exactly the submitted bytes and time to the log. */
  lemma SubmitIsARun(s: System, data: seq<Byte>, time: nat)
    requires WellSized(s.ring) && s.phase == Idle && s.ring.layout.frames > 0
    requires |data| == s.ring.layout.frameBytes
    ensures Possible(s, SubmitSteps(data, time))
    ensures Run(s, SubmitSteps(data, time))
         == System(Submit(s.ring, data, time), Idle, s.log + [Record(data, time)], s.base)
  {
    FillIsARun(s, data);
    FinishIsARun(Run(s, FillSteps(data)), time);
    RunAppend(s, FillSteps(data), [DoStamp(time), DoPublish]);
    FilledContents(Request(s.ring), s.ring.next, data, time);
  }

  // ----- how long a view of a frame stays intact -----

  function Takes(steps: seq<Step>): nat {
    if steps == [] then 0 else (if steps[0].DoTake? then 1 else 0) + Takes(steps[1..])
  }

  predicate KeepsLayout(steps: seq<Step>) {
    forall step | step in steps :: !step.DoReconfigure?
  }

  lemma {:induction false} TakesCountIds(s: System, steps: seq<Step>)
    requires WellSized(s.ring) && Possible(s, steps) && KeepsLayout(steps)
    ensures Run(s, steps).ring.next == s.ring.next + Takes(steps)
    ensures Run(s, steps).ring.layout == s.ring.layout
    decreases |steps|
  {
    if steps == [] {
    } else {
      TakesCountIds(Apply(s, steps[0]), steps[1..]);
    }
  }

  lemma StepKeepsView(s: System, id: nat, step: Step)
    requires Inv(s) && id < s.ring.last && s.ring.layout.frames > 0
    requires Enabled(s, step) && !step.DoReconfigure? && s.ring.next <= id + s.ring.layout.frames
    ensures Apply(s, step).ring.layout == s.ring.layout
    ensures Contents(Apply(s, step).ring, id) == Contents(s.ring, id)
  {
    if step.DoStore? {
      NearbyIdsDiffer(s.ring.layout.frames, id, s.ring.next - 1);
      StoreElsewhere(s.ring, s.ring.next - 1, id, step.k, step.b);
    } else if step.DoStamp? {
      NearbyIdsDiffer(s.ring.layout.frames, id, s.ring.next - 1);
      StampElsewhere(s.ring, s.ring.next - 1, id, step.time);
    } else {
      CountersTouchNoSlot(s.ring, Apply(s, step).ring, id);
    }
  }

  /** A view of a published frame keeps its bytes and time stamp through the next
      `id + N - next` requests, even after the id itself has been evicted. */
  lemma {:induction false} ViewStaysIntact(s: System, id: nat, steps: seq<Step>)
    requires Inv(s) && id < s.ring.last && s.ring.layout.frames > 0
    requires Possible(s, steps) && KeepsLayout(steps)
    requires s.ring.next + Takes(steps) <= id + s.ring.layout.frames
    ensures Run(s, steps).ring.layout == s.ring.layout
    ensures Contents(Run(s, steps).ring, id) == Contents(s.ring, id)
    decreases |steps|
  {
    if steps == [] {
    } else {
      StepKeepsView(s, id, steps[0]);
      StepKeepsInv(s, steps[0]);
      ViewStaysIntact(Apply(s, steps[0]), id, steps[1..]);
    }
  }

  /** The bound is exact: the request after those hands the writer that very slot. */
  lemma GraceIsExact(s: System, id: nat, steps: seq<Step>)
    requires Inv(s) && Available(s.ring, id) && s.ring.layout.frames > 0
    requires Possible(s, steps) && KeepsLayout(steps)
    requires Takes(steps) == id + s.ring.layout.frames - s.ring.next
    ensures Run(s, steps).ring.layout == s.ring.layout
    ensures Contents(Run(s, steps).ring, id) == s.log[id]
    ensures Slot(s.ring.layout, Run(s, steps).ring.next) == Slot(s.ring.layout, id)
    ensures s.phase == Idle && id == s.ring.last - 1 ==> Takes(steps) == s.ring.layout.frames - 1
  {
    ViewStaysIntact(s, id, steps);
    TakesCountIds(s, steps);
    OneLap(s.ring.layout.frames, id);
  }

  lemma {:induction false} AliasesModulo(n: nat, id: nat, laps: nat)
    requires n > 0
    ensures (id + laps * n) % n == id % n
    decreases laps
  {
    if laps == 0 {
    } else {
      AliasesModulo(n, id, laps - 1);
      OneLap(n, id + (laps - 1) * n);
      assert id + laps * n == id + (laps - 1) * n + n;
    }
  }

  lemma OneLap(n: nat, x: nat)
    requires n > 0
    ensures (x + n) % n == x % n
  {
    var q, p := x / n, (x + n) / n;
    assert x % n - (x + n) % n == n * (p - q - 1) by {
      assert x == n * q + x % n && x + n == n * p + (x + n) % n;
    }
    if p - q - 1 > 0 { ScaledBound(1, p - q - 1, n); }
    if q + 1 - p > 0 { ScaledBound(1, q + 1 - p, n); }
  }
}
