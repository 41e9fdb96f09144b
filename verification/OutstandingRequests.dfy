/** The ring without the discipline of one outstanding request: any number of requested frames may be
    unpublished, and they may be published in any order. When the window outgrows the buffer, when a
    request hands out the slot of an available frame, and what follows from either. */
module OutstandingRequests {
  import opened FrameRing

  /** What the counters satisfy whatever is requested and published. */
  predicate Sane(r: Ring) {
    r.layout.frames > 0 && r.first <= r.last <= r.next
  }

  function Window(r: Ring): int {
    r.last - r.first
  }

  // ----- handing out the slot of an available frame -----

  /** The slot handed out by the next request still belongs to an available frame. */
  ghost predicate RequestOverlaps(r: Ring)
    requires r.layout.frames > 0
  {
    exists id: nat :: Available(Request(r), id) && Slot(r.layout, id) == Slot(r.layout, r.next)
  }

  function Min(a: int, b: int): int { if a <= b then a else b }

  /** The exact condition under which a request hands out the slot of an available frame: the window is
      larger than the buffer, or frames in the window plus frames outstanding reach around it. One
      writer that publishes before requesting again never meets it. */
  lemma OverlapExactly(r: Ring)
    requires Sane(r)
    ensures var n := r.layout.frames;
            RequestOverlaps(r) <==>
              Window(r) > n || (r.next - r.last) % n + Min(Window(r), n - 1) >= n
  {
    SameSlotAsNext(r.layout.frames, r.last, r.next);
    OverlapAt(r, (r.next - r.last) % r.layout.frames);
  }

  /** The same with the distance from LastId to the next id that shares the slot as a number. */
  lemma OverlapAt(r: Ring, k: nat)
    requires Sane(r) && k < r.layout.frames && (r.last + k) % r.layout.frames == r.next % r.layout.frames
    requires r.last + k >= r.layout.frames ==> (r.last + k - r.layout.frames) % r.layout.frames == r.next % r.layout.frames
    ensures RequestOverlaps(r) <==>
              Window(r) > r.layout.frames || k + Min(Window(r), r.layout.frames - 1) >= r.layout.frames
  {
    var n := r.layout.frames;
    var alias := r.last + k - n;
    if Window(r) > n || k + Min(Window(r), n - 1) >= n {
      assert Available(Request(r), alias) && Slot(r.layout, alias) == Slot(r.layout, r.next);
    } else {
      forall id: nat | Available(Request(r), id) ensures Slot(r.layout, id) != Slot(r.layout, r.next) {
        assert alias < id < alias + n;
        NearbyIdsDiffer(n, id, alias + n);
      }
    }
  }

  /** Of one buffer length of ids starting anywhere at or below `next`, the one that shares its slot. */
  lemma SameSlotAsNext(n: nat, last: nat, next: nat)
    requires n > 0 && last <= next
    ensures var alias := last + (next - last) % n;
            alias % n == next % n && (alias >= n ==> (alias - n) % n == next % n)
  {
    var d := next - last;
    var alias := last + d % n;
    WholeLaps(n, d);
    AliasesModulo(n, alias, d / n);
    if alias >= n { OneLap(n, alias - n); }
  }

  /** Two frames outstanding on a two-slot ring: the second request overwrites an available frame. */
  lemma TwoOutstandingOverlap(r: Ring)
    requires r.layout.frames == 2 && r.first == r.last == r.next == 0
    ensures RequestOverlaps(Request(Publish(Request(Publish(Request(r), 0)), 1)))
  {
    OverlapExactly(Request(Publish(Request(Publish(Request(r), 0)), 1)));
  }

  // ----- a window larger than the buffer -----

  /** Publishing any id that has been handed out leaves the window within the buffer. */
  ghost predicate Contained(r: Ring) {
    forall id: nat | id < r.next :: Window(Publish(r, id)) <= r.layout.frames
  }

  lemma ContainedMeans(r: Ring)
    requires Sane(r)
    ensures Contained(r) <==> r.next <= r.first + r.layout.frames
  {
    if r.next > 0 {
      assert Window(Publish(r, r.next - 1)) == r.next - r.first;
    }
  }

  datatype Act = RequestOne | PublishOne(id: nat) | ReconfigureTo(l: Layout)

  /** Only what has been handed out is published, and a buffer has at least one slot. */
  predicate CanAct(r: Ring, a: Act) {
    match a
    case RequestOne => true
    case PublishOne(id) => id < r.next
    case ReconfigureTo(l) => l.frames > 0
  }

  function Acted(r: Ring, a: Act): Ring {
    match a
    case RequestOne => Request(r)
    case PublishOne(id) => Publish(r, id)
    case ReconfigureTo(l) => Reconfigure(r, l)
  }

  /** What a caller can check before the call: it has published all it requested, or fewer than a buffer
      of ids from FirstId on have been handed out; a smaller buffer must hold what is outstanding. */
  predicate HasRoom(r: Ring, a: Act) {
    match a
    case RequestOne => r.next == r.last || r.next < r.first + r.layout.frames
    case PublishOne(_) => true
    case ReconfigureTo(l) => r.next - r.last <= l.frames
  }

  lemma ActContainedWhen(r: Ring, a: Act)
    requires Sane(r) && Contained(r) && CanAct(r, a)
    ensures Sane(Acted(r, a))
    ensures Contained(Acted(r, a)) <==> HasRoom(r, a)
  {
    ContainedMeans(r);
    ContainedMeans(Acted(r, a));
  }

  /** From a contained state a request overlaps an available frame exactly when there is no room for it
      and a frame is available. */
  lemma OverlapsWithoutRoom(r: Ring)
    requires Sane(r) && Contained(r)
    ensures RequestOverlaps(r) <==> !HasRoom(r, RequestOne) && r.first < r.last
  {
    var n := r.layout.frames;
    ContainedMeans(r);
    if !HasRoom(r, RequestOne) && r.first < r.last {
      OneLap(n, r.first);
      assert Available(Request(r), r.first) && Slot(r.layout, r.first) == Slot(r.layout, r.next);
    } else {
      forall id: nat | Available(Request(r), id) ensures Slot(r.layout, id) != Slot(r.layout, r.next) {
        NearbyIdsDiffer(n, id, r.next);
      }
    }
  }

  predicate CanActAll(r: Ring, acts: seq<Act>)
    decreases |acts|
  {
    acts == [] || (CanAct(r, acts[0]) && CanActAll(Acted(r, acts[0]), acts[1..]))
  }

  function ActedAll(r: Ring, acts: seq<Act>): Ring
    decreases |acts|
  {
    if acts == [] then r else ActedAll(Acted(r, acts[0]), acts[1..])
  }

  ghost predicate AlwaysContained(r: Ring, acts: seq<Act>)
    decreases |acts|
  {
    Contained(r) && (acts == [] || AlwaysContained(Acted(r, acts[0]), acts[1..]))
  }

  predicate AlwaysHasRoom(r: Ring, acts: seq<Act>)
    decreases |acts|
  {
    acts == [] || (HasRoom(r, acts[0]) && AlwaysHasRoom(Acted(r, acts[0]), acts[1..]))
  }

  /** Along any run, in whatever order frames are published, the window can never outgrow the buffer if
      and only if every request and reconfiguration had room when it was made. */
  lemma {:induction false} AlwaysContainedWhen(r: Ring, acts: seq<Act>)
    requires Sane(r) && Contained(r) && CanActAll(r, acts)
    ensures AlwaysContained(r, acts) <==> AlwaysHasRoom(r, acts)
    decreases |acts|
  {
    if acts == [] {
    } else {
      ActContainedWhen(r, acts[0]);
      if HasRoom(r, acts[0]) { AlwaysContainedWhen(Acted(r, acts[0]), acts[1..]); }
    }
  }

  /** The eviction test is an equality, so a window that has outgrown the buffer is never cut back: until
      a reconfiguration FirstId stands still and every request overlaps an available frame. */
  lemma {:induction false} OvergrownWindowStays(r: Ring, acts: seq<Act>)
    requires Sane(r) && Window(r) > r.layout.frames
    requires CanActAll(r, acts) && forall a | a in acts :: !a.ReconfigureTo?
    ensures var q := ActedAll(r, acts);
            Sane(q) && q.first == r.first && Window(q) > q.layout.frames && RequestOverlaps(q)
    decreases |acts|
  {
    if acts == [] {
      OverlapExactly(r);
    } else {
      OvergrownWindowStays(Acted(r, acts[0]), acts[1..]);
    }
  }

  /** Publishing in order does not help: two requests at once on a full two-slot ring, then their
      publication in order, give a window of three. */
  lemma InOrderOutgrows(r: Ring)
    requires r.layout.frames == 2 && r.first == r.last == r.next == 0
    ensures var full := Publish(Request(Publish(Request(r), 0)), 1);
            && HasRoom(full, RequestOne) && !HasRoom(Request(full), RequestOne)
            && Window(Publish(Publish(Request(Request(full)), 2), 3)) == 3
  {
  }

  /** Publishing out of order does the same on a single slot. */
  lemma OutOfOrderOutgrows(r: Ring)
    requires r.layout.frames == 1 && r.first == r.last == r.next == 0
    ensures !HasRoom(Request(r), RequestOne)
    ensures Window(Publish(Request(Request(r)), 1)) == 2
  {
  }
}
