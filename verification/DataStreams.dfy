/** The data stream itself: a header and a buffer shared by all handles, updated in place, and the
    handles that read from it. Each method is tied to the ring functions whose runs FrameRing and
    Readers reason about. */
module DataStreams {
  import opened Outcomes
  import opened Tensors
  import opened FrameRing
  import opened Readers

  class SharedStream {
    var layout: Layout
    var first: nat
    var last: nat
    var next: nat
    const stamps: array<nat>
    const bytes: array<Byte>

    ghost predicate Valid()
      reads this, stamps, bytes
    {
      stamps as object != bytes && WellSized(View())
    }

    ghost function View(): Ring
      reads this, stamps, bytes
    {
      Ring(layout, first, last, next, stamps[..], bytes[..])
    }

    /** Memory for the given layout, with all counters at zero. */
    constructor (l: Layout)
      requires l.frames <= MAX_FRAMES
      ensures Valid() && fresh(stamps) && fresh(bytes)
      ensures bytes.Length == l.frames * l.frameBytes
      ensures layout == l && first == last == next == 0
    {
      layout := l;
      first, last, next := 0, 0, 0;
      stamps := new nat[MAX_FRAMES](_ => 0);
      ScaledBound(0, l.frames, l.frameBytes);
      bytes := new Byte[l.frames * l.frameBytes](_ => 0);
    }
  }

  /** CalculateBufferSize: the limits, and the sizes of one frame. */
  method CalculateBufferSize(dtype: DataType, dims: seq<nat>, frames: nat) returns (r: Result<Layout, LayoutError>)
    ensures r == MakeLayout(dtype, dims, frames)
  {
    if |dims| > 4 { return Err(TooManyDimensions); }
    if frames > MAX_FRAMES { return Err(TooManyFrames); }
    var elements: nat := 1;
    for i := 0 to |dims|
      invariant elements == Product(dims[..i])
    {
      ProductOneMore(dims, i);
      elements := elements * dims[i];
    }
    assert dims[..|dims|] == dims;
    return Ok(Layout(dtype, |dims|, PadWithOnes(dims), elements, elements * SizeOf(dtype), frames));
  }

  /** A view onto the buffer, not a copy: where the bytes of the frame are. */
  datatype Frame = Frame(
    id: nat, stamp: nat, dtype: DataType, rank: nat, dims: seq<nat>, offset: nat)

  datatype FrameOutcome =
    | Available(frame: Frame)
    | NeverAgain    // "Frame will never be available anymore."
    | NotYet        // "Frame is not available yet."
    | MustWait      // blocks in Synchronization::Wait until LastId > id
    | NoFrames      // "DataStream does not have any frames ..."

  /** The view GetFrame builds for an id. */
  ghost function FrameAt(r: Ring, id: nat): Frame
    requires WellSized(r) && r.layout.frames > 0
  {
    Frame(id, Contents(r, id).stamp, r.layout.dtype, r.layout.rank, r.layout.dims, Offset(r.layout, id))
  }

  /** A reader after the shared accesses that Readers lists for one call, with nothing in between. */
  ghost function AfterCall(r: Ring, x: Reader, wait: bool): Reader
    requires WellSized(r) && r.layout.frames > 0 && x.pc.Resting?
  {
    UndisturbedCallIsARun(Joint(System(r, Idle, [], 0), x), wait);
    RunMoves(Joint(System(r, Idle, [], 0), x), CallMoves(r, x, wait)).reader
  }

  class DataStream {
    const shared: SharedStream
    var nextFrameIdToRead: nat
    var mode: Mode

    ghost predicate Valid()
      reads this, shared, shared.stamps, shared.bytes
    {
      shared.Valid()
    }

    ghost function View(): Ring
      reads shared, shared.stamps, shared.bytes
    {
      shared.View()
    }

    /** The view has the id, the type and the dimensions in the header, and starts at the slot of the id. */
    ghost predicate ShowsFrame(f: Frame, id: nat)
      reads shared
    {
      && f.id == id && f.dtype == shared.layout.dtype
      && f.rank == shared.layout.rank && f.dims == shared.layout.dims
      && shared.layout.frames > 0 && f.offset == (id % shared.layout.frames) * shared.layout.frameBytes
    }

    constructor OnTopOf(s: SharedStream)
      ensures shared == s && nextFrameIdToRead == 0 && mode == NewestOnly
    {
      shared := s;
      nextFrameIdToRead := 0;
      mode := NewestOnly;
    }

    static method Create(dtype: DataType, dims: seq<nat>, frames: nat)
      returns (r: Result<DataStream, LayoutError>)
      ensures r.Err? <==> |dims| > 4 || frames > 20
      ensures r.Err? ==> r.error == if |dims| > 4 then TooManyDimensions else TooManyFrames
      ensures r.Ok? ==> fresh(r.value) && fresh(r.value.shared) && r.value.Valid()
      ensures r.Ok? ==> Fresh(System(r.value.View(), Idle, [], 0))
      ensures r.Ok? ==> r.value.View().layout == MakeLayout(dtype, dims, frames).value
      ensures r.Ok? ==> Shows(r.value.shared.layout, dtype, dims, frames)
      ensures r.Ok? ==> r.value.shared.bytes.Length == frames * r.value.shared.layout.frameBytes
    {
      LayoutShowsShape(dtype, dims, frames);
      var l := CalculateBufferSize(dtype, dims, frames);
      if l.Err? { return Err(l.error); }
      var shared := new SharedStream(l.value);
      var stream := new DataStream.OnTopOf(shared);
      var update := stream.UpdateParameters(dtype, dims, frames);
      return Ok(stream);
    }

    static method Open(s: SharedStream) returns (stream: DataStream)
      ensures fresh(stream) && stream.shared == s
      ensures Opened(System(s.View(), Idle, [], 0)).reader
           == Reader(stream.nextFrameIdToRead, stream.nextFrameIdToRead, stream.mode, Resting, [])
      ensures stream.nextFrameIdToRead == s.last && stream.mode == NewestOnly
    {
      stream := new DataStream.OnTopOf(s);
      stream.nextFrameIdToRead := s.last;
    }

    method RequestNewFrame() returns (frame: Frame)
      requires Valid() && shared.layout.frames > 0 && shared.first <= shared.last
      modifies shared
      ensures Valid() && View() == Request(old(View()))
      ensures frame == FrameAt(View(), old(shared.next)).(stamp := 0)
      ensures ShowsFrame(frame, old(shared.next))
    {
      if shared.last - shared.first == shared.layout.frames {
        shared.first := shared.first + 1;
      }
      var id := shared.next;
      shared.next := shared.next + 1;
      var l := shared.layout;
      frame := Frame(id, 0, l.dtype, l.rank, l.dims, (id % l.frames) * l.frameBytes);
    }

    method SubmitFrame(id: nat, now: nat)
      requires Valid() && shared.layout.frames > 0
      modifies shared, shared.stamps
      ensures Valid() && View() == Publish(Stamp(old(View()), id, now), id)
    {
      ghost var stamped := Stamp(View(), id, now);
      shared.stamps[id % shared.layout.frames] := now;
      assert View() == stamped by {
        assert View().stamps == stamped.stamps;
      }
      // The lock is held from here on; the loop still never lowers LastId without it.
      var published := false;
      while !published
        modifies shared
        invariant View() == if published then Publish(stamped, id) else stamped
        decreases !published
      {
        var seen := shared.last;
        if seen >= id + 1 { break; }
        if shared.last == seen {  // compare and exchange
          shared.last := id + 1;
          published := true;
        }
      }
    }

    /** The memcpy of SubmitData. */
    method CopyInto(id: nat, data: seq<Byte>)
      requires Valid() && shared.layout.frames > 0 && |data| == shared.layout.frameBytes
      modifies shared.bytes
      ensures View() == Fill(old(View()), id, data)
    {
      ghost var filled := Fill(View(), id, data);
      var l := shared.layout;
      ghost var _ := Offset(l, id);
      var o := (id % l.frames) * l.frameBytes;
      forall i | 0 <= i < |data| {
        shared.bytes[o + i] := data[i];
      }
      assert View().bytes == filled.bytes;
    }

    method SubmitData(data: seq<Byte>, now: nat)
      requires Valid() && shared.layout.frames > 0 && shared.first <= shared.last
      requires |data| == shared.layout.frameBytes
      modifies shared, shared.stamps, shared.bytes
      ensures Valid() && View() == Submit(old(View()), data, now)
    {
      var frame := RequestNewFrame();
      CopyInto(frame.id, data);
      SubmitFrame(frame.id, now);
    }

    method UpdateParameters(dtype: DataType, dims: seq<nat>, frames: nat)
      returns (r: Result<(), LayoutError>)
      requires Valid()
      modifies shared
      ensures Valid()
      ensures var l := MakeLayout(dtype, dims, frames);
              match l
              case Err(e) => r == Err(e) && View() == old(View())
              case Ok(layout) =>
                if Fits(old(View()), layout)
                then r == Ok(()) && View() == Reconfigure(old(View()), layout)
                else r == Err(ExceedsAllocation) && View() == old(View())
      ensures r.Ok? ==> Shows(shared.layout, dtype, dims, frames) && shared.first == shared.last == old(shared.last)
      ensures r.Ok? <==> |dims| <= 4 && frames <= 20 && frames * (Product(dims) * SizeOf(dtype)) <= shared.bytes.Length
      ensures r.Err? ==> r.error == if |dims| > 4 then TooManyDimensions else if frames > 20 then TooManyFrames
                                    else ExceedsAllocation
    {
      LayoutShowsShape(dtype, dims, frames);
      var l := CalculateBufferSize(dtype, dims, frames);
      if l.Err? { return Err(l.error); }
      if l.value.frames * l.value.frameBytes > shared.bytes.Length { return Err(ExceedsAllocation); }
      shared.first := shared.last;
      shared.layout := l.value;
      return Ok(());
    }

    predicate IsFrameAvailable(id: nat)
      reads shared
    {
      id >= shared.first && id < shared.last
    }

    predicate WillFrameBeAvailable(id: nat)
      reads shared
    {
      id >= shared.first
    }

    /** GetFrame up to its wait: the outcome is decided by the window alone. */
    method GetFrame(id: nat, wait: bool) returns (r: FrameOutcome)
      requires Valid() && shared.layout.frames > 0
      ensures r.Available? <==> FrameRing.Available(View(), id)
      ensures r.Available? ==> r.frame == FrameAt(View(), id)
      ensures r.Available? ==> ShowsFrame(r.frame, id) && r.frame.stamp == shared.stamps[id % shared.layout.frames]
      ensures r.NeverAgain? <==> id < View().first
      ensures r.NotYet? <==> View().first <= id && View().last <= id && !wait
      ensures r.MustWait? <==> View().first <= id && View().last <= id && wait
    {
      if !IsFrameAvailable(id) {
        if !WillFrameBeAvailable(id) { return NeverAgain; }
        if !wait { return NotYet; }
        return MustWait;
      }
      r := ReadFrame(id);
    }

    /** GetFrame after its wait: no further look at the window. */
    method ReadFrame(id: nat) returns (r: FrameOutcome)
      requires Valid() && shared.layout.frames > 0
      ensures r == Available(FrameAt(View(), id))
      ensures ShowsFrame(r.frame, id) && r.frame.stamp == shared.stamps[id % shared.layout.frames]
    {
      var l, k := shared.layout, id % shared.layout.frames;
      return Available(Frame(id, shared.stamps[k], l.dtype, l.rank, l.dims, k * l.frameBytes));
    }

    /** GetNextFrame up to the wait of the GetFrame it calls. */
    method GetNextFrame(wait: bool) returns (r: FrameOutcome)
      requires Valid() && shared.layout.frames > 0
      modifies this
      ensures Valid() && View() == old(View()) && mode == old(mode)
      ensures var id := Choose(mode, old(nextFrameIdToRead), NewestAvailableId(View()), View().first);
              && id >= old(nextFrameIdToRead)
              && (r.Available? <==> FrameRing.Available(View(), id))
              && (r.Available? ==> r.frame == FrameAt(View(), id) && nextFrameIdToRead == id + 1)
              && (!r.Available? ==> nextFrameIdToRead == old(nextFrameIdToRead))
              && (r.NeverAgain? <==> id < View().first)
              && (r.NotYet? <==> View().first <= id && View().last <= id && !wait)
              && (r.MustWait? <==> View().first <= id && View().last <= id && wait)
      ensures var x := Reader(0, old(nextFrameIdToRead), mode, Resting, []);
              var y := AfterCall(View(), x, wait);
              && y.cursor == nextFrameIdToRead
              && y.got == (if r.Available? then [Got(r.frame.id, Contents(View(), r.frame.id), true)] else [])
              && (r.MustWait? <==> y.pc.Waiting?)
    {
      UndisturbedCallIsARun(Joint(System(View(), Idle, [], 0), Reader(0, nextFrameIdToRead, mode, Resting, [])), wait);
      var id := nextFrameIdToRead;
      var newest := if shared.last == 0 then 0 else shared.last - 1;
      var oldest := shared.first;
      match mode {
        case NewestOnly => if newest > id { id := newest; }
        case OldestFirst => if id < oldest { id := oldest; }
      }
      r := GetFrame(id, wait);
      if r.Available? {
        nextFrameIdToRead := id + 1;
      }
    }

    /** GetNextFrame after that wait has been granted: the cursor moves past the id that was aimed for,
        whatever has happened to the window meanwhile. */
    method FinishNextFrame(id: nat) returns (r: FrameOutcome)
      requires Valid() && shared.layout.frames > 0
      modifies this
      ensures Valid() && View() == old(View()) && mode == old(mode)
      ensures r == Available(FrameAt(View(), id)) && nextFrameIdToRead == id + 1
    {
      r := ReadFrame(id);
      nextFrameIdToRead := id + 1;
    }

    method GetLatestFrame() returns (r: FrameOutcome)
      requires Valid() && shared.layout.frames > 0
      ensures r.NoFrames? <==> View().last == 0
      ensures r.Available? <==> View().last > 0 && FrameRing.Available(View(), View().last - 1)
      ensures r.Available? ==> r.frame == FrameAt(View(), View().last - 1)
      ensures r.NeverAgain? <==> View().last > 0 && View().first >= View().last
    {
      if shared.last == 0 { return NoFrames; }
      r := GetFrame(shared.last - 1, false);
    }

    method SetBufferHandlingMode(m: Mode)
      modifies this
      ensures mode == m && nextFrameIdToRead == old(nextFrameIdToRead)
    {
      mode := m;
    }
  }
}
