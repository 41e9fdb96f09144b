/** The fail-safe chain: the safety monitor turns readings into flags, every service that requires
    safety polls those flags, and shuts itself down when they are not all set or too old. */
module Safety {
  import opened Outcomes

  type Nanoseconds = n: nat | n < 0x1_0000_0000_0000_0000
  type Flag = b: nat | b < 256

  const SECOND := 1000000000.0
  const SAFETY_INTERVAL := 60.0

  datatype Limits = Limits(interval: real, minimum: Option<real>, maximum: Option<real>)

  datatype Reading = Reading(stamp: Nanoseconds, value: real)

  // ----- one check by the monitor -----

  predicate WithinLimits(l: Limits, value: real) {
    && (l.minimum.Some? ==> l.minimum.value <= value)
    && (l.maximum.Some? ==> value <= l.maximum.value)
  }

  /** A safety holds when its stream could be read, was recent at `now`, and was within its limits. */
  predicate Holds(l: Limits, now: Nanoseconds, seen: Option<Reading>) {
    && seen.Some?
    && seen.value.stamp as real >= now as real - l.interval * SECOND
    && WithinLimits(l, seen.value.value)
  }

  /** check_safety: one flag per safety, filled in place. A stream that could not be read is None. */
  method CheckSafety(safeties: seq<Limits>, now: Nanoseconds, seen: seq<Option<Reading>>)
    returns (flags: array<Flag>)
    requires |seen| == |safeties|
    ensures flags.Length == |safeties|
    ensures forall i | 0 <= i < |safeties| :: flags[i] == if Holds(safeties[i], now, seen[i]) then 1 else 0
    ensures forall i | 0 <= i < |safeties| :: flags[i] <= 1 && (flags[i] == 1 <==>
              && seen[i].Some?
              && seen[i].value.stamp as real >= now as real - safeties[i].interval * 1000000000.0
              && (safeties[i].minimum == None || safeties[i].minimum.value <= seen[i].value.value)
              && (safeties[i].maximum == None || seen[i].value.value <= safeties[i].maximum.value))
  {
    flags := new Flag[|safeties|](_ => 0);
    for i := 0 to |safeties|
      invariant forall k | 0 <= k < i :: flags[k] == if Holds(safeties[k], now, seen[k]) then 1 else 0
    {
      var isSafe := true;
      if seen[i].Some? {
        var reading := seen[i].value;
        var lowerBound := now as real - safeties[i].interval * SECOND;
        if reading.stamp as real < lowerBound { isSafe := false; }
        if safeties[i].minimum.Some? && reading.value < safeties[i].minimum.value { isSafe := false; }
        if safeties[i].maximum.Some? && reading.value > safeties[i].maximum.value { isSafe := false; }
      } else {
        isSafe := false;
      }
      flags[i] := if isSafe then 1 else 0;
    }
  }

  // ----- one poll by a service -----

  /** The sum of unsigned bytes is itself an unsigned byte. */
  function WrappingSum(flags: seq<Flag>): Flag {
    if flags == [] then 0 else (WrappingSum(flags[..|flags| - 1]) + flags[|flags| - 1]) % 256
  }

  function Total(flags: seq<Flag>): nat {
    if flags == [] then 0 else Total(flags[..|flags| - 1]) + flags[|flags| - 1]
  }

  lemma {:induction false} WrappingSumIsTotal(flags: seq<Flag>)
    ensures WrappingSum(flags) == Total(flags) % 256
    decreases |flags|
  {
    if flags == [] {
    } else {
      WrappingSumIsTotal(flags[..|flags| - 1]);
      SumModulo(Total(flags[..|flags| - 1]), flags[|flags| - 1]);
    }
  }

  lemma SumModulo(a: nat, b: nat)
    ensures (a % 256 + b) % 256 == (a + b) % 256
  {
    var q := a / 256;
    assert a == 256 * q + a % 256;
    assert a + b == 256 * q + (a % 256 + b);
  }

  predicate AllSet(flags: seq<Flag>) {
    forall i | 0 <= i < |flags| :: flags[i] == 1
  }

  predicate AreFlags(flags: seq<Flag>) {
    forall i | 0 <= i < |flags| :: flags[i] <= 1
  }

  lemma {:induction false} TotalOfFlags(flags: seq<Flag>)
    requires AreFlags(flags)
    ensures Total(flags) <= |flags|
    ensures Total(flags) == |flags| <==> AllSet(flags)
    decreases |flags|
  {
    if flags == [] {
    } else {
      var front := flags[..|flags| - 1];
      TotalOfFlags(front);
      if AllSet(front) && flags[|flags| - 1] == 1 {
        forall i | 0 <= i < |flags| ensures flags[i] == 1 { if i < |front| { assert front[i] == 1; } }
      }
      if AllSet(flags) { assert AllSet(front); }
    }
  }

  /** The comparison of the byte sum with the number of flags passes exactly when every flag is set and
      there are at most 255 of them: with more, a safe testbed is deemed unsafe, never the reverse. */
  lemma SumTestExactly(flags: seq<Flag>)
    requires AreFlags(flags)
    ensures WrappingSum(flags) == |flags| <==> AllSet(flags) && |flags| <= 255
  {
    WrappingSumIsTotal(flags);
    TotalOfFlags(flags);
  }

  /** The newest frame of the is_safe stream. */
  datatype SafetyFrame = SafetyFrame(stamp: Nanoseconds, flags: seq<Flag>)

  /** Unsigned 64-bit subtraction. */
  function Elapsed(now: Nanoseconds, stamp: Nanoseconds): Nanoseconds {
    if now >= stamp then now - stamp else now - stamp + 0x1_0000_0000_0000_0000
  }

  /** IsSafe; None stands for anything thrown on the way to the frame. */
  method IsSafe(requiresSafety: bool, newest: Option<SafetyFrame>, now: Nanoseconds) returns (safe: bool)
    ensures safe == DeemedSafe(requiresSafety, newest, now)
    ensures !requiresSafety ==> safe
    ensures requiresSafety && newest.None? ==> !safe
    ensures requiresSafety && newest.Some? && AreFlags(newest.value.flags) ==>
              (safe <==> IsFresh(newest.value.stamp, now)
                         && |newest.value.flags| <= 255 && forall i | 0 <= i < |newest.value.flags| :: newest.value.flags[i] == 1)
  {
    if requiresSafety && newest.Some? && AreFlags(newest.value.flags) { DeemedSafeWhen(newest.value, now); }
    if !requiresSafety { return true; }
    if newest.None? { return false; }
    if Elapsed(now, newest.value.stamp) as real / SECOND > 3.0 * SAFETY_INTERVAL { return false; }
    var sum: Flag := 0;
    for i := 0 to |newest.value.flags|
      invariant sum == WrappingSum(newest.value.flags[..i])
    {
      assert newest.value.flags[..i + 1][..i] == newest.value.flags[..i];
      sum := (sum + newest.value.flags[i]) % 256;
    }
    assert newest.value.flags[..|newest.value.flags|] == newest.value.flags;
    if sum != |newest.value.flags| { return false; }
    return true;
  }

  predicate DeemedSafe(requiresSafety: bool, newest: Option<SafetyFrame>, now: Nanoseconds) {
    requiresSafety ==>
      && newest.Some?
      && Elapsed(now, newest.value.stamp) as real / SECOND <= 3.0 * SAFETY_INTERVAL
      && WrappingSum(newest.value.flags) == |newest.value.flags|
  }

  /** The stamp is at most three minutes old. Ages are differences of unsigned 64-bit numbers, so a stamp
      ahead of the clock counts as very old, unless it is ahead by nearly the whole range. */
  predicate IsFresh(stamp: Nanoseconds, now: Nanoseconds) {
    stamp <= now <= stamp + 180_000_000_000 || stamp >= now + 0x1_0000_0000_0000_0000 - 180_000_000_000
  }

  lemma ElapsedMeans(stamp: Nanoseconds, now: Nanoseconds)
    ensures Elapsed(now, stamp) as real / SECOND <= 3.0 * SAFETY_INTERVAL <==> IsFresh(stamp, now)
  {
    var e := Elapsed(now, stamp);
    assert e as real == e as real / SECOND * SECOND;
    assert e as real / SECOND <= 180.0 <==> e as real <= 180000000000.0;
  }

  /** Exactly when a service that requires safety is deemed safe: the frame is fresh, there are at most 255
      flags, and all of them are set. */
  lemma DeemedSafeWhen(f: SafetyFrame, now: Nanoseconds)
    requires AreFlags(f.flags)
    ensures DeemedSafe(true, Some(f), now) <==>
              IsFresh(f.stamp, now) && |f.flags| <= 255 && forall i | 0 <= i < |f.flags| :: f.flags[i] == 1
    ensures DeemedSafe(false, Some(f), now) && DeemedSafe(false, None, now) && !DeemedSafe(true, None, now)
  {
    ElapsedMeans(f.stamp, now);
    SumTestExactly(f.flags);
  }

  // ----- the chain -----

  /** One completed check: when it started, what it saw, and when its frame was stamped. */
  datatype Check = Check(started: Nanoseconds, seen: seq<Option<Reading>>, stamped: Nanoseconds)

  function FlagsOf(safeties: seq<Limits>, c: Check): (flags: seq<Flag>)
    requires |c.seen| == |safeties|
  {
    seq(|safeties|, i requires 0 <= i < |safeties| => if Holds(safeties[i], c.started, c.seen[i]) then 1 else 0)
  }

  function Published(safeties: seq<Limits>, c: Check): SafetyFrame
    requires |c.seen| == |safeties|
  {
    SafetyFrame(c.stamped, FlagsOf(safeties, c))
  }

  /** Safety `i` had a reading between its configured bounds, stamped at `time` or later. */
  predicate HadGoodReadingSince(safeties: seq<Limits>, c: Check, i: nat, time: real)
    requires i < |safeties| == |c.seen|
  {
    && c.seen[i].Some?
    && (safeties[i].minimum.Some? ==> safeties[i].minimum.value <= c.seen[i].value.value)
    && (safeties[i].maximum.Some? ==> c.seen[i].value.value <= safeties[i].maximum.value)
    && c.seen[i].value.stamp as real >= time
  }

  /** One flag, both ways: it is set exactly by a recent reading between the configured bounds. */
  lemma FlagIsSetWhen(safeties: seq<Limits>, c: Check, i: nat)
    requires |c.seen| == |safeties| && i < |safeties|
    ensures FlagsOf(safeties, c)[i] == 1 <==>
              HadGoodReadingSince(safeties, c, i, c.started as real - safeties[i].interval * 1000000000.0)
    ensures FlagsOf(safeties, c)[i] <= 1
  {
  }

  /** The whole chain, both ways, for a check whose frame is polled at `now`. */
  lemma ChainIsExact(safeties: seq<Limits>, c: Check, now: Nanoseconds)
    requires |c.seen| == |safeties|
    ensures DeemedSafe(true, Some(Published(safeties, c)), now) <==>
              && IsFresh(c.stamped, now) && |safeties| <= 255
              && forall i | 0 <= i < |safeties| ::
                   HadGoodReadingSince(safeties, c, i, c.started as real - safeties[i].interval * 1000000000.0)
  {
    var flags := FlagsOf(safeties, c);
    forall i | 0 <= i < |safeties| ensures flags[i] <= 1 { FlagIsSetWhen(safeties, c, i); }
    DeemedSafeWhen(Published(safeties, c), now);
    forall i | 0 <= i < |safeties|
      ensures flags[i] == 1 <==> HadGoodReadingSince(safeties, c, i, c.started as real - safeties[i].interval * 1000000000.0)
    {
      FlagIsSetWhen(safeties, c, i);
    }
  }

  /** A service that requires safety and is deemed safe at `now` on the frame of a check that took at
      most `delay`: every configured safety, however many there are, had a reading within its limits no
      older than three minutes, its own interval and that delay together. */
  lemma SafeMeansRecentReadings(safeties: seq<Limits>, c: Check, now: Nanoseconds, delay: real, i: nat)
    requires |c.seen| == |safeties| && i < |safeties|
    requires c.stamped as real - c.started as real <= delay
    requires DeemedSafe(true, Some(Published(safeties, c)), now)
    ensures HadGoodReadingSince(safeties, c, i,
              now as real - 180.0 * 1000000000.0 - safeties[i].interval * 1000000000.0 - delay)
  {
    SumTestExactly(FlagsOf(safeties, c));
    assert FlagsOf(safeties, c)[i] == 1;
    var age := Elapsed(now, c.stamped) as real;
    assert age == age / SECOND * SECOND;
  }

  /** With 256 safeties or more no service that requires safety ever runs. */
  lemma TooManySafetiesAreNeverSafe(safeties: seq<Limits>, c: Check, now: Nanoseconds)
    requires |c.seen| == |safeties| && |safeties| >= 256
    ensures !DeemedSafe(true, Some(Published(safeties, c)), now)
  {
  }

  // ----- the monitoring thread of a service -----

  /** One turn of MonitorSafety: was the service asked to stop, and what does it see otherwise. */
  datatype Poll = Poll(stopping: bool, newest: Option<SafetyFrame>, now: Nanoseconds)

  predicate Good(requiresSafety: bool, p: Poll) {
    !p.stopping && DeemedSafe(requiresSafety, p.newest, p.now)
  }

  class Service {
    const requiresSafety: bool
    var failSafe: bool
    var shouldShutDown: bool

    constructor (required: bool)
      ensures requiresSafety == required && !failSafe && !shouldShutDown
    {
      requiresSafety, failSafe, shouldShutDown := required, false, false;
    }

    /** The service fails safe exactly when some poll finds the testbed unsafe before anyone asked the
        service to stop; while it keeps running every poll so far was safe. */
    method MonitorSafety(polls: seq<Poll>) returns (made: nat)
      requires !failSafe && !shouldShutDown
      modifies this
      ensures made <= |polls| && forall k | 0 <= k < made :: Good(requiresSafety, polls[k])
      ensures !shouldShutDown <==> made == |polls|
      ensures made < |polls| ==> !Good(requiresSafety, polls[made]) && (failSafe <==> !polls[made].stopping)
      ensures made == |polls| ==> !failSafe
      ensures forall k | 0 <= k < made ::
                !polls[k].stopping && DeemedSafe(requiresSafety, polls[k].newest, polls[k].now)
      ensures made < |polls| ==>
                (polls[made].stopping || !DeemedSafe(requiresSafety, polls[made].newest, polls[made].now))
    {
      made := 0;
      while made < |polls| && !shouldShutDown
        invariant made <= |polls| && !failSafe && !shouldShutDown
        invariant forall k | 0 <= k < made :: Good(requiresSafety, polls[k])
      {
        if polls[made].stopping {
          shouldShutDown := true;
          return;
        }
        var safe := IsSafe(requiresSafety, polls[made].newest, polls[made].now);
        if !safe {
          failSafe := true;
          shouldShutDown := true;
          return;
        }
        made := made + 1;
      }
    }
  }

  /** A service still running `pause` after its last poll: every safety had an in-limits reading since
      four minutes-worth of polling slack, its interval and the monitor's delay before that moment. */
  lemma RunningMeansRecentReadings(safeties: seq<Limits>, c: Check, last: Poll, pause: real, delay: real, i: nat)
    requires |c.seen| == |safeties| && i < |safeties|
    requires c.stamped as real - c.started as real <= delay
    requires Good(true, last) && last.newest == Some(Published(safeties, c))
    requires pause <= 60.0 * 1000000000.0
    ensures HadGoodReadingSince(safeties, c, i,
              last.now as real + pause - 240.0 * 1000000000.0 - safeties[i].interval * 1000000000.0 - delay)
  {
    SafeMeansRecentReadings(safeties, c, last.now, delay, i);
  }
}
