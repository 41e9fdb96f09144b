/** A deformable mirror behind a digital-to-analogue converter: the requested surface, the voltages it
    needs, what the converter makes of them, and the surface that results. Arithmetic is exact. */
module Mirrors {
  import opened Outcomes

  /** Per actuator: its flat-map voltage and its gain. */
  datatype Actuator = Actuator(flat: real, gain: real)

  datatype Device = Device(actuators: seq<Actuator>, maxVolts: real, depth: Option<nat>)

  predicate Powered(d: Device) {
    d.maxVolts > 0.0
  }

  function Abs(x: real): real { if x < 0.0 then -x else x }

  predicate Usable(a: Actuator) {
    Abs(a.gain) >= 0.0000000001
  }

  function InverseGain(a: Actuator): real {
    if Usable(a) then 1.0 / a.gain else 0.0
  }

  function Clip(v: real): real {
    if v < 0.0 then 0.0 else if v > 1.0 then 1.0 else v
  }

  /** The fraction of the maximum voltage the surface calls for, before clipping. */
  function Wanted(d: Device, a: Actuator, surface: real): real
    requires Powered(d)
  {
    (a.flat + surface * InverseGain(a)) / d.maxVolts
  }

  function Voltage(d: Device, a: Actuator, surface: real): real
    requires Powered(d)
  {
    Clip(Wanted(d, a, surface))
  }

  function Steps(depth: nat): (n: nat)
    ensures n > 0
  {
    if depth == 0 then 1 else 2 * Steps(depth - 1)
  }

  /** The voltage in units of 1/n, rounded down. */
  function RoundDown(n: real, v: real): real
    requires n > 0.0
  {
    (v * n).Floor as real / n
  }

  function Discretize(depth: Option<nat>, v: real): real {
    match depth
    case None => v
    case Some(b) => RoundDown(Steps(b) as real, v)
  }

  function DiscretizedVoltage(d: Device, a: Actuator, surface: real): real
    requires Powered(d)
  {
    Discretize(d.depth, Voltage(d, a, surface))
  }

  /** The surface a voltage makes. */
  function MadeBy(d: Device, a: Actuator, q: real): real {
    (q * d.maxVolts - a.flat) * a.gain
  }

  function DiscretizedSurface(d: Device, a: Actuator, surface: real): real
    requires Powered(d)
  {
    if d.depth.None? then surface else MadeBy(d, a, DiscretizedVoltage(d, a, surface))
  }

  /** Of all fractions the voltage is the one nearest to what is wanted, and it never falls as that rises. */
  lemma VoltageIsNearest(d: Device, a: Actuator, surface: real, w: real)
    requires Powered(d) && 0.0 <= w <= 1.0
    ensures 0.0 <= Voltage(d, a, surface) <= 1.0
    ensures Abs(Wanted(d, a, surface) - Voltage(d, a, surface)) <= Abs(Wanted(d, a, surface) - w)
  {
  }

  lemma ClipNeverFalls(v: real, w: real)
    requires v <= w
    ensures Clip(v) <= Clip(w)
  {
  }

  /** An actuator whose gain is below 1e-10 stays at its flat-map voltage, whatever surface is asked for. */
  lemma TinyGainStaysFlat(d: Device, a: Actuator, surface: real)
    requires Powered(d) && -0.0000000001 < a.gain < 0.0000000001
    ensures Wanted(d, a, surface) == a.flat / d.maxVolts
  {
    assert surface * 0.0 == 0.0;
  }

  /** For any other gain the wanted voltage is the one that makes the surface. */
  lemma UsableGainMakesSurface(d: Device, a: Actuator, surface: real)
    requires Powered(d) && (a.gain >= 0.0000000001 || a.gain <= -0.0000000001)
    ensures (Wanted(d, a, surface) * d.maxVolts - a.flat) * a.gain == surface
  {
    SurfaceOfWanted(d, a, surface, Wanted(d, a, surface));
  }

  /** Without a converter voltages and surface are those asked for, up to clipping. */
  lemma WithoutConverter(d: Device, a: Actuator, surface: real)
    requires Powered(d) && d.depth == None
    ensures DiscretizedSurface(d, a, surface) == surface && DiscretizedVoltage(d, a, surface) == Voltage(d, a, surface)
  {
  }

  /** The number of converter steps doubles with every bit. */
  lemma {:induction false} StepsAreAPower(a: nat, b: nat)
    ensures Steps(0) == 1 && Steps(1) == 2 && Steps(a + b) == Steps(a) * Steps(b)
    decreases a
  {
    if a == 0 {
      assert Steps(1) == 2 * Steps(0);
    } else {
      StepsAreAPower(a - 1, b);
      assert Steps(a + b) == 2 * Steps(a - 1 + b);
      assert 2 * (Steps(a - 1) * Steps(b)) == 2 * Steps(a - 1) * Steps(b);
    }
  }

  // ----- the converter -----

  predicate OnGrid(n: real, v: real) {
    (v * n).Floor as real == v * n
  }

  lemma Scale(x: real, y: real, n: real)
    requires n > 0.0
    ensures x < y <==> x * n < y * n
  {
    if x < y { assert (y - x) * n > 0.0; }
    if x > y { assert (x - y) * n > 0.0; }
  }

  lemma DivideThenMultiply(x: real, n: real)
    requires n != 0.0
    ensures x / n * n == x
  {
  }

  lemma MultiplyThenDivide(x: real, n: real)
    requires n != 0.0
    ensures x * n / n == x
  {
  }

  lemma DivideIsTimesInverse(x: real, n: real)
    requires n != 0.0
    ensures x / n == x * (1.0 / n)
  {
  }

  lemma Regroup(x: real, y: real, z: real)
    ensures x * y * z == x * (y * z)
  {
  }

  lemma Distribute(x: real, y: real, n: real)
    ensures (x + y) * n == x * n + y * n
    ensures (x - y) * n == x * n - y * n
  {
  }

  lemma StepsOf(n: real, v: real)
    requires n > 0.0
    ensures RoundDown(n, v) * n == (v * n).Floor as real
  {
    DivideThenMultiply((v * n).Floor as real, n);
  }

  /** The converter's value lies on the grid, at most one step below the voltage. */
  lemma WithinOneStep(n: real, v: real)
    requires n > 0.0
    ensures OnGrid(n, RoundDown(n, v))
    ensures RoundDown(n, v) <= v && (v - RoundDown(n, v)) * n < 1.0
  {
    var q := RoundDown(n, v);
    StepsOf(n, v);
    Scale(v, q, n);
    Distribute(v, q, n);
  }

  /** ... and no grid value fits in between: it is the largest one that does not exceed the voltage. */
  lemma LargestGridValueBelow(n: real, v: real, w: real)
    requires n > 0.0 && OnGrid(n, w) && w <= v
    ensures w <= RoundDown(n, v)
  {
    var q := RoundDown(n, v);
    StepsOf(n, v);
    Scale(v, w, n);
    Scale(q, w, n);
    assert (w * n).Floor <= (v * n).Floor;
  }

  lemma DiscretizedIsFraction(depth: Option<nat>, v: real)
    requires 0.0 <= v <= 1.0
    ensures 0.0 <= Discretize(depth, v) <= 1.0
  {
    if depth.Some? {
      var n := Steps(depth.value) as real;
      WithinOneStep(n, v);
      assert OnGrid(n, 0.0);
      LargestGridValueBelow(n, v, 0.0);
    }
  }

  lemma DiscretizingTwice(depth: Option<nat>, v: real)
    ensures Discretize(depth, Discretize(depth, v)) == Discretize(depth, v)
  {
    if depth.Some? {
      var n, q := Steps(depth.value) as real, Discretize(depth, v);
      WithinOneStep(n, v);
      WithinOneStep(n, q);
      LargestGridValueBelow(n, q, q);
    }
  }

  // ----- the mirror -----

  /** Going from a voltage to the surface it makes and back. */
  lemma WantedInverts(d: Device, a: Actuator, v: real)
    requires Powered(d) && Usable(a)
    ensures Wanted(d, a, (v * d.maxVolts - a.flat) * a.gain) == v
  {
    var x := v * d.maxVolts - a.flat;
    DivideIsTimesInverse(x * a.gain, a.gain);
    MultiplyThenDivide(x, a.gain);
    MultiplyThenDivide(v, d.maxVolts);
  }

  lemma SurfaceOfWanted(d: Device, a: Actuator, surface: real, v: real)
    requires Powered(d) && Usable(a) && v == Wanted(d, a, surface)
    ensures surface == (v * d.maxVolts - a.flat) * a.gain
  {
    DivideThenMultiply(a.flat + surface * (1.0 / a.gain), d.maxVolts);
    DivideIsTimesInverse(surface, a.gain);
    DivideThenMultiply(surface, a.gain);
  }

  lemma SameProduct(x: real, y: real, n: real)
    requires x == y
    ensures x * n == y * n
  {
  }

  /** A surface is an affine function of the voltage. */
  lemma SurfaceIsAffine(v: real, max: real, flat: real, gain: real, surface: real, stroke: real, offset: real)
    requires surface == (v * max - flat) * gain && stroke == max * gain && offset == flat * gain
    ensures surface == v * stroke - offset
  {
    Distribute(v * max, flat, gain);
    Regroup(v, max, gain);
  }

  /** Voltages apart by `e` make surfaces apart by `e` strokes. */
  lemma SurfaceDifference(v: real, q: real, e: real, stroke: real, offset: real, wanted: real, made: real)
    requires v == q + e && wanted == v * stroke - offset && made == q * stroke - offset
    ensures wanted - made == e * stroke
  {
    SameProduct(v, q + e, stroke);
    Distribute(q, e, stroke);
  }

  lemma AbsOfProduct(x: real, y: real)
    ensures Abs(x * y) == Abs(x) * Abs(y)
  {
  }

  /** An error of `e` strokes, less than one of `n` steps, is smaller than an n-th of the stroke. */
  lemma BelowOneStep(e: real, n: real, stroke: real, error: real)
    requires 0.0 <= e && e * n < 1.0 && stroke != 0.0 && error == e * stroke
    ensures n * Abs(error) < Abs(stroke)
  {
    AbsOfProduct(e, stroke);
    Scale(e * n, 1.0, Abs(stroke));
    Regroup(n, e, Abs(stroke));
  }

  lemma StepArithmetic(n: real, v: real, q: real, e: real, whole: real)
    requires n > 0.0 && e == v - q && q * n == whole && whole <= v * n < whole + 1.0
    ensures 0.0 <= e && e * n < 1.0
  {
    Distribute(e, q, n);
    SameProduct(e + q, v, n);
    assert e * n == v * n - whole;
    Scale(e, 0.0, n);
  }

  lemma ShortByLessThanAStep(n: real, v: real, q: real) returns (e: real)
    requires n > 0.0 && q == RoundDown(n, v)
    ensures v == q + e && 0.0 <= e && e * n < 1.0
  {
    e := v - q;
    StepsOf(n, v);
    StepArithmetic(n, v, q, e, (v * n).Floor as real);
  }

  lemma ConvertedUnclipped(d: Device, a: Actuator, surface: real, v: real, q: real, n: real)
    requires Powered(d) && d.depth.Some? && 0.0 <= Wanted(d, a, surface) <= 1.0
    requires v == Wanted(d, a, surface) && q == DiscretizedVoltage(d, a, surface)
    requires n == Steps(d.depth.value) as real
    ensures q == RoundDown(n, v)
  {
  }

  lemma MadeIsAffine(d: Device, a: Actuator, q: real, made: real, stroke: real, offset: real)
    requires made == MadeBy(d, a, q) && stroke == d.maxVolts * a.gain && offset == a.flat * a.gain
    ensures made == q * stroke - offset
  {
    SurfaceIsAffine(q, d.maxVolts, a.flat, a.gain, made, stroke, offset);
  }

  lemma WantedIsAffine(d: Device, a: Actuator, surface: real, v: real, stroke: real, offset: real)
    requires Powered(d) && Usable(a) && v == Wanted(d, a, surface)
    requires stroke == d.maxVolts * a.gain && offset == a.flat * a.gain
    ensures surface == v * stroke - offset
  {
    SurfaceOfWanted(d, a, surface, v);
    SurfaceIsAffine(v, d.maxVolts, a.flat, a.gain, surface, stroke, offset);
  }

  /** The voltage an unclipped surface calls for, and what the converter makes of it. */
  lemma RequestAsAffine(d: Device, a: Actuator, surface: real)
    returns (v: real, q: real, made: real, steps: real, stroke: real, offset: real)
    requires Powered(d) && d.depth.Some? && Usable(a) && 0.0 <= Wanted(d, a, surface) <= 1.0
    ensures made == DiscretizedSurface(d, a, surface)
    ensures steps == Steps(d.depth.value) as real && stroke == d.maxVolts * a.gain
    ensures steps > 0.0 && q == RoundDown(steps, v)
    ensures surface == v * stroke - offset && made == q * stroke - offset
  {
    made, steps := DiscretizedSurface(d, a, surface), Steps(d.depth.value) as real;
    stroke, offset := d.maxVolts * a.gain, a.flat * a.gain;
    v, q := Wanted(d, a, surface), DiscretizedVoltage(d, a, surface);
    WantedIsAffine(d, a, surface, v, stroke, offset);
    MadeIsAffine(d, a, q, made, stroke, offset);
    ConvertedUnclipped(d, a, surface, v, q, steps);
  }

  /** An actuator of usable gain makes the surface an unclipped request calls for up to a fraction `e` of
      its stroke (the surface at full voltage), where `e` is not negative and below one converter step. */
  lemma SurfaceError(d: Device, a: Actuator, surface: real)
    returns (e: real, made: real, steps: real, stroke: real)
    requires Powered(d) && d.depth.Some? && Usable(a) && 0.0 <= Wanted(d, a, surface) <= 1.0
    ensures made == DiscretizedSurface(d, a, surface)
    ensures steps == Steps(d.depth.value) as real && stroke == d.maxVolts * a.gain
    ensures 0.0 <= e && e * steps < 1.0 && surface - made == e * stroke
  {
    var v, q, offset;
    v, q, made, steps, stroke, offset := RequestAsAffine(d, a, surface);
    e := ShortByLessThanAStep(steps, v, q);
    SurfaceDifference(v, q, e, stroke, offset, surface, made);
  }

  /** In absolute terms: the error times the number of converter steps stays below the stroke. */
  lemma SurfaceErrorBound(d: Device, a: Actuator, surface: real) returns (made: real, steps: real, stroke: real)
    requires Powered(d) && d.depth.Some? && Usable(a) && 0.0 <= Wanted(d, a, surface) <= 1.0
    ensures made == DiscretizedSurface(d, a, surface)
    ensures steps == Steps(d.depth.value) as real && stroke == d.maxVolts * a.gain
    ensures steps * Abs(surface - made) < Abs(stroke)
  {
    var e;
    e, made, steps, stroke := SurfaceError(d, a, surface);
    StrokeIsNotZero(d.maxVolts, a.gain);
    BelowOneStep(e, steps, stroke, surface - made);
  }

  lemma StrokeIsNotZero(max: real, gain: real)
    requires max > 0.0 && gain != 0.0
    ensures max * gain != 0.0
  {
    if gain > 0.0 { Scale(0.0, gain, max); } else { Scale(gain, 0.0, max); }
  }

  /** A voltage the converter can produce comes back when the surface it makes is requested. */
  lemma ConverterValueComesBack(d: Device, a: Actuator, q: real, made: real)
    requires Powered(d) && Usable(a) && 0.0 <= q <= 1.0 && Discretize(d.depth, q) == q
    requires made == (q * d.maxVolts - a.flat) * a.gain
    ensures DiscretizedVoltage(d, a, made) == q
  {
    WantedInverts(d, a, q);
  }

  lemma UnusableIgnoresSurface(d: Device, a: Actuator, s: real, t: real)
    requires Powered(d) && !Usable(a)
    ensures DiscretizedVoltage(d, a, s) == DiscretizedVoltage(d, a, t)
  {
    assert s * 0.0 == 0.0 && t * 0.0 == 0.0;
  }

  lemma UsableVoltageComesBack(d: Device, a: Actuator, v: real, q: real, made: real)
    requires Powered(d) && Usable(a) && 0.0 <= v <= 1.0 && q == Discretize(d.depth, v)
    requires made == (q * d.maxVolts - a.flat) * a.gain
    ensures DiscretizedVoltage(d, a, made) == q
  {
    DiscretizedIsFraction(d.depth, v);
    DiscretizingTwice(d.depth, v);
    ConverterValueComesBack(d, a, q, made);
  }

  lemma VoltagesComeBack(d: Device, a: Actuator, surface: real, again: real)
    requires Powered(d) && d.depth.Some? && again == DiscretizedSurface(d, a, surface)
    ensures DiscretizedVoltage(d, a, again) == DiscretizedVoltage(d, a, surface)
  {
    if Usable(a) {
      UsableVoltageComesBack(d, a, Voltage(d, a, surface), DiscretizedVoltage(d, a, surface), again);
    } else {
      UnusableIgnoresSurface(d, a, surface, again);
    }
  }

  /** Sending the discretized surface again reproduces voltages and surface, for every actuator, usable
      or not, clipped or not, with or without a converter. */
  lemma ResendingChangesNothing(d: Device, a: Actuator, surface: real, again: real)
    requires Powered(d) && again == DiscretizedSurface(d, a, surface)
    ensures DiscretizedVoltage(d, a, again) == DiscretizedVoltage(d, a, surface)
    ensures DiscretizedSurface(d, a, again) == again
  {
    if d.depth.Some? { VoltagesComeBack(d, a, surface, again); }
  }

  // ----- the service with its cached arrays -----

  function VoltagesOf(d: Device, surface: seq<real>): (r: seq<real>)
    requires Powered(d) && |surface| == |d.actuators|
  {
    seq(|surface|, i requires 0 <= i < |surface| => Voltage(d, d.actuators[i], surface[i]))
  }

  function DiscretizedVoltagesOf(d: Device, surface: seq<real>): (r: seq<real>)
    requires Powered(d) && |surface| == |d.actuators|
  {
    seq(|surface|, i requires 0 <= i < |surface| => DiscretizedVoltage(d, d.actuators[i], surface[i]))
  }

  function DiscretizedSurfaceOf(d: Device, surface: seq<real>): (r: seq<real>)
    requires Powered(d) && |surface| == |d.actuators|
  {
    seq(|surface|, i requires 0 <= i < |surface| => DiscretizedSurface(d, d.actuators[i], surface[i]))
  }

  /** What sending a surface promises about what is published. */
  lemma SentSurface(d: Device, s: seq<real>)
    requires Powered(d) && |s| == |d.actuators|
    ensures var made, volts := DiscretizedSurfaceOf(d, s), DiscretizedVoltagesOf(d, s);
            && |made| == |volts| == |s|
            && (forall i | 0 <= i < |s| :: 0.0 <= volts[i] <= 1.0)
            && DiscretizedVoltagesOf(d, made) == volts && DiscretizedSurfaceOf(d, made) == made
  {
    forall i | 0 <= i < |s|
      ensures 0.0 <= DiscretizedVoltagesOf(d, s)[i] <= 1.0
      ensures DiscretizedVoltagesOf(d, DiscretizedSurfaceOf(d, s))[i] == DiscretizedVoltagesOf(d, s)[i]
      ensures DiscretizedSurfaceOf(d, DiscretizedSurfaceOf(d, s))[i] == DiscretizedSurfaceOf(d, s)[i]
    {
      DiscretizedIsFraction(d.depth, Voltage(d, d.actuators[i], s[i]));
      ResendingChangesNothing(d, d.actuators[i], s[i], DiscretizedSurfaceOf(d, s)[i]);
    }
  }

  class DeformableMirror {
    const device: Device
    var surface: Option<seq<real>>
    var voltages: Option<seq<real>>
    var discretizedVoltages: Option<seq<real>>
    var discretizedSurface: Option<seq<real>>

    /** Whatever is cached equals what would be computed afresh from the current surface. */
    ghost predicate Valid()
      reads this
    {
      && Powered(device)
      && (surface.Some? ==> |surface.value| == |device.actuators|)
      && (surface.None? ==> voltages.None? && discretizedVoltages.None? && discretizedSurface.None?)
      && (voltages.Some? ==> voltages.value == VoltagesOf(device, surface.value))
      && (discretizedVoltages.Some? ==> discretizedVoltages.value == DiscretizedVoltagesOf(device, surface.value))
      && (discretizedSurface.Some? ==> discretizedSurface.value == DiscretizedSurfaceOf(device, surface.value))
    }

    constructor (d: Device)
      requires Powered(d)
      ensures Valid() && device == d && surface == None
    {
      device := d;
      surface, voltages, discretizedVoltages, discretizedSurface := None, None, None, None;
    }

    method SetSurface(s: seq<real>)
      requires Valid() && |s| == |device.actuators|
      modifies this
      ensures Valid() && surface == Some(s)
    {
      surface := Some(s);
      voltages := None;
      discretizedSurface := None;
      discretizedVoltages := None;
    }

    method Voltages() returns (r: seq<real>)
      requires Valid() && surface.Some?
      modifies this
      ensures Valid() && surface == old(surface)
      ensures r == VoltagesOf(device, surface.value)
      ensures |r| == |surface.value|
      ensures forall i | 0 <= i < |r| :: r[i] == Voltage(device, device.actuators[i], surface.value[i])
    {
      if voltages.None? {
        voltages := Some(VoltagesOf(device, surface.value));
      }
      return voltages.value;
    }

    method DiscretizedVoltages() returns (r: seq<real>)
      requires Valid() && surface.Some?
      modifies this
      ensures Valid() && surface == old(surface)
      ensures r == DiscretizedVoltagesOf(device, surface.value)
      ensures |r| == |surface.value|
      ensures forall i | 0 <= i < |r| :: r[i] == DiscretizedVoltage(device, device.actuators[i], surface.value[i])
    {
      if discretizedVoltages.None? {
        var v := Voltages();
        var r' := v;
        if device.depth.Some? {
          r' := seq(|v|, i requires 0 <= i < |v| => Discretize(device.depth, v[i]));
        }
        assert r' == DiscretizedVoltagesOf(device, surface.value);
        discretizedVoltages := Some(r');
      }
      return discretizedVoltages.value;
    }

    method DiscretizedSurfaces() returns (r: seq<real>)
      requires Valid() && surface.Some?
      modifies this
      ensures Valid() && surface == old(surface)
      ensures r == DiscretizedSurfaceOf(device, surface.value)
      ensures |r| == |surface.value|
      ensures forall i | 0 <= i < |r| :: r[i] == DiscretizedSurface(device, device.actuators[i], surface.value[i])
    {
      if discretizedSurface.None? {
        var r' := surface.value;
        if device.depth.Some? {
          var v := DiscretizedVoltages();
          r' := seq(|v|, i requires 0 <= i < |v| => MadeBy(device, device.actuators[i], v[i]));
        }
        forall i | 0 <= i < |r'| ensures r'[i] == DiscretizedSurfaceOf(device, surface.value)[i] { }
        discretizedSurface := Some(r');
      }
      return discretizedSurface.value;
    }

    /** What is published after sending a surface: fractions of the maximum voltage, and the surface they
        make; sending that surface again would publish the same. */
    method SendSurface(s: seq<real>) returns (made: seq<real>, volts: seq<real>)
      requires Valid() && |s| == |device.actuators|
      modifies this
      ensures Valid() && surface == Some(s) && |made| == |volts| == |s|
      ensures made == DiscretizedSurfaceOf(device, s) && volts == DiscretizedVoltagesOf(device, s)
      ensures forall i | 0 <= i < |s| :: 0.0 <= volts[i] <= 1.0
      ensures DiscretizedVoltagesOf(device, made) == volts && DiscretizedSurfaceOf(device, made) == made
    {
      SetSurface(s);
      made := DiscretizedSurfaces();
      volts := DiscretizedVoltages();
      SentSurface(device, s);
    }
  }
}
