/** Throttling severity with hysteresis (hidl/thermal/thermal-helper.cpp). Temperatures are reals;
    a level that is not configured (NaN in the configuration) is `None`. */
module ThermalSeverity {
  import opened Wrappers

  /** NONE, LIGHT, MODERATE, SEVERE, CRITICAL, EMERGENCY, SHUTDOWN. */
  const NONE := 0
  const SHUTDOWN := 6

  type Severity = i: int | NONE <= i <= SHUTDOWN

  /** One side of a sensor's configuration: per level a trip point and a hysteresis. */
  datatype Band = Band(trip: seq<Option<real>>, hysteresis: seq<real>) {

    predicate Valid() {
      |trip| == SHUTDOWN + 1 && |hysteresis| == SHUTDOWN + 1
    }

    predicate Configured(l: int)
      requires Valid()
    {
      NONE < l <= SHUTDOWN && trip[l].Some?
    }

    function Trip(l: int): real
      requires Valid() && Configured(l)
    {
      trip[l].value
    }

    function Release(l: int): real
      requires Valid() && Configured(l)
    {
      trip[l].value - hysteresis[l]
    }

    /** The reading has reached the trip point of level `l`. */
    predicate Trips(l: int, v: real)
      requires Valid()
    {
      Configured(l) && Trip(l) <= v
    }

    /** The reading is above the release point of level `l`. */
    predicate Holds(l: int, v: real)
      requires Valid()
    {
      Configured(l) && Release(l) < v
    }

    /** What the parser checks for the hot side: trip points do not decrease. */
    ghost predicate Ordered()
      requires Valid()
    {
      forall i, j :: Configured(i) && Configured(j) && i < j ==> Trip(i) <= Trip(j)
    }

    /** Each level is left no later than the next lower one is entered. */
    ghost predicate Separated()
      requires Valid()
    {
      forall i, j :: Configured(i) && Configured(j) && i < j ==> Trip(i) <= Release(j)
    }

    /** Level `l` is tripped before all configured levels above it, and there is one. */
    ghost predicate TripsFirst(l: int)
      requires Valid()
    {
      && Configured(l) && (exists j :: l < j && Configured(j))
      && forall j :: l < j && Configured(j) ==> Trip(l) < Trip(j)
    }

    /** Every such level has some hysteresis. */
    ghost predicate Dampened()
      requires Valid()
    {
      forall l :: TripsFirst(l) ==> hysteresis[l] > 0.0
    }

    /** The same band seen from below: the cold side of a sensor compares the other way around. */
    function Mirrored(): (b: Band)
      requires Valid()
      ensures b.Valid()
    {
      Band(seq(SHUTDOWN + 1, l requires 0 <= l <= SHUTDOWN =>
             match trip[l] case None => None case Some(t) => Some(-t)), hysteresis)
    }
  }

  function HighestTripped(b: Band, v: real, from: Severity): (r: Severity)
    requires b.Valid()
    ensures r <= from && (r > NONE ==> b.Trips(r, v))
    ensures forall l :: r < l <= from ==> !b.Trips(l, v)
  {
    if from == NONE then NONE else if b.Trips(from, v) then from else HighestTripped(b, v, from - 1)
  }

  function HighestHeld(b: Band, v: real, from: Severity): (r: Severity)
    requires b.Valid()
    ensures r <= from && (r > NONE ==> b.Holds(r, v))
    ensures forall l :: r < l <= from ==> !b.Holds(l, v)
  {
    if from == NONE then NONE else if b.Holds(from, v) then from else HighestHeld(b, v, from - 1)
  }

  /** The next severity on the hot side: the highest level tripped, unless that would be a
      decrease; then the highest level still held. */
  function Next(b: Band, prev: Severity, v: real): (r: Severity)
    requires b.Valid()
  {
    var tripped := HighestTripped(b, v, SHUTDOWN);
    if tripped < prev then HighestHeld(b, v, SHUTDOWN) else tripped
  }

  /** What the mirrored band means for the cold side: a level trips at or below its trip point and
      is held until the reading has risen by the hysteresis. */
  lemma MirroredReadsColdSide(cold: Band, l: int, v: real)
    requires cold.Valid() && cold.Configured(l)
    ensures cold.Mirrored().Trips(l, -v) <==> v <= cold.Trip(l)
    ensures cold.Mirrored().Holds(l, -v) <==> v < cold.Trip(l) + cold.hysteresis[l]
  {
  }

  /** The code's loop, from SHUTDOWN down to LIGHT, for both sides at once. */
  method GetSeverityFromThresholds(hot: Band, cold: Band, prevHot: Severity, prevCold: Severity, value: real)
    returns (retHot: Severity, retCold: Severity)
    requires hot.Valid() && cold.Valid()
    ensures retHot == Next(hot, prevHot, value)
    ensures retCold == Next(cold.Mirrored(), prevCold, -value)
  {
    var mirrored := cold.Mirrored();
    retHot, retCold := NONE, NONE;
    var retHotHysteresis: Severity, retColdHysteresis: Severity := NONE, NONE;
    var i: int := SHUTDOWN;
    while i > NONE
      invariant NONE <= i <= SHUTDOWN
      invariant HighestTripped(hot, value, SHUTDOWN) == if retHot != NONE then retHot else HighestTripped(hot, value, i)
      invariant HighestHeld(hot, value, SHUTDOWN) ==
                if retHotHysteresis != NONE then retHotHysteresis else HighestHeld(hot, value, i)
      invariant HighestTripped(mirrored, -value, SHUTDOWN) ==
                if retCold != NONE then retCold else HighestTripped(mirrored, -value, i)
      invariant HighestHeld(mirrored, -value, SHUTDOWN) ==
                if retColdHysteresis != NONE then retColdHysteresis else HighestHeld(mirrored, -value, i)
    {
      if hot.trip[i].Some? && hot.trip[i].value <= value && retHot == NONE {
        retHot := i;
      }
      if hot.trip[i].Some? && hot.trip[i].value - hot.hysteresis[i] < value && retHotHysteresis == NONE {
        retHotHysteresis := i;
      }
      if cold.trip[i].Some? && cold.trip[i].value >= value && retCold == NONE {
        retCold := i;
      }
      if cold.trip[i].Some? && cold.trip[i].value + cold.hysteresis[i] > value && retColdHysteresis == NONE {
        retColdHysteresis := i;
      }
      i := i - 1;
    }
    if retHot < prevHot {
      retHot := retHotHysteresis;
    }
    if retCold < prevCold {
      retCold := retColdHysteresis;
    }
  }

  /** A severity that can occur: NONE or a configured level. */
  predicate Possible(b: Band, s: Severity)
    requires b.Valid()
  {
    s == NONE || b.Configured(s)
  }

  lemma NextIsPossible(b: Band, prev: Severity, v: real)
    requires b.Valid()
    ensures Possible(b, Next(b, prev, v))
  {
  }

  // ---- Sequences of readings ----

  /** The severities along a sequence of readings, starting from NONE. */
  function After(b: Band, readings: seq<real>): (r: Severity)
    requires b.Valid()
    ensures Possible(b, r)
  {
    if readings == [] then NONE
    else
      NextIsPossible(b, After(b, readings[..|readings| - 1]), readings[|readings| - 1]);
      Next(b, After(b, readings[..|readings| - 1]), readings[|readings| - 1])
  }

  lemma AfterSnoc(b: Band, readings: seq<real>, v: real)
    requires b.Valid()
    ensures After(b, readings + [v]) == Next(b, After(b, readings), v)
  {
    assert (readings + [v])[..|readings|] == readings;
  }

  lemma AfterOne(b: Band, v: real)
    requires b.Valid()
    ensures After(b, [v]) == HighestTripped(b, v, SHUTDOWN)
  {
    assert [v][..0] == [];
  }

  /** Level `l` has the highest trip point reached by some reading, or the highest release point
      exceeded by some reading that does not reach all trip points. */
  ghost predicate Entered(b: Band, l: int)
    requires b.Valid()
  {
    && b.Configured(l)
    && (|| (forall j :: l < j && b.Configured(j) ==> b.Trip(l) < b.Trip(j))
        || (&& (forall j :: l < j && b.Configured(j) ==> b.Release(l) < b.Release(j))
            && exists j :: b.Configured(j) && b.Release(l) < b.Trip(j)))
  }

  function Top(b: Band, from: Severity): (r: Severity)
    requires b.Valid()
    ensures r <= from && (r > NONE ==> b.Configured(r))
    ensures forall l :: r < l <= from ==> !b.Configured(l)
  {
    if from == NONE || b.Configured(from) then from else Top(b, from - 1)
  }

  /** A reading above the release point of level `l` and not above those of the levels up to `k`. */
  lemma {:induction false} RoomAbove(b: Band, l: Severity, k: Severity, limit: real) returns (v: real)
    requires b.Valid() && b.Configured(l) && l <= k && b.Release(l) < limit
    requires forall j :: l < j <= k && b.Configured(j) ==> b.Release(l) < b.Release(j)
    ensures b.Release(l) < v < limit && forall j :: l < j <= k && b.Configured(j) ==> v <= b.Release(j)
  {
    if k == l {
      v := (b.Release(l) + limit) / 2.0;
    } else if b.Configured(k) && b.Release(k) < limit {
      v := RoomAbove(b, l, k - 1, b.Release(k));
    } else {
      v := RoomAbove(b, l, k - 1, limit);
    }
  }

  /** The highest level can be entered at its trip point, and any other one from there. */
  lemma ReachesTop(b: Band) returns (top: Severity)
    requires b.Valid() && exists l :: b.Configured(l)
    ensures b.Configured(top) && forall l :: top < l ==> !b.Configured(l)
    ensures After(b, [b.Trip(top)]) == top
  {
    top := Top(b, SHUTDOWN);
    AfterOne(b, b.Trip(top));
    assert b.Trips(top, b.Trip(top));
  }

  lemma ReachesEntered(b: Band, l: Severity) returns (readings: seq<real>)
    requires b.Valid() && b.Ordered() && Entered(b, l)
    ensures After(b, readings) == l
  {
    if forall j :: l < j && b.Configured(j) ==> b.Trip(l) < b.Trip(j) {
      readings := [b.Trip(l)];
      AfterOne(b, b.Trip(l));
      assert b.Trips(l, b.Trip(l));
    } else {
      var top := ReachesTop(b);
      var v := RoomAbove(b, l, SHUTDOWN, b.Trip(top));
      readings := [b.Trip(top)] + [v];
      AfterSnoc(b, [b.Trip(top)], v);
      assert !b.Trips(top, v) && b.Holds(l, v);
    }
  }

  /** The severities that occur are NONE and the levels entered. A level that trips and is released
      together with a higher one never shows. */
  lemma OccursIffEntered(b: Band, l: Severity)
    requires b.Valid() && b.Ordered()
    ensures (exists readings :: After(b, readings) == l) <==> l == NONE || Entered(b, l)
  {
    if l == NONE {
      assert After(b, []) == NONE;
    } else if Entered(b, l) {
      var readings := ReachesEntered(b, l);
    }
    if readings :| After(b, readings) == l {
      AfterIsEntered(b, readings);
    }
  }

  lemma AfterIsEntered(b: Band, readings: seq<real>)
    requires b.Valid()
    ensures After(b, readings) == NONE || Entered(b, After(b, readings))
  {
    if readings != [] {
      NextIsEntered(b, After(b, readings[..|readings| - 1]), readings[|readings| - 1]);
    }
  }

  lemma NextIsEntered(b: Band, prev: Severity, v: real)
    requires b.Valid() && Possible(b, prev)
    ensures Next(b, prev, v) == NONE || Entered(b, Next(b, prev, v))
  {
    var t, h := HighestTripped(b, v, SHUTDOWN), HighestHeld(b, v, SHUTDOWN);
    if t >= prev {
      forall j | t < j && b.Configured(j) ensures t > NONE ==> b.Trip(t) < b.Trip(j) {
        assert !b.Trips(j, v);
      }
    } else if h > NONE {
      assert !b.Trips(prev, v) && b.Holds(h, v);
      forall j | h < j && b.Configured(j) ensures b.Release(h) < b.Release(j) {
        assert !b.Holds(j, v);
      }
    }
  }

  // ---- One reading ----

  /** Leaving a level, or any configured level up to it, takes a reading at or below its release point. */
  lemma FallsOnlyBelowRelease(b: Band, prev: Severity, v: real, l: int)
    requires b.Valid() && b.Configured(l) && l <= prev && Next(b, prev, v) < l
    ensures v <= b.Release(l)
  {
    assert !b.Holds(l, v);
  }

  /** A level whose trip point is reached is entered or kept - but not always: when severity falls, a
      reading that is not above its release point leaves it, unless a level above it is held. */
  lemma ReachedIsKeptIff(b: Band, prev: Severity, v: real, l: int)
    requires b.Valid() && b.Trips(l, v)
    ensures Next(b, prev, v) >= l <==>
            || prev <= l || (exists j :: prev <= j && b.Trips(j, v))
            || exists j :: l <= j && b.Holds(j, v)
  {
    var t, h := HighestTripped(b, v, SHUTDOWN), HighestHeld(b, v, SHUTDOWN);
    assert l <= t;
    if h >= l {
      assert b.Holds(h, v);
    }
    if t >= prev > NONE {
      assert b.Trips(t, v);
    }
  }

  /** The level entered or kept has its trip point reached or its release point exceeded. */
  lemma NextIsReached(b: Band, prev: Severity, v: real)
    requires b.Valid() && Next(b, prev, v) != NONE
    ensures b.Trips(Next(b, prev, v), v) || b.Holds(Next(b, prev, v), v)
  {
  }

  /** Whatever has been read, severity rises only to a level whose trip point is reached. */
  ghost predicate RisesOnlyOnTrip(b: Band)
    requires b.Valid()
  {
    forall readings, v: real :: Rises(b, readings, v) ==> b.Trips(Next(b, After(b, readings), v), v)
  }

  predicate Rises(b: Band, readings: seq<real>, v: real)
    requires b.Valid()
  {
    Next(b, After(b, readings), v) > After(b, readings)
  }

  /** Every level that occurs is entered no later than any level above it is left. */
  ghost predicate EnteredAreSeparated(b: Band)
    requires b.Valid()
  {
    forall i, j :: Entered(b, i) && b.Configured(j) && i < j ==> b.Trip(i) <= b.Release(j)
  }

  lemma HeldIsNotAbove(b: Band, prev: Severity, v: real)
    requires b.Valid() && EnteredAreSeparated(b) && Entered(b, prev) && HighestTripped(b, v, SHUTDOWN) < prev
    ensures HighestHeld(b, v, SHUTDOWN) <= prev
  {
    assert !b.Trips(prev, v);
    forall l | prev < l && b.Configured(l) ensures !b.Holds(l, v) {
      assert b.Trip(prev) <= b.Release(l);
    }
  }

  /** When level j is left below the trip point of a lower level i that occurs, a reading between the
      two takes a sensor from level i up to j or more, although no trip point there is reached. */
  lemma RiseWithoutTrip(b: Band, i: Severity, j: Severity) returns (readings: seq<real>, v: real)
    requires b.Valid() && b.Ordered() && Entered(b, i) && b.Configured(j) && i < j
    requires b.Release(j) < b.Trip(i)
    ensures After(b, readings) == i && Next(b, i, v) >= j && !b.Trips(Next(b, i, v), v)
  {
    readings := ReachesEntered(b, i);
    v := (b.Release(j) + b.Trip(i)) / 2.0;
    assert b.Holds(j, v);
    forall l | i <= l <= SHUTDOWN ensures !b.Trips(l, v) {
      if b.Configured(l) && l > i {
        assert b.Trip(i) <= b.Trip(l);
      }
    }
  }

  /** Severity rises only to a level whose trip point was reached - exactly when the levels that occur
      are separated from those above them. The parser checks only that trip points are ordered. */
  lemma RisesOnlyOnTripIffSeparated(b: Band)
    requires b.Valid() && b.Ordered()
    ensures RisesOnlyOnTrip(b) <==> EnteredAreSeparated(b)
  {
    if EnteredAreSeparated(b) {
      forall readings, v: real | Rises(b, readings, v) ensures b.Trips(Next(b, After(b, readings), v), v) {
        AfterIsEntered(b, readings);
        if HighestTripped(b, v, SHUTDOWN) < After(b, readings) {
          HeldIsNotAbove(b, After(b, readings), v);
        }
      }
    }
    if RisesOnlyOnTrip(b) {
      forall i, j | Entered(b, i) && b.Configured(j) && i < j ensures b.Trip(i) <= b.Release(j) {
        if b.Release(j) < b.Trip(i) {
          var readings, v := RiseWithoutTrip(b, i, j);
          assert Rises(b, readings, v);
        }
      }
    }
  }

  /** Two levels that trip together, the upper one with more hysteresis. */
  function Together(): (b: Band)
    ensures b.Valid() && forall l :: b.Configured(l) <==> l == 1 || l == 2
    ensures b.Trip(1) == b.Trip(2) == 40.0 && b.Release(1) == 38.0 && b.Release(2) == 35.0
  {
    Band([None, Some(40.0), Some(40.0), None, None, None, None], [0.0, 2.0, 5.0, 0.0, 0.0, 0.0, 0.0])
  }

  /** They are not separated, but the lower one never occurs, and so severity rises on trip points only. */
  lemma TogetherIsHarmless()
    ensures Together().Ordered() && !Together().Separated()
    ensures !Entered(Together(), 1) && RisesOnlyOnTrip(Together())
  {
    var b := Together();
    assert b.Configured(1) && b.Configured(2) && b.Ordered();
    assert !Entered(b, 1);
    RisesOnlyOnTripIffSeparated(b);
  }

  ghost predicate Stable(b: Band)
    requires b.Valid()
  {
    forall prev: Severity, v: real :: Possible(b, prev) ==> Next(b, Next(b, prev, v), v) == Next(b, prev, v)
  }

  /** The level left behind by a reading trips before all levels above it. */
  lemma TrippedComesFirst(b: Band, prev: Severity, v: real)
    requires b.Valid() && Possible(b, prev) && NONE < HighestTripped(b, v, SHUTDOWN) < prev
    ensures b.TripsFirst(HighestTripped(b, v, SHUTDOWN))
  {
    var t := HighestTripped(b, v, SHUTDOWN);
    forall j | t < j && b.Configured(j) ensures b.Trip(t) < b.Trip(j) {
      assert !b.Trips(j, v);
    }
    assert b.Configured(prev);
  }

  /** If it is held at its trip point, it, or a higher level, is still held. */
  lemma TrippedIsStillHeld(b: Band, prev: Severity, v: real)
    requires b.Valid() && AllHeldAtTrip(b) && Possible(b, prev) && NONE < HighestTripped(b, v, SHUTDOWN) < prev
    ensures HighestHeld(b, v, SHUTDOWN) >= HighestTripped(b, v, SHUTDOWN)
  {
    var t := HighestTripped(b, v, SHUTDOWN);
    TrippedComesFirst(b, prev, v);
    var j :| t <= j && b.Configured(j) && b.Release(j) < b.Trip(t);
    assert b.Holds(j, v);
  }

  /** With hysteresis it is itself still held. */
  lemma TrippedIsHeld(b: Band, prev: Severity, v: real)
    requires b.Valid() && b.Dampened() && Possible(b, prev) && NONE < HighestTripped(b, v, SHUTDOWN) < prev
    ensures b.Holds(HighestTripped(b, v, SHUTDOWN), v)
  {
    TrippedComesFirst(b, prev, v);
  }

  lemma FlipsBack(b: Band, i: Severity, j: Severity)
    requires b.Valid() && b.Separated() && b.Configured(i) && b.Configured(j) && i < j
    requires b.TripsFirst(i) && b.hysteresis[i] <= 0.0
    ensures Next(b, j, b.Trip(i)) < i == Next(b, Next(b, j, b.Trip(i)), b.Trip(i))
  {
    var v := b.Trip(i);
    assert b.Trips(i, v) && !b.Holds(i, v);
    forall l | i < l <= SHUTDOWN ensures !b.Trips(l, v) && !b.Holds(l, v) {
      if b.Configured(l) {
        assert b.Trip(i) < b.Trip(l) && b.Trip(i) <= b.Release(l);
      }
    }
  }

  /** Some level from `l` on is left only below the trip point of `l`. */
  ghost predicate HeldAtTrip(b: Band, l: int)
    requires b.Valid() && b.Configured(l)
  {
    exists j :: l <= j && b.Configured(j) && b.Release(j) < b.Trip(l)
  }

  ghost predicate AllHeldAtTrip(b: Band)
    requires b.Valid()
  {
    forall l :: b.TripsFirst(l) ==> HeldAtTrip(b, l)
  }

  /** A level that trips first and is not held at its trip point: there the severity flips for ever. */
  lemma FlipsForEver(b: Band, l: int, prev: Severity)
    requires b.Valid() && b.TripsFirst(l) && !HeldAtTrip(b, l) && l < prev && b.Configured(prev)
    ensures Next(b, prev, b.Trip(l)) < l == Next(b, Next(b, prev, b.Trip(l)), b.Trip(l))
  {
    var v := b.Trip(l);
    assert b.Trips(l, v);
    forall j | l < j <= SHUTDOWN ensures !b.Trips(j, v) {
      if b.Configured(j) {
        assert b.Trip(l) < b.Trip(j);
      }
    }
    forall j | l <= j <= SHUTDOWN ensures !b.Holds(j, v) {
    }
  }

  /** For any band at all: repeating a reading changes nothing exactly when every level that trips
      before the levels above it is held at its trip point, by itself or by one of them. */
  lemma StableIffHeldAtTrip(b: Band)
    requires b.Valid()
    ensures Stable(b) <==> AllHeldAtTrip(b)
  {
    if AllHeldAtTrip(b) {
      forall prev: Severity, v: real | Possible(b, prev)
        ensures Next(b, Next(b, prev, v), v) == Next(b, prev, v)
      {
        if NONE < HighestTripped(b, v, SHUTDOWN) < prev {
          TrippedIsStillHeld(b, prev, v);
        }
      }
    }
    if Stable(b) {
      forall l | b.TripsFirst(l) ensures HeldAtTrip(b, l) {
        var prev: Severity :| l < prev && b.Configured(prev);
        if !HeldAtTrip(b, l) {
          FlipsForEver(b, l, prev);
        }
      }
    }
  }

  /** With separated bands that means: exactly when every such level has hysteresis. With none, a
      reading on its trip point flips back. */
  lemma StableIffDampened(b: Band)
    requires b.Valid() && b.Separated()
    ensures Stable(b) <==> b.Dampened()
  {
    StableIffHeldAtTrip(b);
    forall l | b.TripsFirst(l) ensures HeldAtTrip(b, l) <==> b.hysteresis[l] > 0.0 {
      if b.hysteresis[l] > 0.0 {
        assert b.Release(l) < b.Trip(l);
      }
    }
  }

  /** A hotter reading from a higher severity never ends lower. */
  lemma NextIsMonotone(b: Band, p: Severity, p': Severity, v: real, v': real)
    requires b.Valid() && b.Separated() && b.Dampened()
    requires Possible(b, p) && Possible(b, p') && p <= p' && v <= v'
    ensures Next(b, p, v) <= Next(b, p', v')
  {
    var t, t' := HighestTripped(b, v, SHUTDOWN), HighestTripped(b, v', SHUTDOWN);
    var h, h' := HighestHeld(b, v, SHUTDOWN), HighestHeld(b, v', SHUTDOWN);
    assert t <= t' by {
      if t > NONE {
        assert b.Trips(t, v');
      }
    }
    assert h <= h' by {
      if h > NONE {
        assert b.Holds(h, v');
      }
    }
    if t >= p && t' < p' && t' > NONE {
      TrippedIsHeld(b, p', v');
    }
    if t < p && t' >= p' && h > p {
      assert b.Trip(p) <= b.Release(h);
      assert b.Trips(p, v);
    }
  }

  // ---- A bank of triggers ----

  /** The textbook trigger of one level on its own: set at the trip point, reset at the release
      point, otherwise unchanged. */
  function Latched(b: Band, l: int, readings: seq<real>): (r: bool)
    requires b.Valid() && b.Configured(l)
  {
    if readings == [] then false
    else
      var v := readings[|readings| - 1];
      if b.Trips(l, v) then true
      else if !b.Holds(l, v) then false
      else Latched(b, l, readings[..|readings| - 1])
  }

  /** The single remembered severity does the work of a bank of independent triggers: a level's
      trigger is set exactly when the level is configured and not above the severity. So the
      severity is the highest level whose trigger is set. */
  ghost predicate IsTriggerBank(b: Band)
    requires b.Valid()
  {
    forall readings, l :: b.Configured(l) ==> (Latched(b, l, readings) <==> l <= After(b, readings))
  }

  /** No trigger is reset while one of a higher level stays set. */
  ghost predicate Nested(b: Band)
    requires b.Valid()
  {
    forall i, j :: b.Configured(i) && b.Configured(j) && i < j ==>
      b.Trip(i) <= b.Release(j) || b.Release(i) <= b.Release(j)
  }

  lemma LatchedSnoc(b: Band, l: int, readings: seq<real>, v: real)
    requires b.Valid() && b.Configured(l)
    ensures Latched(b, l, readings + [v]) <==> b.Trips(l, v) || (b.Holds(l, v) && Latched(b, l, readings))
  {
    assert (readings + [v])[..|readings|] == readings;
  }

  /** The next state of the trigger of level `l`, if it is set up to level `prev`. */
  predicate Latches(b: Band, l: int, prev: Severity, v: real)
    requires b.Valid()
  {
    b.Trips(l, v) || (b.Holds(l, v) && l <= prev)
  }

  lemma LatchesWhenTripped(b: Band, l: int, prev: Severity, v: real)
    requires b.Valid() && b.Ordered() && b.Configured(l) && prev <= HighestTripped(b, v, SHUTDOWN)
    ensures Latches(b, l, prev, v) <==> l <= Next(b, prev, v)
  {
    var t := HighestTripped(b, v, SHUTDOWN);
    if l <= t {
      assert b.Trip(l) <= b.Trip(t);
    }
  }

  lemma LatchesWhenHeld(b: Band, l: int, prev: Severity, v: real)
    requires b.Valid() && b.Ordered() && Nested(b) && b.Configured(l) && HighestTripped(b, v, SHUTDOWN) < prev
    requires HighestTripped(b, v, SHUTDOWN) <= HighestHeld(b, v, SHUTDOWN) <= prev
    ensures Latches(b, l, prev, v) <==> l <= Next(b, prev, v)
  {
    var t, h := HighestTripped(b, v, SHUTDOWN), HighestHeld(b, v, SHUTDOWN);
    if l <= t {
      assert b.Trip(l) <= b.Trip(t);
    } else if l < h {
      assert b.Trip(l) <= b.Release(h) || b.Release(l) <= b.Release(h);
    }
  }

  /** One reading more, if the triggers have agreed so far. */
  lemma BankStep(b: Band, readings: seq<real>, v: real, l: int)
    requires b.Valid() && b.Ordered() && Nested(b) && EnteredAreSeparated(b) && AllHeldAtTrip(b)
    requires b.Configured(l) && (Latched(b, l, readings) <==> l <= After(b, readings))
    ensures Latched(b, l, readings + [v]) <==> l <= After(b, readings + [v])
  {
    var prev, t := After(b, readings), HighestTripped(b, v, SHUTDOWN);
    LatchedSnoc(b, l, readings, v);
    AfterSnoc(b, readings, v);
    if prev <= t {
      LatchesWhenTripped(b, l, prev, v);
    } else {
      AfterIsEntered(b, readings);
      HeldIsNotAbove(b, prev, v);
      if NONE < t {
        TrippedIsStillHeld(b, prev, v);
      }
      LatchesWhenHeld(b, l, prev, v);
    }
  }

  lemma {:induction false} ConditionsGiveBank(b: Band, readings: seq<real>, l: int)
    requires b.Valid() && b.Ordered() && Nested(b) && EnteredAreSeparated(b) && AllHeldAtTrip(b) && b.Configured(l)
    ensures Latched(b, l, readings) <==> l <= After(b, readings)
  {
    if readings != [] {
      var init, v := readings[..|readings| - 1], readings[|readings| - 1];
      ConditionsGiveBank(b, init, l);
      assert init + [v] == readings;
      BankStep(b, init, v, l);
    }
  }

  ghost predicate BankFails(b: Band, readings: seq<real>, l: int)
    requires b.Valid()
  {
    b.Configured(l) && !(Latched(b, l, readings) <==> l <= After(b, readings))
  }

  /** From the highest level, a reading between the release points of two levels that are not nested
      resets the lower trigger only. */
  lemma NotNestedFails(b: Band, i: Severity, j: Severity) returns (readings: seq<real>, l: Severity)
    requires b.Valid() && b.Ordered() && b.Configured(i) && b.Configured(j) && i < j
    requires b.Release(j) < b.Trip(i) && b.Release(j) < b.Release(i)
    ensures BankFails(b, readings, l)
  {
    var top := ReachesTop(b);
    var lower := if b.Trip(i) < b.Release(i) then b.Trip(i) else b.Release(i);
    var v := (b.Release(j) + lower) / 2.0;
    readings := [b.Trip(top)] + [v];
    LatchedSnoc(b, i, [b.Trip(top)], v);
    LatchedSnoc(b, j, [b.Trip(top)], v);
    assert Latched(b, j, [b.Trip(top)]);
    l := if j <= After(b, readings) then i else j;
  }

  /** A rise without a trip sets no trigger. */
  lemma NotSeparatedFails(b: Band, i: Severity, j: Severity) returns (readings: seq<real>, l: Severity)
    requires b.Valid() && b.Ordered() && Entered(b, i) && b.Configured(j) && i < j && b.Release(j) < b.Trip(i)
    ensures BankFails(b, readings, l)
  {
    var v;
    readings, v := RiseWithoutTrip(b, i, j);
    l := Next(b, i, v);
    NextIsPossible(b, i, v);
    if !Latched(b, l, readings) {
      AfterSnoc(b, readings, v);
      LatchedSnoc(b, l, readings, v);
      readings := readings + [v];
    }
  }

  /** A level left at its own trip point, from above, sets its trigger. */
  lemma NotHeldFails(b: Band, l: Severity) returns (readings: seq<real>)
    requires b.Valid() && b.TripsFirst(l) && !HeldAtTrip(b, l)
    ensures BankFails(b, readings, l)
  {
    var top := ReachesTop(b);
    FlipsForEver(b, l, top);
    readings := [b.Trip(top)] + [b.Trip(l)];
    AfterSnoc(b, [b.Trip(top)], b.Trip(l));
    LatchedSnoc(b, l, [b.Trip(top)], b.Trip(l));
  }

  /** For which bands that is so: triggers are nested, levels that occur are separated from those above
      them, and those that trip first are held at their trip points. */
  lemma TriggerBankIff(b: Band)
    requires b.Valid() && b.Ordered()
    ensures IsTriggerBank(b) <==> Nested(b) && EnteredAreSeparated(b) && AllHeldAtTrip(b)
  {
    if Nested(b) && EnteredAreSeparated(b) && AllHeldAtTrip(b) {
      forall readings, l | b.Configured(l) ensures Latched(b, l, readings) <==> l <= After(b, readings) {
        ConditionsGiveBank(b, readings, l);
      }
    }
    if IsTriggerBank(b) {
      forall i, j | b.Configured(i) && b.Configured(j) && i < j
        ensures b.Trip(i) <= b.Release(j) || b.Release(i) <= b.Release(j)
      {
        if b.Release(j) < b.Trip(i) && b.Release(j) < b.Release(i) {
          var readings, l := NotNestedFails(b, i, j);
        }
      }
      forall i, j | Entered(b, i) && b.Configured(j) && i < j ensures b.Trip(i) <= b.Release(j) {
        if b.Release(j) < b.Trip(i) {
          var readings, l := NotSeparatedFails(b, i, j);
        }
      }
      forall l | b.TripsFirst(l) ensures HeldAtTrip(b, l) {
        if !HeldAtTrip(b, l) {
          var readings := NotHeldFails(b, l);
        }
      }
    }
  }

  /** In particular for those that are separated and dampened. */
  lemma SeverityIsTriggerBank(b: Band, readings: seq<real>)
    requires b.Valid() && b.Ordered() && b.Separated() && b.Dampened()
    ensures forall l :: b.Configured(l) ==> (Latched(b, l, readings) <==> l <= After(b, readings))
  {
    forall l | b.TripsFirst(l) ensures HeldAtTrip(b, l) {
      assert b.Release(l) < b.Trip(l);
    }
    TriggerBankIff(b);
  }

  // ---- Hotter readings ----

  /** A sequence of readings that is hotter everywhere is never less severe. */
  lemma {:induction false} HotterIsNotLessSevere(b: Band, cooler: seq<real>, hotter: seq<real>)
    requires b.Valid() && b.Separated() && b.Dampened()
    requires |cooler| == |hotter| && forall i :: 0 <= i < |cooler| ==> cooler[i] <= hotter[i]
    ensures After(b, cooler) <= After(b, hotter)
  {
    if cooler != [] {
      var n := |cooler| - 1;
      HotterIsNotLessSevere(b, cooler[..n], hotter[..n]);
      NextIsMonotone(b, After(b, cooler[..n]), After(b, hotter[..n]), cooler[n], hotter[n]);
    }
  }

  /** Two sensors of one kind, one hotter all the time, are never the other way around. */
  ghost predicate Monotone(b: Band)
    requires b.Valid()
  {
    forall cooler, hotter ::
      |cooler| == |hotter| && (forall i :: 0 <= i < |cooler| ==> cooler[i] <= hotter[i]) ==>
        After(b, cooler) <= After(b, hotter)
  }

  /** Without hysteresis, a level entered from below stays, and the same level entered from above does
      not. */
  lemma CoolerIsMoreSevere(b: Band, l: Severity) returns (cooler: seq<real>, hotter: seq<real>)
    requires b.Valid() && b.Separated() && b.TripsFirst(l) && b.hysteresis[l] <= 0.0
    ensures |cooler| == |hotter| && forall i :: 0 <= i < |cooler| ==> cooler[i] <= hotter[i]
    ensures After(b, hotter) < l == After(b, cooler)
  {
    var top := ReachesTop(b);
    var v := b.Trip(l);
    assert b.Configured(top) && l < top;
    cooler, hotter := [v] + [v], [b.Trip(top)] + [v];
    AfterOne(b, v);
    assert HighestTripped(b, v, SHUTDOWN) == l by {
      assert b.Trips(l, v);
    }
    AfterSnoc(b, [v], v);
    AfterSnoc(b, [b.Trip(top)], v);
    FlipsBack(b, l, top);
  }

  /** For separated bands hotter readings are never less severe exactly when every level that trips
      before the ones above it has hysteresis. */
  lemma MonotoneIffDampened(b: Band)
    requires b.Valid() && b.Separated()
    ensures Monotone(b) <==> b.Dampened()
  {
    if b.Dampened() {
      forall cooler, hotter |
        |cooler| == |hotter| && (forall i :: 0 <= i < |cooler| ==> cooler[i] <= hotter[i])
        ensures After(b, cooler) <= After(b, hotter)
      {
        HotterIsNotLessSevere(b, cooler, hotter);
      }
    }
    if Monotone(b) {
      forall l | b.TripsFirst(l) ensures b.hysteresis[l] > 0.0 {
        if b.hysteresis[l] <= 0.0 {
          var cooler, hotter := CoolerIsMoreSevere(b, l);
        }
      }
    }
  }
}
