/** The watcher's callback (hidl/thermal/thermal-helper.cpp): on an event or a timeout it reads the
    monitored sensors, keeps their status and reports every change of severity. */
module ThermalWatcher {
  import opened Subsequences
  import opened ThermalSeverity
  import opened Wrappers

  datatype SensorInfo = SensorInfo(kind: int, hot: Band, cold: Band, isMonitor: bool)

  datatype SensorStatus = SensorStatus(severity: Severity, prevHot: Severity, prevCold: Severity)

  datatype Temperature = Temperature(kind: int, name: string, value: real, throttlingStatus: Severity)

  /** One call: the sensors named by kernel events (none means all), and the values of the sensors
      that could be read. */
  datatype Round = Round(uevents: set<string>, readings: map<string, real>)

  type Infos = map<string, SensorInfo>
  type Statuses = map<string, SensorStatus>

  const QUIET := SensorStatus(NONE, NONE, NONE)

  function Max(a: Severity, b: Severity): Severity {
    if a > b then a else b
  }

  /** `s` is the worse one of both sides. */
  predicate IsWorse(s: Severity, hot: Severity, cold: Severity) {
    s >= hot && s >= cold && (s == hot || s == cold)
  }

  ghost predicate ValidInfos(infos: Infos) {
    forall n :: n in infos ==> infos[n].hot.Valid() && infos[n].cold.Valid()
  }

  /** The sensor is looked at in this round. */
  predicate Selected(info: SensorInfo, n: string, r: Round) {
    info.isMonitor && (r.uevents == {} || n in r.uevents)
  }

  function Updated(info: SensorInfo, st: SensorStatus, v: real): SensorStatus
    requires info.hot.Valid() && info.cold.Valid()
  {
    var hot := Next(info.hot, st.prevHot, v);
    var cold := Next(info.cold.Mirrored(), st.prevCold, -v);
    SensorStatus(Max(hot, cold), hot, cold)
  }

  /** One sensor's status after a round. */
  function Visited(info: SensorInfo, n: string, st: SensorStatus, r: Round): SensorStatus
    requires info.hot.Valid() && info.cold.Valid()
  {
    if Selected(info, n, r) && n in r.readings then Updated(info, st, r.readings[n]) else st
  }

  /** The notifications of a round: one per sensor whose severity changed, in the order of `names`. */
  function Notices(infos: Infos, names: seq<string>, before: Statuses, r: Round): (temps: seq<Temperature>)
    requires ValidInfos(infos)
    requires forall i :: 0 <= i < |names| ==> names[i] in infos && names[i] in before
  {
    if names == [] then []
    else
      Notices(infos, names[..|names| - 1], before, r) + Notice(infos, names[|names| - 1], before, r)
  }

  /** Sensor `n` makes the watcher keep polling: it is monitored and above NONE, and its status is
      not stale because of a failed read. */
  predicate KeepsPolling(infos: Infos, n: string, after: Statuses, r: Round)
    requires n in infos && n in after
  {
    infos[n].isMonitor && after[n].severity != NONE && (Selected(infos[n], n, r) ==> n in r.readings)
  }

  ghost predicate Known(infos: Infos, names: seq<string>, statuses: Statuses) {
    forall i :: 0 <= i < |names| ==> names[i] in infos && names[i] in statuses
  }

  /** Some of the first `k` sensors keeps the watcher polling. */
  ghost predicate Triggered(infos: Infos, names: seq<string>, k: nat, after: Statuses, r: Round)
    requires k <= |names| && Known(infos, names, after)
  {
    exists i :: 0 <= i < k && KeepsPolling(infos, names[i], after, r)
  }

  /** The first `k` sensors have been visited, the others are as before. */
  ghost predicate VisitedUpTo(infos: Infos, names: seq<string>, k: nat, before: Statuses, after: Statuses, r: Round)
    requires ValidInfos(infos) && k <= |names| && Known(infos, names, before)
  {
    && after.Keys == before.Keys
    && (forall i :: 0 <= i < k ==> after[names[i]] == Visited(infos[names[i]], names[i], before[names[i]], r))
    && (forall i :: k <= i < |names| ==> after[names[i]] == before[names[i]])
  }

  /** What sensor `n` contributes to the notifications. */
  function Notice(infos: Infos, n: string, before: Statuses, r: Round): (temps: seq<Temperature>)
    requires ValidInfos(infos) && n in infos && n in before
  {
    var st := Visited(infos[n], n, before[n], r);
    if st.severity != before[n].severity then [Temperature(infos[n].kind, n, r.readings[n], st.severity)] else []
  }

  lemma NoticesSnoc(infos: Infos, names: seq<string>, k: nat, before: Statuses, r: Round)
    requires ValidInfos(infos) && k < |names| && Known(infos, names, before)
    ensures Notices(infos, names[..k + 1], before, r) ==
            Notices(infos, names[..k], before, r) + Notice(infos, names[k], before, r)
  {
    assert names[..k + 1][..k] == names[..k];
  }

  lemma VisitedSnoc(infos: Infos, names: seq<string>, k: nat, before: Statuses, mid: Statuses, r: Round)
    requires ValidInfos(infos) && k < |names| && Known(infos, names, before)
    requires forall i, j :: 0 <= i < j < |names| ==> names[i] != names[j]
    requires VisitedUpTo(infos, names, k, before, mid, r)
    ensures VisitedUpTo(infos, names, k + 1, before,
                        mid[names[k] := Visited(infos[names[k]], names[k], before[names[k]], r)], r)
  {
  }

  lemma AllVisited(infos: Infos, names: seq<string>, before: Statuses, after: Statuses, r: Round)
    requires ValidInfos(infos) && Known(infos, names, before) && infos.Keys == before.Keys
    requires forall n :: n in infos <==> n in names
    requires VisitedUpTo(infos, names, |names|, before, after, r)
    ensures after.Keys == infos.Keys
    ensures forall n :: n in infos ==> after[n] == Visited(infos[n], n, before[n], r)
    ensures Notices(infos, names[..|names|], before, r) == Notices(infos, names, before, r)
  {
    assert names[..|names|] == names;
  }

  lemma TriggeredSnoc(infos: Infos, names: seq<string>, k: nat, mid: Statuses, after: Statuses, r: Round)
    requires k < |names| && Known(infos, names, mid) && Known(infos, names, after)
    requires forall i :: 0 <= i < k ==> after[names[i]] == mid[names[i]]
    ensures Triggered(infos, names, k + 1, after, r) <==>
            Triggered(infos, names, k, mid, r) || KeepsPolling(infos, names[k], after, r)
  {
    if Triggered(infos, names, k, mid, r) {
      var i :| 0 <= i < k && KeepsPolling(infos, names[i], mid, r);
      assert KeepsPolling(infos, names[i], after, r);
    }
    if Triggered(infos, names, k + 1, after, r) {
      var i :| 0 <= i < k + 1 && KeepsPolling(infos, names[i], after, r);
      assert i < k ==> KeepsPolling(infos, names[i], mid, r);
    }
  }

  /** The body of the loop over the sensors, for one of them. */
  method VisitSensor(info: SensorInfo, n: string, st: SensorStatus, r: Round)
    returns (status: SensorStatus, notice: seq<Temperature>, triggered: bool)
    requires info.hot.Valid() && info.cold.Valid()
    ensures status == Visited(info, n, st, r)
    ensures notice == if status.severity != st.severity
                      then [Temperature(info.kind, n, r.readings[n], status.severity)] else []
    ensures triggered <==> info.isMonitor && status.severity != NONE && (Selected(info, n, r) ==> n in r.readings)
  {
    status, notice, triggered := st, [], false;
    if !info.isMonitor {
      return;
    }
    if r.uevents != {} && n !in r.uevents {
      triggered := status.severity != NONE;
      return;
    }
    if n !in r.readings {
      return;
    }
    var hot, cold := GetSeverityFromThresholds(info.hot, info.cold, status.prevHot, status.prevCold, r.readings[n]);
    var temp := Temperature(info.kind, n, r.readings[n], if hot > cold then hot else cold);
    if hot != status.prevHot {
      status := status.(prevHot := hot);
    }
    if cold != status.prevCold {
      status := status.(prevCold := cold);
    }
    if temp.throttlingStatus != status.severity {
      notice := [temp];
      status := status.(severity := temp.throttlingStatus);
    }
    triggered := status.severity != NONE;
  }

  /** The loop over the status map. */
  method VisitSensors(infos: Infos, names: seq<string>, before: Statuses, r: Round)
    returns (statuses: Statuses, temps: seq<Temperature>, triggered: bool)
    requires ValidInfos(infos) && Known(infos, names, before)
    requires forall i, j :: 0 <= i < j < |names| ==> names[i] != names[j]
    ensures VisitedUpTo(infos, names, |names|, before, statuses, r)
    ensures temps == Notices(infos, names[..|names|], before, r)
    ensures triggered <==> Triggered(infos, names, |names|, statuses, r)
  {
    statuses, temps, triggered := before, [], false;
    for k := 0 to |names|
      invariant VisitedUpTo(infos, names, k, before, statuses, r)
      invariant temps == Notices(infos, names[..k], before, r)
      invariant triggered <==> Triggered(infos, names, k, statuses, r)
    {
      var n := names[k];
      var status, notice, severe := VisitSensor(infos[n], n, statuses[n], r);
      VisitedSnoc(infos, names, k, before, statuses, r);
      NoticesSnoc(infos, names, k, before, r);
      TriggeredSnoc(infos, names, k, statuses, statuses[n := status], r);
      temps := temps + notice;
      statuses := statuses[n := status];
      triggered := triggered || severe;
    }
  }

  class Watcher {
    /** The sensors in the order of the status map. */
    const names: seq<string>
    const infos: Infos
    var statuses: Statuses
    /** Everything that was ever handed to the notification callback. */
    ghost var emitted: seq<Temperature>

    ghost predicate Valid()
      reads this
    {
      && ValidInfos(infos) && statuses.Keys == infos.Keys
      && (forall n :: n in infos <==> n in names)
      && (forall i, j :: 0 <= i < j < |names| ==> names[i] != names[j])
    }

    constructor (names: seq<string>, infos: Infos)
      requires ValidInfos(infos) && forall n :: n in infos <==> n in names
      requires forall i, j :: 0 <= i < j < |names| ==> names[i] != names[j]
      ensures Valid() && emitted == [] && this.names == names && this.infos == infos
      ensures forall n :: n in infos ==> statuses[n] == QUIET
    {
      this.names := names;
      this.infos := infos;
      statuses := map n | n in infos :: QUIET;
      emitted := [];
    }

    method OnWatch(r: Round) returns (triggered: bool, temps: seq<Temperature>)
      requires Valid()
      modifies this
      ensures Valid()
      ensures forall n :: n in infos ==> statuses[n] == Visited(infos[n], n, old(statuses)[n], r)
      ensures temps == Notices(infos, names, old(statuses), r)
      ensures emitted == old(emitted) + temps
      ensures triggered <==> Triggered(infos, names, |names|, statuses, r)
    {
      ghost var before := statuses;
      statuses, temps, triggered := VisitSensors(infos, names, statuses, r);
      AllVisited(infos, names, before, statuses, r);
      if temps != [] {
        emitted := emitted + temps;
      }
    }
  }

  // ---- One round ----

  /** The sensor is monitored, not left out by the kernel's events, and could be read. */
  predicate IsRead(info: SensorInfo, n: string, r: Round) {
    info.isMonitor && (r.uevents == {} || n in r.uevents) && n in r.readings
  }

  /** A round changes the sensors that it reads, and no others: both sides go on from where they were, and
      severity is the worse one. */
  lemma VisitedIsExact(info: SensorInfo, n: string, st: SensorStatus, r: Round)
    requires info.hot.Valid() && info.cold.Valid()
    ensures var now := Visited(info, n, st, r);
            if IsRead(info, n, r) then
              && now.prevHot == Next(info.hot, st.prevHot, r.readings[n])
              && now.prevCold == Next(info.cold.Mirrored(), st.prevCold, -r.readings[n])
              && IsWorse(now.severity, now.prevHot, now.prevCold)
            else now == st
  {
  }

  /** A sensor that has got as hot, or as cold, as a level's trip point is stored as at least that severe,
      if the level has hysteresis or that side was not above it. */
  lemma ReachedIsStored(info: SensorInfo, n: string, st: SensorStatus, r: Round, l: Severity)
    requires info.hot.Valid() && info.cold.Valid() && IsRead(info, n, r) && l != NONE
    ensures info.hot.trip[l].Some? && info.hot.trip[l].value <= r.readings[n]
            && (info.hot.hysteresis[l] > 0.0 || st.prevHot <= l) ==>
              Visited(info, n, st, r).severity >= l
    ensures info.cold.trip[l].Some? && r.readings[n] <= info.cold.trip[l].value
            && (info.cold.hysteresis[l] > 0.0 || st.prevCold <= l) ==>
              Visited(info, n, st, r).severity >= l
  {
    var v, mirrored := r.readings[n], info.cold.Mirrored();
    if info.hot.Configured(l) && info.hot.Trip(l) <= v {
      ReachedIsKeptIff(info.hot, st.prevHot, v, l);
      assert info.hot.hysteresis[l] > 0.0 ==> info.hot.Holds(l, v);
    }
    if info.cold.Configured(l) && v <= info.cold.Trip(l) {
      MirroredReadsColdSide(info.cold, l, v);
      ReachedIsKeptIff(mirrored, st.prevCold, -v, l);
      assert info.cold.hysteresis[l] > 0.0 ==> mirrored.Holds(l, -v);
    }
  }

  /** And one that is stored as severe has reached that level's trip point on some side, or is within its
      hysteresis. */
  lemma StoredIsReached(info: SensorInfo, n: string, st: SensorStatus, r: Round)
    requires info.hot.Valid() && info.cold.Valid() && IsRead(info, n, r) && Visited(info, n, st, r).severity != NONE
    ensures var v, s := r.readings[n], Visited(info, n, st, r).severity;
            || (info.hot.trip[s].Some?
                && (info.hot.trip[s].value <= v || info.hot.trip[s].value - info.hot.hysteresis[s] < v))
            || (info.cold.trip[s].Some?
                && (v <= info.cold.trip[s].value || v < info.cold.trip[s].value + info.cold.hysteresis[s]))
  {
    var v, s, mirrored := r.readings[n], Visited(info, n, st, r).severity, info.cold.Mirrored();
    VisitedIsExact(info, n, st, r);
    if s == Next(info.hot, st.prevHot, v) {
      NextIsReached(info.hot, st.prevHot, v);
    } else {
      NextIsReached(mirrored, st.prevCold, -v);
      assert info.cold.Configured(s);
      MirroredReadsColdSide(info.cold, s, v);
    }
  }

  /** The severity of sensor `n` has changed. */
  predicate Changed(n: string, before: Statuses, after: Statuses)
    requires n in before && n in after
  {
    after[n].severity != before[n].severity
  }

  /** It was read, and this tells the value read and the severity now. */
  predicate Tells(infos: Infos, n: string, after: Statuses, r: Round, t: Temperature)
    requires n in infos && n in after
  {
    IsRead(infos[n], n, r) && t == Temperature(infos[n].kind, n, r.readings[n], after[n].severity)
  }

  /** The temperatures tell of exactly the sensors whose severity has changed, which are those at the
      positions `at`, in that order. */
  ghost predicate TellChanges(infos: Infos, names: seq<string>, before: Statuses, after: Statuses, r: Round,
                              temps: seq<Temperature>, at: seq<nat>)
    requires Known(infos, names, before) && Known(infos, names, after)
  {
    && Increasing(at, |names|) && |temps| == |at|
    && (forall j :: 0 <= j < |names| ==> (j in at <==> Changed(names[j], before, after)))
    && (forall k :: 0 <= k < |at| ==> Tells(infos, names[at[k]], after, r, temps[k]))
  }

  lemma NoticeTells(infos: Infos, n: string, before: Statuses, after: Statuses, r: Round)
    requires ValidInfos(infos) && n in infos && n in before && n in after
    requires after[n] == Visited(infos[n], n, before[n], r)
    ensures var notice := Notice(infos, n, before, r);
            if Changed(n, before, after) then |notice| == 1 && Tells(infos, n, after, r, notice[0]) else notice == []
  {
  }

  lemma TellOneMore(infos: Infos, names: seq<string>, before: Statuses, after: Statuses, r: Round,
                    temps: seq<Temperature>, at: seq<nat>, notice: seq<Temperature>, all: seq<Temperature>)
    returns (more: seq<nat>)
    requires names != [] && Known(infos, names, before) && Known(infos, names, after) && all == temps + notice
    requires TellChanges(infos, names[..|names| - 1], before, after, r, temps, at)
    requires var n := names[|names| - 1];
             if Changed(n, before, after) then |notice| == 1 && Tells(infos, n, after, r, notice[0]) else notice == []
    ensures TellChanges(infos, names, before, after, r, all, more)
  {
    var k := |names| - 1;
    IncreasingSnoc(at, k);
    assert forall j :: 0 <= j < k ==> names[..k][j] == names[j];
    more := if Changed(names[k], before, after) then at + [k] else at;
  }

  /** That is what a round notifies of, in the order of the status map. */
  lemma {:induction false} NoticesAreExact(infos: Infos, names: seq<string>, before: Statuses, after: Statuses,
                                           r: Round) returns (at: seq<nat>)
    requires ValidInfos(infos) && Known(infos, names, before) && Known(infos, names, after)
    requires forall i :: 0 <= i < |names| ==> after[names[i]] == Visited(infos[names[i]], names[i], before[names[i]], r)
    ensures TellChanges(infos, names, before, after, r, Notices(infos, names, before, r), at)
  {
    at := [];
    if names != [] {
      var init, n := names[..|names| - 1], names[|names| - 1];
      at := NoticesAreExact(infos, init, before, after, r);
      NoticeTells(infos, n, before, after, r);
      at := TellOneMore(infos, names, before, after, r, Notices(infos, init, before, r), at,
                        Notice(infos, n, before, r), Notices(infos, names, before, r));
    }
  }

  /** The flag: some monitored sensor is above NONE and was either read or left out by the events. */
  lemma FlagIsExact(infos: Infos, names: seq<string>, after: Statuses, r: Round)
    requires Known(infos, names, after)
    ensures Triggered(infos, names, |names|, after, r) <==>
            exists i :: 0 <= i < |names| && infos[names[i]].isMonitor && after[names[i]].severity > NONE
                        && (IsRead(infos[names[i]], names[i], r) || (r.uevents != {} && names[i] !in r.uevents))
  {
    if i :| 0 <= i < |names| && infos[names[i]].isMonitor && after[names[i]].severity > NONE
            && (IsRead(infos[names[i]], names[i], r) || (r.uevents != {} && names[i] !in r.uevents)) {
      assert KeepsPolling(infos, names[i], after, r);
    }
  }

  // ---- Sequences of rounds ----

  /** One sensor's status after any sequence of rounds. */
  function StatusAfter(info: SensorInfo, n: string, rounds: seq<Round>): SensorStatus
    requires info.hot.Valid() && info.cold.Valid()
  {
    if rounds == [] then QUIET
    else Visited(info, n, StatusAfter(info, n, rounds[..|rounds| - 1]), rounds[|rounds| - 1])
  }

  function StatusesAfter(infos: Infos, rounds: seq<Round>): (st: Statuses)
    requires ValidInfos(infos)
    ensures st.Keys == infos.Keys
  {
    map n | n in infos :: StatusAfter(infos[n], n, rounds)
  }

  /** Everything emitted over a sequence of rounds. */
  ghost function EmittedOver(infos: Infos, names: seq<string>, rounds: seq<Round>): seq<Temperature>
    requires ValidInfos(infos) && forall i :: 0 <= i < |names| ==> names[i] in infos
  {
    if rounds == [] then []
    else
      var init := rounds[..|rounds| - 1];
      EmittedOver(infos, names, init) + Notices(infos, names, StatusesAfter(infos, init), rounds[|rounds| - 1])
  }

  lemma OneMoreRound(infos: Infos, names: seq<string>, rounds: seq<Round>, k: nat, before: Statuses, after: Statuses)
    requires ValidInfos(infos) && k < |rounds| && forall i :: 0 <= i < |names| ==> names[i] in infos
    requires before == StatusesAfter(infos, rounds[..k]) && after.Keys == infos.Keys
    requires forall n :: n in infos ==> after[n] == Visited(infos[n], n, before[n], rounds[k])
    ensures after == StatusesAfter(infos, rounds[..k + 1])
    ensures EmittedOver(infos, names, rounds[..k + 1]) ==
            EmittedOver(infos, names, rounds[..k]) + Notices(infos, names, before, rounds[k])
  {
    assert rounds[..k + 1][..k] == rounds[..k];
  }

  /** The watcher object goes through exactly these states. */
  method Watch(infos: Infos, names: seq<string>, rounds: seq<Round>) returns (w: Watcher)
    requires ValidInfos(infos) && forall n :: n in infos <==> n in names
    requires forall i, j :: 0 <= i < j < |names| ==> names[i] != names[j]
    ensures w.infos == infos && w.names == names
    ensures w.statuses == StatusesAfter(infos, rounds)
    ensures w.emitted == EmittedOver(infos, names, rounds)
  {
    w := new Watcher(names, infos);
    for k := 0 to |rounds|
      invariant w.Valid() && w.infos == infos && w.names == names
      invariant w.statuses == StatusesAfter(infos, rounds[..k])
      invariant w.emitted == EmittedOver(infos, names, rounds[..k])
    {
      ghost var before := w.statuses;
      var triggered, temps := w.OnWatch(rounds[k]);
      OneMoreRound(infos, names, rounds, k, before, w.statuses);
    }
    assert rounds[..|rounds|] == rounds;
  }

  /** The successful readings of a sensor, in the rounds that looked at it. */
  function SeenReadings(info: SensorInfo, n: string, rounds: seq<Round>): seq<real> {
    if rounds == [] then []
    else
      var r := rounds[|rounds| - 1];
      SeenReadings(info, n, rounds[..|rounds| - 1])
      + (if Selected(info, n, r) && n in r.readings then [r.readings[n]] else [])
  }

  /** The values seen are those of the rounds that read the sensor. */
  lemma {:induction false} SeenReadingsAreExact(info: SensorInfo, n: string, rounds: seq<Round>) returns (at: seq<nat>)
    ensures Increasing(at, |rounds|) && forall j :: 0 <= j < |rounds| ==> (j in at <==> IsRead(info, n, rounds[j]))
    ensures var seen := SeenReadings(info, n, rounds);
            |seen| == |at| && forall k :: 0 <= k < |at| ==>
              IsRead(info, n, rounds[at[k]]) && seen[k] == rounds[at[k]].readings[n]
  {
    at := [];
    if rounds != [] {
      var k := |rounds| - 1;
      at := SeenReadingsAreExact(info, n, rounds[..k]);
      IncreasingSnoc(at, k);
      if IsRead(info, n, rounds[k]) {
        at := at + [k];
      }
    }
  }

  function Negated(s: seq<real>): seq<real> {
    seq(|s|, i requires 0 <= i < |s| => -s[i])
  }

  /** After any mix of full, filtered and failed rounds, a sensor's severity is the worse of its
      hot and its cold side, and each side is the hysteresis of the values actually read. */
  lemma {:induction false} StatusFollowsReadings(info: SensorInfo, n: string, rounds: seq<Round>)
    requires info.hot.Valid() && info.cold.Valid()
    ensures Follows(info, StatusAfter(info, n, rounds), SeenReadings(info, n, rounds))
  {
    if rounds != [] {
      var init, r := rounds[..|rounds| - 1], rounds[|rounds| - 1];
      StatusFollowsReadings(info, n, init);
      VisitFollowsReading(info, n, StatusAfter(info, n, init), SeenReadings(info, n, init), r);
    }
  }

  /** One sensor's status is the hysteresis of what was seen of it. */
  ghost predicate Follows(info: SensorInfo, st: SensorStatus, seen: seq<real>)
    requires info.hot.Valid() && info.cold.Valid()
  {
    && IsWorse(st.severity, st.prevHot, st.prevCold)
    && st.prevHot == After(info.hot, seen)
    && st.prevCold == After(info.cold.Mirrored(), Negated(seen))
  }

  lemma ReadingIsFollowed(info: SensorInfo, st: SensorStatus, seen: seq<real>, v: real)
    requires info.hot.Valid() && info.cold.Valid() && Follows(info, st, seen)
    ensures Follows(info, Updated(info, st, v), seen + [v])
  {
    AfterSnoc(info.hot, seen, v);
    AfterSnoc(info.cold.Mirrored(), Negated(seen), -v);
    assert Negated(seen + [v]) == Negated(seen) + [-v];
  }

  lemma {:induction false} VisitFollowsReading(info: SensorInfo, n: string, st: SensorStatus, seen: seq<real>, r: Round)
    requires info.hot.Valid() && info.cold.Valid() && Follows(info, st, seen)
    ensures Follows(info, Visited(info, n, st, r),
                    seen + (if Selected(info, n, r) && n in r.readings then [r.readings[n]] else []))
  {
    if Selected(info, n, r) && n in r.readings {
      ReadingIsFollowed(info, st, seen, r.readings[n]);
    } else {
      assert seen + [] == seen;
    }
  }

  /** The severity of a sensor as a listener to the notifications knows it. */
  function Replay(log: seq<Temperature>, n: string): Severity {
    if log == [] then NONE
    else if log[|log| - 1].name == n then log[|log| - 1].throttlingStatus
    else Replay(log[..|log| - 1], n)
  }

  ghost predicate Mentions(log: seq<Temperature>, n: string) {
    exists i :: 0 <= i < |log| && log[i].name == n
  }

  lemma MentionsConcat(a: seq<Temperature>, b: seq<Temperature>, n: string)
    ensures Mentions(a + b, n) <==> Mentions(a, n) || Mentions(b, n)
  {
    if i :| 0 <= i < |a| && a[i].name == n {
      assert (a + b)[i].name == n;
    }
    if i :| 0 <= i < |b| && b[i].name == n {
      assert (a + b)[|a| + i].name == n;
    }
  }

  lemma {:induction false} ReplayConcat(a: seq<Temperature>, b: seq<Temperature>, n: string)
    ensures Replay(a + b, n) == if Mentions(b, n) then Replay(b, n) else Replay(a, n)
  {
    if b == [] {
      assert a + b == a;
    } else {
      var init, last := b[..|b| - 1], b[|b| - 1];
      assert (a + b)[..|a + b| - 1] == a + init;
      ReplayConcat(a, init, n);
      assert b == init + [last];
      MentionsConcat(init, [last], n);
      assert Mentions([last], n) <==> last.name == n by {
        assert [last][0] == last;
      }
    }
  }

  /** A round notifies about a sensor only if its severity changed, and then last of its new one. */
  lemma {:induction false} NoticesReplay(infos: Infos, names: seq<string>, before: Statuses, r: Round, n: string)
    requires ValidInfos(infos) && Known(infos, names, before) && n in infos && n in before
    requires forall i, j :: 0 <= i < j < |names| ==> names[i] != names[j]
    ensures var temps := Notices(infos, names, before, r);
            var now := Visited(infos[n], n, before[n], r).severity;
            && (Mentions(temps, n) <==> n in names && now != before[n].severity)
            && (Mentions(temps, n) ==> Replay(temps, n) == now)
  {
    if names != [] {
      var init, last := names[..|names| - 1], names[|names| - 1];
      assert names == init + [last];
      assert n in names <==> n in init || n == last;
      NoticesReplay(infos, init, before, r, n);
      var earlier: seq<Temperature> := Notices(infos, init, before, r);
      var notice: seq<Temperature> := Notice(infos, last, before, r);
      MentionsConcat(earlier, notice, n);
      ReplayConcat(earlier, notice, n);
      if notice != [] {
        assert notice[0].name == last;
      }
      assert n == last ==> n !in init;
    }
  }

  /** Replaying everything ever emitted, starting from NONE, gives each sensor's stored severity. */
  lemma {:induction false} ReplayGivesSeverities(infos: Infos, names: seq<string>, rounds: seq<Round>, n: string)
    requires ValidInfos(infos) && forall m :: m in infos <==> m in names
    requires forall i, j :: 0 <= i < j < |names| ==> names[i] != names[j]
    requires n in infos
    ensures Replay(EmittedOver(infos, names, rounds), n) == StatusAfter(infos[n], n, rounds).severity
  {
    if rounds != [] {
      var init, r := rounds[..|rounds| - 1], rounds[|rounds| - 1];
      ReplayGivesSeverities(infos, names, init, n);
      NoticesReplay(infos, names, StatusesAfter(infos, init), r, n);
      ReplayConcat(EmittedOver(infos, names, init), Notices(infos, names, StatusesAfter(infos, init), r), n);
    }
  }

  /** When every read succeeds, the flag tells whether any monitored sensor is above NONE. */
  lemma TriggeredIffSomeSevere(infos: Infos, names: seq<string>, after: Statuses, r: Round)
    requires Known(infos, names, after)
    requires forall i :: 0 <= i < |names| && Selected(infos[names[i]], names[i], r) ==> names[i] in r.readings
    ensures Triggered(infos, names, |names|, after, r) <==>
            exists i :: 0 <= i < |names| && infos[names[i]].isMonitor && after[names[i]].severity != NONE
  {
    if i :| 0 <= i < |names| && infos[names[i]].isMonitor && after[names[i]].severity != NONE {
      assert KeepsPolling(infos, names[i], after, r);
    }
  }

  /** The sensor is monitored and its stored severity is above NONE. */
  ghost predicate Severe(infos: Infos, n: string, after: Statuses)
    requires n in infos && n in after
  {
    infos[n].isMonitor && after[n].severity != NONE
  }

  /** The sensor should have been read in this round, and was not. */
  predicate Unread(infos: Infos, n: string, r: Round)
    requires n in infos
  {
    Selected(infos[n], n, r) && n !in r.readings
  }

  /** Some sensor is severe. */
  ghost predicate SomeSevere(infos: Infos, names: seq<string>, after: Statuses)
    requires Known(infos, names, after)
  {
    exists i :: 0 <= i < |names| && Severe(infos, names[i], after)
  }

  /** For any round, the flag tells whether any monitored sensor is above NONE exactly when none is or
      one of those was not left unread. */
  lemma FlagIsRightIff(infos: Infos, names: seq<string>, after: Statuses, r: Round)
    requires Known(infos, names, after)
    ensures (Triggered(infos, names, |names|, after, r) <==> SomeSevere(infos, names, after)) <==>
            (SomeSevere(infos, names, after) ==>
               exists i :: 0 <= i < |names| && Severe(infos, names[i], after) && !Unread(infos, names[i], r))
  {
    if i :| 0 <= i < |names| && KeepsPolling(infos, names[i], after, r) {
      assert Severe(infos, names[i], after) && !Unread(infos, names[i], r);
    }
    if i :| 0 <= i < |names| && Severe(infos, names[i], after) && !Unread(infos, names[i], r) {
      assert KeepsPolling(infos, names[i], after, r);
    }
  }

  /** In terms of the statuses before the call: a failed read leaves a severity in place and out of the
      flag, so the flag is wrong exactly when some sensor was severe before and its read failed, and
      no other one is severe now. */
  lemma FlagIsWrongIff(infos: Infos, names: seq<string>, before: Statuses, after: Statuses, r: Round)
    requires ValidInfos(infos) && Known(infos, names, before) && Known(infos, names, after)
    requires forall i :: 0 <= i < |names| ==> after[names[i]] == Visited(infos[names[i]], names[i], before[names[i]], r)
    ensures !(Triggered(infos, names, |names|, after, r) <==> SomeSevere(infos, names, after)) <==>
            && (exists i :: 0 <= i < |names| && Severe(infos, names[i], before) && Unread(infos, names[i], r))
            && forall i :: 0 <= i < |names| && !Unread(infos, names[i], r) ==> !Severe(infos, names[i], after)
  {
    FlagIsRightIff(infos, names, after, r);
    assert forall i :: 0 <= i < |names| && Unread(infos, names[i], r) ==>
             (Severe(infos, names[i], after) <==> Severe(infos, names[i], before));
  }

  /** A sensor with one level, SHUTDOWN, that trips at 50 degrees. */
  function OneLevel(): (b: Band)
    ensures b.Valid()
  {
    Band([None, None, None, None, None, None, Some(50.0)], [0.0, 0.0, 0.0, 0.0, 0.0, 0.0, 2.0])
  }

  function NoLevel(): (b: Band)
    ensures b.Valid()
  {
    Band([None, None, None, None, None, None, None], [0.0, 0.0, 0.0, 0.0, 0.0, 0.0, 0.0])
  }

  /** It is read at 60 degrees, then its read fails: it is stored as severe, and the flag is false. */
  lemma FlagMissesFailedRead()
    ensures var infos := map["cpu" := SensorInfo(0, OneLevel(), NoLevel(), true)];
            var rounds := [Round({}, map["cpu" := 60.0]), Round({}, map[])];
            && StatusesAfter(infos, rounds)["cpu"].severity == SHUTDOWN
            && !Triggered(infos, ["cpu"], 1, StatusesAfter(infos, rounds), rounds[1])
  {
    var info := SensorInfo(0, OneLevel(), NoLevel(), true);
    var rounds := [Round({}, map["cpu" := 60.0]), Round({}, map[])];
    assert rounds[..1] == [rounds[0]] && rounds[..1][..0] == [];
    assert Next(info.hot, NONE, 60.0) == SHUTDOWN;
    assert Next(info.cold.Mirrored(), NONE, -60.0) == NONE;
    assert StatusAfter(info, "cpu", rounds[..1]) == Visited(info, "cpu", QUIET, rounds[0]);
    assert StatusAfter(info, "cpu", rounds) == Visited(info, "cpu", StatusAfter(info, "cpu", rounds[..1]), rounds[1]);
  }
}
