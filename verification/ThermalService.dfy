/** The thermal service as a whole: what the watcher emits (hidl/thermal/thermal-helper.cpp) is
    delivered to the listeners (hidl/thermal/Thermal.cpp), who come and go. */
module ThermalService {
  import opened ThermalCallbacks
  import opened ThermalListeners
  import opened ThermalSeverity
  import opened ThermalWatcher
  import opened Wrappers

  /** A client registers or unregisters, or the watcher has a round, to which listeners answer. */
  datatype Happening =
    | Client(request: Operation)
    | Watch(round: Round, answers: Answers)

  ghost predicate ValidSensors(infos: Infos, names: seq<string>) {
    && ValidInfos(infos) && (forall n :: n in infos <==> n in names)
    && (forall i, j :: 0 <= i < j < |names| ==> names[i] != names[j])
  }

  /** Clients do not deliver. */
  ghost predicate ValidHappenings(hs: seq<Happening>) {
    forall i :: 0 <= i < |hs| && hs[i].Client? ==> !hs[i].request.Deliver?
  }

  function RoundsOf(hs: seq<Happening>): (r: seq<Round>) {
    if hs == [] then []
    else RoundsOf(hs[..|hs| - 1]) + (if hs[|hs| - 1].Watch? then [hs[|hs| - 1].round] else [])
  }

  /** What one thing that happens, after some rounds, means for the list of listeners. */
  ghost function OperationOf(infos: Infos, names: seq<string>, rounds: seq<Round>, h: Happening): Operation
    requires ValidSensors(infos, names)
  {
    match h
    case Client(request) => request
    case Watch(r, answers) => Deliver(Notices(infos, names, StatusesAfter(infos, rounds), r), answers)
  }

  ghost function OperationsOf(infos: Infos, names: seq<string>, hs: seq<Happening>): (ops: seq<Operation>)
    requires ValidSensors(infos, names)
    ensures |ops| == |hs|
  {
    if hs == [] then []
    else
      var init := hs[..|hs| - 1];
      OperationsOf(infos, names, init) + [OperationOf(infos, names, RoundsOf(init), hs[|hs| - 1])]
  }

  lemma {:induction false} OperationsOfPrefix(infos: Infos, names: seq<string>, hs: seq<Happening>, m: nat)
    requires ValidSensors(infos, names) && m <= |hs|
    ensures OperationsOf(infos, names, hs)[..m] == OperationsOf(infos, names, hs[..m])
    ensures m < |hs| && hs[m].Client? ==> OperationsOf(infos, names, hs)[m] == hs[m].request
  {
    if m < |hs| {
      var init := hs[..|hs| - 1];
      OperationsOfPrefix(infos, names, init, m);
      assert init[..m] == hs[..m];
    } else {
      assert hs[..m] == hs;
    }
  }

  lemma HappeningSnoc(infos: Infos, names: seq<string>, hs: seq<Happening>, h: Happening)
    requires ValidSensors(infos, names)
    ensures RoundsOf(hs + [h]) == if h.Watch? then RoundsOf(hs) + [h.round] else RoundsOf(hs)
    ensures OperationsOf(infos, names, hs + [h]) ==
            OperationsOf(infos, names, hs) + [OperationOf(infos, names, RoundsOf(hs), h)]
  {
    assert (hs + [h])[..|hs|] == hs;
  }

  /** The watcher and the list of listeners are where all that happened has brought them. */
  ghost predicate Serves(w: Watcher, t: Thermal, infos: Infos, names: seq<string>, hs: seq<Happening>)
    requires ValidSensors(infos, names)
    reads w, t
  {
    && w.Valid() && w.infos == infos && w.names == names
    && w.statuses == StatusesAfter(infos, RoundsOf(hs)) && w.emitted == EmittedOver(infos, names, RoundsOf(hs))
    && UpToDate(t, OperationsOf(infos, names, hs))
  }

  /** One more thing happens. A round that emits nothing calls nobody. */
  method ServeOne(infos: Infos, names: seq<string>, ghost hs: seq<Happening>, h: Happening, w: Watcher, t: Thermal)
    requires ValidSensors(infos, names) && Serves(w, t, infos, names, hs)
    modifies w, t
    ensures Serves(w, t, infos, names, hs + [h])
  {
    ghost var before, ops, rounds := w.statuses, OperationsOf(infos, names, hs), RoundsOf(hs);
    HappeningSnoc(infos, names, hs, h);
    match h {
      case Client(request) =>
        Perform(t, ops, request);
      case Watch(r, answers) =>
        var triggered, temps := w.OnWatch(r);
        RoundSnoc(infos, names, rounds, r, before, w.statuses);
        if temps != [] {
          Perform(t, ops, Deliver(temps, answers));
        } else {
          EmptyDelivery(ops, answers);
        }
    }
  }

  lemma RoundSnoc(infos: Infos, names: seq<string>, rounds: seq<Round>, r: Round, before: Statuses, after: Statuses)
    requires ValidSensors(infos, names) && before == StatusesAfter(infos, rounds) && after.Keys == infos.Keys
    requires forall n :: n in infos ==> after[n] == Visited(infos[n], n, before[n], r)
    ensures after == StatusesAfter(infos, rounds + [r])
    ensures EmittedOver(infos, names, rounds + [r]) ==
            EmittedOver(infos, names, rounds) + Notices(infos, names, before, r)
  {
    assert (rounds + [r])[..|rounds|] == rounds && (rounds + [r])[..|rounds| + 1] == rounds + [r];
    OneMoreRound(infos, names, rounds + [r], |rounds|, before, after);
  }

  lemma EmptyDelivery(ops: seq<Operation>, answers: Answers)
    ensures ListenersAfter(ops + [Deliver([], answers)]) == ListenersAfter(ops)
    ensures forall cb :: Heard(ops + [Deliver([], answers)], cb) == Heard(ops, cb)
  {
    AllSurviveNothing(ListenersAfter(ops), [], answers);
    forall cb ensures Heard(ops + [Deliver([], answers)], cb) == Heard(ops, cb) {
      OperationSnoc(ops, Deliver([], answers), cb);
    }
    OperationSnoc(ops, Deliver([], answers), 0);
  }

  /** The service objects go through exactly these states, and every call is accounted for. */
  method Serve(infos: Infos, names: seq<string>, hs: seq<Happening>) returns (w: Watcher, t: Thermal)
    requires ValidSensors(infos, names)
    ensures Serves(w, t, infos, names, hs)
  {
    w := new Watcher(names, infos);
    t := new Thermal();
    for k := 0 to |hs|
      invariant Serves(w, t, infos, names, hs[..k])
    {
      assert hs[..k + 1] == hs[..k] + [hs[k]];
      ServeOne(infos, names, hs[..k], hs[k], w, t);
    }
    assert hs[..|hs|] == hs;
  }

  // ---- From the sensors to a listener ----

  /** What is delivered is what the watcher emits. */
  lemma {:induction false} DeliveredIsEmitted(infos: Infos, names: seq<string>, hs: seq<Happening>)
    requires ValidSensors(infos, names) && ValidHappenings(hs)
    ensures Delivered(OperationsOf(infos, names, hs)) == EmittedOver(infos, names, RoundsOf(hs))
  {
    if hs != [] {
      var init, h := hs[..|hs| - 1], hs[|hs| - 1];
      assert hs == init + [h];
      DeliveredIsEmitted(infos, names, init);
      HappeningSnoc(infos, names, init, h);
      var ops, op := OperationsOf(infos, names, init), OperationOf(infos, names, RoundsOf(init), h);
      assert (ops + [op])[..|ops|] == ops;
      if h.Watch? {
        var rounds := RoundsOf(init);
        assert (rounds + [h.round])[..|rounds|] == rounds;
      }
    }
  }

  /** All notifications about a sensor carry the kind of that sensor. */
  ghost predicate KindsAgree(infos: Infos, log: seq<Temperature>) {
    forall i :: 0 <= i < |log| ==> log[i].name in infos && log[i].kind == infos[log[i].name].kind
  }

  lemma {:induction false} NoticesAgree(infos: Infos, names: seq<string>, before: Statuses, r: Round)
    requires ValidInfos(infos) && Known(infos, names, before)
    ensures KindsAgree(infos, Notices(infos, names, before, r))
  {
    if names != [] {
      NoticesAgree(infos, names[..|names| - 1], before, r);
    }
  }

  lemma {:induction false} EmittedAgree(infos: Infos, names: seq<string>, rounds: seq<Round>)
    requires ValidInfos(infos) && forall i :: 0 <= i < |names| ==> names[i] in infos
    ensures KindsAgree(infos, EmittedOver(infos, names, rounds))
  {
    if rounds != [] {
      var init := rounds[..|rounds| - 1];
      EmittedAgree(infos, names, init);
      NoticesAgree(infos, names, StatusesAfter(infos, init), rounds[|rounds| - 1]);
    }
  }

  lemma KindsOfSuffix(infos: Infos, a: seq<Temperature>, b: seq<Temperature>)
    requires KindsAgree(infos, a + b)
    ensures KindsAgree(infos, b)
  {
    forall i | 0 <= i < |b| ensures b[i].name in infos && b[i].kind == infos[b[i].name].kind {
      assert (a + b)[|a| + i] == b[i];
    }
  }

  /** A filter takes away nothing about the sensors that pass it. */
  lemma {:induction false} FilterKeepsReplay(c: Setting, infos: Infos, log: seq<Temperature>, n: string)
    requires KindsAgree(infos, log) && n in infos && (c.isFilter ==> c.kind == infos[n].kind)
    ensures Replay(Matching(c, log), n) == Replay(log, n)
    ensures Mentions(Matching(c, log), n) <==> Mentions(log, n)
  {
    if log != [] {
      var init, last := log[..|log| - 1], log[|log| - 1];
      FilterKeepsReplay(c, infos, init, n);
      assert log == init + [last];
      MentionsSnoc(init, last, n);
      ReplaySnoc(init, last, n);
      ReplaySnoc(Matching(c, init), last, n);
      MentionsSnoc(Matching(c, init), last, n);
      assert Matching(c, log) == if Matches(c, last) then Matching(c, init) + [last] else Matching(c, init);
    }
  }

  lemma ReplaySnoc(log: seq<Temperature>, t: Temperature, n: string)
    ensures Replay(log + [t], n) == if t.name == n then t.throttlingStatus else Replay(log, n)
  {
    assert (log + [t])[..|log|] == log;
  }

  lemma MentionsSnoc(log: seq<Temperature>, t: Temperature, n: string)
    ensures Mentions(log + [t], n) <==> Mentions(log, n) || t.name == n
  {
    MentionsConcat(log, [t], n);
    assert [t][0] == t;
  }

  lemma {:induction false} UnmentionedIsQuiet(log: seq<Temperature>, n: string)
    requires !Mentions(log, n)
    ensures Replay(log, n) == NONE
  {
    if log != [] {
      var init, last := log[..|log| - 1], log[|log| - 1];
      assert log == init + [last];
      MentionsSnoc(init, last, n);
      UnmentionedIsQuiet(init, n);
    }
  }

  /** `c` was registered by the m-th thing that happened, and was left alone by the clients since. */
  ghost predicate RegisteredAt(infos: Infos, names: seq<string>, hs: seq<Happening>, c: Setting, m: nat)
    requires ValidSensors(infos, names)
  {
    && m < |hs| && ValidHappenings(hs) && hs[m] == Client(Register(Some(c.callback), c.isFilter, c.kind))
    && SettingOf(ListenersAfter(OperationsOf(infos, names, hs)[..m]), c.callback).None?
    && Untouched(OperationsOf(infos, names, hs)[m + 1..], c.callback)
  }

  /** Its life, and what was emitted before and since. */
  lemma LifeOf(infos: Infos, names: seq<string>, hs: seq<Happening>, c: Setting, m: nat)
    requires ValidSensors(infos, names) && RegisteredAt(infos, names, hs, c, m)
    ensures var ops := OperationsOf(infos, names, hs);
            && ops == Life(ops[..m], c, ops[m + 1..])
            && EmittedOver(infos, names, RoundsOf(hs)) ==
               EmittedOver(infos, names, RoundsOf(hs[..m])) + Delivered(ops[m + 1..])
  {
    OperationsOfPrefix(infos, names, hs, m);
    SplitAt(OperationsOf(infos, names, hs), c, m);
    DeliveredIsEmitted(infos, names, hs);
    DeliveredIsEmitted(infos, names, hs[..m]);
  }

  /** A listener that is still registered knows every sensor that passes its filter: if it heard of the
      sensor, its last word is the severity now; if not, the severity is what it was when the listener
      came. */
  lemma ListenerFollowsSeverities(infos: Infos, names: seq<string>, hs: seq<Happening>, c: Setting, m: nat, n: string)
    requires ValidSensors(infos, names) && RegisteredAt(infos, names, hs, c, m)
    requires SettingOf(ListenersAfter(OperationsOf(infos, names, hs)), c.callback).Some?
    requires n in infos && (c.isFilter ==> c.kind == infos[n].kind)
    ensures var ops := OperationsOf(infos, names, hs);
            var heard := Matching(c, Delivered(ops[m + 1..]));
            && Heard(ops, c.callback) == Heard(ops[..m], c.callback) + heard
            && StatusAfter(infos[n], n, RoundsOf(hs)).severity ==
               if Mentions(heard, n) then Replay(heard, n) else StatusAfter(infos[n], n, RoundsOf(hs[..m])).severity
  {
    var ops := OperationsOf(infos, names, hs);
    var after, temps := ops[m + 1..], Delivered(ops[m + 1..]);
    LifeOf(infos, names, hs, c, m);
    HeardFromRegistration(ops[..m], c, after);
    AliveIffNoFailure(c, temps, |temps|, AnswersTo(after));
    ListenerView(c, temps, |temps|, AnswersTo(after));
    EmittedAgree(infos, names, RoundsOf(hs));
    KindsOfSuffix(infos, EmittedOver(infos, names, RoundsOf(hs[..m])), temps);
    FilterKeepsReplay(c, infos, temps, n);
    ReplayConcat(EmittedOver(infos, names, RoundsOf(hs[..m])), temps, n);
    ReplayGivesSeverities(infos, names, RoundsOf(hs[..m]), n);
    ReplayGivesSeverities(infos, names, RoundsOf(hs), n);
  }

  lemma KnownFromQuiet(heard: seq<Temperature>, n: string, before: Severity, now: Severity)
    requires before == NONE && now == if Mentions(heard, n) then Replay(heard, n) else before
    ensures Replay(heard, n) == now
  {
    if !Mentions(heard, n) {
      UnmentionedIsQuiet(heard, n);
    }
  }

  /** End to end: a listener that came when a sensor was at NONE and passes it, and is still registered,
      knows the sensor's true severity by replaying what it was called with since; and that severity is
      the hysteresis of the values read. */
  lemma {:induction false} ListenerKnowsSeverities(infos: Infos, names: seq<string>, hs: seq<Happening>, c: Setting,
                                                   m: nat, n: string)
    requires ValidSensors(infos, names) && RegisteredAt(infos, names, hs, c, m)
    requires SettingOf(ListenersAfter(OperationsOf(infos, names, hs)), c.callback).Some?
    requires n in infos && (c.isFilter ==> c.kind == infos[n].kind)
    requires StatusAfter(infos[n], n, RoundsOf(hs[..m])).severity == NONE
    ensures var ops, seen := OperationsOf(infos, names, hs), SeenReadings(infos[n], n, RoundsOf(hs));
            var heard := Matching(c, Delivered(ops[m + 1..]));
            && Heard(ops, c.callback) == Heard(ops[..m], c.callback) + heard
            && IsWorse(Replay(heard, n), After(infos[n].hot, seen), After(infos[n].cold.Mirrored(), Negated(seen)))
  {
    ListenerFollowsSeverities(infos, names, hs, c, m, n);
    KnownFromQuiet(Matching(c, Delivered(OperationsOf(infos, names, hs)[m + 1..])), n, NONE,
                   StatusAfter(infos[n], n, RoundsOf(hs)).severity);
    StatusFollowsReadings(infos[n], n, RoundsOf(hs));
  }

  lemma {:induction false} QuietBeforeFirstRound(infos: Infos, names: seq<string>, hs: seq<Happening>, n: string,
                                                 cb: int)
    requires ValidSensors(infos, names) && ValidHappenings(hs) && forall i :: 0 <= i < |hs| ==> hs[i].Client?
    requires n in infos
    ensures StatusAfter(infos[n], n, RoundsOf(hs)).severity == NONE && Heard(OperationsOf(infos, names, hs), cb) == []
  {
    if hs != [] {
      var init := hs[..|hs| - 1];
      QuietBeforeFirstRound(infos, names, init, n, cb);
      assert RoundsOf(hs) == RoundsOf(init);
      OperationSnoc(OperationsOf(infos, names, init), hs[|hs| - 1].request, cb);
    }
  }

  /** In particular, a listener that came before the first round, and is still registered, knows every
      sensor that it passes from all it was ever called with. */
  lemma EarlyListenerKnowsSeverities(infos: Infos, names: seq<string>, hs: seq<Happening>, c: Setting,
                                     m: nat, n: string)
    requires ValidSensors(infos, names) && RegisteredAt(infos, names, hs, c, m)
    requires forall i :: 0 <= i < m ==> hs[i].Client?
    requires SettingOf(ListenersAfter(OperationsOf(infos, names, hs)), c.callback).Some?
    requires n in infos && (c.isFilter ==> c.kind == infos[n].kind)
    ensures var seen := SeenReadings(infos[n], n, RoundsOf(hs));
            IsWorse(Replay(Heard(OperationsOf(infos, names, hs), c.callback), n),
                    After(infos[n].hot, seen), After(infos[n].cold.Mirrored(), Negated(seen)))
  {
    QuietBeforeFirstRound(infos, names, hs[..m], n, c.callback);
    OperationsOfPrefix(infos, names, hs, m);
    ListenerKnowsSeverities(infos, names, hs, c, m, n);
    var heard := Matching(c, Delivered(OperationsOf(infos, names, hs)[m + 1..]));
    assert [] + heard == heard;
  }
}
