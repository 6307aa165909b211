/** The list of thermal listeners (hidl/thermal/Thermal.cpp): registration, removal, and delivery
    that drops a listener as soon as a call to it fails. */
module ThermalCallbacks {
  import opened Subsequences
  import opened ThermalSeverity
  import opened ThermalWatcher
  import opened Wrappers

  /** A registered listener, identified by its interface. */
  datatype Setting = Setting(callback: int, isFilter: bool, kind: int)

  /** One call of a listener. */
  datatype Call = Call(callback: int, temperature: Temperature)

  /** Whether the call of a listener with the i-th temperature of a delivery succeeds. */
  type Answers = (int, nat) -> bool

  predicate Matches(c: Setting, t: Temperature) {
    !c.isFilter || t.kind == c.kind
  }

  ghost predicate DistinctCallbacks(cs: seq<Setting>) {
    forall i, j :: 0 <= i < j < |cs| ==> cs[i].callback != cs[j].callback
  }

  // ---- One listener's view of a delivery ----

  /** No call of `c` with one of the first `i` temperatures failed. */
  predicate Alive(c: Setting, temps: seq<Temperature>, i: nat, answers: Answers)
    requires i <= |temps|
  {
    i == 0 || (Alive(c, temps, i - 1, answers) && (Matches(c, temps[i - 1]) ==> answers(c.callback, i - 1)))
  }

  /** What `c` has been called with after `i` temperatures. */
  function Received(c: Setting, temps: seq<Temperature>, i: nat, answers: Answers): (r: seq<Temperature>)
    requires i <= |temps|
  {
    if i == 0 then []
    else Received(c, temps, i - 1, answers)
         + (if Alive(c, temps, i - 1, answers) && Matches(c, temps[i - 1]) then [temps[i - 1]] else [])
  }

  function Matching(c: Setting, temps: seq<Temperature>): (r: seq<Temperature>) {
    if temps == [] then []
    else Matching(c, temps[..|temps| - 1]) + (if Matches(c, temps[|temps| - 1]) then [temps[|temps| - 1]] else [])
  }

  /** The first call of `c` that fails, or the number of temperatures. */
  ghost predicate FailsFirstAt(c: Setting, temps: seq<Temperature>, k: nat, answers: Answers) {
    && k <= |temps|
    && (forall j :: 0 <= j < k && Matches(c, temps[j]) ==> answers(c.callback, j))
    && (k < |temps| ==> Matches(c, temps[k]) && !answers(c.callback, k))
  }

  lemma {:induction false} AliveIffNoFailure(c: Setting, temps: seq<Temperature>, i: nat, answers: Answers)
    requires i <= |temps|
    ensures Alive(c, temps, i, answers) <==> forall j :: 0 <= j < i && Matches(c, temps[j]) ==> answers(c.callback, j)
  {
    if i > 0 {
      AliveIffNoFailure(c, temps, i - 1, answers);
    }
  }

  lemma {:induction false} ReceivedUpTo(c: Setting, temps: seq<Temperature>, i: nat, k: nat, answers: Answers)
    requires i <= |temps| && FailsFirstAt(c, temps, k, answers)
    ensures Received(c, temps, i, answers) == Matching(c, if i <= k then temps[..i] else temps[..k + 1])
  {
    if i > 0 {
      ReceivedUpTo(c, temps, i - 1, k, answers);
      AliveIffNoFailure(c, temps, i - 1, answers);
      if i <= k + 1 {
        assert temps[..i][..i - 1] == temps[..i - 1] && Alive(c, temps, i - 1, answers);
      } else {
        assert !answers(c.callback, k);
      }
    }
  }

  /** A listener is called with exactly the temperatures that match its filter, in order, up to and
      including its first failing call; it survives exactly when no call failed. */
  lemma ListenerView(c: Setting, temps: seq<Temperature>, k: nat, answers: Answers)
    requires FailsFirstAt(c, temps, k, answers)
    ensures Received(c, temps, |temps|, answers) == Matching(c, if k == |temps| then temps else temps[..k + 1])
    ensures Alive(c, temps, |temps|, answers) <==> k == |temps|
  {
    ReceivedUpTo(c, temps, |temps|, k, answers);
    AliveIffNoFailure(c, temps, |temps|, answers);
    assert temps[..|temps|] == temps;
  }

  /** Every call of `c` with one of the first `i` temperatures, if it asked for that kind, has succeeded. */
  ghost predicate NoneFailed(c: Setting, temps: seq<Temperature>, i: int, answers: Answers) {
    forall j :: 0 <= j < i && j < |temps| && (!c.isFilter || temps[j].kind == c.kind) ==> answers(c.callback, j)
  }

  /** It asked for that kind, or for all, and has not failed before. */
  ghost predicate IsCalled(c: Setting, temps: seq<Temperature>, j: nat, answers: Answers)
    requires j < |temps|
  {
    (!c.isFilter || temps[j].kind == c.kind) && NoneFailed(c, temps, j, answers)
  }

  lemma CalledIffAlive(c: Setting, temps: seq<Temperature>, j: nat, answers: Answers)
    requires j < |temps|
    ensures IsCalled(c, temps, j, answers) == (Alive(c, temps, j, answers) && Matches(c, temps[j]))
  {
    AliveIffNoFailure(c, temps, j, answers);
  }

  /** A listener is called with a temperature exactly if it asked for its kind, or for all, and no earlier
      call has failed. */
  lemma {:induction false} ReceivedIsExact(c: Setting, temps: seq<Temperature>, i: nat, answers: Answers)
    returns (at: seq<nat>)
    requires i <= |temps|
    ensures Increasing(at, i)
    ensures forall j :: 0 <= j < i ==>
              (j in at <==> IsCalled(c, temps, j, answers))
    ensures var r := Received(c, temps, i, answers);
            |r| == |at| && forall k :: 0 <= k < |at| ==> r[k] == temps[at[k]]
  {
    at := [];
    if i > 0 {
      at := ReceivedIsExact(c, temps, i - 1, answers);
      IncreasingSnoc(at, i - 1);
      CalledIffAlive(c, temps, i - 1, answers);
      if IsCalled(c, temps, i - 1, answers) {
        at := at + [i - 1];
      }
    }
  }

  lemma {:induction false} MatchingIsExact(c: Setting, temps: seq<Temperature>) returns (at: seq<nat>)
    ensures Increasing(at, |temps|)
    ensures forall j :: 0 <= j < |temps| ==> (j in at <==> !c.isFilter || temps[j].kind == c.kind)
    ensures |Matching(c, temps)| == |at| && forall k :: 0 <= k < |at| ==> Matching(c, temps)[k] == temps[at[k]]
  {
    at := [];
    if temps != [] {
      var k := |temps| - 1;
      at := MatchingIsExact(c, temps[..k]);
      IncreasingSnoc(at, k);
      if Matches(c, temps[k]) {
        at := at + [k];
      }
    }
  }

  // ---- The list ----

  /** The listeners still registered after `i` temperatures, in their order. */
  function Survivors(cs: seq<Setting>, temps: seq<Temperature>, i: nat, answers: Answers): (r: seq<Setting>)
    requires i <= |temps|
  {
    if cs == [] then []
    else Survivors(cs[..|cs| - 1], temps, i, answers)
         + (if Alive(cs[|cs| - 1], temps, i, answers) then [cs[|cs| - 1]] else [])
  }

  function Without(cs: seq<Setting>, callback: int): (r: seq<Setting>) {
    if cs == [] then []
    else Without(cs[..|cs| - 1], callback) + (if cs[|cs| - 1].callback != callback then [cs[|cs| - 1]] else [])
  }

  /** The calls made to one listener. */
  ghost function CallsTo(log: seq<Call>, callback: int): (r: seq<Temperature>) {
    if log == [] then []
    else CallsTo(log[..|log| - 1], callback)
         + (if log[|log| - 1].callback == callback then [log[|log| - 1].temperature] else [])
  }

  lemma CallsToSnoc(log: seq<Call>, call: Call, callback: int)
    ensures CallsTo(log + [call], callback) ==
            CallsTo(log, callback) + (if call.callback == callback then [call.temperature] else [])
  {
    assert (log + [call])[..|log|] == log;
  }

  lemma DistinctSnoc(cs: seq<Setting>, c: Setting)
    requires DistinctCallbacks(cs) && forall d :: d in cs ==> d.callback != c.callback
    ensures DistinctCallbacks(cs + [c])
  {
  }

  lemma {:induction false} WithoutIsOrdered(cs: seq<Setting>, callback: int)
    requires DistinctCallbacks(cs)
    ensures DistinctCallbacks(Without(cs, callback))
    ensures forall c :: c in Without(cs, callback) <==> c in cs && c.callback != callback
  {
    if cs != [] {
      var init, last := cs[..|cs| - 1], cs[|cs| - 1];
      WithoutIsOrdered(init, callback);
      assert cs == init + [last];
      assert forall c :: c in cs <==> c in init || c == last;
    }
  }

  lemma {:induction false} SurvivorsAreOrdered(cs: seq<Setting>, temps: seq<Temperature>, i: nat, answers: Answers)
    requires DistinctCallbacks(cs) && i <= |temps|
    ensures DistinctCallbacks(Survivors(cs, temps, i, answers))
    ensures forall c :: c in Survivors(cs, temps, i, answers) <==> c in cs && Alive(c, temps, i, answers)
  {
    if cs != [] {
      var init, last := cs[..|cs| - 1], cs[|cs| - 1];
      SurvivorsAreOrdered(init, temps, i, answers);
      assert cs == init + [last];
      assert forall c :: c in cs <==> c in init || c == last;
      DistinctSnoc(Survivors(init, temps, i, answers), last);
    }
  }

  /** Removal keeps the other listeners in their order. */
  lemma {:induction false} WithoutIsExact(cs: seq<Setting>, callback: int) returns (at: seq<nat>)
    ensures Increasing(at, |cs|) && forall j :: 0 <= j < |cs| ==> (j in at <==> cs[j].callback != callback)
    ensures |Without(cs, callback)| == |at| && forall k :: 0 <= k < |at| ==> Without(cs, callback)[k] == cs[at[k]]
  {
    at := [];
    if cs != [] {
      var k := |cs| - 1;
      at := WithoutIsExact(cs[..k], callback);
      IncreasingSnoc(at, k);
      if cs[k].callback != callback {
        at := at + [k];
      }
    }
  }

  /** A delivery keeps those of whose calls none failed, in their order. */
  lemma {:induction false} SurvivorsAreExact(cs: seq<Setting>, temps: seq<Temperature>, i: nat, answers: Answers)
    returns (at: seq<nat>)
    requires i <= |temps|
    ensures Increasing(at, |cs|) && forall j :: 0 <= j < |cs| ==> (j in at <==> NoneFailed(cs[j], temps, i, answers))
    ensures var left := Survivors(cs, temps, i, answers);
            |left| == |at| && forall k :: 0 <= k < |at| ==> left[k] == cs[at[k]]
  {
    at := [];
    if cs != [] {
      var k := |cs| - 1;
      at := SurvivorsAreExact(cs[..k], temps, i, answers);
      IncreasingSnoc(at, k);
      AliveIffNoFailure(cs[k], temps, i, answers);
      if Alive(cs[k], temps, i, answers) {
        at := at + [k];
      }
    }
  }

  /** The calls to one listener, by their positions in the log. */
  lemma {:induction false} CallsToIsExact(log: seq<Call>, callback: int) returns (at: seq<nat>)
    ensures Increasing(at, |log|) && forall j :: 0 <= j < |log| ==> (j in at <==> log[j].callback == callback)
    ensures var r := CallsTo(log, callback);
            |r| == |at| && forall k :: 0 <= k < |at| ==> r[k] == log[at[k]].temperature
  {
    at := [];
    if log != [] {
      var k := |log| - 1;
      at := CallsToIsExact(log[..k], callback);
      IncreasingSnoc(at, k);
      if log[k].callback == callback {
        at := at + [k];
      }
    }
  }

  lemma {:induction false} AllSurviveNothing(cs: seq<Setting>, temps: seq<Temperature>, answers: Answers)
    ensures Survivors(cs, temps, 0, answers) == cs
  {
    if cs != [] {
      AllSurviveNothing(cs[..|cs| - 1], temps, answers);
    }
  }

  /** Going through the survivors with one more temperature. */
  ghost function KeepAnswering(cs: seq<Setting>, t: Temperature, i: nat, answers: Answers): (r: seq<Setting>) {
    if cs == [] then []
    else KeepAnswering(cs[..|cs| - 1], t, i, answers)
         + (if Matches(cs[|cs| - 1], t) ==> answers(cs[|cs| - 1].callback, i) then [cs[|cs| - 1]] else [])
  }

  lemma KeepAnsweringSnoc(cs: seq<Setting>, c: Setting, t: Temperature, i: nat, answers: Answers)
    ensures KeepAnswering(cs + [c], t, i, answers) ==
            KeepAnswering(cs, t, i, answers) + (if Matches(c, t) ==> answers(c.callback, i) then [c] else [])
  {
    assert (cs + [c])[..|cs|] == cs;
  }

  lemma {:induction false} SurvivorsStep(cs: seq<Setting>, temps: seq<Temperature>, i: nat, answers: Answers)
    requires i < |temps|
    ensures Survivors(cs, temps, i + 1, answers) ==
            KeepAnswering(Survivors(cs, temps, i, answers), temps[i], i, answers)
  {
    if cs != [] {
      var init, last := cs[..|cs| - 1], cs[|cs| - 1];
      SurvivorsStep(init, temps, i, answers);
      if Alive(last, temps, i, answers) {
        KeepAnsweringSnoc(Survivors(init, temps, i, answers), last, temps[i], i, answers);
      } else {
        assert Survivors(cs, temps, i, answers) == Survivors(init, temps, i, answers);
      }
    }
  }

  /** Since `old`, every listener of `cs` got its view of the first `i` temperatures and nobody
      else was called. */
  ghost predicate Served(cs: seq<Setting>, old_: seq<Call>, calls: seq<Call>, temps: seq<Temperature>, i: nat,
                         answers: Answers)
    requires i <= |temps|
  {
    && (forall c :: c in cs ==>
          CallsTo(calls, c.callback) == CallsTo(old_, c.callback) + Received(c, temps, i, answers))
    && (forall cb :: (forall c :: c in cs ==> c.callback != cb) ==> CallsTo(calls, cb) == CallsTo(old_, cb))
  }

  /** Some listener of `cs` is `cb` and is called with `t`. */
  ghost predicate Wants(cs: seq<Setting>, cb: int, t: Temperature) {
    exists c :: c in cs && c.callback == cb && Matches(c, t)
  }

  lemma WantsSnoc(cs: seq<Setting>, c: Setting, cb: int, t: Temperature)
    ensures Wants(cs + [c], cb, t) <==> Wants(cs, cb, t) || (c.callback == cb && Matches(c, t))
  {
    assert forall d :: d in cs + [c] <==> d in cs || d == c;
  }

  /** One temperature was given to those of `cs` that it matches. */
  ghost predicate NotifiedOf(cs: seq<Setting>, old_: seq<Call>, calls: seq<Call>, t: Temperature) {
    forall cb :: CallsTo(calls, cb) == CallsTo(old_, cb) + (if Wants(cs, cb, t) then [t] else [])
  }

  lemma SurvivorWants(cs: seq<Setting>, c: Setting, temps: seq<Temperature>, i: nat, answers: Answers)
    requires DistinctCallbacks(cs) && i < |temps| && c in cs
    ensures Wants(Survivors(cs, temps, i, answers), c.callback, temps[i]) <==>
            Alive(c, temps, i, answers) && Matches(c, temps[i])
  {
    var left := Survivors(cs, temps, i, answers);
    SurvivorsAreOrdered(cs, temps, i, answers);
    if d :| d in left && d.callback == c.callback && Matches(d, temps[i]) {
      SameCallbackSameSetting(cs, c, d);
    }
  }

  lemma ServedStep(cs: seq<Setting>, old_: seq<Call>, mid: seq<Call>, calls: seq<Call>, temps: seq<Temperature>,
                   i: nat, answers: Answers)
    requires DistinctCallbacks(cs) && i < |temps| && Served(cs, old_, mid, temps, i, answers)
    requires NotifiedOf(Survivors(cs, temps, i, answers), mid, calls, temps[i])
    ensures Served(cs, old_, calls, temps, i + 1, answers)
  {
    forall c | c in cs
      ensures CallsTo(calls, c.callback) == CallsTo(old_, c.callback) + Received(c, temps, i + 1, answers)
    {
      SurvivorWants(cs, c, temps, i, answers);
    }
    forall cb | forall c :: c in cs ==> c.callback != cb
      ensures CallsTo(calls, cb) == CallsTo(old_, cb)
    {
      SurvivorsAreOrdered(cs, temps, i, answers);
      assert !Wants(Survivors(cs, temps, i, answers), cb, temps[i]);
    }
  }

  lemma SameCallbackSameSetting(cs: seq<Setting>, c: Setting, d: Setting)
    requires DistinctCallbacks(cs) && c in cs && d in cs && c.callback == d.callback
    ensures c == d
  {
    var i :| 0 <= i < |cs| && cs[i] == c;
    var j :| 0 <= j < |cs| && cs[j] == d;
  }

  class Thermal {
    var callbacks: seq<Setting>
    /** Every call ever made. */
    ghost var calls: seq<Call>

    ghost predicate Valid()
      reads this
    {
      DistinctCallbacks(callbacks)
    }

    constructor ()
      ensures Valid() && callbacks == [] && calls == []
    {
      callbacks := [];
      calls := [];
    }

    /** `None` is the null interface. */
    method RegisterThermalChangedCallback(callback: Option<int>, isFilter: bool, kind: int) returns (success: bool)
      requires Valid()
      modifies `callbacks
      ensures Valid()
      ensures success <==> callback.Some? && forall c :: c in old(callbacks) ==> c.callback != callback.value
      ensures callbacks == old(callbacks) + if success then [Setting(callback.value, isFilter, kind)] else []
    {
      if callback.None? {
        return false;
      }
      success := !exists c :: c in callbacks && c.callback == callback.value;
      if success {
        callbacks := callbacks + [Setting(callback.value, isFilter, kind)];
      }
    }

    method UnregisterThermalChangedCallback(callback: Option<int>) returns (success: bool)
      requires Valid()
      modifies `callbacks
      ensures Valid()
      ensures success <==> callback.Some? && exists c :: c in old(callbacks) && c.callback == callback.value
      ensures callbacks == if callback.Some? then Without(old(callbacks), callback.value) else old(callbacks)
    {
      if callback.None? {
        return false;
      }
      var kept := [];
      success := false;
      for k := 0 to |callbacks|
        invariant kept == Without(callbacks[..k], callback.value)
        invariant success <==> exists i :: 0 <= i < k && callbacks[i].callback == callback.value
      {
        assert callbacks[..k + 1][..k] == callbacks[..k];
        if callbacks[k].callback == callback.value {
          success := true;
        } else {
          kept := kept + [callbacks[k]];
        }
      }
      assert callbacks[..|callbacks|] == callbacks;
      WithoutIsOrdered(callbacks, callback.value);
      callbacks := kept;
    }

    /** Calls every listener that `t` matches and keeps those whose call succeeded. */
    method Notify(t: Temperature, i: nat, answers: Answers)
      requires Valid()
      modifies this
      ensures callbacks == KeepAnswering(old(callbacks), t, i, answers)
      ensures NotifiedOf(old(callbacks), old(calls), calls, t)
    {
      var kept := [];
      for k := 0 to |callbacks|
        modifies `calls
        invariant kept == KeepAnswering(callbacks[..k], t, i, answers)
        invariant forall cb :: CallsTo(calls, cb) ==
                    CallsTo(old(calls), cb) + (if Wants(callbacks[..k], cb, t) then [t] else [])
      {
        var c := callbacks[k];
        assert callbacks[..k + 1] == callbacks[..k] + [c];
        KeepAnsweringSnoc(callbacks[..k], c, t, i, answers);
        forall cb {
          WantsSnoc(callbacks[..k], c, cb, t);
        }
        if Matches(c, t) {
          forall cb {
            CallsToSnoc(calls, Call(c.callback, t), cb);
          }
          calls := calls + [Call(c.callback, t)];
          if answers(c.callback, i) {
            kept := kept + [c];
          }
        } else {
          kept := kept + [c];
        }
      }
      assert callbacks[..|callbacks|] == callbacks;
      callbacks := kept;
    }

    /** Delivers `temps` in order. Each listener registered before gets exactly its own view, nobody
        else is called, and exactly the listeners whose calls all succeeded remain. */
    method SendThermalChangedCallback(temps: seq<Temperature>, answers: Answers)
      requires Valid()
      modifies this
      ensures Valid()
      ensures callbacks == Survivors(old(callbacks), temps, |temps|, answers)
      ensures Served(old(callbacks), old(calls), calls, temps, |temps|, answers)
    {
      ghost var before, callsBefore := callbacks, calls;
      AllSurviveNothing(callbacks, temps, answers);
      for i := 0 to |temps|
        modifies this
        invariant callbacks == Survivors(before, temps, i, answers)
        invariant Served(before, callsBefore, calls, temps, i, answers)
      {
        ghost var mid := calls;
        SurvivorsAreOrdered(before, temps, i, answers);
        SurvivorsStep(before, temps, i, answers);
        Notify(temps[i], i, answers);
        ServedStep(before, callsBefore, mid, calls, temps, i, answers);
      }
      SurvivorsAreOrdered(before, temps, |temps|, answers);
    }
  }
}
