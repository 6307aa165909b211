/** What a listener hears over its whole life (hidl/thermal/Thermal.cpp), while listeners come and go
    and batches of temperatures are delivered. */
module ThermalListeners {
  import opened ThermalCallbacks
  import opened ThermalWatcher
  import opened Wrappers

  datatype Operation =
    | Register(callback: Option<int>, isFilter: bool, kind: int)
    | Unregister(callback: Option<int>)
    | Deliver(temps: seq<Temperature>, answers: Answers)

  // ---- The list of listeners ----

  ghost function SettingOf(cs: seq<Setting>, cb: int): (c: Option<Setting>)
    ensures c.Some? ==> c.value in cs && c.value.callback == cb
    ensures c.None? ==> forall d :: d in cs ==> d.callback != cb
  {
    if cs == [] then None
    else if cs[|cs| - 1].callback == cb then Some(cs[|cs| - 1])
    else SettingOf(cs[..|cs| - 1], cb)
  }

  /** The list after one more operation. */
  ghost function ListAfter(cs: seq<Setting>, op: Operation): (r: seq<Setting>)
    requires DistinctCallbacks(cs)
    ensures DistinctCallbacks(r)
  {
    match op
    case Register(callback, isFilter, kind) =>
      if callback.Some? && SettingOf(cs, callback.value).None?
      then cs + [Setting(callback.value, isFilter, kind)] else cs
    case Unregister(callback) =>
      if callback.Some? then WithoutIsOrdered(cs, callback.value); Without(cs, callback.value) else cs
    case Deliver(temps, answers) =>
      SurvivorsAreOrdered(cs, temps, |temps|, answers);
      Survivors(cs, temps, |temps|, answers)
  }

  ghost function ListenersAfter(ops: seq<Operation>): (cs: seq<Setting>)
    ensures DistinctCallbacks(cs)
  {
    if ops == [] then [] else ListAfter(ListenersAfter(ops[..|ops| - 1]), ops[|ops| - 1])
  }

  lemma SettingSnoc(cs: seq<Setting>, c: Setting, cb: int)
    ensures SettingOf(cs + [c], cb) == if c.callback == cb then Some(c) else SettingOf(cs, cb)
  {
    assert (cs + [c])[..|cs|] == cs;
  }

  lemma {:induction false} SettingWithout(cs: seq<Setting>, callback: int, cb: int)
    ensures SettingOf(Without(cs, callback), cb) == if cb == callback then None else SettingOf(cs, cb)
  {
    if cs != [] {
      var init, last := cs[..|cs| - 1], cs[|cs| - 1];
      SettingWithout(init, callback, cb);
      SettingSnoc(Without(init, callback), last, cb);
      assert Without(init, callback) + [] == Without(init, callback);
    }
  }

  lemma {:induction false} SettingOfSurvivor(cs: seq<Setting>, temps: seq<Temperature>, i: nat, answers: Answers,
                                             cb: int)
    requires DistinctCallbacks(cs) && i <= |temps|
    ensures var c := SettingOf(cs, cb);
            SettingOf(Survivors(cs, temps, i, answers), cb) ==
            if c.Some? && Alive(c.value, temps, i, answers) then c else None
  {
    if cs != [] {
      var init, last := cs[..|cs| - 1], cs[|cs| - 1];
      SettingOfSurvivor(init, temps, i, answers, cb);
      SettingSnoc(Survivors(init, temps, i, answers), last, cb);
      assert Survivors(init, temps, i, answers) + [] == Survivors(init, temps, i, answers);
    }
  }

  // ---- What one listener hears ----

  /** What `cb` is called with in one operation. */
  ghost function HeardNow(cs: seq<Setting>, op: Operation, cb: int): seq<Temperature> {
    var c := SettingOf(cs, cb);
    if op.Deliver? && c.Some? then Received(c.value, op.temps, |op.temps|, op.answers) else []
  }

  /** Everything `cb` is called with. */
  ghost function Heard(ops: seq<Operation>, cb: int): (log: seq<Temperature>) {
    if ops == [] then []
    else
      var init := ops[..|ops| - 1];
      Heard(init, cb) + HeardNow(ListenersAfter(init), ops[|ops| - 1], cb)
  }

  lemma OperationSnoc(ops: seq<Operation>, op: Operation, cb: int)
    ensures ListenersAfter(ops + [op]) == ListAfter(ListenersAfter(ops), op)
    ensures Heard(ops + [op], cb) == Heard(ops, cb) + HeardNow(ListenersAfter(ops), op, cb)
  {
    assert (ops + [op])[..|ops|] == ops;
  }

  /** The list object is where the operations have brought it, and every call ever made is accounted
      for. */
  ghost predicate UpToDate(t: Thermal, ops: seq<Operation>)
    reads t
  {
    t.Valid() && t.callbacks == ListenersAfter(ops) && forall cb :: CallsTo(t.calls, cb) == Heard(ops, cb)
  }

  /** Clients call nobody; a delivery calls each listener with what it receives. */
  lemma CalledNow(cs: seq<Setting>, was: seq<Call>, now: seq<Call>, op: Operation, cb: int)
    requires DistinctCallbacks(cs)
    requires if op.Deliver? then Served(cs, was, now, op.temps, |op.temps|, op.answers) else now == was
    ensures CallsTo(now, cb) == CallsTo(was, cb) + HeardNow(cs, op, cb)
  {
    var c := SettingOf(cs, cb);
    if op.Deliver? && c.Some? {
      assert c.value in cs;
    }
  }

  lemma FollowsOperation(cs: seq<Setting>, was: seq<Call>, now: seq<Call>, ops: seq<Operation>, op: Operation)
    requires cs == ListenersAfter(ops) && forall cb :: CallsTo(was, cb) == Heard(ops, cb)
    requires if op.Deliver? then Served(cs, was, now, op.temps, |op.temps|, op.answers) else now == was
    ensures ListenersAfter(ops + [op]) == ListAfter(cs, op)
    ensures forall cb :: CallsTo(now, cb) == Heard(ops + [op], cb)
  {
    OperationSnoc(ops, op, 0);
    forall cb ensures CallsTo(now, cb) == Heard(ops + [op], cb) {
      CalledNow(cs, was, now, op, cb);
      OperationSnoc(ops, op, cb);
    }
  }

  lemma ListAfterRegister(cs: seq<Setting>, callback: Option<int>, isFilter: bool, kind: int, success: bool)
    requires DistinctCallbacks(cs)
    requires success <==> callback.Some? && forall c :: c in cs ==> c.callback != callback.value
    ensures ListAfter(cs, Register(callback, isFilter, kind)) ==
            cs + if success then [Setting(callback.value, isFilter, kind)] else []
  {
    if !success {
      assert cs + [] == cs;
    }
  }

  /** The object's methods follow the operations. */
  method Perform(t: Thermal, ghost ops: seq<Operation>, op: Operation)
    requires UpToDate(t, ops)
    modifies t
    ensures UpToDate(t, ops + [op])
  {
    ghost var cs, calls := t.callbacks, t.calls;
    match op {
      case Register(callback, isFilter, kind) =>
        var success := t.RegisterThermalChangedCallback(callback, isFilter, kind);
        ListAfterRegister(cs, callback, isFilter, kind, success);
      case Unregister(callback) =>
        var success := t.UnregisterThermalChangedCallback(callback);
      case Deliver(temps, answers) =>
        t.SendThermalChangedCallback(temps, answers);
    }
    FollowsOperation(cs, calls, t.calls, ops, op);
  }

  // ---- From registration on ----

  /** The operations neither register nor unregister `cb`. */
  ghost predicate Untouched(ops: seq<Operation>, cb: int) {
    forall i :: 0 <= i < |ops| && !ops[i].Deliver? ==> ops[i].callback != Some(cb)
  }

  /** Everything delivered, in one row. */
  ghost function Delivered(ops: seq<Operation>): (log: seq<Temperature>) {
    if ops == [] then []
    else Delivered(ops[..|ops| - 1]) + if ops[|ops| - 1].Deliver? then ops[|ops| - 1].temps else []
  }

  /** The answers to these calls. */
  ghost function AnswersTo(ops: seq<Operation>): Answers {
    if ops == [] then (cb: int, i: nat) => true
    else
      var init, op := ops[..|ops| - 1], ops[|ops| - 1];
      if op.Deliver? then Joined(AnswersTo(init), |Delivered(init)|, op.answers) else AnswersTo(init)
  }

  ghost function Joined(a: Answers, n: nat, b: Answers): Answers {
    (cb: int, i: nat) => if i < n then a(cb, i) else b(cb, i - n)
  }

  lemma {:induction false} DeliveredConcat(a: seq<Operation>, b: seq<Operation>)
    ensures Delivered(a + b) == Delivered(a) + Delivered(b)
  {
    if b == [] {
      assert a + b == a;
    } else {
      assert (a + b)[..|a + b| - 1] == a + b[..|b| - 1];
      DeliveredConcat(a, b[..|b| - 1]);
    }
  }

  /** Agreeing on the first calls means having received the same. */
  lemma {:induction false} SameAnswers(c: Setting, temps: seq<Temperature>, more: seq<Temperature>, i: nat,
                                       a: Answers, b: Answers)
    requires i <= |temps| && temps <= more && forall j: nat :: j < i ==> a(c.callback, j) == b(c.callback, j)
    ensures Alive(c, temps, i, a) == Alive(c, more, i, b) && Received(c, temps, i, a) == Received(c, more, i, b)
  {
    if i > 0 {
      SameAnswers(c, temps, more, i - 1, a, b);
    }
  }

  lemma {:induction false} AliveConcat(c: Setting, s: seq<Temperature>, t: seq<Temperature>, j: nat,
                                       a: Answers, b: Answers)
    requires j <= |t|
    ensures Alive(c, s + t, |s| + j, Joined(a, |s|, b)) <==> Alive(c, s, |s|, a) && Alive(c, t, j, b)
  {
    if j == 0 {
      SameAnswers(c, s, s + t, |s|, a, Joined(a, |s|, b));
    } else {
      AliveConcat(c, s, t, j - 1, a, b);
    }
  }

  /** Two deliveries in a row are one: what comes after a failure is not received. */
  lemma {:induction false} ReceivedConcat(c: Setting, s: seq<Temperature>, t: seq<Temperature>, j: nat,
                                          a: Answers, b: Answers)
    requires j <= |t|
    ensures Received(c, s + t, |s| + j, Joined(a, |s|, b)) ==
            Received(c, s, |s|, a) + if Alive(c, s, |s|, a) then Received(c, t, j, b) else []
  {
    if j == 0 {
      SameAnswers(c, s, s + t, |s|, a, Joined(a, |s|, b));
    } else {
      AliveConcat(c, s, t, j - 1, a, b);
      var was, now, both := Received(c, s, |s|, a), Received(c, t, j - 1, b), Joined(a, |s|, b);
      assert Received(c, s + t, |s| + j - 1, both) == was + if Alive(c, s, |s|, a) then now else [] by {
        ReceivedConcat(c, s, t, j - 1, a, b);
      }
      assert was + (now + [t[j - 1]]) == was + now + [t[j - 1]];
    }
  }

  /** What the listener `c` has received of the deliveries, and whether all its calls succeeded. */
  ghost function ReceivedOf(c: Setting, ops: seq<Operation>): seq<Temperature> {
    Received(c, Delivered(ops), |Delivered(ops)|, AnswersTo(ops))
  }

  ghost predicate AliveAfter(c: Setting, ops: seq<Operation>) {
    Alive(c, Delivered(ops), |Delivered(ops)|, AnswersTo(ops))
  }

  lemma ReceivedSnoc(c: Setting, ops: seq<Operation>, op: Operation)
    ensures AliveAfter(c, ops + [op]) <==>
            AliveAfter(c, ops) && (op.Deliver? ==> Alive(c, op.temps, |op.temps|, op.answers))
    ensures ReceivedOf(c, ops + [op]) ==
            ReceivedOf(c, ops)
            + if op.Deliver? && AliveAfter(c, ops) then Received(c, op.temps, |op.temps|, op.answers) else []
  {
    assert (ops + [op])[..|ops|] == ops;
    if op.Deliver? {
      AliveConcat(c, Delivered(ops), op.temps, |op.temps|, AnswersTo(ops), op.answers);
      ReceivedConcat(c, Delivered(ops), op.temps, |op.temps|, AnswersTo(ops), op.answers);
    } else {
      assert Delivered(ops + [op]) == Delivered(ops);
    }
  }

  /** One more operation that leaves the listener alone. */
  lemma UntouchedStep(cs: seq<Setting>, op: Operation, cb: int)
    requires DistinctCallbacks(cs) && (op.Deliver? || op.callback != Some(cb))
    ensures var c := SettingOf(cs, cb);
            SettingOf(ListAfter(cs, op), cb) ==
            if op.Deliver? && c.Some? && !Alive(c.value, op.temps, |op.temps|, op.answers) then None else c
  {
    match op
    case Register(callback, isFilter, kind) =>
      if callback.Some? {
        SettingSnoc(cs, Setting(callback.value, isFilter, kind), cb);
      }
    case Unregister(callback) =>
      if callback.Some? {
        SettingWithout(cs, callback.value, cb);
      }
    case Deliver(temps, answers) =>
      SettingOfSurvivor(cs, temps, |temps|, answers, cb);
  }

  /** The operations of a listener's life: it registers after `before` and is left alone then. */
  function Life(before: seq<Operation>, c: Setting, after: seq<Operation>): seq<Operation> {
    before + [Register(Some(c.callback), c.isFilter, c.kind)] + after
  }

  lemma LifeSnoc(before: seq<Operation>, c: Setting, after: seq<Operation>, op: Operation)
    ensures Life(before, c, after + [op]) == Life(before, c, after) + [op]
  {
  }

  lemma NothingReceived(c: Setting)
    ensures AliveAfter(c, []) && ReceivedOf(c, []) == []
  {
  }

  lemma {:induction false} LifeBegins(before: seq<Operation>, c: Setting)
    requires SettingOf(ListenersAfter(before), c.callback).None?
    ensures SettingOf(ListenersAfter(Life(before, c, [])), c.callback) == if AliveAfter(c, []) then Some(c) else None
    ensures Heard(Life(before, c, []), c.callback) == Heard(before, c.callback) + ReceivedOf(c, [])
  {
    var register := Register(Some(c.callback), c.isFilter, c.kind);
    assert Life(before, c, []) == before + [register];
    OperationSnoc(before, register, c.callback);
    SettingSnoc(ListenersAfter(before), c, c.callback);
    NothingReceived(c);
  }

  lemma Associative(a: seq<Temperature>, b: seq<Temperature>, c: seq<Temperature>)
    ensures (a + b) + c == a + (b + c)
  {
  }

  /** One more operation: the listener has heard its part of what was delivered since `log`. */
  lemma {:induction false} LifeGoesOn(ops: seq<Operation>, op: Operation, c: Setting, log: seq<Temperature>,
                                      since: seq<Operation>)
    requires op.Deliver? || op.callback != Some(c.callback)
    requires SettingOf(ListenersAfter(ops), c.callback) == if AliveAfter(c, since) then Some(c) else None
    requires Heard(ops, c.callback) == log + ReceivedOf(c, since)
    ensures SettingOf(ListenersAfter(ops + [op]), c.callback) == if AliveAfter(c, since + [op]) then Some(c) else None
    ensures Heard(ops + [op], c.callback) == log + ReceivedOf(c, since + [op])
  {
    var now := HeardNow(ListenersAfter(ops), op, c.callback);
    assert ListenersAfter(ops + [op]) == ListAfter(ListenersAfter(ops), op) by {
      OperationSnoc(ops, op, c.callback);
    }
    assert Heard(ops + [op], c.callback) == Heard(ops, c.callback) + now by {
      OperationSnoc(ops, op, c.callback);
    }
    UntouchedStep(ListenersAfter(ops), op, c.callback);
    ReceivedSnoc(c, since, op);
    Associative(log, ReceivedOf(c, since), now);
  }

  /** From its registration on, a listener hears what is delivered as if it were one batch: it is
      registered exactly as long as no call has failed. */
  lemma {:induction false} HeardFromRegistration(before: seq<Operation>, c: Setting, after: seq<Operation>)
    requires Untouched(after, c.callback) && SettingOf(ListenersAfter(before), c.callback).None?
    ensures SettingOf(ListenersAfter(Life(before, c, after)), c.callback) ==
            if AliveAfter(c, after) then Some(c) else None
    ensures Heard(Life(before, c, after), c.callback) == Heard(before, c.callback) + ReceivedOf(c, after)
  {
    if after == [] {
      LifeBegins(before, c);
    } else {
      var init, op := after[..|after| - 1], after[|after| - 1];
      assert after == init + [op];
      LifeSnoc(before, c, init, op);
      HeardFromRegistration(before, c, init);
      LifeGoesOn(Life(before, c, init), op, c, Heard(before, c.callback), init);
    }
  }

  /** A row of operations, seen from one registration in it. */
  lemma {:induction false} SplitAt(ops: seq<Operation>, c: Setting, m: nat)
    requires m < |ops| && ops[m] == Register(Some(c.callback), c.isFilter, c.kind)
    ensures ops == Life(ops[..m], c, ops[m + 1..])
    ensures Delivered(ops) == Delivered(ops[..m]) + Delivered(ops[m + 1..])
  {
    var register := [ops[m]];
    assert ops == ops[..m] + register + ops[m + 1..];
    DeliveredConcat(ops[..m] + register, ops[m + 1..]);
    DeliveredConcat(ops[..m], register);
    assert register[..0] == [] && Delivered(register) == [];
  }

  /** A listener hears exactly the matching ones of what is delivered from its registration on, up to
      and including its first failing call, which ends its registration. */
  lemma ListenerHears(before: seq<Operation>, c: Setting, after: seq<Operation>, k: nat)
    requires Untouched(after, c.callback) && SettingOf(ListenersAfter(before), c.callback).None?
    requires FailsFirstAt(c, Delivered(after), k, AnswersTo(after))
    ensures Heard(Life(before, c, after), c.callback) ==
            Heard(before, c.callback)
            + Matching(c, if k == |Delivered(after)| then Delivered(after) else Delivered(after)[..k + 1])
    ensures SettingOf(ListenersAfter(Life(before, c, after)), c.callback).Some? <==> k == |Delivered(after)|
  {
    HeardFromRegistration(before, c, after);
    ListenerView(c, Delivered(after), k, AnswersTo(after));
  }
}
