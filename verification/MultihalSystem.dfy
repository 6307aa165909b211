/** The whole event pipeline as a transition system (hidl/sensors/multihal.cpp): one writer task
    per sub-HAL and one poller, interleaved arbitrarily around one mutex. A writer reserves a
    region of its queue with the lock, lets the device fill it without, and commits with the lock;
    the poller drains all queues with the lock and sleeps when there is nothing. */
module MultihalSystem {
  import opened EventQueue
  import opened SensorHandles
  import opened MultihalPoll
  import opened Subsequences

  /** Where a writer task is. */
  datatype WriterPc =
    | Outside                                     // before taking the lock
    | Checking                                    // lock held, about to test for space
    | Asleep                                      // waiting for space, not signalled
    | Woken                                       // signalled, must take the lock again
    | Reserving                                   // lock held, there is space
    | Filling(first: nat, length: nat)            // inside the device's poll, no lock
    | Polled(first: nat, records: seq<Event>)     // the device returned these records, no lock
    | Committing(first: nat, records: seq<Event>) // lock held
    | Announcing                                  // lock held, records committed

  datatype PollerPc =
    | Idle
    | Entering(maxReads: nat)
    | Scanning(maxReads: nat, empties: nat, batch: seq<Delivery>) // lock held
    | Sleeping(maxReads: nat)                                     // not signalled
    | Signalled(maxReads: nat)                                    // must take the lock again

  datatype Holder = Nobody | Writer(w: nat) | Poller

  /** A dequeued event, and the handles that had been issued by then. */
  datatype Taken = Taken(event: Event, known: seq<FullHandle>)

  /** A queue with its writer task. `produced` is what the device delivered and the writer
      committed, `consumed` what the poller dequeued, both since the start. */
  datatype Channel = Channel(ring: Ring, writer: WriterPc, produced: seq<Event>, consumed: seq<Taken>)

  /** `returned` is everything poll calls have given to their caller since the start; `issued` are the
      sensors that have global handles, which the tables follow. */
  datatype State = State(channels: seq<Channel>, poller: PollerPc, next: nat, waiting: bool,
                         holder: Holder, returned: seq<Delivery>, issued: seq<FullHandle>)

  datatype WriterAction =
    | Lock
    | SleepForSpace
    | FindSpace
    | Reserve
    | DeviceStore(i: nat, event: Event)
    | DeviceReturn(count: int)
    | LockAgain
    | Mark
    | Announce
    | SpuriousWake

  datatype PollerAction = Call(limit: nat) | Enter | Look | Sleep | Return | WakeSpuriously

  /** Building the sensor list assigns handles one by one, under a lock of its own and so at any time:
      the writers are started, and poll may be called, before or while the list is built. */
  datatype Step =
    | WriterStep(w: nat, writes: WriterAction)
    | PollerStep(polls: PollerAction)
    | ListStep(sensor: FullHandle)

  function Rings(s: State): (r: seq<Ring>)
    ensures |r| == |s.channels|
  {
    seq(|s.channels|, i requires 0 <= i < |s.channels| => s.channels[i].ring)
  }

  function ScanOf(s: State): (r: Scan)
    requires s.poller.Scanning?
  {
    Scan(Rings(s), s.next, s.poller.empties, [], s.poller.batch)
  }

  predicate HoldsLock(pc: WriterPc) {
    pc.Checking? || pc.Reserving? || pc.Committing? || pc.Announcing?
  }

  predicate Full(r: Ring) {
    r.size == |r.data|
  }

  predicate WriterEnabled(c: Channel, holder: Holder, act: WriterAction) {
    match act
    case Lock => (c.writer.Outside? || c.writer.Woken?) && holder == Nobody
    case SleepForSpace => c.writer.Checking? && Full(c.ring)
    case FindSpace => c.writer.Checking? && !Full(c.ring)
    case Reserve => c.writer.Reserving?
    case DeviceStore(i, _) => c.writer.Filling? && i < c.writer.length
    case DeviceReturn(count) => c.writer.Filling? && count <= c.writer.length
    case LockAgain => c.writer.Polled? && holder == Nobody
    case Mark => c.writer.Committing?
    case Announce => c.writer.Announcing?
    case SpuriousWake => c.writer.Asleep?
  }

  predicate PollerEnabled(s: State, act: PollerAction) {
    match act
    case Call(limit) => s.poller.Idle? && limit > 0
    case Enter => (s.poller.Entering? || s.poller.Signalled?) && s.holder == Nobody
    case Look => s.poller.Scanning? && Continues(ScanOf(s), s.poller.maxReads)
    case Sleep => s.poller.Scanning? && !Continues(ScanOf(s), s.poller.maxReads) && s.poller.batch == []
    case Return => s.poller.Scanning? && !Continues(ScanOf(s), s.poller.maxReads) && s.poller.batch != []
    case WakeSpuriously => s.poller.Sleeping?
  }

  predicate Enabled(s: State, step: Step) {
    match step
    case WriterStep(w, act) => w < |s.channels| && WriterEnabled(s.channels[w], s.holder, act)
    case PollerStep(act) => PollerEnabled(s, act)
    case ListStep(_) => true
  }

  /** The memory accesses of a step stay inside the arrays they are meant for. */
  ghost predicate InBounds(s: State, step: Step)
    requires Enabled(s, step)
  {
    match step
    case WriterStep(w, act) => ChannelInBounds(s.channels[w], act)
    case PollerStep(act) => act.Look? ==> ValidScan(ScanOf(s))
    case ListStep(_) => true
  }

  ghost predicate ChannelInBounds(c: Channel, act: WriterAction)
    requires WriterEnabled(c, Nobody, act)
  {
    && c.ring.Valid()
    && (act.DeviceStore? ==> c.writer.first + act.i < |c.ring.data|)
    && (act.DeviceReturn? && act.count > 0 ==> c.writer.first + act.count <= |c.ring.data|)
  }

  // ---- The steps ----

  /** The effect of a writer step on its own channel. */
  function StepChannel(c: Channel, act: WriterAction): (r: Channel)
    requires WriterEnabled(c, Nobody, act) && ChannelInBounds(c, act)
  {
    match act
    case Lock => c.(writer := Checking)
    case SleepForSpace => c.(writer := Asleep)
    case FindSpace => c.(writer := Reserving)
    case Reserve => c.(writer := Filling(c.ring.Slot(c.ring.size), c.ring.RegionLength(|c.ring.data|)))
    case DeviceStore(i, event) => c.(ring := c.ring.Fill(c.writer.first + i, event))
    case DeviceReturn(count) =>
      if count <= 0 then c.(writer := Outside)
      else c.(writer := Polled(c.writer.first, c.ring.data[c.writer.first..c.writer.first + count]))
    case LockAgain => c.(writer := Committing(c.writer.first, c.writer.records))
    case Mark => Channel(c.ring.Commit(|c.writer.records|), Announcing, c.produced + c.writer.records, c.consumed)
    case Announce => c.(writer := Outside)
    case SpuriousWake => c.(writer := Woken)
  }

  function StepHolder(holder: Holder, w: nat, act: WriterAction): Holder {
    match act
    case Lock => Writer(w)
    case LockAgain => Writer(w)
    case SleepForSpace => Nobody
    case Reserve => Nobody
    case Announce => Nobody
    case _ => holder
  }

  /** A broadcast on the data condition, made only when the poller has said that it waits. */
  function Broadcast(poller: PollerPc, waiting: bool): PollerPc {
    if waiting && poller.Sleeping? then Signalled(poller.maxReads) else poller
  }

  function DoWriter(s: State, w: nat, act: WriterAction): (r: State)
    requires Enabled(s, WriterStep(w, act)) && InBounds(s, WriterStep(w, act))
  {
    State(s.channels[w := StepChannel(s.channels[w], act)],
          if act.Announce? then Broadcast(s.poller, s.waiting) else s.poller,
          s.next, s.waiting, StepHolder(s.holder, w, act), s.returned, s.issued)
  }

  /** The poller takes the oldest record of a channel. Only dequeuing from a full queue signals
      its writer. */
  function TakeFrom(c: Channel, issued: seq<FullHandle>): (r: Channel)
    requires c.ring.Valid() && c.ring.size > 0
  {
    Channel(c.ring.Dequeue(),
            if Full(c.ring) && c.writer.Asleep? then Woken else c.writer,
            c.produced,
            c.consumed + [Taken(c.ring.data[c.ring.start], issued)])
  }

  function DoLook(s: State): (r: State)
    requires s.poller.Scanning? && ValidScan(ScanOf(s)) && s.poller.empties < |s.channels|
  {
    var r := ScanOne(TableOf(s.issued), ScanOf(s));
    var c := s.channels[s.next];
    s.(channels := s.channels[s.next := if c.ring.size > 0 then TakeFrom(c, s.issued) else c],
       next := r.next, poller := Scanning(s.poller.maxReads, r.empties, r.batch))
  }

  function DoPoller(s: State, act: PollerAction): (r: State)
    requires PollerEnabled(s, act) && InBounds(s, PollerStep(act))
  {
    match act
    case Call(limit) => s.(poller := Entering(limit))
    case Enter => s.(poller := Scanning(s.poller.maxReads, 0, []), waiting := false, holder := Poller)
    case Look => DoLook(s)
    case Sleep => s.(poller := Sleeping(s.poller.maxReads), waiting := true, holder := Nobody)
    case Return => s.(poller := Idle, holder := Nobody, returned := s.returned + s.poller.batch)
    case WakeSpuriously => s.(poller := Signalled(s.poller.maxReads))
  }

  function Do(s: State, step: Step): (r: State)
    requires Enabled(s, step) && InBounds(s, step)
  {
    match step
    case WriterStep(w, act) => DoWriter(s, w, act)
    case PollerStep(act) => DoPoller(s, act)
    case ListStep(sensor) => s.(issued := s.issued + [sensor])
  }

  // ---- The invariant ----

  function Events(taken: seq<Taken>): (r: seq<Event>)
    ensures |r| == |taken|
  {
    seq(|taken|, i requires 0 <= i < |taken| => taken[i].event)
  }

  lemma EventsSnoc(taken: seq<Taken>, t: Taken)
    ensures Events(taken + [t]) == Events(taken) + [t.event]
  {
  }

  /** What reaches the caller of the events dequeued from queue `q`: each one with its handle made
      global by the table of the moment, and only those left out whose `sensor` becomes -1. */
  ghost function PassedOn(q: nat, taken: seq<Taken>): (r: seq<Event>) {
    if taken == [] then []
    else
      var t := taken[|taken| - 1];
      PassedOn(q, taken[..|taken| - 1])
      + (if Kept(TableOf(t.known), t.event, q) then [Remap(TableOf(t.known), t.event, q)] else [])
  }

  lemma PassedOnSnoc(q: nat, taken: seq<Taken>, t: Taken)
    ensures PassedOn(q, taken + [t]) ==
            PassedOn(q, taken)
            + (if Kept(TableOf(t.known), t.event, q) then [Remap(TableOf(t.known), t.event, q)] else [])
  {
    assert (taken + [t])[..|taken|] == taken;
  }

  /** Events are dequeued with ever more handles known, all of them issued by now. */
  ghost predicate KnownGrows(taken: seq<Taken>, issued: seq<FullHandle>) {
    && (forall i :: 0 <= i < |taken| ==> taken[i].known <= issued)
    && (forall i, j :: 0 <= i < j < |taken| ==> taken[i].known <= taken[j].known)
  }

  /** What holds of each channel on its own, whatever the others do. */
  ghost predicate ChannelOk(c: Channel) {
    && c.ring.Valid()
    && Events(c.consumed) + c.ring.Readable() == c.produced
    && match c.writer
       case Asleep => Full(c.ring)
       case Reserving => !Full(c.ring)
       case Filling(first, length) => length > 0 && c.ring.Reserved(first, length)
       case Polled(first, records) => RecordsInPlace(c.ring, first, records)
       case Committing(first, records) => RecordsInPlace(c.ring, first, records)
       case _ => true
  }

  /** The records the device returned are still where it put them. */
  ghost predicate RecordsInPlace(r: Ring, first: nat, records: seq<Event>)
    requires r.Valid()
  {
    records != [] && r.Reserved(first, |records|) && r.data[first..first + |records|] == records
  }

  ghost predicate ChannelsOk(s: State) {
    forall w :: 0 <= w < |s.channels| ==> ChannelOk(s.channels[w])
  }

  ghost predicate LockOk(s: State) {
    && (forall w: nat :: w < |s.channels| ==> (s.holder == Writer(w) <==> HoldsLock(s.channels[w].writer)))
    && (s.holder == Poller <==> s.poller.Scanning?)
    && (s.holder.Writer? ==> s.holder.w < |s.channels|)
  }

  /** The batch a poll call has collected so far. */
  function Pending(s: State): seq<Delivery> {
    if s.poller.Scanning? then s.poller.batch else []
  }

  ghost predicate UpstreamOkAt(s: State, q: nat)
    requires q < |s.channels|
  {
    && FromQueue(s.returned + Pending(s), q) == PassedOn(q, s.channels[q].consumed)
    && KnownGrows(s.channels[q].consumed, s.issued)
  }

  ghost predicate UpstreamOk(s: State) {
    forall q: nat :: q < |s.channels| ==> UpstreamOkAt(s, q)
  }

  ghost predicate PollerOk(s: State) {
    && (s.waiting <==> s.poller.Sleeping? || s.poller.Signalled?)
    && (s.next < |s.channels| || (s.next == 0 && s.channels == []))
    && (!s.poller.Idle? ==> s.poller.maxReads > 0)
    && match s.poller
       case Scanning(maxReads, _, batch) =>
         ValidScan(ScanOf(s)) && EmptiesAreEmpty(ScanOf(s)) && |batch| <= maxReads
       case Sleeping(_) =>
         forall w: nat :: w < |s.channels| ==> s.channels[w].ring.size == 0 || s.channels[w].writer.Announcing?
       case _ => true
  }

  ghost predicate Inv(s: State) {
    ChannelsOk(s) && LockOk(s) && UpstreamOk(s) && PollerOk(s)
  }

  ghost predicate Init(s: State) {
    && (forall w :: 0 <= w < |s.channels| ==>
          var c := s.channels[w];
          0 < |c.ring.data| && c.ring.start == 0 && c.ring.size == 0
          && c.writer == Outside && c.produced == [] && c.consumed == [])
    && s.poller == Idle && s.next == 0 && !s.waiting && s.holder == Nobody && s.returned == [] && s.issued == []
  }

  lemma InitHasInv(s: State)
    requires Init(s)
    ensures Inv(s)
  {
  }

  /** The region that a writer is given. */
  lemma RegionIsReserved(r: Ring)
    requires r.Valid() && !Full(r)
    ensures r.RegionLength(|r.data|) > 0 && r.Reserved(r.Slot(r.size), r.RegionLength(|r.data|))
  {
  }

  /** What a device has written to the beginning of its region. */
  lemma WrittenIsInPlace(r: Ring, first: nat, length: nat, count: nat)
    requires r.Valid() && r.Reserved(first, length) && 0 < count <= length
    ensures RecordsInPlace(r, first, r.data[first..first + count])
  {
  }

  ghost predicate KeepsChannel(c: Channel, act: WriterAction)
    requires WriterEnabled(c, Nobody, act)
  {
    && ChannelInBounds(c, act) && ChannelOk(StepChannel(c, act))
    && StepChannel(c, act).consumed == c.consumed
    && (StepChannel(c, act).ring.size != c.ring.size ==> act.Mark?)
  }

  lemma StoreKeepsChannel(c: Channel, i: nat, event: Event)
    requires ChannelOk(c) && WriterEnabled(c, Nobody, DeviceStore(i, event))
    ensures KeepsChannel(c, DeviceStore(i, event))
  {
    FillKeepsReadable(c.ring, c.writer.first, c.writer.length, i, event);
  }

  lemma ReturnKeepsChannel(c: Channel, count: int)
    requires ChannelOk(c) && WriterEnabled(c, Nobody, DeviceReturn(count))
    ensures KeepsChannel(c, DeviceReturn(count))
  {
    if count > 0 {
      WrittenIsInPlace(c.ring, c.writer.first, c.writer.length, count);
    }
  }

  lemma MarkKeepsChannel(c: Channel)
    requires ChannelOk(c) && WriterEnabled(c, Nobody, Mark)
    ensures KeepsChannel(c, Mark)
  {
    CommitAppends(c.ring, c.writer.first, |c.writer.records|, |c.writer.records|);
    assert Events(c.consumed) + (c.ring.Readable() + c.writer.records) == c.produced + c.writer.records;
  }

  lemma WriterStepKeepsChannel(c: Channel, act: WriterAction)
    requires ChannelOk(c) && WriterEnabled(c, Nobody, act)
    ensures KeepsChannel(c, act)
  {
    match act
    case Reserve => RegionIsReserved(c.ring);
    case DeviceStore(i, event) => StoreKeepsChannel(c, i, event);
    case DeviceReturn(count) => ReturnKeepsChannel(c, count);
    case Mark => MarkKeepsChannel(c);
    case _ =>
  }

  lemma TakeKeepsChannel(c: Channel, issued: seq<FullHandle>)
    requires ChannelOk(c) && c.ring.size > 0
    ensures ChannelOk(TakeFrom(c, issued))
  {
    var t, e := TakeFrom(c, issued), c.ring.data[c.ring.start];
    DequeueTakesOldest(c.ring);
    EventsSnoc(c.consumed, Taken(e, issued));
    TakeFirst(Events(c.consumed), e, t.ring.Readable());
  }

  lemma WriterLockAgrees(c: Channel, holder: Holder, w: nat, act: WriterAction)
    requires WriterEnabled(c, holder, act) && ChannelInBounds(c, act)
    requires holder == Writer(w) <==> HoldsLock(c.writer)
    ensures StepHolder(holder, w, act) == Writer(w) <==> HoldsLock(StepChannel(c, act).writer)
    ensures var h := StepHolder(holder, w, act);
            h == holder || ((holder == Nobody || holder == Writer(w)) && (h == Nobody || h == Writer(w)))
  {
  }

  lemma WriterKeepsLock(s: State, w: nat, act: WriterAction)
    requires Inv(s) && Enabled(s, WriterStep(w, act))
    ensures InBounds(s, WriterStep(w, act)) && LockOk(DoWriter(s, w, act))
  {
    WriterStepKeepsChannel(s.channels[w], act);
    WriterLockAgrees(s.channels[w], s.holder, w, act);
  }

  lemma WriterKeepsUpstream(s: State, w: nat, act: WriterAction)
    requires Inv(s) && Enabled(s, WriterStep(w, act))
    ensures InBounds(s, WriterStep(w, act)) && UpstreamOk(DoWriter(s, w, act))
  {
    var s' := DoWriter(s, w, act);
    WriterStepKeepsChannel(s.channels[w], act);
    assert Pending(s') == Pending(s);
    forall q: nat | q < |s.channels| ensures UpstreamOkAt(s', q) {
      assert UpstreamOkAt(s, q);
    }
  }

  ghost predicate SameSizes(s: State, s': State) {
    && |s'.channels| == |s.channels|
    && forall i :: 0 <= i < |s.channels| ==>
         s'.channels[i].ring.Valid() && s'.channels[i].ring.size == s.channels[i].ring.size
  }

  /** A scan depends on the sizes of the rings only. */
  lemma SameSizesKeepScan(s: State, s': State)
    requires s.poller.Scanning? && s'.poller == s.poller && s'.next == s.next && s'.waiting == s.waiting
    requires PollerOk(s) && SameSizes(s, s')
    ensures PollerOk(s')
  {
    forall i | 0 <= i < |s.channels| && Distance(ScanOf(s'), i) >= |s.channels| - s.poller.empties
      ensures ScanOf(s').rings[i].size == 0
    {
      assert Distance(ScanOf(s), i) == Distance(ScanOf(s'), i);
      assert ScanOf(s).rings[i].size == 0;
    }
  }

  /** While the poller scans, no writer commits; while it sleeps, a commit is followed by a signal. */
  lemma WriterKeepsPoller(s: State, w: nat, act: WriterAction)
    requires Inv(s) && Enabled(s, WriterStep(w, act))
    ensures InBounds(s, WriterStep(w, act)) && PollerOk(DoWriter(s, w, act))
  {
    WriterStepKeepsChannel(s.channels[w], act);
    if s.poller.Scanning? {
      assert s.holder != Writer(w);
      SameSizesKeepScan(s, DoWriter(s, w, act));
    }
  }

  /** One dequeued event, as it reaches the caller's log and its queue's own. */
  lemma TakenIsPassedOn(log: seq<Delivery>, taken: seq<Taken>, x: nat, q: nat, t: Taken)
    requires FromQueue(log, q) == PassedOn(q, taken)
    ensures var full := TableOf(t.known);
            FromQueue(if Kept(full, t.event, x) then log + [Delivery(x, Remap(full, t.event, x))] else log, q) ==
            PassedOn(q, if q == x then taken + [t] else taken)
  {
    FromQueueSnoc(log, Delivery(x, Remap(TableOf(t.known), t.event, x)), q);
    PassedOnSnoc(x, taken, t);
  }

  lemma AppendToLog(returned: seq<Delivery>, batch: seq<Delivery>, d: Delivery)
    ensures returned + (batch + [d]) == (returned + batch) + [d]
  {
  }

  /** What a look at a queue that is not empty does to the logs. */
  lemma LookTakes(s: State)
    requires s.poller.Scanning? && ValidScan(ScanOf(s)) && s.poller.empties < |s.channels|
    requires s.channels[s.next].ring.Valid() && s.channels[s.next].ring.size > 0
    ensures var x, s', full := s.next, DoLook(s), TableOf(s.issued);
            var e := s.channels[x].ring.data[s.channels[x].ring.start];
            var log := s.returned + Pending(s);
            && s'.channels == s.channels[x := TakeFrom(s.channels[x], s.issued)] && s'.issued == s.issued
            && s'.returned + Pending(s') ==
               if Kept(full, e, x) then log + [Delivery(x, Remap(full, e, x))] else log
  {
    var x, full := s.next, TableOf(s.issued);
    var e := s.channels[x].ring.data[s.channels[x].ring.start];
    AppendToLog(s.returned, s.poller.batch, Delivery(x, Remap(full, e, x)));
  }

  lemma KnownGrowsSnoc(taken: seq<Taken>, e: Event, issued: seq<FullHandle>)
    requires KnownGrows(taken, issued)
    ensures KnownGrows(taken + [Taken(e, issued)], issued)
  {
  }

  lemma TakenKeepsUpstreamAt(s: State, s': State, e: Event, q: nat)
    requires q < |s.channels| == |s'.channels| && UpstreamOkAt(s, q) && s'.issued == s.issued
    requires s'.channels[q].consumed ==
             if q == s.next then s.channels[q].consumed + [Taken(e, s.issued)] else s.channels[q].consumed
    requires var log, full := s.returned + Pending(s), TableOf(s.issued);
             s'.returned + Pending(s') ==
             if Kept(full, e, s.next) then log + [Delivery(s.next, Remap(full, e, s.next))] else log
    ensures UpstreamOkAt(s', q)
  {
    TakenIsPassedOn(s.returned + Pending(s), s.channels[q].consumed, s.next, q, Taken(e, s.issued));
    KnownGrowsSnoc(s.channels[q].consumed, e, s.issued);
  }

  lemma LookKeepsUpstreamAt(s: State, q: nat)
    requires s.poller.Scanning? && ValidScan(ScanOf(s)) && s.poller.empties < |s.channels|
    requires s.channels[s.next].ring.Valid() && q < |s.channels| && UpstreamOkAt(s, q)
    ensures UpstreamOkAt(DoLook(s), q)
  {
    var c := s.channels[s.next];
    if c.ring.size > 0 {
      LookTakes(s);
      TakenKeepsUpstreamAt(s, DoLook(s), c.ring.data[c.ring.start], q);
    }
  }

  lemma ScanKeepsUpstream(s: State)
    requires s.poller.Scanning? && ValidScan(ScanOf(s)) && s.poller.empties < |s.channels| && UpstreamOk(s)
    ensures UpstreamOk(DoLook(s))
  {
    assert ScanOf(s).rings[s.next].Valid();
    forall q: nat | q < |s.channels| ensures UpstreamOkAt(DoLook(s), q) {
      LookKeepsUpstreamAt(s, q);
    }
  }

  lemma ScanKeepsPoller(s: State)
    requires Inv(s) && PollerEnabled(s, Look)
    ensures PollerOk(DoLook(s))
  {
    EmptiesStep(TableOf(s.issued), ScanOf(s));
    var r := ScanOne(TableOf(s.issued), ScanOf(s));
    assert ScanOf(DoLook(s)).rings == r.rings;
    forall i: nat | i < |s.channels| ensures Distance(ScanOf(DoLook(s)), i) == Distance(r, i) {
    }
  }

  lemma ScanKeepsInv(s: State)
    requires Inv(s) && PollerEnabled(s, Look)
    ensures Inv(DoLook(s))
  {
    ScanKeepsUpstream(s);
    ScanKeepsPoller(s);
    if s.channels[s.next].ring.size > 0 {
      TakeKeepsChannel(s.channels[s.next], s.issued);
    }
  }

  lemma PollerStepKeepsInv(s: State, act: PollerAction)
    requires Inv(s) && PollerEnabled(s, act) && !act.Look?
    ensures Inv(DoPoller(s, act))
  {
    var s' := DoPoller(s, act);
    assert s'.returned + Pending(s') == s.returned + Pending(s);
    forall q: nat | q < |s.channels| ensures UpstreamOkAt(s', q) {
      assert UpstreamOkAt(s, q);
    }
    if act.Sleep? {
      forall w: nat | w < |s.channels| ensures s.channels[w].ring.size == 0 {
        assert Distance(ScanOf(s), w) >= |s.channels| - s.poller.empties;
        assert ScanOf(s).rings[w].size == 0;
      }
    }
  }

  lemma ListStepKeepsInv(s: State, sensor: FullHandle)
    requires Inv(s)
    ensures Inv(Do(s, ListStep(sensor)))
  {
    var s' := Do(s, ListStep(sensor));
    assert s.poller.Scanning? ==> ScanOf(s') == ScanOf(s);
    forall q: nat | q < |s.channels| ensures UpstreamOkAt(s', q) {
      assert UpstreamOkAt(s, q);
    }
  }

  /** Every step of any writer, any device and the poller keeps the invariant, and none of them
      leaves the arrays. */
  lemma StepKeepsInv(s: State, step: Step)
    requires Inv(s) && Enabled(s, step)
    ensures InBounds(s, step) && Inv(Do(s, step))
  {
    match step
    case WriterStep(w, act) =>
      WriterStepKeepsChannel(s.channels[w], act);
      WriterKeepsLock(s, w, act);
      WriterKeepsUpstream(s, w, act);
      WriterKeepsPoller(s, w, act);
    case PollerStep(act) =>
      if act.Look? {
        ScanKeepsInv(s);
      } else {
        PollerStepKeepsInv(s, act);
      }
    case ListStep(sensor) => ListStepKeepsInv(s, sensor);
  }

  // ---- Runs ----

  /** A finite run from a start state, with any number of writers interleaved in any way. */
  ghost predicate IsRun(states: seq<State>, steps: seq<Step>) {
    && |states| == |steps| + 1 && Init(states[0])
    && forall k :: 0 <= k < |steps| ==> Follows(states[k], steps[k], states[k + 1])
  }

  /** A step out of bounds has no defined outcome: it may lead anywhere. */
  ghost predicate Follows(s: State, step: Step, s': State) {
    Enabled(s, step) && (InBounds(s, step) ==> s' == Do(s, step))
  }

  /** Every state of every run has the invariant, and every step any task could take next is in
      bounds. */
  lemma {:induction false} RunHasInv(states: seq<State>, steps: seq<Step>, k: nat)
    requires IsRun(states, steps) && k < |states|
    ensures Inv(states[k])
    ensures forall step :: Enabled(states[k], step) ==> InBounds(states[k], step)
    decreases k
  {
    if k == 0 {
      InitHasInv(states[0]);
    } else {
      RunHasInv(states, steps, k - 1);
      assert Follows(states[k - 1], steps[k - 1], states[k]);
      StepKeepsInv(states[k - 1], steps[k - 1]);
    }
    forall step | Enabled(states[k], step) ensures InBounds(states[k], step) {
      StepKeepsInv(states[k], step);
    }
  }

  /** No event is lost, duplicated or reordered, in any interleaving: for each queue, what was
      dequeued followed by what is readable is what its writer committed; and what poll calls
      gave upstream from it, with the batch in progress, is the dequeued sequence with handles
      made global and only the events with sensor -1 left out. The tables used for it are those of
      handles issued so far, and never older ones than before. */
  lemma NothingLost(states: seq<State>, steps: seq<Step>, k: nat, q: nat)
    requires IsRun(states, steps) && k < |states| && q < |states[k].channels|
    ensures var s := states[k];
            var c := s.channels[q];
            && c.ring.Valid() && Events(c.consumed) + c.ring.Readable() == c.produced
            && FromQueue(s.returned + Pending(s), q) == PassedOn(q, c.consumed)
            && KnownGrows(c.consumed, s.issued)
  {
    RunHasInv(states, steps, k);
    assert UpstreamOkAt(states[k], q);
  }

  lemma {:induction false} PassedOnIsExact(q: nat, taken: seq<Taken>) returns (at: seq<nat>)
    ensures Increasing(at, |taken|)
    ensures forall j :: 0 <= j < |taken| ==> (j in at <==> Arrives(taken[j].known, q, taken[j].event))
    ensures |PassedOn(q, taken)| == |at|
    ensures forall i :: 0 <= i < |at| ==>
              IsCopy(taken[at[i]].known, q, taken[at[i]].event, PassedOn(q, taken)[i])
  {
    at := [];
    if taken != [] {
      var n := |taken| - 1;
      var t := taken[n];
      at := PassedOnIsExact(q, taken[..n]);
      IncreasingSnoc(at, n);
      TableOfIsTable(t.known);
      KeptIffKnown(t.known, GlobalOf(t.known), TableOf(t.known), t.event, q);
      RemapIsCopy(t.known, GlobalOf(t.known), TableOf(t.known), t.event, q);
      if Kept(TableOf(t.known), t.event, q) {
        at := at + [n];
      }
    }
  }

  /** The same, event by event and field by field. Of what was dequeued from a queue, exactly the events
      at positions `from` have been passed on, and of all that was passed on, exactly the events at
      positions `to` are from that queue. The `i`-th of these is the copy of the `i`-th of those: it
      differs in the handle only, which is the one that its sensor had been given by then. */
  lemma EachEventIsCopied(states: seq<State>, steps: seq<Step>, k: nat, q: nat) returns (from: seq<nat>, to: seq<nat>)
    requires IsRun(states, steps) && k < |states| && q < |states[k].channels|
    ensures var consumed, log := states[k].channels[q].consumed, states[k].returned + Pending(states[k]);
            && Increasing(from, |consumed|) && Increasing(to, |log|) && |from| == |to|
            && (forall j :: 0 <= j < |consumed| ==> (j in from <==> Arrives(consumed[j].known, q, consumed[j].event)))
            && (forall j :: 0 <= j < |log| ==> (j in to <==> log[j].queue == q))
            && (forall i :: 0 <= i < |from| ==>
                  IsCopy(consumed[from[i]].known, q, consumed[from[i]].event, log[to[i]].event))
  {
    NothingLost(states, steps, k, q);
    from := PassedOnIsExact(q, states[k].channels[q].consumed);
    to := FromQueueIsExact(states[k].returned + Pending(states[k]), q);
  }

  /** What the device of writer `w` returned in step `j`: the first `count` records of its region. */
  ghost function ReturnedNow(s: State, step: Step, w: nat): (r: seq<Event>)
    requires Enabled(s, step) && InBounds(s, step)
  {
    match step
    case WriterStep(x, DeviceReturn(count)) =>
      var c := s.channels[x];
      if x == w && count > 0 then c.ring.data[c.writer.first..c.writer.first + count] else []
    case _ => []
  }

  /** Everything that the device has returned in the first `k` steps. */
  ghost function ReturnedSoFar(states: seq<State>, steps: seq<Step>, w: nat, k: nat): (r: seq<Event>)
    requires IsRun(states, steps) && k <= |steps|
  {
    if k == 0 then []
    else
      RunHasInv(states, steps, k - 1);
      assert Follows(states[k - 1], steps[k - 1], states[k]);
      ReturnedSoFar(states, steps, w, k - 1) + ReturnedNow(states[k - 1], steps[k - 1], w)
  }

  /** Records that the device has returned and its writer has not yet committed. */
  function Uncommitted(c: Channel): seq<Event> {
    if c.writer.Polled? || c.writer.Committing? then c.writer.records else []
  }

  /** What is committed, with what is still to be committed. */
  function Handed(c: Channel): seq<Event> {
    c.produced + Uncommitted(c)
  }

  lemma ChannelHands(c: Channel, act: WriterAction)
    requires WriterEnabled(c, Nobody, act) && ChannelInBounds(c, act)
    ensures Handed(StepChannel(c, act)) ==
            Handed(c) + if act.DeviceReturn? && act.count > 0
                        then c.ring.data[c.writer.first..c.writer.first + act.count] else []
  {
    assert Handed(c) + [] == Handed(c);
    if act.Mark? {
      assert c.produced + c.writer.records + [] == Handed(c);
    }
  }

  lemma TakeHands(c: Channel, issued: seq<FullHandle>)
    requires c.ring.Valid() && c.ring.size > 0
    ensures Handed(TakeFrom(c, issued)) == Handed(c)
  {
  }

  lemma {:induction false} StepHands(s: State, step: Step, w: nat)
    requires Inv(s) && Enabled(s, step) && InBounds(s, step) && w < |s.channels|
    ensures |Do(s, step).channels| == |s.channels|
    ensures Handed(Do(s, step).channels[w]) == Handed(s.channels[w]) + ReturnedNow(s, step, w)
  {
    assert Handed(s.channels[w]) + [] == Handed(s.channels[w]);
    match step
    case WriterStep(x, act) =>
      if x == w {
        ChannelHands(s.channels[w], act);
      }
    case PollerStep(act) =>
      if act.Look? && s.next == w && s.channels[w].ring.size > 0 {
        TakeHands(s.channels[w], s.issued);
      }
    case ListStep(_) =>
  }

  /** Whatever a device returns is committed, in full and in order. */
  lemma {:induction false} AllReturnedIsCommitted(states: seq<State>, steps: seq<Step>, k: nat, w: nat)
    requires IsRun(states, steps) && k < |states| && w < |states[0].channels|
    ensures |states[k].channels| == |states[0].channels|
    ensures ReturnedSoFar(states, steps, w, k) == states[k].channels[w].produced + Uncommitted(states[k].channels[w])
    decreases k
  {
    if k > 0 {
      AllReturnedIsCommitted(states, steps, k - 1, w);
      RunHasInv(states, steps, k - 1);
      assert Follows(states[k - 1], steps[k - 1], states[k]);
      StepHands(states[k - 1], steps[k - 1], w);
    }
  }

  /** An ordinary event reaches the caller exactly when its sensor had been listed by the time of its
      dequeue, and then under the handle that the sensor has for good. */
  lemma ArrivesIffListed(states: seq<State>, steps: seq<Step>, k: nat, q: nat, i: nat)
    requires IsRun(states, steps) && k < |states| && q < |states[k].channels|
    requires i < |states[k].channels[q].consumed| && Distinct(states[k].issued)
    requires states[k].channels[q].consumed[i].event.body.Sample?
    ensures var t := states[k].channels[q].consumed[i];
            var f := FullHandle(q, t.event.sensor);
            && (Kept(TableOf(t.known), t.event, q) <==> f in t.known)
            && (f in t.known ==> f in TableOf(states[k].issued)
                                 && Remap(TableOf(t.known), t.event, q).sensor == TableOf(states[k].issued)[f])
  {
    var t := states[k].channels[q].consumed[i];
    var f := FullHandle(q, t.event.sensor);
    NothingLost(states, steps, k, q);
    TableOfIsTable(t.known);
    KeptIffKnown(t.known, GlobalOf(t.known), TableOf(t.known), t.event, q);
    if f in t.known {
      HandlesNeverChange(t.known, states[k].issued, f);
    }
  }

  /** At every moment of any run, the region a device is filling without the lock starts right
      after the readable records, meets none of them and fits; and what a device has returned is
      still in place when its writer gets to commit it. */
  lemma RegionsStaySafe(states: seq<State>, steps: seq<Step>, k: nat, q: nat)
    requires IsRun(states, steps) && k < |states| && q < |states[k].channels|
    ensures var c := states[k].channels[q];
            && c.ring.Valid()
            && (c.writer.Filling? ==>
                  && c.writer.length > 0
                  && c.writer.first == (c.ring.start + c.ring.size) % |c.ring.data|
                  && c.writer.length <= |c.ring.data| - c.ring.size
                  && forall j: nat :: j < c.ring.size ==>
                       !(c.writer.first <= c.ring.Slot(j) < c.writer.first + c.writer.length))
            && (c.writer.Committing? ==>
                  && c.ring.Commit(|c.writer.records|).Valid()
                  && c.ring.Commit(|c.writer.records|).Readable() == c.ring.Readable() + c.writer.records)
  {
    RunHasInv(states, steps, k);
    var c := states[k].channels[q];
    if c.writer.Filling? {
      SlotIsRemainder(c.ring, c.ring.size);
      forall j: nat | j < c.ring.size
        ensures !(c.writer.first <= c.ring.Slot(j) < c.writer.first + c.writer.length)
      {
        if c.writer.first <= c.ring.Slot(j) < c.writer.first + c.writer.length {
          ReservedIsDisjoint(c.ring, c.writer.first, c.writer.length, c.ring.Slot(j) - c.writer.first, j);
        }
      }
    }
    if c.writer.Committing? {
      CommitAppends(c.ring, c.writer.first, |c.writer.records|, |c.writer.records|);
    }
  }

  /** No wake-up is lost. A poller that sleeps unsignalled has announced that it waits, and the
      only queue that can hold an event is that of a writer which holds the lock and is about to
      signal; a writer that sleeps unsignalled has a full queue. */
  lemma NoLostWakeUps(states: seq<State>, steps: seq<Step>, k: nat, q: nat)
    requires IsRun(states, steps) && k < |states| && q < |states[k].channels|
    ensures var s := states[k];
            var c := s.channels[q];
            && (s.poller.Sleeping? ==>
                 s.waiting && (c.ring.size == 0 || (s.holder == Writer(q) && c.writer.Announcing?)))
            && (s.poller.Sleeping? && s.holder == Nobody ==> c.ring.size == 0)
            && (c.writer.Asleep? ==> Full(c.ring))
            && !(s.poller.Sleeping? && c.writer.Asleep?)
  {
    RunHasInv(states, steps, k);
    assert HoldsLock(states[k].channels[q].writer) <==> states[k].holder == Writer(q);
  }

  /** A poll call that returns gives between one and `maxReads` events, and fewer only if nothing is
      left in the queues. */
  lemma PollReturnsSome(states: seq<State>, steps: seq<Step>, k: nat)
    requires IsRun(states, steps) && k < |steps| && steps[k] == PollerStep(Return)
    ensures states[k].poller.Scanning?
    ensures 1 <= |states[k].poller.batch| <= states[k].poller.maxReads
    ensures |states[k].poller.batch| < states[k].poller.maxReads ==>
              forall q :: 0 <= q < |states[k].channels| ==> states[k].channels[q].ring.size == 0
    ensures states[k + 1].returned == states[k].returned + states[k].poller.batch
  {
    RunHasInv(states, steps, k);
    assert Follows(states[k], steps[k], states[k + 1]);
    var s := states[k];
    if |s.poller.batch| < s.poller.maxReads {
      forall q | 0 <= q < |s.channels| ensures s.channels[q].ring.size == 0 {
        assert Distance(ScanOf(s), q) >= |s.channels| - s.poller.empties;
        assert ScanOf(s).rings[q].size == 0;
      }
    }
  }

  // ---- Fairness over poll calls ----

  /** Step `k` dequeues an event from queue `q`. */
  ghost predicate Serves(states: seq<State>, steps: seq<Step>, k: int, q: nat) {
    && 0 <= k < |steps| && k < |states| && steps[k] == PollerStep(Look) && states[k].next == q
    && q < |states[k].channels| && states[k].channels[q].ring.size > 0
  }

  /** How many looks from now queue `i` of `n` is looked at. */
  function LooksUntil(next: nat, i: nat, n: nat): int {
    if i >= next then i - next else i + n - next
  }

  lemma StepMovesNext(s: State, step: Step)
    requires Inv(s) && Enabled(s, step)
    ensures InBounds(s, step) && |Do(s, step).channels| == |s.channels|
    ensures Do(s, step).next ==
            if step != PollerStep(Look) then s.next else if s.next + 1 == |s.channels| then 0 else s.next + 1
  {
    StepKeepsInv(s, step);
  }

  lemma NextLook(next: nat, q: nat, r: nat, n: nat)
    requires next < n && q < n && r < n && q != next && LooksUntil(next, q, n) < LooksUntil(next, r, n)
    ensures var next' := if next + 1 == n then 0 else next + 1;
            LooksUntil(next', q, n) < LooksUntil(next', r, n)
  {
  }

  ghost predicate Before(s: State, q: nat, r: nat) {
    q < |s.channels| && r < |s.channels| && LooksUntil(s.next, q, |s.channels|) < LooksUntil(s.next, r, |s.channels|)
  }

  lemma StepKeepsOrder(s: State, step: Step, q: nat, r: nat)
    requires Inv(s) && Enabled(s, step) && Before(s, q, r) && (step == PollerStep(Look) ==> s.next != q)
    ensures InBounds(s, step) && Before(Do(s, step), q, r)
  {
    StepMovesNext(s, step);
    if step == PollerStep(Look) {
      NextLook(s.next, q, r, |s.channels|);
    }
  }

  /** After `r` has been served, `q` comes before `r` again, until it is served. */
  lemma {:induction false} ComesBefore(states: seq<State>, steps: seq<Step>, a: nat, k: nat, r: nat, q: nat)
    requires IsRun(states, steps) && a < k < |states| && Serves(states, steps, a, r)
    requires q < |states[a].channels| && q != r
    requires forall j :: a < j < k ==> !Serves(states, steps, j, q)
    requires forall j :: a < j < k && q < |states[j].channels| ==> states[j].channels[q].ring.size > 0
    ensures Before(states[k], q, r)
    decreases k
  {
    var s, step := states[k - 1], steps[k - 1];
    RunHasInv(states, steps, k - 1);
    assert Follows(s, step, states[k]);
    if k == a + 1 {
      StepMovesNext(s, step);
    } else {
      ComesBefore(states, steps, a, k - 1, r, q);
      assert !Serves(states, steps, k - 1, q);
      StepKeepsOrder(s, step, q, r);
    }
  }

  /** No queue is served twice while another one waits with an event, not even by different poll
      calls: between two turns of `r` there is one of `q`. */
  lemma NobodyServedTwice(states: seq<State>, steps: seq<Step>, a: nat, b: nat, r: nat, q: nat)
    requires IsRun(states, steps) && a < b && Serves(states, steps, a, r) && Serves(states, steps, b, r)
    requires q < |states[a].channels| && q != r
    requires forall j :: a < j < b && q < |states[j].channels| ==> states[j].channels[q].ring.size > 0
    ensures exists k :: a < k < b && Serves(states, steps, k, q)
  {
    if forall k :: a < k < b ==> !Serves(states, steps, k, q) {
      ComesBefore(states, steps, a, b, r, q);
    }
  }

  /** Steps that the pipeline takes by itself: neither the devices, nor the caller of poll or of the
      sensor list, nor a spurious wake-up. */
  predicate IsOwnStep(step: Step) {
    match step
    case WriterStep(_, act) => !act.DeviceStore? && !act.DeviceReturn? && !act.SpuriousWake?
    case PollerStep(act) => !act.Call? && !act.WakeSpuriously?
    case ListStep(_) => false
  }

  /** The step the lock holder, or some task that waits for the lock, can take. */
  function OwnStep(c: Channel, w: nat): Step {
    match c.writer
    case Checking => WriterStep(w, if Full(c.ring) then SleepForSpace else FindSpace)
    case Reserving => WriterStep(w, Reserve)
    case Committing(_, _) => WriterStep(w, Mark)
    case Announcing => WriterStep(w, Announce)
    case Polled(_, _) => WriterStep(w, LockAgain)
    case _ => WriterStep(w, Lock)
  }

  lemma LockHolderCanMove(s: State) returns (step: Step)
    requires LockOk(s) && s.holder != Nobody
    ensures IsOwnStep(step) && Enabled(s, step)
  {
    if s.holder.Writer? {
      assert HoldsLock(s.channels[s.holder.w].writer);
      step := OwnStep(s.channels[s.holder.w], s.holder.w);
    } else {
      step := PollerStep(if Continues(ScanOf(s), s.poller.maxReads) then Look
                         else if s.poller.batch == [] then Sleep else Return);
    }
  }

  ghost predicate AtRest(s: State) {
    forall step :: IsOwnStep(step) ==> !Enabled(s, step)
  }

  /** Every writer is inside its device's poll or waits for space while nobody polls, and a poll call in
      progress sleeps over queues that are all empty. */
  ghost predicate Settled(s: State) {
    && (s.poller.Idle? || s.poller.Sleeping?)
    && forall q: nat :: q < |s.channels| ==>
         var c := s.channels[q];
         && (c.writer.Filling? || (c.writer.Asleep? && Full(c.ring) && s.poller.Idle?))
         && (s.poller.Sleeping? ==> c.ring.size == 0)
  }

  lemma RestIsSettled(s: State)
    requires Inv(s) && AtRest(s)
    ensures Settled(s)
  {
    if s.holder != Nobody {
      var step := LockHolderCanMove(s);
    } else {
      assert IsOwnStep(PollerStep(Enter)) && !Enabled(s, PollerStep(Enter));
      forall q: nat | q < |s.channels|
        ensures var c := s.channels[q];
                && (c.writer.Filling? || (c.writer.Asleep? && Full(c.ring) && s.poller.Idle?))
                && (s.poller.Sleeping? ==> c.ring.size == 0)
      {
        var step := OwnStep(s.channels[q], q);
        assert IsOwnStep(step) && !Enabled(s, step);
        assert s.holder != Writer(q);
      }
    }
  }

  /** No deadlock: when the code cannot move by itself, it is settled. */
  lemma NoDeadlock(states: seq<State>, steps: seq<Step>, k: nat)
    requires IsRun(states, steps) && k < |states| && AtRest(states[k])
    ensures Settled(states[k])
  {
    RunHasInv(states, steps, k);
    RestIsSettled(states[k]);
  }

  // ---- Own steps run out ----

  /** What each own step lowers: first the records still to be committed and announced, then the
      events queued, then what the writers, and last what the poller has before it. */
  datatype Rank = Rank(commits: nat, queued: nat, phases: nat, looks: nat)

  predicate Lower(a: Rank, b: Rank) {
    || a.commits < b.commits
    || (a.commits == b.commits
        && (|| a.queued < b.queued
            || (a.queued == b.queued && (a.phases < b.phases || (a.phases == b.phases && a.looks < b.looks)))))
  }

  /** Steps to announcing what the device returned. */
  function CommitsLeft(c: Channel): nat {
    match c.writer
    case Polled(_, _) => 2
    case Committing(_, _) => 2
    case Announcing => 1
    case _ => 0
  }

  function Queued(c: Channel): nat {
    c.ring.size
  }

  /** Steps to the device's poll, or to the commit. */
  function Phase(c: Channel): nat {
    match c.writer
    case Outside => 3
    case Woken => 3
    case Checking => 2
    case Reserving => 1
    case Polled(_, _) => 1
    case _ => 0
  }

  function LooksLeft(poller: PollerPc, n: nat): nat
    requires poller.Scanning? ==> poller.empties <= n
  {
    match poller
    case Entering(_) => n + 2
    case Signalled(_) => n + 2
    case Scanning(_, empties, _) => n - empties + 1
    case _ => 0
  }

  function Sum(cs: seq<Channel>, f: Channel -> nat): nat {
    if cs == [] then 0 else f(cs[0]) + Sum(cs[1..], f)
  }

  lemma {:induction false} SumUpdated(cs: seq<Channel>, f: Channel -> nat, w: nat, c: Channel)
    requires w < |cs|
    ensures Sum(cs[w := c], f) + f(cs[w]) == Sum(cs, f) + f(c)
  {
    var after := cs[w := c];
    if w == 0 {
      assert after[1..] == cs[1..];
    } else {
      assert after[1..] == cs[1..][w - 1 := c];
      SumUpdated(cs[1..], f, w - 1, c);
    }
  }

  ghost function RankOf(s: State): Rank
    requires PollerOk(s)
  {
    Rank(Sum(s.channels, CommitsLeft), Sum(s.channels, Queued), Sum(s.channels, Phase),
         LooksLeft(s.poller, |s.channels|))
  }

  /** A writer's own step on its channel. */
  lemma ChannelRanksLower(c: Channel, act: WriterAction)
    requires WriterEnabled(c, Nobody, act) && ChannelInBounds(c, act) && IsOwnStep(WriterStep(0, act))
    ensures var r := StepChannel(c, act);
            || CommitsLeft(r) < CommitsLeft(c)
            || (CommitsLeft(r) == CommitsLeft(c) && Queued(r) == Queued(c) && Phase(r) < Phase(c) && !act.Announce?)
  {
  }

  lemma WriterRanksLower(s: State, w: nat, act: WriterAction)
    requires Inv(s) && IsOwnStep(WriterStep(w, act)) && Enabled(s, WriterStep(w, act))
    ensures InBounds(s, WriterStep(w, act)) && Inv(DoWriter(s, w, act))
    ensures Lower(RankOf(DoWriter(s, w, act)), RankOf(s))
  {
    StepKeepsInv(s, WriterStep(w, act));
    var c, r := s.channels[w], StepChannel(s.channels[w], act);
    ChannelRanksLower(c, act);
    SumUpdated(s.channels, CommitsLeft, w, r);
    SumUpdated(s.channels, Queued, w, r);
    SumUpdated(s.channels, Phase, w, r);
  }

  lemma LookRanksLower(s: State)
    requires Inv(s) && PollerEnabled(s, Look)
    ensures InBounds(s, PollerStep(Look)) && Inv(DoLook(s)) && Lower(RankOf(DoLook(s)), RankOf(s))
  {
    StepKeepsInv(s, PollerStep(Look));
    var c := s.channels[s.next];
    if c.ring.size > 0 {
      SumUpdated(s.channels, CommitsLeft, s.next, TakeFrom(c, s.issued));
      SumUpdated(s.channels, Queued, s.next, TakeFrom(c, s.issued));
    } else {
      assert s.channels[s.next := c] == s.channels;
    }
  }

  /** Each own step lowers the rank. */
  lemma OwnStepRanksLower(s: State, step: Step)
    requires Inv(s) && IsOwnStep(step) && Enabled(s, step)
    ensures InBounds(s, step) && Inv(Do(s, step)) && Lower(RankOf(Do(s, step)), RankOf(s))
  {
    match step
    case WriterStep(w, act) => WriterRanksLower(s, w, act);
    case PollerStep(act) =>
      if act.Look? {
        LookRanksLower(s);
      } else {
        StepKeepsInv(s, step);
      }
  }

  /** A schedule, of any length, in which nothing but own steps happens; at rest, anything may follow. */
  ghost predicate Undisturbed(run: nat -> State, steps: nat -> Step) {
    forall k: nat :: AtRest(run(k)) || OwnStepTaken(run(k), steps(k), run(k + 1))
  }

  ghost predicate OwnStepTaken(s: State, step: Step, s': State) {
    IsOwnStep(step) && Follows(s, step, s')
  }

  lemma {:induction false} ComesToRest(run: nat -> State, steps: nat -> Step, k: nat) returns (n: nat)
    requires Undisturbed(run, steps) && Inv(run(k))
    ensures k <= n && Inv(run(n)) && AtRest(run(n))
    decreases RankOf(run(k)).commits, RankOf(run(k)).queued, RankOf(run(k)).phases, RankOf(run(k)).looks
  {
    if AtRest(run(k)) {
      n := k;
    } else {
      assert OwnStepTaken(run(k), steps(k), run(k + 1));
      OwnStepRanksLower(run(k), steps(k));
      n := ComesToRest(run, steps, k + 1);
    }
  }

  /** Left alone in any state of any run, and whatever the scheduler does, the code comes to rest: the
      poller is idle, or it sleeps because all queues have been drained. */
  lemma UndisturbedRunSettles(states: seq<State>, steps: seq<Step>, m: nat, run: nat -> State, own: nat -> Step)
    requires IsRun(states, steps) && m < |states| && run(0) == states[m] && Undisturbed(run, own)
    ensures exists n :: AtRest(run(n)) && Settled(run(n))
  {
    RunHasInv(states, steps, m);
    var n := ComesToRest(run, own, 0);
    RestIsSettled(run(n));
  }
}
