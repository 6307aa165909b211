/** The inner loop of `sensors_poll_context_t::poll` (hidl/sensors/multihal.cpp): with the lock
    held, drain the sub-HALs' queues round-robin into the caller's buffer. */
module MultihalPoll {
  import opened EventQueue
  import opened SensorHandles
  import opened Subsequences

  /** An event and the queue it came from. */
  datatype Delivery = Delivery(queue: nat, event: Event)

  /** The loop's state. `taken` records every event dequeued so far, as the sub-HAL wrote it;
      `batch` the ones kept for the caller, with their handles made global. */
  datatype Scan = Scan(rings: seq<Ring>, next: nat, empties: nat, taken: seq<Delivery>, batch: seq<Delivery>)

  ghost predicate ValidRings(rings: seq<Ring>) {
    forall i :: 0 <= i < |rings| ==> rings[i].Valid()
  }

  ghost predicate ValidScan(s: Scan) {
    && ValidRings(s.rings)
    && s.empties <= |s.rings|
    && (s.next < |s.rings| || (s.next == 0 && s.rings == []))
  }

  predicate Continues(s: Scan, maxReads: nat) {
    s.empties < |s.rings| && |s.batch| < maxReads
  }

  /** One iteration. */
  function ScanOne(full: FullTable, s: Scan): (r: Scan)
    requires ValidScan(s) && s.empties < |s.rings|
    ensures ValidScan(r) && |r.rings| == |s.rings|
  {
    var ring := s.rings[s.next];
    var next' := if s.next + 1 == |s.rings| then 0 else s.next + 1;
    if ring.size == 0 then s.(next := next', empties := s.empties + 1)
    else
      var e := ring.data[ring.start];
      Scan(s.rings[s.next := ring.Dequeue()], next', 0,
           s.taken + [Delivery(s.next, e)],
           if Kept(full, e, s.next) then s.batch + [Delivery(s.next, Remap(full, e, s.next))] else s.batch)
  }

  ghost function TotalQueued(rings: seq<Ring>): (n: nat) {
    if rings == [] then 0 else rings[0].size + TotalQueued(rings[1..])
  }

  lemma {:induction false} DequeueLowersTotal(rings: seq<Ring>, i: nat)
    requires ValidRings(rings) && i < |rings| && rings[i].size > 0
    ensures TotalQueued(rings[i := rings[i].Dequeue()]) < TotalQueued(rings)
  {
    var after := rings[i := rings[i].Dequeue()];
    if i == 0 {
      assert after[1..] == rings[1..];
    } else {
      assert after[1..] == rings[1..][i - 1 := rings[1..][i - 1].Dequeue()];
      DequeueLowersTotal(rings[1..], i - 1);
    }
  }

  /** Every iteration takes an event or sees one more empty queue: the loop terminates. */
  lemma ScanMakesProgress(full: FullTable, s: Scan)
    requires ValidScan(s) && s.empties < |s.rings|
    ensures var r := ScanOne(full, s);
            || TotalQueued(r.rings) < TotalQueued(s.rings)
            || (r.rings == s.rings && |r.rings| - r.empties < |s.rings| - s.empties)
  {
    if s.rings[s.next].size > 0 {
      DequeueLowersTotal(s.rings, s.next);
    }
  }

  /** The whole loop. */
  ghost function Drain(full: FullTable, s: Scan, maxReads: nat): (r: Scan)
    requires ValidScan(s)
    ensures ValidScan(r) && |r.rings| == |s.rings| && !Continues(r, maxReads)
    decreases TotalQueued(s.rings), |s.rings| - s.empties
  {
    if Continues(s, maxReads) then
      ScanMakesProgress(full, s);
      Drain(full, ScanOne(full, s), maxReads)
    else s
  }

  // ---- What the loop has seen ----

  /** How many iterations from now queue `i` is looked at. */
  function Distance(s: Scan, i: nat): (d: nat)
    requires ValidScan(s) && i < |s.rings|
    ensures d < |s.rings|
  {
    if i >= s.next then i - s.next else i + |s.rings| - s.next
  }

  /** The last `empties` queues that were looked at are empty. */
  ghost predicate EmptiesAreEmpty(s: Scan)
    requires ValidScan(s)
  {
    forall i :: 0 <= i < |s.rings| && Distance(s, i) >= |s.rings| - s.empties ==> s.rings[i].size == 0
  }

  /** The kept events are those taken, in order, remapped, without the dropped ones. */
  ghost function Upstream(full: FullTable, taken: seq<Delivery>): (r: seq<Delivery>) {
    if taken == [] then []
    else
      var d := taken[|taken| - 1];
      Upstream(full, taken[..|taken| - 1])
      + (if Kept(full, d.event, d.queue) then [Delivery(d.queue, Remap(full, d.event, d.queue))] else [])
  }

  /** The events of one queue in a mixed sequence. */
  ghost function FromQueue(s: seq<Delivery>, q: nat): (r: seq<Event>) {
    if s == [] then []
    else FromQueue(s[..|s| - 1], q) + (if s[|s| - 1].queue == q then [s[|s| - 1].event] else [])
  }

  /** The same filter as `Upstream`, on the events of one queue. */
  ghost function UpstreamOf(full: FullTable, q: nat, events: seq<Event>): (r: seq<Event>) {
    if events == [] then []
    else
      var e := events[|events| - 1];
      UpstreamOf(full, q, events[..|events| - 1]) + (if Kept(full, e, q) then [Remap(full, e, q)] else [])
  }

  lemma UpstreamSnoc(full: FullTable, taken: seq<Delivery>, d: Delivery)
    ensures Upstream(full, taken + [d]) ==
            Upstream(full, taken)
            + (if Kept(full, d.event, d.queue) then [Delivery(d.queue, Remap(full, d.event, d.queue))] else [])
  {
    assert (taken + [d])[..|taken|] == taken;
  }

  lemma FromQueueSnoc(s: seq<Delivery>, d: Delivery, q: nat)
    ensures FromQueue(s + [d], q) == FromQueue(s, q) + (if d.queue == q then [d.event] else [])
  {
    assert (s + [d])[..|s|] == s;
  }

  lemma UpstreamOfSnoc(full: FullTable, q: nat, events: seq<Event>, e: Event)
    ensures UpstreamOf(full, q, events + [e]) ==
            UpstreamOf(full, q, events) + (if Kept(full, e, q) then [Remap(full, e, q)] else [])
  {
    assert (events + [e])[..|events|] == events;
  }

  /** Filtering commutes with looking at one queue only. */
  lemma {:induction false} UpstreamPerQueue(full: FullTable, taken: seq<Delivery>, q: nat)
    ensures FromQueue(Upstream(full, taken), q) == UpstreamOf(full, q, FromQueue(taken, q))
  {
    if taken != [] {
      var n := |taken| - 1;
      var d := taken[n];
      UpstreamPerQueue(full, taken[..n], q);
      assert taken == taken[..n] + [d];
      FromQueueSnoc(taken[..n], d, q);
      if d.queue == q {
        UpstreamOfSnoc(full, q, FromQueue(taken[..n], q), d.event);
      }
      var kept := if Kept(full, d.event, d.queue) then [Delivery(d.queue, Remap(full, d.event, d.queue))] else [];
      assert Upstream(full, taken) == Upstream(full, taken[..n]) + kept;
      if d.queue != q {
        assert FromQueue(taken, q) == FromQueue(taken[..n], q);
      }
      if kept == [] {
        assert Upstream(full, taken) == Upstream(full, taken[..n]);
      } else {
        FromQueueSnoc(Upstream(full, taken[..n]), Delivery(d.queue, Remap(full, d.event, d.queue)), q);
      }
    }
  }

  /** The events of one queue, by their positions in the mixed sequence. */
  lemma {:induction false} FromQueueIsExact(s: seq<Delivery>, q: nat) returns (at: seq<nat>)
    ensures Increasing(at, |s|) && forall j :: 0 <= j < |s| ==> (j in at <==> s[j].queue == q)
    ensures |FromQueue(s, q)| == |at| && forall i :: 0 <= i < |at| ==> FromQueue(s, q)[i] == s[at[i]].event
  {
    at := [];
    if s != [] {
      var n := |s| - 1;
      at := FromQueueIsExact(s[..n], q);
      IncreasingSnoc(at, n);
      if s[n].queue == q {
        at := at + [n];
      }
    }
  }

  /** The `i`-th delivery is the copy of the `at[i]`-th event taken, from the same queue. */
  ghost predicate AreCopies(issued: seq<FullHandle>, taken: seq<Delivery>, batch: seq<Delivery>, at: seq<nat>) {
    && Increasing(at, |taken|) && |batch| == |at|
    && (forall j :: 0 <= j < |taken| ==> (j in at <==> Arrives(issued, taken[j].queue, taken[j].event)))
    && (forall i :: 0 <= i < |at| ==>
          && batch[i].queue == taken[at[i]].queue
          && IsCopy(issued, taken[at[i]].queue, taken[at[i]].event, batch[i].event))
  }

  /** The kept events are copies of those taken that may arrive, in order. */
  lemma {:induction false} UpstreamIsExact(issued: seq<FullHandle>, global: GlobalTable, full: FullTable,
                                           taken: seq<Delivery>) returns (at: seq<nat>)
    requires TablesFor(issued, global, full)
    ensures AreCopies(issued, taken, Upstream(full, taken), at)
  {
    at := [];
    if taken != [] {
      var n := |taken| - 1;
      var d := taken[n];
      at := UpstreamIsExact(issued, global, full, taken[..n]);
      IncreasingSnoc(at, n);
      KeptIffKnown(issued, global, full, d.event, d.queue);
      RemapIsCopy(issued, global, full, d.event, d.queue);
      if Kept(full, d.event, d.queue) {
        at := at + [n];
      }
    }
  }

  // ---- Fairness ----

  ghost predicate TakesFrom(s: Scan, k: int, q: nat) {
    0 <= k < |s.taken| && s.taken[k].queue == q
  }

  /** Queue `q` is taken from strictly between positions `i` and `j`. */
  ghost predicate TakenBetween(s: Scan, i: int, j: int, q: nat) {
    exists k :: i < k < j && TakesFrom(s, k, q)
  }

  /** Between two events of one queue every other queue had its turn, or it has none left. */
  ghost predicate TakesTurns(s: Scan) {
    forall i, j, r: nat, q: nat ::
      TakesFrom(s, i, r) && TakesFrom(s, j, r) && i < j && q < |s.rings| && q != r ==>
        TakenBetween(s, i, j, q) || s.rings[q].size == 0
  }

  /** A queue that was looked at after the last event of `r` was taken has given an event since
      then, or it has none left. */
  ghost predicate TurnsInProgress(s: Scan)
    requires ValidScan(s)
  {
    forall i, r: nat, q: nat ::
      && r < |s.rings| && q < |s.rings| && TakesFrom(s, i, r)
      && !TakenBetween(s, i, |s.taken|, r) && s.rings[r].size > 0 && Distance(s, q) > Distance(s, r) ==>
        TakenBetween(s, i, |s.taken|, q) || s.rings[q].size == 0
  }

  ghost predicate QueuesInRange(s: Scan) {
    forall k :: 0 <= k < |s.taken| ==> s.taken[k].queue < |s.rings|
  }

  lemma TakenBetweenGrows(s: Scan, s': Scan, i: int, j: int, q: nat)
    requires s.taken <= s'.taken && j <= |s.taken|
    ensures TakenBetween(s, i, j, q) <==> TakenBetween(s', i, j, q)
  {
    if TakenBetween(s, i, j, q) {
      var k :| i < k < j && TakesFrom(s, k, q);
      assert TakesFrom(s', k, q);
    }
    if TakenBetween(s', i, j, q) {
      var k :| i < k < j && TakesFrom(s', k, q);
      assert TakesFrom(s, k, q);
    }
  }

  lemma TakenBetweenWidens(s: Scan, a: int, b: int, i: int, j: int, q: nat)
    requires i <= a && b <= j
    ensures TakenBetween(s, a, b, q) ==> TakenBetween(s, i, j, q)
  {
  }

  lemma {:induction false} LastTake(s: Scan, i: int, r: nat) returns (last: int)
    requires TakesFrom(s, i, r)
    ensures i <= last && TakesFrom(s, last, r) && !TakenBetween(s, last, |s.taken|, r)
    decreases |s.taken| - i
  {
    if TakenBetween(s, i, |s.taken|, r) {
      var k :| i < k < |s.taken| && TakesFrom(s, k, r);
      last := LastTake(s, k, r);
    } else {
      last := i;
    }
  }

  lemma DistanceAfter(full: FullTable, s: Scan, i: nat)
    requires ValidScan(s) && s.empties < |s.rings| && i < |s.rings|
    ensures Distance(ScanOne(full, s), i) ==
            if i == s.next then |s.rings| - 1 else Distance(s, i) - 1
  {
  }

  lemma TurnsStep(full: FullTable, s: Scan)
    requires ValidScan(s) && s.empties < |s.rings| && QueuesInRange(s)
    requires TakesTurns(s) && TurnsInProgress(s)
    ensures TakesTurns(ScanOne(full, s))
  {
    var s' := ScanOne(full, s);
    var m, x := |s.taken|, s.next;
    forall i, j, r: nat, q: nat
      | TakesFrom(s', i, r) && TakesFrom(s', j, r) && i < j && q < |s'.rings| && q != r
      ensures TakenBetween(s', i, j, q) || s'.rings[q].size == 0
    {
      assert TakesFrom(s, i, r);
      if j < m {
        assert TakesFrom(s, j, r);
        TakenBetweenGrows(s, s', i, j, q);
      } else {
        // The new event is from `r`, whose turn it was.
        var last := LastTake(s, i, r);
        assert Distance(s, q) > Distance(s, r);
        if TakenBetween(s, last, m, q) {
          var k :| last < k < m && TakesFrom(s, k, q);
          assert TakesFrom(s', k, q);
        }
      }
    }
  }

  lemma TurnsInProgressStep(full: FullTable, s: Scan)
    requires ValidScan(s) && s.empties < |s.rings| && QueuesInRange(s) && TurnsInProgress(s)
    ensures TurnsInProgress(ScanOne(full, s))
  {
    var s' := ScanOne(full, s);
    var m, m', x := |s.taken|, |s'.taken|, s.next;
    forall i, r: nat, q: nat
      | && r < |s'.rings| && q < |s'.rings| && TakesFrom(s', i, r)
        && !TakenBetween(s', i, m', r) && s'.rings[r].size > 0 && Distance(s', q) > Distance(s', r)
      ensures TakenBetween(s', i, m', q) || s'.rings[q].size == 0
    {
      DistanceAfter(full, s, r);
      DistanceAfter(full, s, q);
      if r != x {
        assert TakesFrom(s, i, r);
        assert !TakenBetween(s, i, m, r) by {
          if TakenBetween(s, i, m, r) {
            var k :| i < k < m && TakesFrom(s, k, r);
            assert TakesFrom(s', k, r);
          }
        }
        if q == x {
          if m' > m {
            assert TakesFrom(s', m, x);
          }
        } else if TakenBetween(s, i, m, q) {
          var k :| i < k < m && TakesFrom(s, k, q);
          assert TakesFrom(s', k, q);
        }
      }
    }
  }

  // ---- The loop's invariant and what it gives at the end ----

  /** Everything the loop keeps, relative to the rings it started with. */
  ghost predicate ScanInvariant(full: FullTable, start: seq<Ring>, s: Scan) {
    && ValidScan(s) && ValidRings(start) && |start| == |s.rings|
    && EmptiesAreEmpty(s)
    && s.batch == Upstream(full, s.taken)
    && (forall q :: 0 <= q < |start| ==> start[q].Readable() == FromQueue(s.taken, q) + s.rings[q].Readable())
    && QueuesInRange(s) && TakesTurns(s) && TurnsInProgress(s)
  }

  lemma ConservedStep(full: FullTable, start: seq<Ring>, s: Scan, q: nat)
    requires ScanInvariant(full, start, s) && s.empties < |s.rings| && q < |start|
    ensures start[q].Readable() == FromQueue(ScanOne(full, s).taken, q) + ScanOne(full, s).rings[q].Readable()
  {
    var x := s.next;
    var ring := s.rings[x];
    if ring.size > 0 {
      var e := ring.data[ring.start];
      FromQueueSnoc(s.taken, Delivery(x, e), q);
      if q == x {
        DequeueTakesOldest(ring);
        TakeFirst(FromQueue(s.taken, q), e, ring.Dequeue().Readable());
      }
    }
  }

  lemma TakeFirst(a: seq<Event>, e: Event, b: seq<Event>)
    ensures a + ([e] + b) == (a + [e]) + b
  {
  }

  lemma EmptiesStep(full: FullTable, s: Scan)
    requires ValidScan(s) && s.empties < |s.rings| && EmptiesAreEmpty(s)
    ensures EmptiesAreEmpty(ScanOne(full, s))
  {
    forall i | 0 <= i < |s.rings| {
      DistanceAfter(full, s, i);
    }
  }

  lemma ScanInvariantStep(full: FullTable, start: seq<Ring>, s: Scan)
    requires ScanInvariant(full, start, s) && s.empties < |s.rings|
    ensures ScanInvariant(full, start, ScanOne(full, s))
  {
    EmptiesStep(full, s);
    TurnsStep(full, s);
    TurnsInProgressStep(full, s);
    forall q | 0 <= q < |start| {
      ConservedStep(full, start, s, q);
    }
    if s.rings[s.next].size > 0 {
      UpstreamSnoc(full, s.taken, Delivery(s.next, s.rings[s.next].data[s.rings[s.next].start]));
    }
  }

  ghost predicate IsStart(s: Scan, maxReads: nat) {
    ValidScan(s) && s.empties == 0 && s.taken == [] && s.batch == [] && maxReads > 0
  }

  lemma {:induction false} DrainKeepsInvariant(full: FullTable, start: seq<Ring>, s: Scan, maxReads: nat)
    requires ScanInvariant(full, start, s) && |s.batch| <= maxReads
    ensures ScanInvariant(full, start, Drain(full, s, maxReads))
    ensures |Drain(full, s, maxReads).batch| <= maxReads
    decreases TotalQueued(s.rings), |s.rings| - s.empties
  {
    if Continues(s, maxReads) {
      ScanMakesProgress(full, s);
      ScanInvariantStep(full, start, s);
      DrainKeepsInvariant(full, start, ScanOne(full, s), maxReads);
    }
  }

  /** What one pass over the queues does: it returns at most `maxReads` events and fewer only if
      every queue is empty; per queue, the events taken and those left are the events that were
      there, in order; the caller gets the taken ones remapped, minus the dropped ones; and no
      queue is served twice while another one that still has an event waits. */
  lemma DrainIsFaithful(full: FullTable, s: Scan, maxReads: nat)
    requires IsStart(s, maxReads)
    ensures var r := Drain(full, s, maxReads);
            && |r.batch| <= maxReads
            && (|r.batch| < maxReads ==> forall q :: 0 <= q < |r.rings| ==> r.rings[q].size == 0)
            && (forall q :: 0 <= q < |r.rings| ==>
                  && s.rings[q].Readable() == FromQueue(r.taken, q) + r.rings[q].Readable()
                  && FromQueue(r.batch, q) == UpstreamOf(full, q, FromQueue(r.taken, q)))
            && TakesTurns(r)
  {
    DrainKeepsInvariant(full, s.rings, s, maxReads);
    var r := Drain(full, s, maxReads);
    forall q | 0 <= q < |r.rings| {
      UpstreamPerQueue(full, r.taken, q);
    }
    if |r.batch| < maxReads {
      assert r.empties == |r.rings|;
      forall q | 0 <= q < |r.rings| ensures r.rings[q].size == 0 {
        assert Distance(r, q) >= |r.rings| - r.empties;
      }
    }
  }

  /** The batch of a pass, field by field: copies of what was taken and may arrive, in that order. */
  lemma BatchIsCopied(issued: seq<FullHandle>, global: GlobalTable, full: FullTable, s: Scan, maxReads: nat)
    returns (at: seq<nat>)
    requires TablesFor(issued, global, full) && IsStart(s, maxReads)
    ensures var r := Drain(full, s, maxReads);
            AreCopies(issued, r.taken, r.batch, at)
  {
    DrainKeepsInvariant(full, s.rings, s, maxReads);
    at := UpstreamIsExact(issued, global, full, Drain(full, s, maxReads).taken);
  }

  /** `steps` turns after `from`, in a circle of `n`. */
  function After(from: nat, steps: nat, n: nat): int {
    if from + steps < n then from + steps else from + steps - n
  }

  /** Where the turn was after the last event taken, or at the start. */
  ghost function ResumesAt(start: nat, taken: seq<Delivery>, n: nat): nat
    requires n > 0
  {
    if taken == [] then start else (taken[|taken| - 1].queue + 1) % n
  }

  ghost predicate TurnKept(start: nat, s: Scan) {
    && s.rings != [] && ResumesAt(start, s.taken, |s.rings|) < |s.rings| && s.empties <= |s.rings|
    && s.next == After(ResumesAt(start, s.taken, |s.rings|), s.empties, |s.rings|)
  }

  lemma TurnKeptStep(full: FullTable, start: nat, s: Scan)
    requires ValidScan(s) && s.empties < |s.rings| && TurnKept(start, s)
    ensures TurnKept(start, ScanOne(full, s))
  {
    NextIndex(s.next, |s.rings|);
  }

  lemma {:induction false} DrainKeepsTurn(full: FullTable, start: nat, s: Scan, maxReads: nat)
    requires ValidScan(s) && TurnKept(start, s)
    requires |s.batch| < maxReads || s.empties == 0
    ensures var r := Drain(full, s, maxReads);
            TurnKept(start, r) && (r.empties == |r.rings| || r.empties == 0)
    decreases TotalQueued(s.rings), |s.rings| - s.empties
  {
    if Continues(s, maxReads) {
      ScanMakesProgress(full, s);
      TurnKeptStep(full, start, s);
      DrainKeepsTurn(full, start, ScanOne(full, s), maxReads);
    }
  }

  /** The next pass begins with the queue after the one that gave the last event, or where this one began
      if there was none. */
  lemma DrainResumes(full: FullTable, s: Scan, maxReads: nat)
    requires IsStart(s, maxReads) && s.rings != []
    ensures var r := Drain(full, s, maxReads);
            r.next == if r.taken == [] then s.next else (r.taken[|r.taken| - 1].queue + 1) % |s.rings|
  {
    DrainKeepsTurn(full, s.next, s, maxReads);
  }

  lemma {:induction false} DrainTakesWhileItGoes(full: FullTable, s: Scan, maxReads: nat)
    requires ValidScan(s)
    ensures s.taken <= Drain(full, s, maxReads).taken
    decreases TotalQueued(s.rings), |s.rings| - s.empties
  {
    if Continues(s, maxReads) {
      ScanMakesProgress(full, s);
      DrainTakesWhileItGoes(full, ScanOne(full, s), maxReads);
    }
  }

  /** Between two consecutive events of one queue at most one event of any other queue is taken. */
  lemma AtMostOneInBetween(full: FullTable, s: Scan, maxReads: nat, i: int, j: int, a: int, b: int, q: nat, r: nat)
    requires IsStart(s, maxReads) && q < |s.rings| && q != r
    requires var d := Drain(full, s, maxReads);
             && TakesFrom(d, i, q) && TakesFrom(d, j, q) && i < j && !TakenBetween(d, i, j, q)
             && TakesFrom(d, a, r) && TakesFrom(d, b, r) && i < a <= b < j
    ensures a == b
  {
    TakenBetweenWidens(Drain(full, s, maxReads), a, b, i, j, q);
    if a < b {
      TurnsUpTo(full, s.rings, s, maxReads, b, j, a, q, r);
    }
  }

  /** If `q` is served at a later position `j`, it was served between any two earlier turns of `r`. */
  lemma {:induction false} TurnsUpTo(full: FullTable, start: seq<Ring>, s: Scan, maxReads: nat,
                                     b: int, j: int, a: int, q: nat, r: nat)
    requires ScanInvariant(full, start, s) && q < |s.rings| && q != r
    requires |s.taken| <= j && b < j
    requires var d := Drain(full, s, maxReads);
             TakesFrom(d, a, r) && TakesFrom(d, b, r) && a < b && TakesFrom(d, j, q)
    ensures TakenBetween(Drain(full, s, maxReads), a, b, q)
    decreases TotalQueued(s.rings), |s.rings| - s.empties
  {
    var d := Drain(full, s, maxReads);
    DrainTakesWhileItGoes(full, s, maxReads);
    assert Continues(s, maxReads);
    var s' := ScanOne(full, s);
    ScanMakesProgress(full, s);
    if |s'.taken| <= j {
      ScanInvariantStep(full, start, s);
      TurnsUpTo(full, start, s', maxReads, b, j, a, q, r);
    } else {
      DrainTakesWhileItGoes(full, s', maxReads);
      assert s'.taken[j] == d.taken[j] && s.next == q;
      assert TakesFrom(s, a, r) && TakesFrom(s, b, r);
      TakenBetweenGrows(s, d, a, b, q);
    }
  }

  // ---- The loop on the queue objects ----

  lemma DrainUnfolds(full: FullTable, s: Scan, maxReads: nat)
    requires ValidScan(s)
    ensures Drain(full, s, maxReads) == if Continues(s, maxReads) then Drain(full, ScanOne(full, s), maxReads) else s
  {
  }

  lemma NextIndex(i: int, n: int)
    requires 0 <= i < n
    ensures (i + 1) % n == if i + 1 == n then 0 else i + 1
  {
  }

  class SensorsPollContext {
    const queues: seq<SensorEventQueue>
    var nextReadIndex: int

    ghost predicate Valid()
      reads this, queues
    {
      && (0 <= nextReadIndex < |queues| || (nextReadIndex == 0 && queues == []))
      && (forall i :: 0 <= i < |queues| ==> queues[i].Valid())
      && (forall i, j :: 0 <= i < j < |queues| ==> queues[i] != queues[j])
    }

    /** The queue objects hold exactly these rings. */
    ghost predicate Holds(rings: seq<Ring>)
      reads this, queues, set i | 0 <= i < |queues| :: queues[i].data
    {
      && Valid() && |rings| == |queues|
      && forall i :: 0 <= i < |queues| ==> queues[i].AsRing() == rings[i]
    }

    constructor (queues: seq<SensorEventQueue>)
      requires forall i :: 0 <= i < |queues| ==> queues[i].Valid()
      requires forall i, j :: 0 <= i < j < |queues| ==> queues[i] != queues[j]
      ensures Valid() && this.queues == queues && nextReadIndex == 0
    {
      this.queues := queues;
      nextReadIndex := 0;
    }

    /** The caller's buffer begins with these events. */
    ghost predicate Filled(buffer: array<Event>, batch: seq<Delivery>)
      reads buffer
    {
      |batch| <= buffer.Length && forall k :: 0 <= k < |batch| ==> buffer[k] == batch[k].event
    }

    /** One look at the queue whose turn it is. */
    method ReadNext(full: FullTable, buffer: array<Event>, eventsRead: nat, ghost s: Scan)
      returns (event: bool, kept: bool)
      requires Valid() && |s.batch| == eventsRead < buffer.Length && Filled(buffer, s.batch)
      requires forall i :: 0 <= i < |queues| ==> queues[i].data != buffer
      requires ValidScan(s) && Holds(s.rings) && s.next == nextReadIndex && s.empties < |s.rings|
      modifies this, queues, buffer
      ensures Holds(ScanOne(full, s).rings) && nextReadIndex == ScanOne(full, s).next
      ensures event <==> s.rings[s.next].size > 0
      ensures kept ==> event
      ensures |ScanOne(full, s).batch| == |s.batch| + if kept then 1 else 0
      ensures Filled(buffer, ScanOne(full, s).batch)
    {
      var queue := queues[nextReadIndex];
      ghost var ring := queue.AsRing();
      ghost var index := nextReadIndex;
      event, kept := false, false;
      var slot := queue.Peek();
      if slot != -1 {
        event := true;
        assert ring.Slot(0) == ring.start;
        buffer[eventsRead] := Remap(full, queue.data[slot], nextReadIndex);
        kept := buffer[eventsRead].sensor != -1;
        assert queue.AsRing() == ring;
        var spaceSignal := queue.Dequeue();
      }
      NextIndex(nextReadIndex, |queues|);
      nextReadIndex := (nextReadIndex + 1) % |queues|;
    }

    /** Copies kept events into `buffer`, up to its length, and reports how many. `rings` is what
        the queues hold at the start. */
    method DrainQueues(full: FullTable, buffer: array<Event>, ghost rings: seq<Ring>) returns (eventsRead: nat)
      requires Holds(rings) && buffer.Length > 0
      requires forall i :: 0 <= i < |queues| ==> queues[i].data != buffer
      modifies this, queues, buffer
      ensures var r := Drain(full, Scan(rings, old(nextReadIndex), 0, [], []), buffer.Length);
              && Holds(r.rings) && nextReadIndex == r.next
              && |r.batch| == eventsRead && Filled(buffer, r.batch)
    {
      var empties := 0;
      eventsRead := 0;
      ghost var start := Scan(rings, nextReadIndex, 0, [], []);
      ghost var s := start;
      ghost var goal := Drain(full, start, buffer.Length);
      while empties < |queues| && eventsRead < buffer.Length
        invariant ValidScan(s) && Holds(s.rings) && s.next == nextReadIndex && s.empties == empties
        invariant |s.batch| == eventsRead && Filled(buffer, s.batch)
        invariant Drain(full, s, buffer.Length) == goal
        decreases TotalQueued(s.rings), |s.rings| - s.empties
      {
        var event, kept := ReadNext(full, buffer, eventsRead, s);
        if event {
          empties := 0;
          if kept {
            eventsRead := eventsRead + 1;
          }
        } else {
          empties := empties + 1;
        }
        ScanMakesProgress(full, s);
        DrainUnfolds(full, s, buffer.Length);
        s := ScanOne(full, s);
      }
      DrainUnfolds(full, s, buffer.Length);
    }
  }
}
