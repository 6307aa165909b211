/** Whole runs of the interrupt balancer (msm_irqbalance/msm_irqbalance.c): between two iterations the
    readings discover interrupts, each iteration issues requests and notes some of them. */
module IrqRuns {
  import opened IrqTables
  import opened IrqMoves
  import opened IrqBalancer
  import opened IrqRequests

  /** An iteration: the readings it works on, sorted, with the active CPUs by priority and, if it
      balances, by load; the interrupts seen in the readings before it; the list of interrupts before
      and after; its requests and their answers. */
  datatype Iteration = Iteration(n: nat, cpus: seq<CpuInfo>, byPrio: seq<int>, active: seq<int>, avail: nat,
                                 seen: seq<int>, listed: seq<IrqInfo>, reqs: seq<Request>, answers: seq<int>,
                                 now: seq<CpuInfo>, after: seq<IrqInfo>)

  /** The list after `init`. What it once noted is still there, but names no interrupt. */
  ghost predicate NoneListed(irqs: seq<IrqInfo>) {
    |irqs| == MAX_NUM_INTERRUPTS && forall i :: 0 <= i < |irqs| ==> irqs[i].irqNo == SLOT_AVAILABLE
  }

  /** The list when iteration `k + 1` has not begun. */
  ghost function Before(init: seq<IrqInfo>, run: seq<Iteration>, k: nat): seq<IrqInfo>
    requires k <= |run|
  {
    if k == 0 then init else run[k - 1].after
  }

  ghost predicate Prepared(it: Iteration) {
    && ValidCpus(it.cpus) && ValidActive(it.byPrio, |it.cpus|, it.n) && ValidActive(it.active, |it.cpus|, it.n)
    && SortedByPrio(it.cpus, it.byPrio, it.n) && AvailablePrefix(it.cpus, it.byPrio, it.n, it.avail)
  }

  /** What the balancer does in an iteration of that number; with fewer than two CPUs, nothing. */
  ghost predicate Executed(it: Iteration, number: nat, cfg: Config) {
    if it.n < 2 then it.reqs == [] && it.now == it.cpus && it.after == it.listed
    else
      && Prepared(it)
      && Balanced(it.cpus, it.byPrio, it.active, it.n, it.avail, it.listed, number, cfg, it.reqs, it.answers,
                  it.now, it.after)
  }

  /** Iteration `k + 1`: the readings discover interrupts, the balancer takes its step. */
  ghost predicate ValidIteration(init: seq<IrqInfo>, run: seq<Iteration>, cfg: Config, k: nat)
    requires k < |run|
  {
    Discovered(Before(init, run, k), run[k].listed, run[k].seen) && Executed(run[k], k + 1, cfg)
  }

  /** The same of an iteration that is not yet part of the run. */
  ghost predicate ValidNext(init: seq<IrqInfo>, run: seq<Iteration>, cfg: Config, it: Iteration) {
    Discovered(Before(init, run, |run|), it.listed, it.seen) && Executed(it, |run| + 1, cfg)
  }

  ghost predicate ValidRun(init: seq<IrqInfo>, run: seq<Iteration>, cfg: Config) {
    NoneListed(init) && forall k :: 0 <= k < |run| ==> ValidIteration(init, run, cfg, k)
  }

  /** The iteration takes that interrupt from that CPU, which is banned. */
  ghost predicate Takes(it: Iteration, number: nat, cfg: Config, m: Move) {
    it.n >= 2 && Prepared(it) && m in MovesFrom(it.cpus, it.byPrio, it.n, it.listed, number, cfg, 0)
  }

  ghost predicate Requested(it: Iteration, irqNo: int) {
    exists i :: 0 <= i < |it.reqs| && it.reqs[i].irqNo == irqNo
  }

  /** The iteration takes interrupts from banned CPUs. */
  ghost predicate Evacuates(it: Iteration, number: nat, cfg: Config) {
    it.n >= 2 && Prepared(it) && MovesFrom(it.cpus, it.byPrio, it.n, it.listed, number, cfg, 0) != []
  }

  lemma ExecutedIsStep(it: Iteration, number: nat, cfg: Config)
    requires ValidIrqList(it.listed)
    ensures Executed(it, number, cfg) ==> IterationStep(it.listed, it.after, it.reqs, number)
  {
    if it.n < 2 {
      UnrecordedIsNoted(it.listed, [], number);
    } else if Executed(it, number, cfg) {
      BalancedIsStep(it.cpus, it.byPrio, it.active, it.n, it.avail, it.listed, number, cfg, it.reqs, it.answers,
                     it.now, it.after);
    }
  }

  lemma {:induction false} RecordedIffBalances(it: Iteration, number: nat, cfg: Config, r: Request)
    requires number >= 2 && r in it.reqs
    ensures Executed(it, number, cfg) ==> r.recorded != Evacuates(it, number, cfg)
  {
    if Executed(it, number, cfg) {
      RecordedIffNotEvacuation(it.cpus, it.byPrio, it.active, it.n, it.avail, it.listed, number, cfg, it.reqs,
                               it.answers, it.now, it.after, r);
    }
  }

  lemma {:induction false} MovesAreRequested(it: Iteration, moves: seq<Move>, number: nat, m: Move)
    requires Lanes(it.avail) <= |it.byPrio| && m in moves
    requires it.reqs == Dealt(Numbers(moves), it.byPrio, it.avail, number, false)
    ensures Requested(it, m.irqNo)
  {
    var k :| 0 <= k < |moves| && moves[k] == m;
    assert it.reqs[k].irqNo == m.irqNo;
  }

  /** The iteration's requests, when it takes interrupts from banned CPUs. */
  lemma {:induction false} EvacuatesItsMoves(it: Iteration, number: nat, cfg: Config, m: Move)
    requires number >= 2 && Takes(it, number, cfg, m)
    ensures Executed(it, number, cfg) ==> Requested(it, m.irqNo)
  {
    if Executed(it, number, cfg) {
      var moves := MovesFrom(it.cpus, it.byPrio, it.n, it.listed, number, cfg, 0);
      if it.avail == it.n {
        NothingToMove(it.cpus, it.byPrio, it.n, it.listed, number, cfg, 0);
      }
      assert it.reqs == Dealt(Numbers(moves), it.byPrio, it.avail, number, false);
      MovesAreRequested(it, moves, number, m);
    }
  }

  /** What an iteration promises to those who look at whole runs. */
  ghost predicate Promises(it: Iteration, number: nat, cfg: Config) {
    && (ValidIrqList(it.listed) ==> IterationStep(it.listed, it.after, it.reqs, number))
    && (number >= 2 ==> forall r :: r in it.reqs ==> r.recorded != Evacuates(it, number, cfg))
    && (number >= 2 ==> forall m :: Takes(it, number, cfg, m) ==> Requested(it, m.irqNo))
  }

  lemma {:induction false} ExecutedPromises(it: Iteration, number: nat, cfg: Config)
    ensures Executed(it, number, cfg) ==> Promises(it, number, cfg)
  {
    if ValidIrqList(it.listed) {
      ExecutedIsStep(it, number, cfg);
    }
    if number >= 2 {
      forall r | r in it.reqs ensures Executed(it, number, cfg) ==> r.recorded != Evacuates(it, number, cfg) {
        RecordedIffBalances(it, number, cfg, r);
      }
      forall m | Takes(it, number, cfg, m) ensures Executed(it, number, cfg) ==> Requested(it, m.irqNo) {
        EvacuatesItsMoves(it, number, cfg, m);
      }
    }
  }

  lemma {:induction false} RunPromises(init: seq<IrqInfo>, run: seq<Iteration>, cfg: Config, k: nat)
    requires ValidRun(init, run, cfg) && k < |run|
    ensures Promises(run[k], k + 1, cfg) && Discovered(Before(init, run, k), run[k].listed, run[k].seen)
  {
    ExecutedPromises(run[k], k + 1, cfg);
    assert ValidIteration(init, run, cfg, k);
  }

  /** The last iteration with a recorded request for an interrupt, or 0. */
  ghost function LastMove(run: seq<Iteration>, irqNo: int): (it: nat)
    ensures it <= |run|
    ensures it > 0 ==> irqNo in RecordedIrqs(run[it - 1].reqs)
    ensures forall k :: it <= k < |run| ==> irqNo !in RecordedIrqs(run[k].reqs)
  {
    if run == [] then 0
    else if irqNo in RecordedIrqs(run[|run| - 1].reqs) then |run|
    else
      var it := LastMove(run[..|run| - 1], irqNo);
      assert forall k :: it <= k < |run| - 1 ==> run[k] == run[..|run| - 1][k];
      it
  }

  ghost predicate Remembers(irqs: seq<IrqInfo>, run: seq<Iteration>) {
    && ValidIrqList(irqs)
    && (forall i :: 0 <= i < |irqs| && irqs[i].irqNo != SLOT_AVAILABLE ==>
          irqs[i].lastMovedIt == LastMove(run, irqs[i].irqNo))
    && (forall irqNo :: irqNo != SLOT_AVAILABLE && !Listed(irqs, irqNo) ==> LastMove(run, irqNo) == 0)
  }

  lemma FoundIffListed(irqs: seq<IrqInfo>, irqNo: int)
    ensures FindInfo(irqs, irqNo) != -1 <==> Listed(irqs, irqNo)
  {
    if FindInfo(irqs, irqNo) != -1 {
      assert irqs[FindInfo(irqs, irqNo)].irqNo == irqNo;
    }
  }

  lemma {:induction false} LastMoveSnoc(run: seq<Iteration>, it: Iteration, irqNo: int)
    ensures LastMove(run + [it], irqNo) == if irqNo in RecordedIrqs(it.reqs) then |run| + 1 else LastMove(run, irqNo)
  {
    assert (run + [it])[..|run|] == run;
  }

  lemma {:induction false} NoteIsRemembered(run: seq<Iteration>, it: Iteration)
    requires Remembers(it.listed, run) && IterationStep(it.listed, it.after, it.reqs, |run| + 1)
    ensures Remembers(it.after, run + [it])
  {
    var irqs, after := it.listed, it.after;
    NotedKeepsList(irqs, after, it.reqs, |run| + 1, SLOT_AVAILABLE);
    forall i | 0 <= i < |after| && after[i].irqNo != SLOT_AVAILABLE
      ensures after[i].lastMovedIt == LastMove(run + [it], after[i].irqNo)
    {
      LastMoveSnoc(run, it, irqs[i].irqNo);
    }
    forall irqNo | irqNo != SLOT_AVAILABLE && !Listed(after, irqNo) ensures LastMove(run + [it], irqNo) == 0 {
      NotedKeepsList(irqs, after, it.reqs, |run| + 1, irqNo);
      LastMoveSnoc(run, it, irqNo);
      FoundIffListed(irqs, irqNo);
    }
  }

  lemma {:induction false} DiscoveryIsRemembered(irqs: seq<IrqInfo>, irqs': seq<IrqInfo>, seen: seq<int>,
                                                 run: seq<Iteration>)
    requires Remembers(irqs, run) && Discovered(irqs, irqs', seen)
    ensures Remembers(irqs', run)
  {
    forall irqNo | irqNo != SLOT_AVAILABLE && Listed(irqs, irqNo)
      ensures exists j :: 0 <= j < |irqs| && irqs[j].irqNo == irqNo && irqs'[j] == irqs[j]
    {
      var j :| 0 <= j < |irqs| && irqs[j].irqNo == irqNo;
      assert irqs'[j] == irqs[j];
    }
  }

  /** In every run the list remembers the last recorded move of each interrupt. */
  lemma {:induction false} RunRemembers(init: seq<IrqInfo>, run: seq<Iteration>, cfg: Config, k: nat)
    requires ValidRun(init, run, cfg) && k <= |run|
    ensures Remembers(Before(init, run, k), run[..k])
    ensures k < |run| ==> Remembers(run[k].listed, run[..k])
  {
    if k > 0 {
      RunRemembers(init, run, cfg, k - 1);
      RunPromises(init, run, cfg, k - 1);
      NoteIsRemembered(run[..k - 1], run[k - 1]);
      assert run[..k - 1] + [run[k - 1]] == run[..k];
    }
    if k < |run| {
      RunPromises(init, run, cfg, k);
      DiscoveryIsRemembered(Before(init, run, k), run[k].listed, run[k].seen, run[..k]);
    }
  }

  /** Some iteration up to the `k`-th one began with readings of the interrupt. */
  ghost predicate SeenBy(run: seq<Iteration>, k: nat, irqNo: int) {
    exists a :: 0 <= a <= k && a < |run| && irqNo in run[a].seen
  }

  lemma {:induction false} StepLists(init: seq<IrqInfo>, run: seq<Iteration>, cfg: Config, k: nat, irqNo: int)
    requires ValidRun(init, run, cfg) && 0 < k < |run|
    ensures irqNo != SLOT_AVAILABLE && Listed(run[k].listed, irqNo) ==>
              Listed(run[k - 1].listed, irqNo) || irqNo in run[k].seen
    ensures irqNo != SLOT_AVAILABLE && Listed(run[k - 1].listed, irqNo) ==> Listed(run[k].listed, irqNo)
    ensures !Listed(run[k - 1].listed, SLOT_AVAILABLE) ==> !Listed(run[k].listed, SLOT_AVAILABLE)
  {
    var was := run[k - 1];
    RunPromises(init, run, cfg, k - 1);
    RunPromises(init, run, cfg, k);
    NotedKeepsList(was.listed, was.after, was.reqs, k, irqNo);
    NotedKeepsList(was.listed, was.after, was.reqs, k, SLOT_AVAILABLE);
    DiscoveryKeepsListed(was.after, run[k].listed, run[k].seen, irqNo);
  }

  /** Exactly the interrupts seen so far are listed, as long as there is room. */
  lemma {:induction false} RunListsWhatIsSeen(init: seq<IrqInfo>, run: seq<Iteration>, cfg: Config, k: nat, irqNo: int)
    requires ValidRun(init, run, cfg) && k < |run| && irqNo != SLOT_AVAILABLE
    ensures Listed(run[k].listed, irqNo) ==> SeenBy(run, k, irqNo)
    ensures SeenBy(run, k, irqNo) ==> Listed(run[k].listed, irqNo) || !Listed(run[k].listed, SLOT_AVAILABLE)
  {
    RunPromises(init, run, cfg, k);
    if k > 0 {
      RunListsWhatIsSeen(init, run, cfg, k - 1, irqNo);
      StepLists(init, run, cfg, k, irqNo);
      if a :| 0 <= a <= k && a < |run| && irqNo in run[a].seen && a < k {
        assert SeenBy(run, k - 1, irqNo);
      }
    }
  }

  /** No iteration is noted before it happens, so an interrupt can move exactly when its note is two
      iterations old. */
  lemma RunHasPastMoves(init: seq<IrqInfo>, run: seq<Iteration>, cfg: Config, k: nat)
    requires ValidRun(init, run, cfg) && k < |run| && k + 1 < TWO_TO_THE_64
    ensures PastMoves(run[k].listed, k + 1)
  {
    RunRemembers(init, run, cfg, k);
  }

  /** The deadband test, over the whole history: an interrupt may move when its last recorded move is
      at least two iterations old. */
  lemma {:induction false} MovableIffOutOfDeadband(init: seq<IrqInfo>, run: seq<Iteration>, cfg: Config, k: nat,
                                                   irqNo: int)
    requires ValidRun(init, run, cfg) && k < |run| < TWO_TO_THE_64 && irqNo != SLOT_AVAILABLE
    ensures var last := LastMove(run[..k], irqNo);
            if Listed(run[k].listed, irqNo)
            then Movable(run[k].listed, irqNo, k + 1) <==> k + 1 - last >= 2
            else last == 0 && Movable(run[k].listed, irqNo, k + 1)
  {
    RunRemembers(init, run, cfg, k);
    FoundIffListed(run[k].listed, irqNo);
  }

  /** Of two requests the first is issued earlier: in an earlier iteration, or before it in the same. */
  predicate Earlier(a: nat, i: nat, b: nat, j: nat) {
    a < b || (a == b && i < j)
  }

  /** The deadband holds over whole runs: after a recorded move no path moves the interrupt again in
      the same iteration or the next. */
  lemma {:induction false} NoMoveWithinDeadband(init: seq<IrqInfo>, run: seq<Iteration>, cfg: Config, a: nat, i: nat,
                                                b: nat, j: nat)
    requires ValidRun(init, run, cfg) && a < |run| && i < |run[a].reqs| && b < |run| && j < |run[b].reqs|
    requires Earlier(a, i, b, j) && run[a].reqs[i].recorded && run[a].reqs[i].irqNo == run[b].reqs[j].irqNo
    ensures run[b].reqs[j].iteration >= run[a].reqs[i].iteration + 2
  {
    var irqNo := run[a].reqs[i].irqNo;
    StepAt(init, run, cfg, a, run[a].reqs[i]);
    StepAt(init, run, cfg, b, run[b].reqs[j]);
    assert run[..b][a] == run[a];
    assert LastMove(run[..b], irqNo) > a;
    RunRemembers(init, run, cfg, b);
    FoundIffListed(run[b].listed, irqNo);
  }

  /** What an iteration of a run promises about one request. */
  lemma {:induction false} StepAt(init: seq<IrqInfo>, run: seq<Iteration>, cfg: Config, k: nat, r: Request)
    requires ValidRun(init, run, cfg) && k < |run| && r in run[k].reqs
    ensures r.iteration == k + 1 && r.irqNo != SLOT_AVAILABLE && (k > 0 ==> Movable(run[k].listed, r.irqNo, k + 1))
    ensures r.irqNo in RecordedIrqs(run[k].reqs) <==> r.recorded
    ensures forall i, j :: 0 <= i < j < |run[k].reqs| && run[k].reqs[i].recorded ==>
              run[k].reqs[i].irqNo != run[k].reqs[j].irqNo
  {
    var reqs := run[k].reqs;
    RunRemembers(init, run, cfg, k);
    RunPromises(init, run, cfg, k);
    var i :| 0 <= i < |reqs| && reqs[i] == r;
    if s :| s in reqs && s.recorded && s.irqNo == r.irqNo {
      var j :| 0 <= j < |reqs| && reqs[j] == s;
    }
  }

  /** Exactly the recorded moves start a deadband: from the second iteration on, a moved interrupt may
      move again in the next iteration if and only if its request was not recorded. */
  lemma {:induction false} DeadbandIffRecorded(init: seq<IrqInfo>, run: seq<Iteration>, cfg: Config, a: nat, r: Request)
    requires ValidRun(init, run, cfg) && 1 <= a && a + 1 < |run| < TWO_TO_THE_64 && r in run[a].reqs
    ensures Movable(run[a + 1].listed, r.irqNo, a + 2) <==> !r.recorded
  {
    StepAt(init, run, cfg, a, r);
    assert run[..a + 1][..a] == run[..a] && run[..a + 1][a] == run[a];
    MovableIffOutOfDeadband(init, run, cfg, a, r.irqNo);
    MovableIffOutOfDeadband(init, run, cfg, a + 1, r.irqNo);
  }

  /** And those are the moves by load: the interrupt may move again at once if and only if a banned
      CPU had something that must move, for then it was taken from one. */
  lemma {:induction false} DeadbandIffNotEvacuated(init: seq<IrqInfo>, run: seq<Iteration>, cfg: Config, a: nat,
                                                   r: Request)
    requires ValidRun(init, run, cfg) && 1 <= a && a + 1 < |run| < TWO_TO_THE_64 && r in run[a].reqs
    ensures Movable(run[a + 1].listed, r.irqNo, a + 2) <==> Evacuates(run[a], a + 1, cfg)
  {
    DeadbandIffRecorded(init, run, cfg, a, r);
    RunPromises(init, run, cfg, a);
  }

  /** An interrupt that was taken from a banned CPU may move again in the next iteration. */
  lemma {:induction false} EvacuatedIsMovable(init: seq<IrqInfo>, run: seq<Iteration>, cfg: Config, a: nat, m: Move)
    requires ValidRun(init, run, cfg) && 1 <= a && a + 1 < |run| < TWO_TO_THE_64 && Takes(run[a], a + 1, cfg, m)
    ensures Movable(run[a + 1].listed, m.irqNo, a + 2) && !Ignored(m.irqNo, cfg) && Requested(run[a], m.irqNo)
  {
    var it := run[a];
    RunPromises(init, run, cfg, a);
    var i :| 0 <= i < |it.reqs| && it.reqs[i].irqNo == m.irqNo;
    DeadbandIffNotEvacuated(init, run, cfg, a, it.reqs[i]);
    MovesAreExact(it.cpus, it.byPrio, it.n, it.listed, a + 1, cfg, 0, m);
  }

  /** The interrupt is active on a banned CPU. */
  ghost predicate OnBanned(it: Iteration, i: nat, irqNo: int) {
    && it.n >= 2 && Prepared(it) && i < it.n && Banned(it.cpus, it.byPrio, i)
    && exists j :: 0 <= j < |it.cpus[it.byPrio[i]].ints|
         && Active(it.cpus[it.byPrio[i]].ints[j]) && it.cpus[it.byPrio[i]].ints[j].irqNo == irqNo
  }

  lemma {:induction false} OnBannedIsEvacuated(it: Iteration, number: nat, cfg: Config, i: nat, irqNo: int)
    requires number >= 2 && OnBanned(it, i, irqNo) && Movable(it.listed, irqNo, number) && !Ignored(irqNo, cfg)
    ensures Takes(it, number, cfg, Move(it.byPrio[i], irqNo))
  {
    var m, ints := Move(it.byPrio[i], irqNo), it.cpus[it.byPrio[i]].ints;
    var j :| 0 <= j < |ints| && Active(ints[j]) && ints[j].irqNo == irqNo;
    assert MustMove(ints[j], it.listed, number, cfg);
    assert MustLeave(it.cpus, it.byPrio, it.n, it.listed, number, cfg, i, m);
    MovesAreExact(it.cpus, it.byPrio, it.n, it.listed, number, cfg, 0, m);
  }

  /** Evacuation does not wait: an interrupt that was taken from a banned CPU, and is active on one
      after the next readings, is taken from it again, whatever else these readings say. */
  lemma {:induction false} EvacuationRepeats(init: seq<IrqInfo>, run: seq<Iteration>, cfg: Config, a: nat, m: Move,
                                             i: nat)
    requires ValidRun(init, run, cfg) && 1 <= a && a + 1 < |run| < TWO_TO_THE_64 && Takes(run[a], a + 1, cfg, m)
    requires OnBanned(run[a + 1], i, m.irqNo)
    ensures Takes(run[a + 1], a + 2, cfg, Move(run[a + 1].byPrio[i], m.irqNo))
    ensures Requested(run[a], m.irqNo) && Requested(run[a + 1], m.irqNo)
  {
    EvacuatedIsMovable(init, run, cfg, a, m);
    OnBannedIsEvacuated(run[a + 1], a + 2, cfg, i, m.irqNo);
    RunPromises(init, run, cfg, a + 1);
  }

  // ---- The main loop ----

  /** The requests of a run, in the order in which they are issued. */
  ghost function AllRequests(run: seq<Iteration>): seq<Request> {
    if run == [] then [] else AllRequests(run[..|run| - 1]) + run[|run| - 1].reqs
  }

  /** Where the k-th request of a run was issued. */
  lemma {:induction false} IssuedAt(run: seq<Iteration>, k: nat) returns (a: nat, i: nat)
    requires k < |AllRequests(run)|
    ensures a < |run| && i < |run[a].reqs| && run[a].reqs[i] == AllRequests(run)[k]
    ensures k == |AllRequests(run[..a])| + i
  {
    var n := |run| - 1;
    var before := AllRequests(run[..n]);
    if k < |before| {
      a, i := IssuedAt(run[..n], k);
      assert run[..n][..a] == run[..a];
    } else {
      a, i := n, k - |before|;
    }
  }

  lemma {:induction false} RequestsGrow(run: seq<Iteration>, a: nat, b: nat)
    requires a <= b <= |run|
    ensures |AllRequests(run[..a])| + (if a < b then |run[a].reqs| else 0) <= |AllRequests(run[..b])|
  {
    if a < b {
      assert run[..b][..b - 1] == run[..b - 1];
      RequestsGrow(run, a, b - 1);
    }
  }

  ghost predicate RespectsDeadband(log: seq<Request>) {
    forall k, l :: 0 <= k < l < |log| && log[k].recorded && log[k].irqNo == log[l].irqNo ==>
      log[l].iteration >= log[k].iteration + 2
  }

  /** The log of a whole run respects the deadband after every recorded move. */
  lemma RunRespectsDeadband(init: seq<IrqInfo>, run: seq<Iteration>, cfg: Config)
    requires ValidRun(init, run, cfg)
    ensures RespectsDeadband(AllRequests(run))
  {
    var log := AllRequests(run);
    forall k, l | 0 <= k < l < |log| && log[k].recorded && log[k].irqNo == log[l].irqNo
      ensures log[l].iteration >= log[k].iteration + 2
    {
      var a, i := IssuedAt(run, k);
      var b, j := IssuedAt(run, l);
      if b < a {
        RequestsGrow(run, b, a);
      }
      NoMoveWithinDeadband(init, run, cfg, a, i, b, j);
    }
  }

  lemma {:induction false} ValidIterationSnoc(init: seq<IrqInfo>, run: seq<Iteration>, cfg: Config, it: Iteration,
                                              k: nat)
    requires k <= |run| && if k < |run| then ValidIteration(init, run, cfg, k) else ValidNext(init, run, cfg, it)
    ensures ValidIteration(init, run + [it], cfg, k)
  {
    assert Before(init, run + [it], k) == Before(init, run, k);
  }

  lemma {:induction false} ValidRunSnoc(init: seq<IrqInfo>, run: seq<Iteration>, cfg: Config, it: Iteration)
    requires ValidRun(init, run, cfg) && ValidNext(init, run, cfg, it)
    ensures ValidRun(init, run + [it], cfg) && AllRequests(run + [it]) == AllRequests(run) + it.reqs
  {
    var more := run + [it];
    forall k | 0 <= k < |more| ensures ValidIteration(init, more, cfg, k) {
      ValidIterationSnoc(init, run, cfg, it, k);
    }
    assert more[..|run|] == run;
  }

  /** The iteration works on this reading, sorted. */
  ghost predicate IsFrom(r: Reading, it: Iteration) {
    && it.n == r.n <= |r.active| && |r.cpus| == |r.active|
    && if r.n < 2 then it.cpus == r.cpus
       else ValidActive(r.active, |r.cpus|, r.n) && TablesSorted(r.cpus, it.cpus, r.active, r.n)
            && Permuted(r.active, it.byPrio, r.n) && Permuted(it.byPrio, it.active, r.n)
  }

  /** One turn of the main loop: readings, then an iteration. */
  method RunOne(balancer: Balancer, reading: Reading, iteration: nat, cfg: Config, ghost early: seq<int>)
    returns (ret: int, ghost it: Iteration)
    requires balancer.Valid() && ValidReading(reading, balancer.cpuData.Length) && iteration >= 1
    modifies balancer`requests, balancer.cpuData, balancer.cpuActiveList, balancer.irqList
    ensures balancer.Valid() && IsFrom(reading, it) && Executed(it, iteration, cfg)
    ensures Discovered(old(balancer.irqList[..]), it.listed, reading.irqs) && it.seen == early + reading.irqs
    ensures balancer.requests == old(balancer.requests) + it.reqs && balancer.irqList[..] == it.after
    ensures ret != 0 ==> it.answers != [] && ret == it.answers[0]
  {
    balancer.ReadInterruptActivity(reading);
    ghost var listed, log := balancer.irqList[..], balancer.requests;
    ghost var byPrio, avail, sorted, answers;
    ret, byPrio, avail, sorted, answers := balancer.BalanceIrq(reading.n, iteration, cfg);
    it := Iteration(reading.n, sorted, byPrio, balancer.cpuActiveList[..], avail, early + reading.irqs, listed,
                    balancer.requests[|log|..], answers, balancer.cpuData[..], balancer.irqList[..]);
  }

  /** The `k`-th iteration works on the `k`-th reading, the first one also on the one before the loop. */
  ghost predicate Follows(first: Reading, readings: seq<Reading>, k: nat, it: Iteration)
    requires k < |readings|
  {
    IsFrom(readings[k], it) && it.seen == (if k == 0 then first.irqs else []) + readings[k].irqs
  }

  /** The run follows the readings, and `ret` is that of its last iteration. */
  ghost predicate Ran(init: seq<IrqInfo>, first: Reading, readings: seq<Reading>, cfg: Config, run: seq<Iteration>,
                      ret: int) {
    && ValidRun(init, run, cfg) && |run| <= |readings|
    && (forall k :: 0 <= k < |run| ==> Follows(first, readings, k, run[k]))
    && (ret != 0 ==> run != [] && run[|run| - 1].answers != [] && ret == run[|run| - 1].answers[0])
  }

  /** What the readings before the loop have seen belongs to the first iteration. */
  ghost function Early(first: Reading, run: seq<Iteration>): seq<int> {
    if run == [] then first.irqs else []
  }

  lemma {:induction false} RanSnoc(init: seq<IrqInfo>, first: Reading, readings: seq<Reading>, cfg: Config,
                                   run: seq<Iteration>, list: seq<IrqInfo>, it: Iteration, ret: int)
    requires Ran(init, first, readings, cfg, run, 0) && |run| < |readings|
    requires Discovered(Before(init, run, |run|), list, Early(first, run))
    requires Discovered(list, it.listed, readings[|run|].irqs) && it.seen == Early(first, run) + readings[|run|].irqs
    requires IsFrom(readings[|run|], it) && Executed(it, |run| + 1, cfg)
    requires ret != 0 ==> it.answers != [] && ret == it.answers[0]
    ensures Ran(init, first, readings, cfg, run + [it], ret)
    ensures AllRequests(run + [it]) == AllRequests(run) + it.reqs
  {
    DiscoveredTwice(Before(init, run, |run|), list, it.listed, Early(first, run), readings[|run|].irqs);
    ValidRunSnoc(init, run, cfg, it);
  }

  /** `run`, after `init`: one reading to begin with, then a reading and an iteration at a time, until
      a request fails. Whatever the readings and the answers are, the log of requests respects the
      deadband. */
  method Run(balancer: Balancer, first: Reading, readings: seq<Reading>, cfg: Config)
    returns (ret: int, ghost run: seq<Iteration>)
    requires balancer.Valid() && NoneListed(balancer.irqList[..]) && balancer.requests == []
    requires ValidReading(first, balancer.cpuData.Length)
    requires forall k :: 0 <= k < |readings| ==> ValidReading(readings[k], balancer.cpuData.Length)
    modifies balancer`requests, balancer.cpuData, balancer.cpuActiveList, balancer.irqList
    ensures Ran(old(balancer.irqList[..]), first, readings, cfg, run, ret)
    ensures ret == 0 ==> |run| == |readings|
    ensures balancer.requests == AllRequests(run)
    ensures RespectsDeadband(balancer.requests)
  {
    ghost var init := balancer.irqList[..];
    ret, run := 0, [];
    balancer.ReadInterruptActivity(first);
    var iteration := 0;
    while iteration < |readings| && ret == 0
      invariant 0 <= iteration == |run| <= |readings| && balancer.Valid()
      invariant Ran(init, first, readings, cfg, run, ret)
      invariant Discovered(Before(init, run, |run|), balancer.irqList[..], Early(first, run))
      invariant balancer.requests == AllRequests(run)
    {
      ghost var list := balancer.irqList[..];
      iteration := iteration + 1;
      ghost var it;
      ret, it := RunOne(balancer, readings[iteration - 1], iteration, cfg, Early(first, run));
      RanSnoc(init, first, readings, cfg, run, list, it, ret);
      run := run + [it];
      NothingDiscovered(balancer.irqList[..]);
    }
    RunRespectsDeadband(init, run, cfg);
  }
}
