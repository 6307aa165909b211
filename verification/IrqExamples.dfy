/** Inputs on which the interrupt balancer (msm_irqbalance/msm_irqbalance.c) does not do what its
    comments or its code suggest. Interrupt 7 is the only one in the system. */
module IrqExamples {
  import opened IrqTables
  import opened IrqMoves
  import opened IrqRequests
  import opened IrqRuns

  const UNUSED := Interrupt(SLOT_AVAILABLE, 0, 0, 0.0, 0.0)
  const CFG := Config([], 0.1)

  function IdleTable(): Table {
    seq(MAX_NUM_INTERRUPTS, _ => UNUSED)
  }

  function BusyTable(): Table {
    IdleTable()[0 := Interrupt(7, 100, 0, 20.0, 20.0)]
  }

  function NoIrqs(): seq<IrqInfo> {
    seq(MAX_NUM_INTERRUPTS, _ => IrqInfo(SLOT_AVAILABLE, 0))
  }

  function OneIrq(): seq<IrqInfo> {
    NoIrqs()[0 := IrqInfo(7, 0)]
  }

  lemma OneIrqIsMovable(iteration: nat)
    requires 2 <= iteration < TWO_TO_THE_64
    ensures ValidIrqList(OneIrq()) && FindInfo(OneIrq(), 7) == 0 && Movable(OneIrq(), 7, iteration)
  {
    assert OneIrq()[0].irqNo == 7;
  }

  // ---- An interrupt that moves in two iterations in a row ----

  /** CPU 0 is banned, CPU 1 is not. */
  function Quiet(): seq<CpuInfo> {
    [CpuInfo(IdleTable(), 0, 0), CpuInfo(IdleTable(), 0, 1)]
  }

  function Busy(): seq<CpuInfo> {
    [CpuInfo(BusyTable(), 20, 0), CpuInfo(IdleTable(), 0, 1)]
  }

  /** First nothing happens. */
  function FirstIteration(): Iteration {
    Iteration(2, Quiet(), [1, 0], [1, 0], 1, [], NoIrqs(), [], [], Quiet(), NoIrqs())
  }

  lemma TablesAreValid()
    ensures ValidTable(IdleTable()) && FallingRates(IdleTable()) && ValidTable(BusyTable()) && FallingRates(BusyTable())
  {
  }

  lemma NothingIsWanted(irqs: seq<IrqInfo>, cfg: Config)
    requires NoneListed(irqs)
    ensures ValidIrqList(irqs) && Wanted(irqs, cfg) == []
  {
    NothingWantedAfter(irqs, 0, cfg);
    assert irqs[..|irqs|] == irqs;
  }

  /** A first iteration without interrupts, in which all CPUs but the first active one are banned. */
  lemma QuietIsExecuted(it: Iteration, cfg: Config)
    requires it.n == 2 && Prepared(it) && NoneListed(it.listed) && SortedByActivity(it.cpus, it.active, it.n)
    requires Banned(it.cpus, it.active, 1)
    requires it.reqs == [] && it.answers == [] && it.now == it.cpus && it.after == it.listed
    ensures Executed(it, 1, cfg)
  {
    NothingIsWanted(it.listed, cfg);
    DecidedToStay(it.cpus, it.active, it.n, it.listed, 1, cfg);
  }

  /** A later iteration in which something must leave a banned CPU, whatever the answers to its requests. */
  lemma MovingIsExecuted(it: Iteration, number: nat, cfg: Config, m: Move, i: nat)
    requires it.n == 2 && Prepared(it) && it.avail == 1 && number >= 2
    requires MustLeave(it.cpus, it.byPrio, it.n, it.listed, number, cfg, i, m)
    requires it.reqs == Dealt(Numbers(MovesFrom(it.cpus, it.byPrio, it.n, it.listed, number, cfg, 0)),
                              it.byPrio, 1, number, false)
    requires |it.answers| == |it.reqs| && it.now == Applied(it.cpus, it.reqs, it.answers) && it.after == it.listed
    ensures Executed(it, number, cfg) && Requested(it, m.irqNo)
  {
    MovesAreExact(it.cpus, it.byPrio, it.n, it.listed, number, cfg, 0, m);
    UnrecordedIsNoted(it.listed, it.reqs, number);
    EvacuatesItsMoves(it, number, cfg, m);
  }

  lemma QuietIsPrepared()
    ensures Prepared(FirstIteration()) && SortedByActivity(Quiet(), [1, 0], 2)
  {
    TablesAreValid();
  }

  lemma FirstIterationIsExecuted()
    ensures Executed(FirstIteration(), 1, CFG)
  {
    QuietIsPrepared();
    QuietIsExecuted(FirstIteration(), CFG);
  }

  /** Then interrupt 7 fires on the banned CPU, and is moved from it successfully. */
  ghost function LaterIteration(number: nat): Iteration {
    var reqs := Dealt(Numbers(MovesFrom(Busy(), [1, 0], 2, OneIrq(), number, CFG, 0)), [1, 0], 1, number, false);
    var answers := seq(|reqs|, _ => 0);
    Iteration(2, Busy(), [1, 0], [1, 0], 1, [7], OneIrq(), reqs, answers, Applied(Busy(), reqs, answers), OneIrq())
  }

  /** Interrupt 7 is among those requested, and all requests succeed. */
  ghost predicate MovesSeven(it: Iteration) {
    && Requested(it, 7) && |it.answers| == |it.reqs|
    && forall i :: 0 <= i < |it.answers| ==> it.answers[i] == 0
  }

  lemma SevenMustLeave(number: nat)
    requires 2 <= number < TWO_TO_THE_64
    ensures MustLeave(Busy(), [1, 0], 2, OneIrq(), number, CFG, 1, Move(0, 7))
  {
    OneIrqIsMovable(number);
    assert MustMove(Busy()[0].ints[0], OneIrq(), number, CFG);
  }

  lemma BusyIsPrepared(it: Iteration)
    requires it.n == 2 && it.cpus == Busy() && it.byPrio == it.active == [1, 0] && it.avail == 1
    ensures Prepared(it)
  {
    TablesAreValid();
  }

  lemma LaterIterationIsExecuted(number: nat)
    requires 2 <= number < TWO_TO_THE_64
    ensures Executed(LaterIteration(number), number, CFG)
    ensures MovesSeven(LaterIteration(number))
  {
    var it := LaterIteration(number);
    BusyIsPrepared(it);
    SevenMustLeave(number);
    MovingIsExecuted(it, number, CFG, Move(0, 7), 1);
  }

  lemma ThreeIterations(init: seq<IrqInfo>, a: Iteration, b: Iteration, c: Iteration, cfg: Config)
    requires NoneListed(init)
    requires Discovered(init, a.listed, a.seen)
    requires Discovered(a.after, b.listed, b.seen) && Discovered(b.after, c.listed, c.seen)
    requires Executed(a, 1, cfg) && Executed(b, 2, cfg) && Executed(c, 3, cfg)
    ensures ValidRun(init, [a, b, c], cfg)
  {
    var run := [a, b, c];
    forall k | 0 <= k < |run| ensures ValidIteration(init, run, cfg, k) {
      assert k == 0 || k == 1 || k == 2;
    }
  }

  lemma SevenIsDiscovered()
    ensures NoneListed(NoIrqs()) && Discovered(NoIrqs(), NoIrqs(), [])
    ensures Discovered(NoIrqs(), OneIrq(), [7]) && Discovered(OneIrq(), OneIrq(), [7])
  {
    OneIrqIsMovable(2);
  }

  /** A run in which interrupt 7 is moved, with success, in iterations 2 and 3, although the deadband is
      two iterations. */
  lemma InterruptMovesTwice() returns (run: seq<Iteration>)
    ensures ValidRun(NoIrqs(), run, CFG) && |run| == 3
    ensures MovesSeven(run[1]) && MovesSeven(run[2])
  {
    run := [FirstIteration(), LaterIteration(2), LaterIteration(3)];
    FirstIterationIsExecuted();
    LaterIterationIsExecuted(2);
    LaterIterationIsExecuted(3);
    SevenIsDiscovered();
    ThreeIterations(NoIrqs(), run[0], run[1], run[2], CFG);
  }

  // ---- A banned target ----

  /** With no available CPU, whatever must leave goes to the first active one. */
  lemma AllBannedTarget(cpus: seq<CpuInfo>, active: seq<int>, irqs: seq<IrqInfo>, number: nat, cfg: Config, i: nat,
                        m: Move)
    returns (req: Request)
    requires ValidActive(active, |cpus|, 2) && number >= 2 && MustLeave(cpus, active, 2, irqs, number, cfg, i, m)
    ensures req in Evacuation(cpus, active, 2, 0, irqs, number, cfg) && req.irqNo == m.irqNo && req.cpu == active[0]
  {
    MovesAreExact(cpus, active, 2, irqs, number, cfg, 0, m);
    var moves := MovesFrom(cpus, active, 2, irqs, number, cfg, 0);
    var k :| 0 <= k < |moves| && moves[k] == m;
    DivisionIs(k, 1, k, 0);
    req := Evacuation(cpus, active, 2, 0, irqs, number, cfg)[k];
  }

  function BothBanned(): seq<CpuInfo> {
    [CpuInfo(BusyTable(), 20, 0), CpuInfo(IdleTable(), 0, 0)]
  }

  lemma BothBannedAreValid()
    ensures ValidCpus(BothBanned()) && ValidActive([1, 0], |BothBanned()|, 2)
    ensures AvailablePrefix(BothBanned(), [1, 0], 2, 0)
  {
    TablesAreValid();
  }

  lemma SevenMustLeaveBanned()
    ensures ValidActive([1, 0], |BothBanned()|, 2)
    ensures MustLeave(BothBanned(), [1, 0], 2, OneIrq(), 2, CFG, 1, Move(0, 7))
  {
    OneIrqIsMovable(2);
    assert MustMove(BothBanned()[0].ints[0], OneIrq(), 2, CFG);
  }

  /** Both CPUs are banned: the interrupt of one is moved to the other. */
  lemma BannedCpuIsTarget() returns (cpus: seq<CpuInfo>, active: seq<int>, req: Request)
    ensures ValidCpus(cpus) && ValidActive(active, |cpus|, 2) && AvailablePrefix(cpus, active, 2, 0)
    ensures req in Evacuation(cpus, active, 2, 0, OneIrq(), 2, CFG) && req.cpu == 1 && cpus[req.cpu].prio == 0
  {
    cpus, active := BothBanned(), [1, 0];
    BothBannedAreValid();
    SevenMustLeaveBanned();
    req := AllBannedTarget(cpus, active, OneIrq(), 2, CFG, 1, Move(0, 7));
  }

  // ---- A start slot that is not nearest ----

  /** Every slot is used, with rate 300, the last with rate 200: with target 100 the search starts at
      a slot of rate 300. */
  lemma StartIsNotNearest() returns (t: Table)
    ensures ValidTable(t) && FallingRates(t)
    ensures StartSlot(t, 100) == MAX_NUM_INTERRUPTS - 2 && !IsNearest(t, 100, StartSlot(t, 100))
  {
    t := seq(MAX_NUM_INTERRUPTS, i => Interrupt(i, 0, 0, if i == MAX_NUM_INTERRUPTS - 1 then 200.0 else 300.0, 0.0));
    assert AllAbove(t, 100);
    StartInFullTable(t, 100);
  }

  // ---- A search that gives up ----

  /** Interrupt 7 may move, but its rate is twice the target and so it is not found. */
  lemma MovableIsNotFound()
    ensures ValidTable(BusyTable()) && FallingRates(BusyTable()) && Candidate(BusyTable(), OneIrq(), 2, 0)
    ensures CloseIrq(BusyTable(), 10, OneIrq(), 2) == -1
  {
    OneIrqIsMovable(2);
    StartIsIdleIff(BusyTable(), 10);
    CloseIrqChoice(BusyTable(), 10, OneIrq(), 2);
  }

  // ---- A decision ----

  /** Interrupt 1 is as fast as the CPU's load, interrupt 2 half as fast. */
  function TwoIrqsTable(): Table {
    IdleTable()[0 := Interrupt(1, 0, 0, 900.0, 900.0)][1 := Interrupt(2, 0, 0, 450.0, 450.0)]
  }

  function TwoIrqs(): seq<IrqInfo> {
    NoIrqs()[0 := IrqInfo(1, 1)][1 := IrqInfo(2, 1)]
  }

  lemma TwoIrqsAreValid()
    ensures ValidTable(TwoIrqsTable()) && FallingRates(TwoIrqsTable()) && PastMoves(TwoIrqs(), 5)
    ensures TwoIrqs()[1].irqNo == 2 && CanMove(TwoIrqsTable()[1], TwoIrqs(), 5)
  {
  }

  lemma SecondIsFound()
    ensures IsFound(TwoIrqsTable(), 500, TwoIrqs(), 5, 1, 1)
  {
    var t := TwoIrqsTable();
    TwoIrqsAreValid();
    assert Rate(t[1]) == 450 && !Above(t[1], 500) && Above(t[0], 500);
    assert forall i :: 2 <= i < |t| ==> Rate(t[i]) == 0;
    assert IsNearest(t, 500, 1);
  }

  function TwoCpus(): seq<CpuInfo> {
    [CpuInfo(TwoIrqsTable(), 1000, 1), CpuInfo(IdleTable(), 0, 1)]
  }

  lemma TwoCpusAreValid()
    ensures ValidCpus(TwoCpus()) && ValidActive([0, 1], 2, 2) && SortedByActivity(TwoCpus(), [0, 1], 2)
    ensures FallingTables(TwoCpus(), [0, 1], 2) && |TwoCpus()| == 2
  {
    TablesAreValid();
    TwoIrqsAreValid();
  }

  lemma SecondIsGivenUp()
    ensures GivesUpEntry(TwoIrqsTable(), 1000, 1000, TwoIrqs(), 5, CFG, 1)
  {
    SecondIsFound();
    TwoIrqsAreValid();
    assert TwoIrqsTable()[1].deltaPsCount == 450.0 && TwoIrqsTable()[1].irqNo == 2;
  }

  /** With loads of 1000 and 0, half the difference is moved rather than the fastest interrupt. */
  lemma HalfTheGapMoves()
    ensures ValidCpus(TwoCpus()) && ValidActive([0, 1], |TwoCpus()|, 2)
    ensures Decision(TwoCpus(), [0, 1], 2, TwoIrqs(), 5, CFG) == [Request(2, 1, 5, true)]
  {
    TwoCpusAreValid();
    TwoIrqsAreValid();
    SecondIsGivenUp();
    assert IsDecision(TwoCpus(), [0, 1], 2, TwoIrqs(), 5, CFG, 1, 0, 1);
    DecisionIs(TwoCpus(), [0, 1], 2, TwoIrqs(), 5, CFG, 1, 0, 1);
    assert TwoIrqsTable()[1].irqNo == 2;
  }
}
