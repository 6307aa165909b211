/** What an iteration of the interrupt balancer (msm_irqbalance/msm_irqbalance.c) requests, entry by
    entry and in terms of the numbers in its tables. */
module IrqRequests {
  import opened IrqTables
  import opened IrqMoves
  import opened Subsequences

  /** No listed interrupt was moved in the future. */
  ghost predicate PastMoves(irqs: seq<IrqInfo>, iteration: nat) {
    && ValidIrqList(irqs) && iteration < TWO_TO_THE_64
    && forall i :: 0 <= i < |irqs| && irqs[i].irqNo != SLOT_AVAILABLE ==> irqs[i].lastMovedIt <= iteration
  }

  /** It fired since the last readings, and was not noted in this or the previous iteration. */
  ghost predicate CanMove(e: Interrupt, irqs: seq<IrqInfo>, iteration: nat) {
    && e.irqNo != SLOT_AVAILABLE && e.deltaPsCount > 0.0
    && forall i :: 0 <= i < |irqs| && irqs[i].irqNo == e.irqNo ==> irqs[i].lastMovedIt + 2 <= iteration
  }

  lemma CanMoveIffMovable(e: Interrupt, irqs: seq<IrqInfo>, iteration: nat)
    requires PastMoves(irqs, iteration)
    ensures CanMove(e, irqs, iteration) <==> Active(e) && Movable(irqs, e.irqNo, iteration)
  {
    var k := FindInfo(irqs, e.irqNo);
    forall i | 0 <= i < |irqs| && irqs[i].irqNo == e.irqNo && e.irqNo != SLOT_AVAILABLE ensures i == k {
    }
  }

  // ---- Banned CPUs ----

  /** Entry `j` of the table of the CPU in active slot `i`. */
  datatype Place = Place(i: nat, j: nat)

  /** That CPU is banned and the entry can move and is not to be ignored. */
  ghost predicate Leaves(cpus: seq<CpuInfo>, active: seq<int>, n: nat, irqs: seq<IrqInfo>, iteration: nat,
                         cfg: Config, p: Place)
    requires ValidActive(active, |cpus|, n)
  {
    && p.i < n && cpus[active[p.i]].prio == 0 && p.j < |cpus[active[p.i]].ints|
    && CanMove(cpus[active[p.i]].ints[p.j], irqs, iteration)
    && cpus[active[p.i]].ints[p.j].irqNo !in cfg.ignoredIrqs
  }

  /** The last CPU comes first, its entries in the order of the table. */
  predicate ComesBefore(p: Place, q: Place) {
    p.i > q.i || (p.i == q.i && p.j < q.j)
  }

  ghost predicate InOrder(at: seq<Place>) {
    forall a, b :: 0 <= a < b < |at| ==> ComesBefore(at[a], at[b])
  }

  lemma {:induction false} TableInOrder(t: Table, cpu: int, irqs: seq<IrqInfo>, iteration: nat, cfg: Config)
    returns (at: seq<nat>)
    requires PastMoves(irqs, iteration)
    ensures Increasing(at, |t|)
    ensures forall j :: 0 <= j < |t| ==> (j in at <==> CanMove(t[j], irqs, iteration) && t[j].irqNo !in cfg.ignoredIrqs)
    ensures var moves := MovesOfTable(t, cpu, irqs, iteration, cfg);
            |moves| == |at| && forall k :: 0 <= k < |at| ==> moves[k] == Move(cpu, t[at[k]].irqNo)
  {
    at := [];
    if t != [] {
      var n := |t| - 1;
      at := TableInOrder(t[..n], cpu, irqs, iteration, cfg);
      IncreasingSnoc(at, n);
      CanMoveIffMovable(t[n], irqs, iteration);
      if MustMove(t[n], irqs, iteration, cfg) {
        at := at + [n];
      }
    }
  }

  function Places(i: nat, at: seq<nat>): (ps: seq<Place>)
    ensures |ps| == |at|
  {
    seq(|at|, k requires 0 <= k < |at| => Place(i, at[k]))
  }

  lemma PlacesAppend(before: seq<Place>, i: nat, at: seq<nat>, n: nat)
    requires InOrder(before) && Increasing(at, n) && forall a :: 0 <= a < |before| ==> before[a].i > i
    ensures InOrder(before + Places(i, at))
    ensures forall p: Place :: p in before + Places(i, at) <==> p in before || (p.i == i && p.j in at)
  {
    var ps := Places(i, at);
    forall p: Place | p.i == i && p.j in at ensures p in ps {
      var k :| 0 <= k < |at| && at[k] == p.j;
      assert ps[k] == p;
    }
  }

  /** The moves from active slot `from` on are exactly those of the entries that leave, in that order. */
  lemma {:induction false} MovesInOrder(cpus: seq<CpuInfo>, active: seq<int>, n: nat, irqs: seq<IrqInfo>,
                                        iteration: nat, cfg: Config, from: nat) returns (at: seq<Place>)
    requires ValidActive(active, |cpus|, n) && from <= n && PastMoves(irqs, iteration)
    ensures InOrder(at)
    ensures forall p :: p in at <==> from <= p.i && Leaves(cpus, active, n, irqs, iteration, cfg, p)
    ensures var moves := MovesFrom(cpus, active, n, irqs, iteration, cfg, from);
            && |moves| == |at|
            && forall k :: 0 <= k < |at| ==>
                 at[k].i < n && at[k].j < |cpus[active[at[k].i]].ints|
                 && moves[k] == Move(active[at[k].i], cpus[active[at[k].i]].ints[at[k].j].irqNo)
    decreases n - from
  {
    at := [];
    if from < n {
      var later := MovesInOrder(cpus, active, n, irqs, iteration, cfg, from + 1);
      at := later;
      if Banned(cpus, active, from) {
        var here := TableInOrder(cpus[active[from]].ints, active[from], irqs, iteration, cfg);
        forall a | 0 <= a < |later| ensures later[a].i > from {
          assert later[a] in later;
        }
        PlacesAppend(later, from, here, |cpus[active[from]].ints|);
        at := later + Places(from, here);
      }
    }
  }

  /** The CPU that gets the `k`-th interrupt: the available ones take turns. */
  function TargetOf(active: seq<int>, avail: nat, k: nat): int
    requires avail <= |active| && active != []
  {
    if avail == 0 then active[0] else active[k % avail]
  }

  /** After the first iteration: the requests are exactly those for the entries that leave banned CPUs,
      dealt out in turn, and not recorded. */
  lemma EvacuationIsExact(cpus: seq<CpuInfo>, active: seq<int>, n: nat, avail: nat, irqs: seq<IrqInfo>,
                          iteration: nat, cfg: Config) returns (at: seq<Place>)
    requires ValidActive(active, |cpus|, n) && 0 < n && AvailablePrefix(cpus, active, n, avail)
    requires iteration != 1 && PastMoves(irqs, iteration)
    ensures InOrder(at) && forall p :: p in at <==> Leaves(cpus, active, n, irqs, iteration, cfg, p)
    ensures var reqs := Evacuation(cpus, active, n, avail, irqs, iteration, cfg);
            && |reqs| == |at|
            && forall k :: 0 <= k < |at| ==>
                 at[k].i < n && at[k].j < |cpus[active[at[k].i]].ints|
                 && reqs[k] == Request(cpus[active[at[k].i]].ints[at[k].j].irqNo, TargetOf(active, avail, k),
                                       iteration, false)
  {
    at := MovesInOrder(cpus, active, n, irqs, iteration, cfg, 0);
    if avail == n {
      NothingToMove(cpus, active, n, irqs, iteration, cfg, 0);
    }
    forall k: nat | avail == 0 ensures Lane(k, avail) == 0 {
      DivisionIs(k, 1, k, 0);
    }
  }

  lemma {:induction false} WantedInOrder(irqs: seq<IrqInfo>, cfg: Config) returns (at: seq<nat>)
    ensures Increasing(at, |irqs|)
    ensures forall j :: 0 <= j < |irqs| ==>
              (j in at <==> irqs[j].irqNo != SLOT_AVAILABLE && irqs[j].irqNo !in cfg.ignoredIrqs)
    ensures |Wanted(irqs, cfg)| == |at| && forall k :: 0 <= k < |at| ==> Wanted(irqs, cfg)[k] == irqs[at[k]].irqNo
  {
    at := [];
    if irqs != [] {
      var n := |irqs| - 1;
      at := WantedInOrder(irqs[..n], cfg);
      IncreasingSnoc(at, n);
      if irqs[n].irqNo != SLOT_AVAILABLE && irqs[n].irqNo !in cfg.ignoredIrqs {
        at := at + [n];
      }
    }
  }

  /** In the first iteration, if some CPU is banned: the requests are exactly those for the listed
      interrupts that are not ignored, in the order of the list, dealt out in turn, and recorded. */
  lemma FirstEvacuationIsExact(cpus: seq<CpuInfo>, active: seq<int>, n: nat, avail: nat, irqs: seq<IrqInfo>,
                               cfg: Config) returns (at: seq<nat>)
    requires ValidActive(active, |cpus|, n) && 0 < n && AvailablePrefix(cpus, active, n, avail)
    ensures Increasing(at, |irqs|)
    ensures forall j :: 0 <= j < |irqs| ==>
              (j in at <==> && (exists i :: 0 <= i < n && cpus[active[i]].prio == 0)
                            && irqs[j].irqNo != SLOT_AVAILABLE && irqs[j].irqNo !in cfg.ignoredIrqs)
    ensures var reqs := Evacuation(cpus, active, n, avail, irqs, 1, cfg);
            && |reqs| == |at|
            && forall k :: 0 <= k < |at| ==>
                 reqs[k] == Request(irqs[at[k]].irqNo, TargetOf(active, avail, k), 1, true)
  {
    forall i | 0 <= i < n ensures cpus[active[i]].prio == 0 <==> i >= avail {
      assert Banned(cpus, active, i) <==> i >= avail;
    }
    at := [];
    if avail < n {
      at := WantedInOrder(irqs, cfg);
      assert cpus[active[n - 1]].prio == 0;
    }
    forall k: nat | avail == 0 ensures Lane(k, avail) == 0 {
      DivisionIs(k, 1, k, 0);
    }
  }

  // ---- The interrupt nearest to a rate ----

  /** The entry is used and above the rate. */
  predicate Above(e: Interrupt, count: nat) {
    e.irqNo != SLOT_AVAILABLE && e.deltaPsCount > count as real
  }

  /** The slot from which the search starts: of those nearest to the target by truncated rate, the last one
      above the target if it is strictly nearer than any other not above it, else the first one not
      above. If all are above, it is the last one, or the one before that if an unsigned difference
      makes the last one look far away. */
  ghost predicate IsStart(t: Table, count: nat, k: nat)
    requires |t| == MAX_NUM_INTERRUPTS
  {
    var last := |t| - 1;
    if forall i :: 0 <= i < |t| ==> Above(t[i], count) then
      k == if Rate(t[last]) > count && Rate(t[last - 1]) + Rate(t[last]) - 2 * count < TWO_TO_THE_64
           then last - 1 else last
    else
      && k < |t| && IsNearest(t, count, k)
      && if Above(t[k], count)
         then forall i :: k < i < |t| ==> !Above(t[i], count) && Distance(t[k], count) < Distance(t[i], count)
         else forall i :: 0 <= i < k ==> Above(t[i], count)
  }

  lemma StartBelow(t: Table, count: nat)
    requires ValidTable(t) && FallingRates(t) && count < TWO_TO_THE_64 && !AllAbove(t, count)
    ensures var start := StartSlot(t, count);
            if Above(t[start], count)
            then forall i :: start < i < |t| ==>
                   !Above(t[i], count) && Distance(t[start], count) < Distance(t[i], count)
            else forall i :: 0 <= i < start ==> Above(t[i], count)
  {
    StartIsNearest(t, count);
    var k, start := FirstNotAbove(t, count, 0), StartSlot(t, count);
    if start < k {
      assert start == k - 1 && Above(t[start], count);
      forall i | start < i < |t| ensures !Above(t[i], count) && Distance(t[start], count) < Distance(t[i], count) {
        RatesFall(t, k, i);
        assert i == k || t[k].deltaPsCount >= t[i].deltaPsCount;
      }
    }
  }

  lemma StartIsExact(t: Table, count: nat)
    requires ValidTable(t) && FallingRates(t) && count < TWO_TO_THE_64
    ensures IsStart(t, count, StartSlot(t, count))
  {
    if AllAbove(t, count) {
      assert forall i :: 0 <= i < |t| ==> Above(t[i], count);
      StartInFullTable(t, count);
    } else {
      var j :| 0 <= j < |t| && !Above(t[j], count);
      StartIsNearest(t, count);
      StartBelow(t, count);
    }
  }

  lemma AboveFalls(t: Table, count: nat)
    requires ValidTable(t) && FallingRates(t)
    ensures forall i, j :: 0 <= i < j < |t| && Above(t[j], count) ==> Above(t[i], count)
  {
    forall i, j | 0 <= i < j < |t| && Above(t[j], count) ensures Above(t[i], count) {
      assert t[i].deltaPsCount >= t[j].deltaPsCount;
    }
  }

  lemma StartIsUnique(t: Table, count: nat, j: nat, k: nat)
    requires ValidTable(t) && FallingRates(t) && IsStart(t, count, j) && IsStart(t, count, k)
    ensures j == k
  {
    AboveFalls(t, count);
  }

  /** The interrupt found: the first one that can move from the start slot on, else the last one before
      it; none if the start slot has not fired. */
  ghost predicate IsFound(t: Table, count: nat, irqs: seq<IrqInfo>, iteration: nat, start: nat, k: nat)
    requires |t| == MAX_NUM_INTERRUPTS
  {
    && IsStart(t, count, start) && start < |t| && t[start].irqNo != SLOT_AVAILABLE && t[start].deltaPsCount > 0.0
    && k < |t| && CanMove(t[k], irqs, iteration)
    && (k >= start ==> forall i :: start <= i < k ==> !CanMove(t[i], irqs, iteration))
    && (k < start ==> forall i :: k < i < |t| ==> !CanMove(t[i], irqs, iteration))
  }

  ghost predicate Found(t: Table, count: nat, irqs: seq<IrqInfo>, iteration: nat, k: nat)
    requires |t| == MAX_NUM_INTERRUPTS
  {
    exists start :: IsFound(t, count, irqs, iteration, start, k)
  }

  lemma FoundIsExact(t: Table, count: nat, irqs: seq<IrqInfo>, iteration: nat, k: nat)
    requires ValidTable(t) && FallingRates(t) && count < TWO_TO_THE_64 && PastMoves(irqs, iteration)
    ensures (CloseIrq(t, count, irqs, iteration) == k) == Found(t, count, irqs, iteration, k)
  {
    var start, c := StartSlot(t, count), CloseIrq(t, count, irqs, iteration);
    StartIsExact(t, count);
    CloseIrqChoice(t, count, irqs, iteration);
    forall i | 0 <= i < |t| ensures CanMove(t[i], irqs, iteration) <==> Candidate(t, irqs, iteration, i) {
      CanMoveIffMovable(t[i], irqs, iteration);
    }
    if c == k {
      assert Candidate(t, irqs, iteration, c);
      assert IsFound(t, count, irqs, iteration, start, c);
    }
    if s :| IsFound(t, count, irqs, iteration, s, k) {
      StartIsUnique(t, count, s, start);
    }
  }

  // ---- Balancing by load ----

  /** A CPU with this table and load gives up entry `k`: its load exceeds the target's by more than the
      configured share of itself, it has a second active interrupt, and the entry is the one found for
      half the difference and is listed. */
  ghost predicate GivesUpEntry(t: Table, load: nat, gap: nat, irqs: seq<IrqInfo>, iteration: nat, cfg: Config, k: nat)
    requires |t| == MAX_NUM_INTERRUPTS
  {
    && gap as real > load as real * cfg.balancingFactor && t[1].deltaPsCount > 0.0
    && Found(t, gap / 2, irqs, iteration, k) && Listed(irqs, t[k].irqNo)
  }

  ghost predicate GivesUp(cpus: seq<CpuInfo>, mac: int, lac: int, irqs: seq<IrqInfo>, iteration: nat, cfg: Config,
                          k: nat)
    requires ValidCpus(cpus) && 0 <= mac < |cpus| && 0 <= lac < |cpus|
  {
    && cpus[mac].nIrqPsDecay >= cpus[lac].nIrqPsDecay
    && GivesUpEntry(cpus[mac].ints, cpus[mac].nIrqPsDecay, cpus[mac].nIrqPsDecay - cpus[lac].nIrqPsDecay,
                    irqs, iteration, cfg, k)
  }

  /** The target is in active slot `l`, the last one from 1 on that is not banned; the source is in slot
      `m`, the first one before it that gives up an entry, and `k` is that entry. */
  ghost predicate IsDecision(cpus: seq<CpuInfo>, active: seq<int>, n: nat, irqs: seq<IrqInfo>, iteration: nat,
                             cfg: Config, l: nat, m: nat, k: nat)
    requires ValidCpus(cpus) && ValidActive(active, |cpus|, n)
  {
    && 1 <= l < n && cpus[active[l]].prio > 0 && (forall i :: l < i < n ==> cpus[active[i]].prio == 0)
    && m < l && GivesUp(cpus, active[m], active[l], irqs, iteration, cfg, k)
    && forall i, j: nat :: 0 <= i < m ==> !GivesUp(cpus, active[i], active[l], irqs, iteration, cfg, j)
  }

  /** The same tests, with the entry `c` that a search has found, if any. */
  lemma {:induction false} GivesUpIff(t: Table, load: nat, gap: nat, irqs: seq<IrqInfo>, iteration: nat, cfg: Config,
                                      c: int, k: nat)
    requires |t| == MAX_NUM_INTERRUPTS && -1 <= c < |t| && (c == k) == Found(t, gap / 2, irqs, iteration, k)
    ensures GivesUpEntry(t, load, gap, irqs, iteration, cfg, k) ==
            (c == k && t[1].deltaPsCount > 0.0 && t[c].deltaPsCount > 0.0 && IsUnbalanced(gap, load, cfg)
             && FindInfo(irqs, t[c].irqNo) != -1)
  {
    if c == k {
      var start :| IsFound(t, gap / 2, irqs, iteration, start, k);
      ListedIffFound(irqs, t[k].irqNo);
    }
  }

  lemma {:induction false} ClosestIsClose(cpus: seq<CpuInfo>, mac: int, lac: int, irqs: seq<IrqInfo>, iteration: nat,
                                          gap: nat)
    requires ValidCpus(cpus) && 0 <= mac < |cpus| && 0 <= lac < |cpus|
    requires cpus[mac].nIrqPsDecay == cpus[lac].nIrqPsDecay + gap
    ensures Gap(cpus, mac, lac) == gap
    ensures ClosestIrq(cpus, mac, lac, irqs, iteration) == CloseIrq(cpus[mac].ints, gap / 2, irqs, iteration)
  {
  }

  lemma {:induction false} ClosestIsFound(cpus: seq<CpuInfo>, mac: int, lac: int, irqs: seq<IrqInfo>, iteration: nat,
                                          k: nat)
    requires ValidCpus(cpus) && 0 <= mac < |cpus| && 0 <= lac < |cpus| && FallingRates(cpus[mac].ints)
    requires cpus[mac].nIrqPsDecay >= cpus[lac].nIrqPsDecay && PastMoves(irqs, iteration)
    ensures var gap := cpus[mac].nIrqPsDecay - cpus[lac].nIrqPsDecay;
            && Gap(cpus, mac, lac) == gap
            && (ClosestIrq(cpus, mac, lac, irqs, iteration) == k) ==
               Found(cpus[mac].ints, gap / 2, irqs, iteration, k)
  {
    var gap := cpus[mac].nIrqPsDecay - cpus[lac].nIrqPsDecay;
    ClosestIsClose(cpus, mac, lac, irqs, iteration, gap);
    FoundIsExact(cpus[mac].ints, gap / 2, irqs, iteration, k);
  }

  lemma {:induction false} WorthMovingIff(cpus: seq<CpuInfo>, mac: int, lac: int, irqs: seq<IrqInfo>, iteration: nat,
                                          cfg: Config, k: nat)
    requires ValidCpus(cpus) && 0 <= mac < |cpus| && 0 <= lac < |cpus| && FallingRates(cpus[mac].ints)
    requires cpus[mac].nIrqPsDecay >= cpus[lac].nIrqPsDecay && PastMoves(irqs, iteration)
    ensures GivesUp(cpus, mac, lac, irqs, iteration, cfg, k) ==
            (WorthMoving(cpus, mac, lac, irqs, iteration, cfg) && ClosestIrq(cpus, mac, lac, irqs, iteration) == k)
  {
    var t, load, gap := cpus[mac].ints, cpus[mac].nIrqPsDecay, cpus[mac].nIrqPsDecay - cpus[lac].nIrqPsDecay;
    var c := ClosestIrq(cpus, mac, lac, irqs, iteration);
    ClosestIsFound(cpus, mac, lac, irqs, iteration, k);
    GivesUpIff(t, load, gap, irqs, iteration, cfg, c, k);
    assert WorthMoving(cpus, mac, lac, irqs, iteration, cfg) ==
           (c >= 0 && t[1].deltaPsCount > 0.0 && t[c].deltaPsCount > 0.0 && IsUnbalanced(gap, load, cfg)
            && FindInfo(irqs, t[c].irqNo) != -1);
  }

  lemma ListedIffFound(irqs: seq<IrqInfo>, irqNo: int)
    ensures Listed(irqs, irqNo) <==> FindInfo(irqs, irqNo) != -1
  {
    if FindInfo(irqs, irqNo) != -1 {
      assert irqs[FindInfo(irqs, irqNo)].irqNo == irqNo;
    }
  }

  lemma LastAvailable(cpus: seq<CpuInfo>, active: seq<int>, n: nat, l: nat)
    requires ValidActive(active, |cpus|, n) && 1 <= l < n && cpus[active[l]].prio > 0
    requires forall i :: l < i < n ==> cpus[active[i]].prio == 0
    ensures LeastActive(cpus, active, n - 1) == l
  {
    assert !Banned(cpus, active, l);
  }

  /** The source is the first CPU that is worth moving from. */
  lemma {:induction false} DecisionFrom(cpus: seq<CpuInfo>, active: seq<int>, n: nat, irqs: seq<IrqInfo>,
                                        iteration: nat, cfg: Config, l: nat, m: nat)
    requires ValidCpus(cpus) && ValidActive(active, |cpus|, n) && n >= 2
    requires l == LeastActive(cpus, active, n - 1) && m < l && !Banned(cpus, active, l)
    requires WorthMoving(cpus, active[m], active[l], irqs, iteration, cfg)
    requires forall i :: 0 <= i < m ==> !WorthMoving(cpus, active[i], active[l], irqs, iteration, cfg)
    ensures Decision(cpus, active, n, irqs, iteration, cfg) ==
            [Request(cpus[active[m]].ints[ClosestIrq(cpus, active[m], active[l], irqs, iteration)].irqNo, active[l],
                     iteration, true)]
  {
    var first := FirstWorth(cpus, active, l, irqs, iteration, cfg, 0);
    assert first == m;
  }

  lemma {:induction false} NotWorthMoving(cpus: seq<CpuInfo>, mac: int, lac: int, irqs: seq<IrqInfo>, iteration: nat,
                                          cfg: Config)
    requires ValidCpus(cpus) && 0 <= mac < |cpus| && 0 <= lac < |cpus| && FallingRates(cpus[mac].ints)
    requires cpus[mac].nIrqPsDecay >= cpus[lac].nIrqPsDecay && PastMoves(irqs, iteration)
    ensures WorthMoving(cpus, mac, lac, irqs, iteration, cfg) ==
            exists k: nat :: GivesUp(cpus, mac, lac, irqs, iteration, cfg, k)
  {
    if WorthMoving(cpus, mac, lac, irqs, iteration, cfg) {
      WorthMovingIff(cpus, mac, lac, irqs, iteration, cfg, ClosestIrq(cpus, mac, lac, irqs, iteration));
    }
    if k: nat :| GivesUp(cpus, mac, lac, irqs, iteration, cfg, k) {
      WorthMovingIff(cpus, mac, lac, irqs, iteration, cfg, k);
    }
  }

  /** A decision moves exactly that interrupt to exactly that CPU. */
  lemma {:induction false} DecisionIs(cpus: seq<CpuInfo>, active: seq<int>, n: nat, irqs: seq<IrqInfo>, iteration: nat,
                                      cfg: Config, l: nat, m: nat, k: nat)
    requires ValidCpus(cpus) && ValidActive(active, |cpus|, n) && n >= 2 && SortedByActivity(cpus, active, n)
    requires FallingTables(cpus, active, n) && PastMoves(irqs, iteration)
    requires IsDecision(cpus, active, n, irqs, iteration, cfg, l, m, k)
    ensures Decision(cpus, active, n, irqs, iteration, cfg) ==
            [Request(cpus[active[m]].ints[k].irqNo, active[l], iteration, true)]
  {
    LastAvailable(cpus, active, n, l);
    WorthMovingIff(cpus, active[m], active[l], irqs, iteration, cfg, k);
    forall i | 0 <= i < m ensures !WorthMoving(cpus, active[i], active[l], irqs, iteration, cfg) {
      NotWorthMoving(cpus, active[i], active[l], irqs, iteration, cfg);
    }
    DecisionFrom(cpus, active, n, irqs, iteration, cfg, l, m);
  }

  /** And there is none exactly if there are no such CPUs and no such interrupt. */
  lemma {:induction false} DecisionIff(cpus: seq<CpuInfo>, active: seq<int>, n: nat, irqs: seq<IrqInfo>,
                                       iteration: nat, cfg: Config)
    requires ValidCpus(cpus) && ValidActive(active, |cpus|, n) && n >= 2 && SortedByActivity(cpus, active, n)
    requires FallingTables(cpus, active, n) && PastMoves(irqs, iteration)
    ensures Decision(cpus, active, n, irqs, iteration, cfg) != [] <==>
            exists l: nat, m: nat, k: nat :: IsDecision(cpus, active, n, irqs, iteration, cfg, l, m, k)
  {
    var l := LeastActive(cpus, active, n - 1);
    if Decision(cpus, active, n, irqs, iteration, cfg) != [] {
      var m := FirstWorth(cpus, active, l, irqs, iteration, cfg, 0);
      var k := ClosestIrq(cpus, active[m], active[l], irqs, iteration);
      forall i | l < i < n ensures cpus[active[i]].prio == 0 {
        assert Banned(cpus, active, i);
      }
      WorthMovingIff(cpus, active[m], active[l], irqs, iteration, cfg, k);
      forall i, j: nat | 0 <= i < m ensures !GivesUp(cpus, active[i], active[l], irqs, iteration, cfg, j) {
        NotWorthMoving(cpus, active[i], active[l], irqs, iteration, cfg);
      }
      assert IsDecision(cpus, active, n, irqs, iteration, cfg, l, m, k);
    }
    if l': nat, m: nat, k: nat :| IsDecision(cpus, active, n, irqs, iteration, cfg, l', m, k) {
      DecisionIs(cpus, active, n, irqs, iteration, cfg, l', m, k);
    }
  }
}
