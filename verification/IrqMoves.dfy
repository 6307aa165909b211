/** Which interrupts the balancer (msm_irqbalance/msm_irqbalance.c) moves where, as functions of its
    tables: interrupts leave banned CPUs by rotation; if none had to, one interrupt may move from a
    busy CPU to the least busy one. */
module IrqMoves {
  import opened IrqTables

  datatype Config = Config(ignoredIrqs: seq<int>, balancingFactor: real)

  /** A request to give `irqNo` to `cpu`. `recorded` tells whether the code notes the iteration. */
  datatype Request = Request(irqNo: int, cpu: int, iteration: nat, recorded: bool)

  /** An interrupt to be taken from a banned CPU. */
  datatype Move = Move(from: int, irqNo: int)

  predicate Ignored(irqNo: int, cfg: Config) {
    irqNo in cfg.ignoredIrqs
  }

  ghost predicate ValidCpus(cpus: seq<CpuInfo>) {
    forall c :: 0 <= c < |cpus| ==> ValidTable(cpus[c].ints) && cpus[c].nIrqPsDecay < TWO_TO_THE_64
  }

  ghost predicate DistinctIrqs(irqs: seq<IrqInfo>) {
    forall i, j :: 0 <= i < j < |irqs| && irqs[j].irqNo != SLOT_AVAILABLE ==> irqs[i].irqNo != irqs[j].irqNo
  }

  ghost predicate Listed(irqs: seq<IrqInfo>, irqNo: int) {
    exists i :: 0 <= i < |irqs| && irqs[i].irqNo == irqNo
  }

  /** Used slots come first and name different interrupts. */
  ghost predicate ValidIrqList(irqs: seq<IrqInfo>) {
    && |irqs| == MAX_NUM_INTERRUPTS
    && (forall i, j :: 0 <= i < j < |irqs| && irqs[i].irqNo == SLOT_AVAILABLE ==> irqs[j].irqNo == SLOT_AVAILABLE)
    && DistinctIrqs(irqs)
  }

  /** The first `n` entries are different CPUs. */
  ghost predicate ValidActive(active: seq<int>, cpus: nat, n: nat) {
    && |active| == cpus && n <= cpus
    && (forall i :: 0 <= i < n ==> 0 <= active[i] < cpus)
    && (forall i, j :: 0 <= i < j < n ==> active[i] != active[j])
  }

  predicate Banned(cpus: seq<CpuInfo>, active: seq<int>, i: nat)
    requires i < |active| && 0 <= active[i] < |cpus|
  {
    cpus[active[i]].prio == 0
  }

  ghost predicate SortedByPrio(cpus: seq<CpuInfo>, active: seq<int>, n: nat)
    requires ValidActive(active, |cpus|, n)
  {
    forall i, j :: 0 <= i < j < n ==> cpus[active[i]].prio >= cpus[active[j]].prio
  }

  ghost predicate SortedByActivity(cpus: seq<CpuInfo>, active: seq<int>, n: nat)
    requires ValidActive(active, |cpus|, n)
  {
    forall i, j :: 0 <= i < j < n ==> cpus[active[i]].nIrqPsDecay >= cpus[active[j]].nIrqPsDecay
  }

  /** The first `avail` active CPUs take interrupts, the others are banned. */
  ghost predicate AvailablePrefix(cpus: seq<CpuInfo>, active: seq<int>, n: nat, avail: nat)
    requires ValidActive(active, |cpus|, n)
  {
    avail <= n && forall i :: 0 <= i < n ==> (Banned(cpus, active, i) <==> i >= avail)
  }

  /** Only the moved interrupts' entries differ: priorities, loads and active interrupts are kept. */
  ghost predicate SameLoads(cpus: seq<CpuInfo>, cpus': seq<CpuInfo>) {
    && |cpus'| == |cpus|
    && forall c :: 0 <= c < |cpus| ==>
         && cpus'[c].prio == cpus[c].prio && cpus'[c].nIrqPsDecay == cpus[c].nIrqPsDecay
         && SameActivity(cpus[c].ints, cpus'[c].ints)
  }

  ghost predicate FallingTables(cpus: seq<CpuInfo>, active: seq<int>, n: nat)
    requires ValidActive(active, |cpus|, n)
  {
    forall i :: 0 <= i < n ==> FallingRates(cpus[active[i]].ints)
  }

  /** What readings in which these interrupts are `seen` do to the list: known interrupts stay as they
      are, new ones were never moved; what is seen is listed unless the list is full, and nothing else is. */
  ghost predicate Discovered(before: seq<IrqInfo>, after: seq<IrqInfo>, seen: seq<int>) {
    && ValidIrqList(before) && ValidIrqList(after)
    && (forall i :: 0 <= i < |before| ==>
          after[i] == before[i] || (before[i].irqNo == SLOT_AVAILABLE && after[i].lastMovedIt == 0))
    && (forall x :: x in seen ==> Listed(after, x) || !Listed(after, SLOT_AVAILABLE))
    && (forall x :: x != SLOT_AVAILABLE && Listed(after, x) ==> Listed(before, x) || x in seen)
  }

  lemma DiscoveryKeepsListed(before: seq<IrqInfo>, after: seq<IrqInfo>, seen: seq<int>, x: int)
    requires Discovered(before, after, seen)
    ensures x != SLOT_AVAILABLE && Listed(before, x) ==> Listed(after, x)
    ensures !Listed(before, SLOT_AVAILABLE) ==> !Listed(after, SLOT_AVAILABLE)
  {
    if i :| 0 <= i < |before| && before[i].irqNo == x && x != SLOT_AVAILABLE {
      assert after[i].irqNo == x;
    }
    if i :| 0 <= i < |after| && after[i].irqNo == SLOT_AVAILABLE {
      assert before[i].irqNo == SLOT_AVAILABLE;
    }
  }

  /** Several discoveries are one. */
  lemma DiscoveredTwice(a: seq<IrqInfo>, b: seq<IrqInfo>, c: seq<IrqInfo>, s: seq<int>, t: seq<int>)
    requires Discovered(a, b, s) && Discovered(b, c, t)
    ensures Discovered(a, c, s + t)
  {
    forall x | x in s + t ensures Listed(c, x) || !Listed(c, SLOT_AVAILABLE) {
      if x != SLOT_AVAILABLE {
        DiscoveryKeepsListed(b, c, t, x);
      }
    }
  }

  lemma NothingDiscovered(irqs: seq<IrqInfo>)
    requires ValidIrqList(irqs)
    ensures Discovered(irqs, irqs, [])
  {
  }

  /** What the readings before an iteration give: the interrupts seen, the CPUs' tables, and the
      active CPUs. */
  datatype Reading = Reading(irqs: seq<int>, cpus: seq<CpuInfo>, active: seq<int>, n: nat)

  ghost predicate ValidReading(r: Reading, cpus: nat) {
    && |r.cpus| == cpus && ValidCpus(r.cpus) && ValidActive(r.active, cpus, r.n)
    && SLOT_AVAILABLE !in r.irqs
  }

  // ---- Sorting ----

  /** The first `n` entries are reordered. */
  ghost predicate Permuted(active: seq<int>, active': seq<int>, n: nat) {
    && n <= |active| == |active'|
    && multiset(active'[..n]) == multiset(active[..n]) && active'[n..] == active[n..]
  }

  lemma {:induction false} DistinctCounts(s: seq<int>, x: int)
    requires forall i, j :: 0 <= i < j < |s| ==> s[i] != s[j]
    ensures multiset(s)[x] <= 1
  {
    if s != [] {
      var init := s[..|s| - 1];
      assert s == init + [s[|s| - 1]];
      DistinctCounts(init, x);
      assert multiset(init)[s[|s| - 1]] == 0;
    }
  }

  lemma PermutedStaysValid(active: seq<int>, active': seq<int>, cpus: nat, n: nat)
    requires ValidActive(active, cpus, n) && Permuted(active, active', n)
    ensures ValidActive(active', cpus, n)
    ensures forall c :: c in active'[..n] <==> c in active[..n]
  {
    var s, s' := active[..n], active'[..n];
    forall c ensures c in s' <==> c in s {
      assert c in multiset(s') <==> c in multiset(s);
    }
    forall i | 0 <= i < n ensures 0 <= active'[i] < cpus {
      assert s'[i] in s;
    }
    forall i, j | 0 <= i < j < n ensures active'[i] != active'[j] {
      assert s' == s'[..j] + s'[j..];
      assert s'[..j][i] in multiset(s'[..j]) && s'[j..][0] in multiset(s'[j..]);
      assert multiset(s')[s'[i]] == multiset(s'[..j])[s'[i]] + multiset(s'[j..])[s'[i]];
      DistinctCounts(s, s'[i]);
    }
  }

  /** The CPUs after their tables have been sorted. */
  ghost predicate TablesSorted(cpus: seq<CpuInfo>, sorted: seq<CpuInfo>, active: seq<int>, n: nat)
    requires ValidActive(active, |cpus|, n)
  {
    && |sorted| == |cpus| && ValidCpus(sorted) && FallingTables(sorted, active, n)
    && forall c :: 0 <= c < |cpus| ==>
         && sorted[c] == cpus[c].(ints := sorted[c].ints) && multiset(sorted[c].ints) == multiset(cpus[c].ints)
         && (if c in active[..n] then SortedTable(sorted[c].ints) else sorted[c] == cpus[c])
  }

  lemma PermutedStaysFalling(cpus: seq<CpuInfo>, active: seq<int>, active': seq<int>, n: nat)
    requires ValidActive(active, |cpus|, n) && Permuted(active, active', n) && FallingTables(cpus, active, n)
    ensures ValidActive(active', |cpus|, n) && FallingTables(cpus, active', n)
  {
    PermutedStaysValid(active, active', |cpus|, n);
    forall i | 0 <= i < n ensures FallingRates(cpus[active'[i]].ints) {
      assert active'[..n][i] in active[..n];
    }
  }

  lemma PermutedStaysSorted(cpus: seq<CpuInfo>, sorted: seq<CpuInfo>, active: seq<int>, active': seq<int>, n: nat)
    requires ValidActive(active, |cpus|, n) && ValidActive(active', |cpus|, n) && Permuted(active, active', n)
    requires TablesSorted(cpus, sorted, active', n)
    ensures TablesSorted(cpus, sorted, active, n)
  {
    PermutedStaysFalling(sorted, active', active, n);
    PermutedStaysValid(active, active', |cpus|, n);
  }

  lemma TablesSortedSnoc(cpus: seq<CpuInfo>, sorted: seq<CpuInfo>, active: seq<int>, i: nat, ints: Table)
    requires i < |active| && ValidActive(active, |cpus|, i + 1) && TablesSorted(cpus, sorted, active, i)
    requires ValidTable(ints) && SortedTable(ints) && FallingRates(ints)
    requires multiset(ints) == multiset(cpus[active[i]].ints)
    ensures sorted[active[i]] == cpus[active[i]]
    ensures TablesSorted(cpus, sorted[active[i] := sorted[active[i]].(ints := ints)], active, i + 1)
  {
    assert active[..i + 1] == active[..i] + [active[i]];
    assert active[i] !in active[..i];
  }

  // ---- Rotation ----

  /** How many CPUs the rotation goes around; with all CPUs banned it stays on the first one. */
  function Lanes(avail: nat): (n: nat)
    ensures n > 0
  {
    if avail == 0 then 1 else avail
  }

  /** The active slot that the k-th moved interrupt goes to. */
  function Lane(k: nat, avail: nat): (i: nat)
    ensures i < Lanes(avail)
  {
    k % Lanes(avail)
  }

  lemma DivisionIs(x: nat, n: nat, q: nat, r: nat)
    requires n > 0 && x == n * q + r && r < n
    ensures x / n == q && x % n == r
  {
    var q', r' := x / n, x % n;
    assert x == n * q' + r';
    if q' > q {
      ProductStep(n, q, q');
    }
    if q' < q {
      ProductStep(n, q', q);
    }
  }

  lemma ProductStep(n: nat, a: nat, b: nat)
    requires a < b
    ensures n * a + n <= n * b
  {
    assert n * (a + 1) <= n * b;
  }

  lemma NextLane(k: nat, avail: nat)
    ensures Lane(k + 1, avail) == if Lane(k, avail) + 1 < avail then Lane(k, avail) + 1 else 0
    ensures (k + 1) / Lanes(avail) == k / Lanes(avail) + if Lane(k, avail) + 1 < Lanes(avail) then 0 else 1
  {
    var n := Lanes(avail);
    var q, i := k / n, k % n;
    assert k == n * q + i;
    if i + 1 == n {
      assert k + 1 == n * (q + 1);
      DivisionIs(k + 1, n, q + 1, 0);
    } else {
      DivisionIs(k + 1, n, q, i + 1);
    }
  }

  // ---- What has to move ----

  /** All interrupts of the list, except ignored ones, in order. */
  function Wanted(irqs: seq<IrqInfo>, cfg: Config): (r: seq<int>) {
    if irqs == [] then []
    else
      var last := irqs[|irqs| - 1];
      Wanted(irqs[..|irqs| - 1], cfg)
      + (if last.irqNo != SLOT_AVAILABLE && !Ignored(last.irqNo, cfg) then [last.irqNo] else [])
  }

  /** An entry of a banned CPU's table that has to move: active, not ignored, out of deadband. */
  predicate MustMove(e: Interrupt, irqs: seq<IrqInfo>, iteration: nat, cfg: Config) {
    Active(e) && !Ignored(e.irqNo, cfg) && Movable(irqs, e.irqNo, iteration)
  }

  function MovesOfTable(t: Table, cpu: int, irqs: seq<IrqInfo>, iteration: nat, cfg: Config): (r: seq<Move>) {
    if t == [] then []
    else
      var last := t[|t| - 1];
      MovesOfTable(t[..|t| - 1], cpu, irqs, iteration, cfg)
      + (if MustMove(last, irqs, iteration, cfg) then [Move(cpu, last.irqNo)] else [])
  }

  /** Everything that has to move from the CPUs in active slots `i` and up, the last CPU first. */
  ghost function MovesFrom(cpus: seq<CpuInfo>, active: seq<int>, n: nat, irqs: seq<IrqInfo>, iteration: nat,
                           cfg: Config, i: nat)
    : (r: seq<Move>)
    requires ValidActive(active, |cpus|, n) && i <= n
    decreases n - i
  {
    if i == n then []
    else MovesFrom(cpus, active, n, irqs, iteration, cfg, i + 1)
         + (if Banned(cpus, active, i) then MovesOfTable(cpus[active[i]].ints, active[i], irqs, iteration, cfg) else [])
  }

  /** Exactly the entries that must move are in a table's list. */
  lemma {:induction false} MovesOfTableAreExact(t: Table, cpu: int, irqs: seq<IrqInfo>, iteration: nat, cfg: Config,
                                                m: Move)
    ensures m in MovesOfTable(t, cpu, irqs, iteration, cfg) <==>
            m.from == cpu && exists i :: 0 <= i < |t| && t[i].irqNo == m.irqNo && MustMove(t[i], irqs, iteration, cfg)
  {
    if t != [] {
      var init, last := t[..|t| - 1], t[|t| - 1];
      MovesOfTableAreExact(init, cpu, irqs, iteration, cfg, m);
      if i :| 0 <= i < |t| && t[i].irqNo == m.irqNo && MustMove(t[i], irqs, iteration, cfg) {
        assert i < |init| ==> init[i] == t[i];
      }
      if i :| 0 <= i < |init| && init[i].irqNo == m.irqNo && MustMove(init[i], irqs, iteration, cfg) {
        assert t[i] == init[i];
      }
    }
  }

  ghost predicate MustLeave(cpus: seq<CpuInfo>, active: seq<int>, n: nat, irqs: seq<IrqInfo>, iteration: nat,
                            cfg: Config, i: nat, m: Move)
    requires ValidActive(active, |cpus|, n)
  {
    && i < n && m.from == active[i] && Banned(cpus, active, i)
    && exists j :: 0 <= j < |cpus[active[i]].ints| && cpus[active[i]].ints[j].irqNo == m.irqNo
                   && MustMove(cpus[active[i]].ints[j], irqs, iteration, cfg)
  }

  /** The moves are exactly the (banned CPU, interrupt) entries that must leave. */
  lemma {:induction false} MovesAreExact(cpus: seq<CpuInfo>, active: seq<int>, n: nat, irqs: seq<IrqInfo>,
                                         iteration: nat, cfg: Config, from: nat, m: Move)
    requires ValidActive(active, |cpus|, n) && from <= n
    ensures m in MovesFrom(cpus, active, n, irqs, iteration, cfg, from) <==>
            exists i :: from <= i < n && MustLeave(cpus, active, n, irqs, iteration, cfg, i, m)
    decreases n - from
  {
    if from < n {
      MovesAreExact(cpus, active, n, irqs, iteration, cfg, from + 1, m);
      MovesOfTableAreExact(cpus[active[from]].ints, active[from], irqs, iteration, cfg, m);
      var later := MovesFrom(cpus, active, n, irqs, iteration, cfg, from + 1);
      var here := if Banned(cpus, active, from)
                  then MovesOfTable(cpus[active[from]].ints, active[from], irqs, iteration, cfg) else [];
      assert MovesFrom(cpus, active, n, irqs, iteration, cfg, from) == later + here;
      assert m in later + here <==> m in later || m in here;
      assert m in here <==> MustLeave(cpus, active, n, irqs, iteration, cfg, from, m);
    }
  }

  ghost predicate NoRepeats(moves: seq<Move>) {
    forall i, j :: 0 <= i < j < |moves| ==> moves[i] != moves[j]
  }

  ghost predicate DistinctEntries(t: Table) {
    forall i, j :: 0 <= i < j < |t| && t[j].irqNo != SLOT_AVAILABLE ==> t[i].irqNo != t[j].irqNo
  }

  lemma {:induction false} MovesOfTableAreDistinct(t: Table, cpu: int, irqs: seq<IrqInfo>, iteration: nat, cfg: Config)
    requires DistinctEntries(t)
    ensures NoRepeats(MovesOfTable(t, cpu, irqs, iteration, cfg))
  {
    if t != [] {
      var init, last := t[..|t| - 1], t[|t| - 1];
      MovesOfTableAreDistinct(init, cpu, irqs, iteration, cfg);
      MovesOfTableAreExact(init, cpu, irqs, iteration, cfg, Move(cpu, last.irqNo));
    }
  }

  /** No entry is moved twice, so the number of moves is the number of entries that must leave. */
  lemma {:induction false} MovesAreDistinct(cpus: seq<CpuInfo>, active: seq<int>, n: nat, irqs: seq<IrqInfo>,
                                            iteration: nat, cfg: Config, from: nat)
    requires ValidActive(active, |cpus|, n) && from <= n
    requires forall c :: 0 <= c < |cpus| ==> DistinctEntries(cpus[c].ints)
    ensures NoRepeats(MovesFrom(cpus, active, n, irqs, iteration, cfg, from))
    decreases n - from
  {
    if from < n && Banned(cpus, active, from) {
      MovesAreDistinct(cpus, active, n, irqs, iteration, cfg, from + 1);
      var later := MovesFrom(cpus, active, n, irqs, iteration, cfg, from + 1);
      var here := MovesOfTable(cpus[active[from]].ints, active[from], irqs, iteration, cfg);
      MovesOfTableAreDistinct(cpus[active[from]].ints, active[from], irqs, iteration, cfg);
      forall a, b | 0 <= a < |later| && 0 <= b < |here| ensures later[a] != here[b] {
        MovesAreExact(cpus, active, n, irqs, iteration, cfg, from + 1, later[a]);
        MovesOfTableAreExact(cpus[active[from]].ints, active[from], irqs, iteration, cfg, here[b]);
        assert later[a] in later && here[b] in here;
      }
    } else if from < n {
      MovesAreDistinct(cpus, active, n, irqs, iteration, cfg, from + 1);
    }
  }

  /** After the first slot without activity nothing has to move. */
  lemma {:induction false} RestIsIdle(t: Table, k: nat, n: nat, cpu: int, irqs: seq<IrqInfo>, iteration: nat,
                                      cfg: Config)
    requires FallingRates(t) && k <= n <= |t| && (k < |t| ==> t[k].deltaPsCount <= 0.0)
    ensures MovesOfTable(t[..n], cpu, irqs, iteration, cfg) == MovesOfTable(t[..k], cpu, irqs, iteration, cfg)
    decreases n
  {
    if k < n {
      assert t[..n][..n - 1] == t[..n - 1];
      RestIsIdle(t, k, n - 1, cpu, irqs, iteration, cfg);
      assert t[k].deltaPsCount >= t[n - 1].deltaPsCount;
    }
  }

  /** What has to move out of the first `j` slots of a CPU's table. */
  ghost function MovesUpTo(cpus: seq<CpuInfo>, c: nat, j: nat, irqs: seq<IrqInfo>, iteration: nat,
                           cfg: Config): seq<Move>
    requires c < |cpus| && j <= |cpus[c].ints|
  {
    MovesOfTable(cpus[c].ints[..j], c, irqs, iteration, cfg)
  }

  /** One more slot, as found in the tables of the moment: the moves so far left its activity alone. */
  lemma MovesUpToSnoc(cpus: seq<CpuInfo>, now: seq<CpuInfo>, c: nat, j: nat, irqs: seq<IrqInfo>, iteration: nat,
                      cfg: Config)
    requires ValidCpus(cpus) && SameLoads(cpus, now) && c < |cpus| && j < MAX_NUM_INTERRUPTS
    ensures |now[c].ints| == |cpus[c].ints| == MAX_NUM_INTERRUPTS
    ensures var e := now[c].ints[j];
            && e.deltaPsCount == cpus[c].ints[j].deltaPsCount
            && (e.deltaPsCount > 0.0 ==> e.irqNo != SLOT_AVAILABLE)
            && MovesUpTo(cpus, c, j + 1, irqs, iteration, cfg) ==
               MovesUpTo(cpus, c, j, irqs, iteration, cfg)
               + if e.deltaPsCount > 0.0 && !Ignored(e.irqNo, cfg) && Movable(irqs, e.irqNo, iteration)
                 then [Move(c, e.irqNo)] else []
  {
    var t := cpus[c].ints;
    assert ValidTable(t) && SameActivity(t, now[c].ints);
    assert t[..j + 1][..j] == t[..j];
  }

  /** The early `break` loses nothing. */
  lemma MovesUpToIsAll(cpus: seq<CpuInfo>, c: nat, j: nat, irqs: seq<IrqInfo>, iteration: nat, cfg: Config)
    requires c < |cpus| && ValidTable(cpus[c].ints) && FallingRates(cpus[c].ints)
    requires j <= MAX_NUM_INTERRUPTS && (j < MAX_NUM_INTERRUPTS ==> cpus[c].ints[j].deltaPsCount <= 0.0)
    ensures MovesUpTo(cpus, c, j, irqs, iteration, cfg) == MovesOfTable(cpus[c].ints, c, irqs, iteration, cfg)
  {
    var t := cpus[c].ints;
    RestIsIdle(t, j, MAX_NUM_INTERRUPTS, c, irqs, iteration, cfg);
    assert t[..MAX_NUM_INTERRUPTS] == t;
  }

  /** The requests for a list of moves, dealt out over the available CPUs. */
  function Dealt(moves: seq<int>, active: seq<int>, avail: nat, iteration: nat, recorded: bool): (r: seq<Request>)
    requires Lanes(avail) <= |active|
    ensures |r| == |moves|
  {
    seq(|moves|, k requires 0 <= k < |moves| => Request(moves[k], active[Lane(k, avail)], iteration, recorded))
  }

  lemma DealtSnoc(moves: seq<int>, irqNo: int, active: seq<int>, avail: nat, iteration: nat, recorded: bool)
    requires Lanes(avail) <= |active|
    ensures Dealt(moves + [irqNo], active, avail, iteration, recorded) ==
            Dealt(moves, active, avail, iteration, recorded)
            + [Request(irqNo, active[Lane(|moves|, avail)], iteration, recorded)]
  {
  }

  /** How many requests give an interrupt to a CPU. */
  ghost function CountFor(reqs: seq<Request>, cpu: int): nat {
    if reqs == [] then 0
    else CountFor(reqs[..|reqs| - 1], cpu) + if reqs[|reqs| - 1].cpu == cpu then 1 else 0
  }

  /** Every full round gives one interrupt to each CPU, the last round one to the first ones. */
  lemma {:induction false} DealtCount(moves: seq<int>, active: seq<int>, avail: nat, iteration: nat, recorded: bool,
                                      i: nat)
    requires i < Lanes(avail) <= |active|
    requires forall a, b :: 0 <= a < b < Lanes(avail) ==> active[a] != active[b]
    ensures CountFor(Dealt(moves, active, avail, iteration, recorded), active[i]) ==
            |moves| / Lanes(avail) + if i < Lane(|moves|, avail) then 1 else 0
  {
    if moves == [] {
      DivisionIs(0, Lanes(avail), 0, 0);
    } else {
      var init, last := moves[..|moves| - 1], moves[|moves| - 1];
      DealtCount(init, active, avail, iteration, recorded, i);
      NextLane(|init|, avail);
      assert moves == init + [last];
      DealtSnoc(init, last, active, avail, iteration, recorded);
      var dealt := Dealt(moves, active, avail, iteration, recorded);
      assert dealt[..|dealt| - 1] == Dealt(init, active, avail, iteration, recorded);
    }
  }

  /** Rotation is even: no CPU gets two interrupts more than another. */
  lemma RotationIsEven(moves: seq<int>, active: seq<int>, avail: nat, iteration: nat, recorded: bool, i: nat, j: nat)
    requires i < Lanes(avail) <= |active| && j < Lanes(avail)
    requires forall a, b :: 0 <= a < b < Lanes(avail) ==> active[a] != active[b]
    ensures var dealt := Dealt(moves, active, avail, iteration, recorded);
            CountFor(dealt, active[i]) <= CountFor(dealt, active[j]) + 1
  {
    DealtCount(moves, active, avail, iteration, recorded, i);
    DealtCount(moves, active, avail, iteration, recorded, j);
  }

  function Numbers(moves: seq<Move>): (r: seq<int>)
    ensures |r| == |moves|
  {
    seq(|moves|, k requires 0 <= k < |moves| => moves[k].irqNo)
  }

  /** No evacuated interrupt goes to a banned CPU - unless all CPUs are banned and something moves. */
  lemma TargetsAreAvailable(cpus: seq<CpuInfo>, active: seq<int>, n: nat, avail: nat, moves: seq<int>, iteration: nat,
                            recorded: bool)
    requires ValidActive(active, |cpus|, n) && n > 0 && AvailablePrefix(cpus, active, n, avail)
    ensures (forall r :: r in Dealt(moves, active, avail, iteration, recorded) ==>
               0 <= r.cpu < |cpus| && cpus[r.cpu].prio > 0)
            <==> avail > 0 || moves == []
  {
    var dealt := Dealt(moves, active, avail, iteration, recorded);
    forall r | r in dealt ensures 0 <= r.cpu < |cpus| && (cpus[r.cpu].prio > 0 <==> avail > 0) {
      var k :| 0 <= k < |dealt| && dealt[k] == r;
      assert Banned(cpus, active, Lane(k, avail)) <==> Lane(k, avail) >= avail;
    }
    if moves != [] {
      assert dealt[0] in dealt;
    }
  }

  // ---- Balancing by load ----

  /** The active slot of the least active CPU that is not banned, not looking at slot 0. */
  function LeastActive(cpus: seq<CpuInfo>, active: seq<int>, i: nat): (lac: nat)
    requires i < |active| && forall k :: 0 <= k <= i ==> 0 <= active[k] < |cpus|
    ensures lac <= i && (i >= 1 ==> lac >= 1)
    ensures forall k :: lac < k <= i ==> Banned(cpus, active, k)
    ensures Banned(cpus, active, lac) ==> lac <= 1
  {
    if Banned(cpus, active, i) && i > 1 then LeastActive(cpus, active, i - 1) else i
  }

  function Gap(cpus: seq<CpuInfo>, mac: int, lac: int): nat
    requires 0 <= mac < |cpus| && 0 <= lac < |cpus|
  {
    Wrap64(cpus[mac].nIrqPsDecay - cpus[lac].nIrqPsDecay)
  }

  /** The interrupt that would move from `mac`: nearest to half the gap. */
  function ClosestIrq(cpus: seq<CpuInfo>, mac: int, lac: int, irqs: seq<IrqInfo>, iteration: nat): (k: int)
    requires 0 <= mac < |cpus| && 0 <= lac < |cpus| && |cpus[mac].ints| == MAX_NUM_INTERRUPTS
    ensures -1 <= k < MAX_NUM_INTERRUPTS
  {
    CloseIrq(cpus[mac].ints, Gap(cpus, mac, lac) / 2, irqs, iteration)
  }

  /** The gap is more than the configured share of the busier CPU's load. */
  predicate IsUnbalanced(gap: nat, load: nat, cfg: Config) {
    gap as real > load as real * cfg.balancingFactor
  }

  predicate WorthMoving(cpus: seq<CpuInfo>, mac: int, lac: int, irqs: seq<IrqInfo>, iteration: nat, cfg: Config)
    requires 0 <= mac < |cpus| && 0 <= lac < |cpus| && |cpus[mac].ints| == MAX_NUM_INTERRUPTS
  {
    var k := ClosestIrq(cpus, mac, lac, irqs, iteration);
    && k >= 0
    && cpus[mac].ints[1].deltaPsCount > 0.0
    && cpus[mac].ints[k].deltaPsCount > 0.0
    && IsUnbalanced(Gap(cpus, mac, lac), cpus[mac].nIrqPsDecay, cfg)
    && FindInfo(irqs, cpus[mac].ints[k].irqNo) != -1
  }

  lemma UnbalancedGapIsPositive(gap: nat, load: nat, cfg: Config)
    requires IsUnbalanced(gap, load, cfg) && cfg.balancingFactor >= 0.0
    ensures gap > 0
  {
    var l := load as real;
    assert l >= 0.0 && l * cfg.balancingFactor >= 0.0;
  }

  /** A move that the load justifies goes from a strictly busier CPU, to one that is not banned, by
      a gap that does not wrap and exceeds the configured share of the source's load. */
  lemma MoveIsJustified(cpus: seq<CpuInfo>, active: seq<int>, n: nat, m: nat, irqs: seq<IrqInfo>, iteration: nat,
                        cfg: Config)
    requires ValidCpus(cpus) && ValidActive(active, |cpus|, n) && n >= 2 && SortedByActivity(cpus, active, n)
    requires cfg.balancingFactor >= 0.0
    requires var l := LeastActive(cpus, active, n - 1);
             m < l && !Banned(cpus, active, l) && WorthMoving(cpus, active[m], active[l], irqs, iteration, cfg)
    ensures var mac, lac := active[m], active[LeastActive(cpus, active, n - 1)];
            && cpus[mac].nIrqPsDecay > cpus[lac].nIrqPsDecay && cpus[lac].prio > 0 && mac != lac
            && Gap(cpus, mac, lac) == cpus[mac].nIrqPsDecay - cpus[lac].nIrqPsDecay
            && IsUnbalanced(cpus[mac].nIrqPsDecay - cpus[lac].nIrqPsDecay, cpus[mac].nIrqPsDecay, cfg)
            && Movable(irqs, cpus[mac].ints[ClosestIrq(cpus, mac, lac, irqs, iteration)].irqNo, iteration)
  {
    var mac, lac := active[m], active[LeastActive(cpus, active, n - 1)];
    UnbalancedGapIsPositive(Gap(cpus, mac, lac), cpus[mac].nIrqPsDecay, cfg);
  }

  /** The first active slot below `l`, from `m` on, whose CPU gives up an interrupt, or `l`. */
  ghost function FirstWorth(cpus: seq<CpuInfo>, active: seq<int>, l: nat, irqs: seq<IrqInfo>, iteration: nat,
                            cfg: Config, m: nat)
    : (k: nat)
    requires ValidCpus(cpus) && l < |active| && m <= l && forall i :: 0 <= i <= l ==> 0 <= active[i] < |cpus|
    ensures m <= k <= l && (k < l ==> WorthMoving(cpus, active[k], active[l], irqs, iteration, cfg))
    ensures forall i :: m <= i < k ==> !WorthMoving(cpus, active[i], active[l], irqs, iteration, cfg)
    decreases l - m
  {
    if m == l || WorthMoving(cpus, active[m], active[l], irqs, iteration, cfg) then m
    else FirstWorth(cpus, active, l, irqs, iteration, cfg, m + 1)
  }

  /** The requests of a balancing decision. */
  ghost function Decision(cpus: seq<CpuInfo>, active: seq<int>, n: nat, irqs: seq<IrqInfo>, iteration: nat, cfg: Config)
    : (r: seq<Request>)
    requires ValidCpus(cpus) && ValidActive(active, |cpus|, n) && n >= 2
    ensures |r| <= 1
  {
    var l := LeastActive(cpus, active, n - 1);
    if Banned(cpus, active, l) then []
    else
      var m := FirstWorth(cpus, active, l, irqs, iteration, cfg, 0);
      if m == l then []
      else
        var k := ClosestIrq(cpus, active[m], active[l], irqs, iteration);
        [Request(cpus[active[m]].ints[k].irqNo, active[l], iteration, true)]
  }

  /** A balancing request takes an active, movable interrupt from a strictly busier CPU to one that is
      not banned, and the gap, which does not wrap, is more than the configured share. */
  lemma DecisionIsJustified(cpus: seq<CpuInfo>, active: seq<int>, n: nat, irqs: seq<IrqInfo>, iteration: nat,
                            cfg: Config)
    returns (mac: int)
    requires ValidCpus(cpus) && ValidActive(active, |cpus|, n) && n >= 2 && SortedByActivity(cpus, active, n)
    requires cfg.balancingFactor >= 0.0 && Decision(cpus, active, n, irqs, iteration, cfg) != []
    ensures var r := Decision(cpus, active, n, irqs, iteration, cfg)[0];
            && 0 <= mac < |cpus| && 0 <= r.cpu < |cpus|
            && cpus[mac].nIrqPsDecay > cpus[r.cpu].nIrqPsDecay && cpus[r.cpu].prio > 0
            && Gap(cpus, mac, r.cpu) == cpus[mac].nIrqPsDecay - cpus[r.cpu].nIrqPsDecay
            && IsUnbalanced(cpus[mac].nIrqPsDecay - cpus[r.cpu].nIrqPsDecay, cpus[mac].nIrqPsDecay, cfg)
            && Movable(irqs, r.irqNo, iteration)
            && exists k :: 0 <= k < |cpus[mac].ints| && Active(cpus[mac].ints[k]) && cpus[mac].ints[k].irqNo == r.irqNo
  {
    var l := LeastActive(cpus, active, n - 1);
    var m := FirstWorth(cpus, active, l, irqs, iteration, cfg, 0);
    MoveIsJustified(cpus, active, n, m, irqs, iteration, cfg);
    mac := active[m];
    var k := ClosestIrq(cpus, mac, active[l], irqs, iteration);
    assert Active(cpus[mac].ints[k]);
  }

  /** The CPUs' tables after one request: if it succeeded, it is registered at its target. */
  ghost function Moved(cpus: seq<CpuInfo>, cpu: int, irqNo: int, answer: int): (r: seq<CpuInfo>)
    ensures |r| == |cpus|
  {
    if answer == 0 && 0 <= cpu < |cpus| then cpus[cpu := cpus[cpu].(ints := Register(cpus[cpu].ints, irqNo))] else cpus
  }

  lemma MovedKeepsLoads(cpus: seq<CpuInfo>, cpu: int, irqNo: int, answer: int)
    requires ValidCpus(cpus) && irqNo != SLOT_AVAILABLE
    ensures ValidCpus(Moved(cpus, cpu, irqNo, answer)) && SameLoads(cpus, Moved(cpus, cpu, irqNo, answer))
  {
    if 0 <= cpu < |cpus| {
      RegisterKeepsActivity(cpus[cpu].ints, irqNo);
    }
  }

  ghost function Applied(cpus: seq<CpuInfo>, reqs: seq<Request>, answers: seq<int>): (r: seq<CpuInfo>)
    requires |answers| == |reqs|
    ensures |r| == |cpus|
  {
    if reqs == [] then cpus
    else
      var last := |reqs| - 1;
      Moved(Applied(cpus, reqs[..last], answers[..last]), reqs[last].cpu, reqs[last].irqNo, answers[last])
  }

  lemma AppliedSnoc(cpus: seq<CpuInfo>, reqs: seq<Request>, answers: seq<int>, req: Request, answer: int)
    requires |answers| == |reqs|
    ensures Applied(cpus, reqs + [req], answers + [answer])
         == Moved(Applied(cpus, reqs, answers), req.cpu, req.irqNo, answer)
  {
    assert (reqs + [req])[..|reqs|] == reqs;
    assert (answers + [answer])[..|reqs|] == answers;
  }

  /** Requests change no load, no priority and no active interrupt, and nothing at all at a CPU that
      is not a target. */
  lemma {:induction false} AppliedKeepsLoads(cpus: seq<CpuInfo>, reqs: seq<Request>, answers: seq<int>)
    requires ValidCpus(cpus) && |answers| == |reqs| && forall r :: r in reqs ==> r.irqNo != SLOT_AVAILABLE
    ensures ValidCpus(Applied(cpus, reqs, answers)) && SameLoads(cpus, Applied(cpus, reqs, answers))
    ensures forall c :: 0 <= c < |cpus| && (forall r :: r in reqs ==> r.cpu != c) ==>
              Applied(cpus, reqs, answers)[c] == cpus[c]
  {
    if reqs != [] {
      var last := |reqs| - 1;
      AppliedKeepsLoads(cpus, reqs[..last], answers[..last]);
      MovedKeepsLoads(Applied(cpus, reqs[..last], answers[..last]), reqs[last].cpu, reqs[last].irqNo, answers[last]);
    }
  }

  /** The CPU's table has the interrupt, or is full. */
  ghost predicate HasOrFull(t: Table, irqNo: int) {
    (exists i :: 0 <= i < |t| && t[i].irqNo == irqNo) || forall i :: 0 <= i < |t| ==> t[i].irqNo != SLOT_AVAILABLE
  }

  lemma RegisterKeepsHas(t: Table, irqNo: int, other: int)
    requires other != SLOT_AVAILABLE && irqNo != SLOT_AVAILABLE && ValidTable(t)
    ensures HasOrFull(t, other) ==> HasOrFull(Register(t, irqNo), other)
    ensures HasOrFull(Register(t, irqNo), irqNo)
  {
    var r := Register(t, irqNo);
    RegisterKeepsActivity(t, irqNo);
    if i :| 0 <= i < |t| && t[i].irqNo == other {
      assert r[i].irqNo == other;
    }
    if i :| 0 <= i < |r| && r[i].irqNo == SLOT_AVAILABLE {
      assert t[i].irqNo == SLOT_AVAILABLE;
    }
  }

  /** Exactly the requests that succeed count: a CPU to which none goes keeps its table, and each is found
      in the table of its CPU afterwards, unless that is full. */
  lemma {:induction false} AppliedIsExact(cpus: seq<CpuInfo>, reqs: seq<Request>, answers: seq<int>, c: nat)
    requires ValidCpus(cpus) && |answers| == |reqs| && c < |cpus|
    requires forall k :: 0 <= k < |reqs| ==> reqs[k].irqNo != SLOT_AVAILABLE
    ensures (forall k :: 0 <= k < |reqs| && answers[k] == 0 ==> reqs[k].cpu != c) ==>
              Applied(cpus, reqs, answers)[c] == cpus[c]
    ensures forall k :: 0 <= k < |reqs| && answers[k] == 0 && reqs[k].cpu == c ==>
              HasOrFull(Applied(cpus, reqs, answers)[c].ints, reqs[k].irqNo)
  {
    if reqs != [] {
      var last := |reqs| - 1;
      var was := Applied(cpus, reqs[..last], answers[..last]);
      AppliedIsExact(cpus, reqs[..last], answers[..last], c);
      AppliedKeepsLoads(cpus, reqs[..last], answers[..last]);
      if reqs[last].cpu == c && answers[last] == 0 {
        forall k | 0 <= k < |reqs| && answers[k] == 0 && reqs[k].cpu == c
          ensures HasOrFull(Register(was[c].ints, reqs[last].irqNo), reqs[k].irqNo)
        {
          RegisterKeepsHas(was[c].ints, reqs[last].irqNo, reqs[k].irqNo);
          assert k < last ==> reqs[..last][k] == reqs[k] && answers[..last][k] == answers[k];
        }
      } else {
        assert forall k :: 0 <= k < last ==> reqs[..last][k] == reqs[k] && answers[..last][k] == answers[k];
      }
    }
  }

  lemma SamePrefix(cpus: seq<CpuInfo>, now: seq<CpuInfo>, active: seq<int>, n: nat, avail: nat)
    requires SameLoads(cpus, now) && ValidActive(active, |cpus|, n) && AvailablePrefix(cpus, active, n, avail)
    ensures AvailablePrefix(now, active, n, avail)
  {
    forall i | 0 <= i < n ensures Banned(now, active, i) <==> i >= avail {
      assert Banned(cpus, active, i) <==> i >= avail;
    }
  }

  /** What clearing the banned CPUs has done after some moves: the requests, and the tables. */
  ghost predicate Cleared(cpus: seq<CpuInfo>, active: seq<int>, avail: nat, iteration: nat,
                          moves: seq<Move>, answers: seq<int>, reqs: seq<Request>, now: seq<CpuInfo>)
  {
    && Lanes(avail) <= |active| && |answers| == |moves|
    && reqs == Dealt(Numbers(moves), active, avail, iteration, false)
    && now == Applied(cpus, reqs, answers) && ValidCpus(now) && SameLoads(cpus, now)
  }

  lemma ClearedAtFirst(cpus: seq<CpuInfo>, active: seq<int>, avail: nat, iteration: nat)
    requires ValidCpus(cpus) && Lanes(avail) <= |active|
    ensures Cleared(cpus, active, avail, iteration, [], [], [], cpus) && Lane(0, avail) == 0
  {
    DivisionIs(0, Lanes(avail), 0, 0);
  }

  lemma ClearedStep(cpus: seq<CpuInfo>, active: seq<int>, avail: nat, iteration: nat, moves: seq<Move>,
                    answers: seq<int>, reqs: seq<Request>, now: seq<CpuInfo>, m: Move, answer: int)
    requires Cleared(cpus, active, avail, iteration, moves, answers, reqs, now) && m.irqNo != SLOT_AVAILABLE
    ensures var cpu := active[Lane(|moves|, avail)];
            Cleared(cpus, active, avail, iteration, moves + [m], answers + [answer],
                    reqs + [Request(m.irqNo, cpu, iteration, false)], Moved(now, cpu, m.irqNo, answer))
  {
    var cpu := active[Lane(|moves|, avail)];
    var req := Request(m.irqNo, cpu, iteration, false);
    assert Numbers(moves + [m]) == Numbers(moves) + [m.irqNo];
    DealtSnoc(Numbers(moves), m.irqNo, active, avail, iteration, false);
    AppliedSnoc(cpus, reqs, answers, req, answer);
    MovedKeepsLoads(now, cpu, m.irqNo, answer);
  }

  // ---- One iteration, as seen from the list of interrupts ----

  ghost function RecordedIrqs(reqs: seq<Request>): set<int> {
    set r | r in reqs && r.recorded :: r.irqNo
  }

  /** The list notes the iteration for exactly the recorded requests. */
  ghost predicate Noted(before: seq<IrqInfo>, after: seq<IrqInfo>, reqs: seq<Request>, iteration: nat) {
    && |after| == |before|
    && forall i :: 0 <= i < |before| ==>
         after[i] == if before[i].irqNo in RecordedIrqs(reqs) then IrqInfo(before[i].irqNo, iteration) else before[i]
  }

  /** Noting changes no interrupt's place in the list. */
  lemma NotedKeepsList(before: seq<IrqInfo>, after: seq<IrqInfo>, reqs: seq<Request>, iteration: nat, irqNo: int)
    requires ValidIrqList(before) && Noted(before, after, reqs, iteration)
    ensures ValidIrqList(after) && (Listed(after, irqNo) <==> Listed(before, irqNo))
  {
    assert forall i :: 0 <= i < |before| ==> after[i].irqNo == before[i].irqNo;
    if i :| 0 <= i < |before| && before[i].irqNo == irqNo {
      assert after[i].irqNo == irqNo;
    }
  }

  /** The deadband's contract for an iteration: it is respected from the second iteration on, a
      recorded request is for a listed interrupt and the only one for it, and it is noted. */
  ghost predicate IterationStep(before: seq<IrqInfo>, after: seq<IrqInfo>, reqs: seq<Request>, iteration: nat) {
    && Noted(before, after, reqs, iteration)
    && (forall r :: r in reqs ==>
          && r.iteration == iteration && r.irqNo != SLOT_AVAILABLE
          && (iteration == 1 || Movable(before, r.irqNo, iteration))
          && (r.recorded ==> FindInfo(before, r.irqNo) != -1))
    && (forall i, j :: 0 <= i < |reqs| && 0 <= j < |reqs| && i != j && reqs[i].recorded ==>
          reqs[i].irqNo != reqs[j].irqNo)
  }

  /** The requests that clear the banned CPUs: everything at first, later only what is active there. */
  ghost function Evacuation(cpus: seq<CpuInfo>, active: seq<int>, n: nat, avail: nat, irqs: seq<IrqInfo>,
                            iteration: nat, cfg: Config)
    : (r: seq<Request>)
    requires ValidActive(active, |cpus|, n) && Lanes(avail) <= |active|
  {
    if avail == n then []
    else if iteration == 1 then Dealt(Wanted(irqs, cfg), active, avail, iteration, true)
    else Dealt(Numbers(MovesFrom(cpus, active, n, irqs, iteration, cfg, 0)), active, avail, iteration, false)
  }

  /** Wanted are the listed interrupts that are not ignored, each once. */
  lemma {:induction false} WantedIsExact(irqs: seq<IrqInfo>, cfg: Config)
    requires DistinctIrqs(irqs)
    ensures forall x :: x in Wanted(irqs, cfg) <==>
              x != SLOT_AVAILABLE && !Ignored(x, cfg) && Listed(irqs, x)
    ensures forall i, j :: 0 <= i < j < |Wanted(irqs, cfg)| ==> Wanted(irqs, cfg)[i] != Wanted(irqs, cfg)[j]
  {
    if irqs != [] {
      var init, last := irqs[..|irqs| - 1], irqs[|irqs| - 1];
      WantedIsExact(init, cfg);
      forall x ensures Listed(irqs, x) <==> last.irqNo == x || Listed(init, x) {
        if i :| 0 <= i < |irqs| && irqs[i].irqNo == x {
          assert i < |init| ==> init[i] == irqs[i];
        }
        if i :| 0 <= i < |init| && init[i].irqNo == x {
          assert irqs[i] == init[i];
        }
      }
    }
  }

  lemma {:induction false} NothingWantedAfter(irqs: seq<IrqInfo>, k: nat, cfg: Config)
    requires ValidIrqList(irqs) && k <= |irqs| && (k < |irqs| ==> irqs[k].irqNo == SLOT_AVAILABLE)
    ensures forall m :: k <= m <= |irqs| ==> Wanted(irqs[..m], cfg) == Wanted(irqs[..k], cfg)
  {
    for m := k to |irqs|
      invariant forall j :: k <= j <= m ==> Wanted(irqs[..j], cfg) == Wanted(irqs[..k], cfg)
    {
      assert irqs[..m + 1][..m] == irqs[..m];
      assert irqs[m].irqNo == SLOT_AVAILABLE;
    }
  }

  /** In the first iteration the whole list is noted, except what is ignored. */
  lemma AllWantedNoted(irqs: seq<IrqInfo>, active: seq<int>, avail: nat, iteration: nat, cfg: Config)
    requires ValidIrqList(irqs) && Lanes(avail) <= |active|
    ensures forall i :: 0 <= i < |irqs| ==>
              (irqs[i].irqNo in RecordedIrqs(Dealt(Wanted(irqs, cfg), active, avail, iteration, true)) <==>
               irqs[i].irqNo != SLOT_AVAILABLE && !Ignored(irqs[i].irqNo, cfg))
  {
    WantedIsExact(irqs, cfg);
    var wanted := Wanted(irqs, cfg);
    var dealt := Dealt(wanted, active, avail, iteration, true);
    forall x ensures x in RecordedIrqs(dealt) <==> x in wanted {
      if x in wanted {
        var k :| 0 <= k < |wanted| && wanted[k] == x;
        assert dealt[k] in dealt;
      }
    }
  }

  /** The list after its first `j` interrupts have been noted. */
  ghost function NotedUpTo(irqs: seq<IrqInfo>, j: nat, iteration: nat, cfg: Config): (r: seq<IrqInfo>)
    ensures |r| == |irqs|
  {
    seq(|irqs|, i requires 0 <= i < |irqs| =>
      if i < j && !Ignored(irqs[i].irqNo, cfg) then IrqInfo(irqs[i].irqNo, iteration) else irqs[i])
  }

  lemma NotedUpToSnoc(irqs: seq<IrqInfo>, j: nat, iteration: nat, cfg: Config)
    requires ValidIrqList(irqs) && j < |irqs| && irqs[j].irqNo != SLOT_AVAILABLE
    ensures var irqNo, noted := irqs[j].irqNo, NotedUpTo(irqs, j, iteration, cfg);
            && noted[j] == irqs[j] && FindInfo(noted, irqNo) == j
            && NotedUpTo(irqs, j + 1, iteration, cfg)
               == (if Ignored(irqNo, cfg) then noted else noted[j := IrqInfo(irqNo, iteration)])
            && Wanted(irqs[..j + 1], cfg) == Wanted(irqs[..j], cfg) + (if Ignored(irqNo, cfg) then [] else [irqNo])
  {
    assert irqs[..j + 1][..j] == irqs[..j];
    var noted := NotedUpTo(irqs, j, iteration, cfg);
    assert noted[j].irqNo == irqs[j].irqNo;
    var k := FindInfo(noted, irqs[j].irqNo);
    assert 0 <= k <= j && irqs[k].irqNo == noted[k].irqNo;
  }

  lemma NotedUpToIsNoted(irqs: seq<IrqInfo>, j: nat, active: seq<int>, avail: nat, iteration: nat, cfg: Config)
    requires ValidIrqList(irqs) && Lanes(avail) <= |active| && j <= |irqs|
    requires forall i :: 0 <= i < j ==> irqs[i].irqNo != SLOT_AVAILABLE
    requires j < |irqs| ==> irqs[j].irqNo == SLOT_AVAILABLE
    ensures Wanted(irqs[..j], cfg) == Wanted(irqs, cfg) && ValidIrqList(NotedUpTo(irqs, j, iteration, cfg))
    ensures Noted(irqs, NotedUpTo(irqs, j, iteration, cfg),
                  Dealt(Wanted(irqs, cfg), active, avail, iteration, true), iteration)
  {
    NothingWantedAfter(irqs, j, cfg);
    assert irqs[..|irqs|] == irqs;
    AllWantedNoted(irqs, active, avail, iteration, cfg);
  }

  lemma {:induction false} NothingToMove(cpus: seq<CpuInfo>, active: seq<int>, n: nat, irqs: seq<IrqInfo>,
                                         iteration: nat, cfg: Config, from: nat)
    requires ValidActive(active, |cpus|, n) && from <= n
    requires forall i :: 0 <= i < n ==> !Banned(cpus, active, i)
    ensures MovesFrom(cpus, active, n, irqs, iteration, cfg, from) == []
    decreases n - from
  {
    if from < n {
      NothingToMove(cpus, active, n, irqs, iteration, cfg, from + 1);
    }
  }

  /** Clearing the banned CPUs respects the deadband - after the first iteration. */
  lemma EvacuationIsStep(cpus: seq<CpuInfo>, active: seq<int>, n: nat, avail: nat, irqs: seq<IrqInfo>,
                         after: seq<IrqInfo>, iteration: nat, cfg: Config)
    requires ValidActive(active, |cpus|, n) && Lanes(avail) <= |active| && ValidIrqList(irqs)
    requires Noted(irqs, after, Evacuation(cpus, active, n, avail, irqs, iteration, cfg), iteration)
    ensures IterationStep(irqs, after, Evacuation(cpus, active, n, avail, irqs, iteration, cfg), iteration)
  {
    var reqs := Evacuation(cpus, active, n, avail, irqs, iteration, cfg);
    if avail != n && iteration == 1 {
      WantedIsExact(irqs, cfg);
      forall r | r in reqs
        ensures FindInfo(irqs, r.irqNo) != -1 && r.irqNo != SLOT_AVAILABLE && r.iteration == iteration
      {
        var k :| 0 <= k < |reqs| && reqs[k] == r;
        assert r.irqNo == Wanted(irqs, cfg)[k];
        assert r.irqNo in Wanted(irqs, cfg);
      }
    } else if avail != n {
      var moves := MovesFrom(cpus, active, n, irqs, iteration, cfg, 0);
      forall r | r in reqs
        ensures Movable(irqs, r.irqNo, iteration) && r.irqNo != SLOT_AVAILABLE && r.iteration == iteration
        ensures !r.recorded
      {
        var k :| 0 <= k < |reqs| && reqs[k] == r;
        MovesAreExact(cpus, active, n, irqs, iteration, cfg, 0, moves[k]);
        assert moves[k] in moves;
      }
    }
  }

  lemma NoteKeepsValid(irqs: seq<IrqInfo>, k: nat, iteration: nat)
    requires ValidIrqList(irqs) && k < |irqs|
    ensures ValidIrqList(irqs[k := IrqInfo(irqs[k].irqNo, iteration)])
  {
    var after := irqs[k := IrqInfo(irqs[k].irqNo, iteration)];
    assert forall i :: 0 <= i < |irqs| ==> after[i].irqNo == irqs[i].irqNo;
  }

  /** What a balancing decision leaves behind. */
  ghost predicate Decided(cpus: seq<CpuInfo>, active: seq<int>, n: nat, irqs: seq<IrqInfo>, iteration: nat, cfg: Config,
                          reqs: seq<Request>, answers: seq<int>, now: seq<CpuInfo>, after: seq<IrqInfo>)
    requires ValidCpus(cpus) && ValidActive(active, |cpus|, n) && n >= 2
  {
    && reqs == Decision(cpus, active, n, irqs, iteration, cfg) && |answers| == |reqs|
    && now == Applied(cpus, reqs, answers) && ValidCpus(now) && SameLoads(cpus, now)
    && Noted(irqs, after, reqs, iteration)
  }

  lemma DecidedToStay(cpus: seq<CpuInfo>, active: seq<int>, n: nat, irqs: seq<IrqInfo>, iteration: nat, cfg: Config)
    requires ValidCpus(cpus) && ValidActive(active, |cpus|, n) && n >= 2
    requires Decision(cpus, active, n, irqs, iteration, cfg) == []
    ensures Decided(cpus, active, n, irqs, iteration, cfg, [], [], cpus, irqs)
  {
    assert RecordedIrqs([]) == {};
  }

  lemma DecidedToMove(cpus: seq<CpuInfo>, active: seq<int>, n: nat, irqs: seq<IrqInfo>, iteration: nat, cfg: Config,
                      req: Request, answer: int)
    requires ValidCpus(cpus) && ValidActive(active, |cpus|, n) && n >= 2 && DistinctIrqs(irqs)
    requires Decision(cpus, active, n, irqs, iteration, cfg) == [req] && req.irqNo != SLOT_AVAILABLE && req.recorded
    requires FindInfo(irqs, req.irqNo) != -1
    ensures var k := FindInfo(irqs, req.irqNo);
            Decided(cpus, active, n, irqs, iteration, cfg, [req], [answer], Moved(cpus, req.cpu, req.irqNo, answer),
                    irqs[k := IrqInfo(req.irqNo, iteration)])
  {
    AppliedSnoc(cpus, [], [], req, answer);
    assert [] + [req] == [req] && [] + [answer] == [answer];
    MovedKeepsLoads(cpus, req.cpu, req.irqNo, answer);
    assert req in [req];
    assert RecordedIrqs([req]) == {req.irqNo};
  }

  lemma DecisionIsStep(cpus: seq<CpuInfo>, active: seq<int>, n: nat, irqs: seq<IrqInfo>, after: seq<IrqInfo>,
                       iteration: nat, cfg: Config)
    requires ValidCpus(cpus) && ValidActive(active, |cpus|, n) && n >= 2
    requires Noted(irqs, after, Decision(cpus, active, n, irqs, iteration, cfg), iteration)
    ensures IterationStep(irqs, after, Decision(cpus, active, n, irqs, iteration, cfg), iteration)
  {
  }

  /** Evacuation moves that are not the first iteration's leave the list as it is. */
  lemma UnrecordedIsNoted(irqs: seq<IrqInfo>, reqs: seq<Request>, iteration: nat)
    requires forall r :: r in reqs ==> !r.recorded
    ensures Noted(irqs, irqs, reqs, iteration)
  {
  }

  /** The banned CPUs have been cleared: the tables register the moves, but those of the first
      iteration. */
  ghost predicate Evacuated(cpus: seq<CpuInfo>, reqs: seq<Request>, iteration: nat, answers: seq<int>,
                            now: seq<CpuInfo>, irqs: seq<IrqInfo>, after: seq<IrqInfo>)
  {
    && Noted(irqs, after, reqs, iteration)
    && (if iteration == 1 then now == cpus else |answers| == |reqs| && now == Applied(cpus, reqs, answers))
  }

  /** An iteration: what it clears from the banned CPUs or else decides to move, and what it notes. */
  ghost predicate Balanced(cpus: seq<CpuInfo>, byPrio: seq<int>, active: seq<int>, n: nat, avail: nat,
                           irqs: seq<IrqInfo>, iteration: nat, cfg: Config, reqs: seq<Request>, answers: seq<int>,
                           now: seq<CpuInfo>, after: seq<IrqInfo>)
    requires ValidCpus(cpus) && ValidActive(byPrio, |cpus|, n) && ValidActive(active, |cpus|, n) && n >= 2
    requires AvailablePrefix(cpus, byPrio, n, avail)
  {
    var evacuation := Evacuation(cpus, byPrio, n, avail, irqs, iteration, cfg);
    if evacuation != [] then
      reqs == evacuation && Evacuated(cpus, reqs, iteration, answers, now, irqs, after)
    else
      && SortedByActivity(cpus, active, n)
      && Decided(cpus, active, n, irqs, iteration, cfg, reqs, answers, now, after)
  }

  lemma BalancedIsStep(cpus: seq<CpuInfo>, byPrio: seq<int>, active: seq<int>, n: nat, avail: nat, irqs: seq<IrqInfo>,
                       iteration: nat, cfg: Config, reqs: seq<Request>, answers: seq<int>, now: seq<CpuInfo>,
                       after: seq<IrqInfo>)
    requires ValidCpus(cpus) && ValidActive(byPrio, |cpus|, n) && ValidActive(active, |cpus|, n) && n >= 2
    requires AvailablePrefix(cpus, byPrio, n, avail) && ValidIrqList(irqs)
    requires Balanced(cpus, byPrio, active, n, avail, irqs, iteration, cfg, reqs, answers, now, after)
    ensures IterationStep(irqs, after, reqs, iteration)
  {
    if Evacuation(cpus, byPrio, n, avail, irqs, iteration, cfg) != [] {
      EvacuationIsStep(cpus, byPrio, n, avail, irqs, after, iteration, cfg);
    } else {
      DecisionIsStep(cpus, active, n, irqs, after, iteration, cfg);
    }
  }

  lemma EvacuationIsUnrecorded(cpus: seq<CpuInfo>, byPrio: seq<int>, n: nat, avail: nat, irqs: seq<IrqInfo>,
                               iteration: nat, cfg: Config)
    requires ValidActive(byPrio, |cpus|, n) && Lanes(avail) <= |byPrio| && AvailablePrefix(cpus, byPrio, n, avail)
    ensures var evacuation := Evacuation(cpus, byPrio, n, avail, irqs, iteration, cfg);
            && (forall r :: r in evacuation ==> (r.recorded <==> iteration == 1))
            && (iteration != 1 ==> |evacuation| == |MovesFrom(cpus, byPrio, n, irqs, iteration, cfg, 0)|)
  {
    if avail == n {
      NothingToMove(cpus, byPrio, n, irqs, iteration, cfg, 0);
    }
  }

  lemma DecidedIsRecorded(cpus: seq<CpuInfo>, active: seq<int>, n: nat, irqs: seq<IrqInfo>, iteration: nat, cfg: Config,
                          reqs: seq<Request>, answers: seq<int>, now: seq<CpuInfo>, after: seq<IrqInfo>, r: Request)
    requires ValidCpus(cpus) && ValidActive(active, |cpus|, n) && n >= 2
    requires Decided(cpus, active, n, irqs, iteration, cfg, reqs, answers, now, after) && r in reqs
    ensures r.recorded
  {
  }

  /** Which requests are not recorded: those that clear banned CPUs after the first iteration. */
  lemma RecordedIffNotEvacuation(cpus: seq<CpuInfo>, byPrio: seq<int>, active: seq<int>, n: nat, avail: nat,
                                 irqs: seq<IrqInfo>, iteration: nat, cfg: Config, reqs: seq<Request>,
                                 answers: seq<int>, now: seq<CpuInfo>, after: seq<IrqInfo>, r: Request)
    requires ValidCpus(cpus) && ValidActive(byPrio, |cpus|, n) && ValidActive(active, |cpus|, n) && n >= 2
    requires AvailablePrefix(cpus, byPrio, n, avail)
    requires Balanced(cpus, byPrio, active, n, avail, irqs, iteration, cfg, reqs, answers, now, after) && r in reqs
    ensures r.recorded <==> iteration == 1 || MovesFrom(cpus, byPrio, n, irqs, iteration, cfg, 0) == []
  {
    var evacuation := Evacuation(cpus, byPrio, n, avail, irqs, iteration, cfg);
    EvacuationIsUnrecorded(cpus, byPrio, n, avail, irqs, iteration, cfg);
    if evacuation != [] {
      assert r in evacuation;
    } else {
      DecidedIsRecorded(cpus, active, n, irqs, iteration, cfg, reqs, answers, now, after, r);
    }
  }
}
