/** The tables of the interrupt balancer (msm_irqbalance/msm_irqbalance.c), their order, the
    deadband and the choice of an interrupt to move. Rates are reals, truncation is `Floor`, and
    64-bit unsigned subtraction wraps. */
module IrqTables {
  const MAX_NUM_INTERRUPTS := 200
  const SLOT_AVAILABLE := -1
  const NUM_ITERATIONS_DEADBAND := 2
  const TWO_TO_THE_64 := 0x1_0000_0000_0000_0000

  datatype Interrupt = Interrupt(irqNo: int, count: nat, prevCount: nat, deltaPsCount: real, dcPsDecay: real)

  type Table = seq<Interrupt>

  datatype CpuInfo = CpuInfo(ints: Table, nIrqPsDecay: nat, prio: nat)

  datatype IrqInfo = IrqInfo(irqNo: int, lastMovedIt: nat)

  function Wrap64(x: int): (r: nat)
    ensures r < TWO_TO_THE_64
    ensures 0 <= x < TWO_TO_THE_64 ==> r == x
  {
    x % TWO_TO_THE_64
  }

  // ---- Tables ----

  /** The interrupt fired since the last run. */
  predicate Active(e: Interrupt) {
    e.irqNo != SLOT_AVAILABLE && e.deltaPsCount > 0.0
  }

  /** Rates are those of 64-bit counters, and unused slots have none. */
  ghost predicate ValidTable(t: Table) {
    && |t| == MAX_NUM_INTERRUPTS
    && forall i :: 0 <= i < |t| ==>
         && 0.0 <= t[i].deltaPsCount < TWO_TO_THE_64 as real
         && (t[i].irqNo == SLOT_AVAILABLE ==> t[i].deltaPsCount == 0.0)
  }

  /** The code's comparator for `qsort`: used slots first, by falling rate. */
  function CpuInterruptCompare(e1: Interrupt, e2: Interrupt): int {
    if e1.irqNo == SLOT_AVAILABLE && e2.irqNo == SLOT_AVAILABLE then 0
    else if e1.irqNo == SLOT_AVAILABLE then 1
    else if e2.irqNo == SLOT_AVAILABLE then -1
    else if e1.deltaPsCount > e2.deltaPsCount then -1
    else if e2.deltaPsCount > e1.deltaPsCount then 1
    else 0
  }

  ghost predicate SortedTable(t: Table) {
    forall i, j :: 0 <= i < j < |t| ==> CpuInterruptCompare(t[i], t[j]) <= 0
  }

  /** What the sort is used for: rates fall, so the active interrupts come first. */
  ghost predicate FallingRates(t: Table) {
    forall i, j :: 0 <= i < j < |t| ==> t[i].deltaPsCount >= t[j].deltaPsCount
  }

  lemma SortedTableFalls(t: Table)
    requires ValidTable(t) && SortedTable(t)
    ensures FallingRates(t)
  {
    forall i, j | 0 <= i < j < |t| ensures t[i].deltaPsCount >= t[j].deltaPsCount {
      assert CpuInterruptCompare(t[i], t[j]) <= 0;
    }
  }

  // ---- The deadband ----

  /** The slot of an interrupt in the list of all interrupts, or -1. */
  function FindInfo(irqs: seq<IrqInfo>, irqNo: int): (k: int)
    ensures -1 <= k < |irqs|
    ensures k >= 0 ==> irqs[k].irqNo == irqNo
    ensures forall i :: 0 <= i < (if k >= 0 then k else |irqs|) ==> irqs[i].irqNo != irqNo
  {
    if irqs == [] then -1
    else if irqs[0].irqNo == irqNo then 0
    else
      var k := FindInfo(irqs[1..], irqNo);
      assert forall i :: 1 <= i < |irqs| ==> irqs[i] == irqs[1..][i - 1];
      if k == -1 then -1 else k + 1
  }

  /** `check_deadband`: the interrupt may be moved in this iteration. An interrupt that is not in
      the list always may. */
  predicate Movable(irqs: seq<IrqInfo>, irqNo: int, iteration: nat) {
    var k := FindInfo(irqs, irqNo);
    k == -1 || Wrap64(iteration - irqs[k].lastMovedIt) >= NUM_ITERATIONS_DEADBAND
  }

  // ---- Finding the interrupt to move ----

  /** The first slot whose rate is not above `count`, or the number of slots. */
  function FirstNotAbove(t: Table, count: nat, from: nat): (k: nat)
    requires from <= |t|
    ensures from <= k <= |t|
    ensures forall i :: from <= i < k ==> t[i].irqNo != SLOT_AVAILABLE && t[i].deltaPsCount > count as real
    ensures k < |t| ==> t[k].irqNo == SLOT_AVAILABLE || t[k].deltaPsCount <= count as real
    decreases |t| - from
  {
    if from < |t| && t[from].irqNo != SLOT_AVAILABLE && t[from].deltaPsCount > count as real
    then FirstNotAbove(t, count, from + 1) else from
  }

  function Rate(e: Interrupt): int {
    e.deltaPsCount.Floor
  }

  /** Where the search begins. */
  function StartSlot(t: Table, count: nat): (k: nat)
    requires |t| == MAX_NUM_INTERRUPTS
    ensures k < |t|
  {
    var first := FirstNotAbove(t, count, 0);
    var k := if first == |t| then |t| - 1 else first;
    if k > 0 && Wrap64(Rate(t[k - 1]) - count) < Wrap64(count - Rate(t[k])) then k - 1 else k
  }

  function Distance(e: Interrupt, count: nat): nat {
    if Rate(e) >= count then Rate(e) - count else count - Rate(e)
  }

  ghost predicate IsNearest(t: Table, count: nat, k: nat)
    requires k < |t|
  {
    forall i :: 0 <= i < |t| ==> Distance(t[k], count) <= Distance(t[i], count)
  }

  /** Every slot is used by an interrupt above `count`. */
  ghost predicate AllAbove(t: Table, count: nat) {
    forall i :: 0 <= i < |t| ==> t[i].irqNo != SLOT_AVAILABLE && t[i].deltaPsCount > count as real
  }

  lemma RatesFall(t: Table, i: nat, j: nat)
    requires FallingRates(t) && i <= j < |t|
    ensures Rate(t[j]) <= Rate(t[i])
  {
    if i < j {
      assert t[i].deltaPsCount >= t[j].deltaPsCount;
      FloorIsMonotone(t[j].deltaPsCount, t[i].deltaPsCount);
    }
  }

  lemma FloorIsMonotone(x: real, y: real)
    requires x <= y
    ensures x.Floor <= y.Floor
  {
  }

  /** If some slot is not above the target, the subtractions do not wrap and the search starts at a
      slot whose truncated rate is nearest to the target. */
  lemma StartIsNearest(t: Table, count: nat)
    requires ValidTable(t) && FallingRates(t) && count < TWO_TO_THE_64 && !AllAbove(t, count)
    ensures IsNearest(t, count, StartSlot(t, count))
    ensures var k := FirstNotAbove(t, count, 0);
            k < |t| && Rate(t[k]) <= count && (k > 0 ==> count <= Rate(t[k - 1]))
  {
    var k := FirstNotAbove(t, count, 0);
    assert k < |t|;
    if k > 0 {
      assert t[k - 1].deltaPsCount > count as real;
    }
    forall i | 0 <= i < |t| ensures Distance(t[StartSlot(t, count)], count) <= Distance(t[i], count) {
      if i < k {
        RatesFall(t, i, k - 1);
      } else {
        RatesFall(t, k, i);
      }
    }
  }

  /** Over a full table above the target the lower subtraction wraps. Unless that makes the lower
      distance the smaller one, the search starts one slot early, and then misses the nearest slot
      exactly when the last two rates differ. */
  lemma StartInFullTable(t: Table, count: nat)
    requires ValidTable(t) && FallingRates(t) && AllAbove(t, count)
    ensures var last := MAX_NUM_INTERRUPTS - 1;
            var early := Rate(t[last]) > count && (Rate(t[last - 1]) - count) + (Rate(t[last]) - count) < TWO_TO_THE_64;
            && StartSlot(t, count) == (if early then last - 1 else last)
            && (IsNearest(t, count, StartSlot(t, count)) <==> !early || Rate(t[last - 1]) == Rate(t[last]))
  {
    var last := MAX_NUM_INTERRUPTS - 1;
    assert FirstNotAbove(t, count, 0) == |t|;
    forall i | 0 <= i < |t| ensures count <= Rate(t[i]) && Rate(t[last]) <= Rate(t[i]) {
      assert t[i].deltaPsCount > count as real;
      RatesFall(t, i, last);
    }
    assert Distance(t[last], count) == Rate(t[last]) - count;
    assert Wrap64(Rate(t[last - 1]) - count) == Rate(t[last - 1]) - count;
    if Rate(t[last]) > count {
      WrapNegative(count - Rate(t[last]));
    }
  }

  lemma WrapNegative(x: int)
    requires -(TWO_TO_THE_64 as int) < x < 0
    ensures Wrap64(x) == x + TWO_TO_THE_64
  {
  }

  /** The first movable interrupt from `from` on, as long as slots are active. */
  function SearchUp(t: Table, irqs: seq<IrqInfo>, iteration: nat, from: nat): (k: int)
    requires from <= |t|
    ensures k == -1 || (from <= k < |t| && Active(t[k]) && Movable(irqs, t[k].irqNo, iteration))
    ensures forall i :: from <= i < k ==> Active(t[i]) && !Movable(irqs, t[i].irqNo, iteration)
    decreases |t| - from
  {
    if from == |t| || !Active(t[from]) then -1
    else if Movable(irqs, t[from].irqNo, iteration) then from
    else SearchUp(t, irqs, iteration, from + 1)
  }

  /** The same towards higher rates. */
  function SearchDown(t: Table, irqs: seq<IrqInfo>, iteration: nat, from: int): (k: int)
    requires -1 <= from < |t|
    ensures k == -1 || (0 <= k <= from && Active(t[k]) && Movable(irqs, t[k].irqNo, iteration))
    ensures k >= 0 ==> forall i :: k < i <= from ==> Active(t[i]) && !Movable(irqs, t[i].irqNo, iteration)
    decreases from + 1
  {
    if from == -1 || !Active(t[from]) then -1
    else if Movable(irqs, t[from].irqNo, iteration) then from
    else SearchDown(t, irqs, iteration, from - 1)
  }

  /** The interrupt to move: the one found at or below the start slot's rate, else above it. */
  function CloseIrq(t: Table, count: nat, irqs: seq<IrqInfo>, iteration: nat): (k: int)
    requires |t| == MAX_NUM_INTERRUPTS
    ensures -1 <= k < |t|
    ensures k >= 0 ==> Active(t[k]) && Movable(irqs, t[k].irqNo, iteration)
  {
    var start := StartSlot(t, count);
    var up := SearchUp(t, irqs, iteration, start);
    if up != -1 then up else SearchDown(t, irqs, iteration, start)
  }

  /** The movable interrupts of a table. */
  ghost predicate Candidate(t: Table, irqs: seq<IrqInfo>, iteration: nat, i: int) {
    0 <= i < |t| && Active(t[i]) && Movable(irqs, t[i].irqNo, iteration)
  }

  lemma {:induction false} SearchUpFails(t: Table, irqs: seq<IrqInfo>, iteration: nat, from: nat, i: nat)
    requires ValidTable(t) && FallingRates(t) && from <= i < |t|
    requires SearchUp(t, irqs, iteration, from) == -1
    ensures !Candidate(t, irqs, iteration, i)
    decreases |t| - from
  {
    if Active(t[from]) {
      if from < i {
        SearchUpFails(t, irqs, iteration, from + 1, i);
      }
    } else if from < i {
      assert t[from].deltaPsCount >= t[i].deltaPsCount;
    }
  }

  lemma {:induction false} SearchDownFails(t: Table, irqs: seq<IrqInfo>, iteration: nat, from: nat, i: nat)
    requires ValidTable(t) && FallingRates(t) && i <= from < |t| && Active(t[from])
    requires SearchDown(t, irqs, iteration, from) == -1
    ensures !Candidate(t, irqs, iteration, i)
    decreases from
  {
    if i < from {
      assert t[from - 1].deltaPsCount >= t[from].deltaPsCount;
      SearchDownFails(t, irqs, iteration, from - 1, i);
    }
  }

  /** Which interrupt is chosen: among the candidates at or after the start slot the first one, else
      the last one before it, else none; but with an inactive start slot always none. */
  lemma CloseIrqChoice(t: Table, count: nat, irqs: seq<IrqInfo>, iteration: nat)
    requires ValidTable(t) && FallingRates(t)
    ensures var start, k := StartSlot(t, count), CloseIrq(t, count, irqs, iteration);
            && (!Active(t[start]) ==> k == -1)
            && (k >= start ==> forall i :: start <= i < k ==> !Candidate(t, irqs, iteration, i))
            && (0 <= k < start ==> forall i :: k < i < |t| ==> !Candidate(t, irqs, iteration, i))
            && (Active(t[start]) ==> (k == -1 <==> forall i :: 0 <= i < |t| ==> !Candidate(t, irqs, iteration, i)))
  {
    var start, k := StartSlot(t, count), CloseIrq(t, count, irqs, iteration);
    assert k == -1 || Candidate(t, irqs, iteration, k);
    if SearchUp(t, irqs, iteration, start) == -1 {
      forall i | start <= i < |t| ensures !Candidate(t, irqs, iteration, i) {
        SearchUpFails(t, irqs, iteration, start, i);
      }
      if k == -1 && Active(t[start]) {
        forall i | 0 <= i <= start ensures !Candidate(t, irqs, iteration, i) {
          SearchDownFails(t, irqs, iteration, start, i);
        }
      }
    }
  }

  /** When the search begins at a slot without activity, and so gives up: some slot has none, and
      every active interrupt is at least twice as fast as the target. */
  lemma StartIsIdleIff(t: Table, count: nat)
    requires ValidTable(t) && FallingRates(t) && count < TWO_TO_THE_64
    ensures !Active(t[StartSlot(t, count)]) <==>
            && (exists i :: 0 <= i < |t| && !Active(t[i]))
            && forall i :: 0 <= i < |t| && Active(t[i]) ==> Rate(t[i]) >= 2 * count
  {
    var k := FirstNotAbove(t, count, 0);
    if AllAbove(t, count) {
      assert forall i :: 0 <= i < |t| ==> Active(t[i]);
    } else {
      StartIsNearest(t, count);
      if !Active(t[k]) {
        forall i | k <= i < |t| ensures !Active(t[i]) {
          assert i > k ==> t[k].deltaPsCount >= t[i].deltaPsCount;
        }
        forall i | 0 <= i < k ensures Rate(t[k - 1]) <= Rate(t[i]) {
          RatesFall(t, i, k - 1);
        }
      } else {
        assert t[k].deltaPsCount <= count as real;
      }
    }
  }

  /** No interrupt is found, if some may move, exactly when the search gives up. */
  lemma NothingFoundIff(t: Table, count: nat, irqs: seq<IrqInfo>, iteration: nat)
    requires ValidTable(t) && FallingRates(t) && count < TWO_TO_THE_64
    requires exists i :: 0 <= i < |t| && Candidate(t, irqs, iteration, i)
    ensures CloseIrq(t, count, irqs, iteration) == -1 <==>
            && (exists i :: 0 <= i < |t| && !Active(t[i]))
            && forall i :: 0 <= i < |t| && Active(t[i]) ==> Rate(t[i]) >= 2 * count
  {
    StartIsIdleIff(t, count);
    CloseIrqChoice(t, count, irqs, iteration);
  }

  /** The code's search for the start slot. */
  method FindStartSlot(t: Table, count: nat) returns (irqIdx: int)
    requires |t| == MAX_NUM_INTERRUPTS
    ensures irqIdx == StartSlot(t, count)
  {
    irqIdx := 0;
    while irqIdx < MAX_NUM_INTERRUPTS && t[irqIdx].irqNo != SLOT_AVAILABLE && t[irqIdx].deltaPsCount > count as real
      invariant 0 <= irqIdx <= MAX_NUM_INTERRUPTS
      invariant FirstNotAbove(t, count, irqIdx) == FirstNotAbove(t, count, 0)
    {
      irqIdx := irqIdx + 1;
    }
    if irqIdx == MAX_NUM_INTERRUPTS {
      irqIdx := irqIdx - 1;
    }
    if irqIdx > 0 {
      var countAbove := Rate(t[irqIdx - 1]);
      var countBelow := Rate(t[irqIdx]);
      var distAbove := Wrap64(countAbove - count);
      var distBelow := Wrap64(count - countBelow);
      if distAbove < distBelow {
        irqIdx := irqIdx - 1;
      }
    }
  }

  /** The code's search for a movable interrupt. */
  method FindIrqWithCloseCount(t: Table, count: nat, irqs: seq<IrqInfo>, iteration: nat) returns (irqIdx: int)
    requires |t| == MAX_NUM_INTERRUPTS
    ensures irqIdx == CloseIrq(t, count, irqs, iteration)
  {
    irqIdx := FindStartSlot(t, count);
    var found := false;
    var savedIdx := irqIdx;
    // Slower interrupts first,
    while irqIdx < MAX_NUM_INTERRUPTS && Active(t[irqIdx])
      invariant savedIdx <= irqIdx <= MAX_NUM_INTERRUPTS
      invariant SearchUp(t, irqs, iteration, irqIdx) == SearchUp(t, irqs, iteration, savedIdx)
    {
      if Movable(irqs, t[irqIdx].irqNo, iteration) {
        found := true;
        break;
      }
      irqIdx := irqIdx + 1;
    }
    if !found {
      // then faster ones.
      irqIdx := savedIdx;
      while irqIdx >= 0 && Active(t[irqIdx])
        invariant -1 <= irqIdx <= savedIdx
        invariant SearchDown(t, irqs, iteration, irqIdx) == SearchDown(t, irqs, iteration, savedIdx)
      {
        if Movable(irqs, t[irqIdx].irqNo, iteration) {
          found := true;
          break;
        }
        irqIdx := irqIdx - 1;
      }
    }
    if !found {
      irqIdx := -1;
    }
  }

  // ---- Moving an interrupt's entry ----

  /** The tables agree on which interrupts are active and how fast they are. */
  ghost predicate SameActivity(t: Table, t': Table) {
    && |t'| == |t|
    && forall i :: 0 <= i < |t| ==>
         t'[i].deltaPsCount == t[i].deltaPsCount && (t[i].irqNo != SLOT_AVAILABLE ==> t'[i].irqNo == t[i].irqNo)
  }

  /** The interrupt's slot in a table, or else the first free one. */
  ghost predicate PlaceOf(ints: Table, irqNo: int, k: nat) {
    && k < |ints| && (ints[k].irqNo == irqNo || ints[k].irqNo == SLOT_AVAILABLE)
    && forall i :: 0 <= i < k ==> ints[i].irqNo != irqNo && ints[i].irqNo != SLOT_AVAILABLE
  }

  /** Only that slot changes: it counts the interrupt from the last reading on, without a past. A
      full table stays as it is. */
  ghost function Register(ints: Table, irqNo: int): (r: Table)
    ensures |r| == |ints|
  {
    seq(|ints|, i requires 0 <= i < |ints| =>
      if PlaceOf(ints, irqNo, i) then Interrupt(irqNo, ints[i].prevCount, ints[i].prevCount, ints[i].deltaPsCount, 0.0)
      else ints[i])
  }

  /** Registering changes no rate, and afterwards the interrupt is in the table if it can be. */
  lemma RegisterKeepsActivity(ints: Table, irqNo: int)
    requires ValidTable(ints) && irqNo != SLOT_AVAILABLE
    ensures var r := Register(ints, irqNo);
            && ValidTable(r) && SameActivity(ints, r)
            && ((exists i :: 0 <= i < |r| && r[i].irqNo == irqNo) <==>
                (exists i :: 0 <= i < |ints| && (ints[i].irqNo == irqNo || ints[i].irqNo == SLOT_AVAILABLE)))
  {
    var r := Register(ints, irqNo);
    if i :| 0 <= i < |ints| && (ints[i].irqNo == irqNo || ints[i].irqNo == SLOT_AVAILABLE) {
      var k := LeastPlace(ints, irqNo, i);
      assert r[k].irqNo == irqNo;
    }
  }

  /** The interrupt's own slot or, before that, the first free one starts counting it anew: from the count
      of the last readings on, and without an average. Its rate and all other slots stay as they are. */
  lemma RegisterAt(ints: Table, irqNo: int, k: nat)
    requires k < |ints| && (ints[k].irqNo == irqNo || ints[k].irqNo == SLOT_AVAILABLE)
    requires forall i :: 0 <= i < k ==> ints[i].irqNo != irqNo && ints[i].irqNo != SLOT_AVAILABLE
    ensures var r := Register(ints, irqNo);
            && |r| == |ints| && (forall i :: 0 <= i < |r| && i != k ==> r[i] == ints[i])
            && r[k].irqNo == irqNo && r[k].count == r[k].prevCount == ints[k].prevCount
            && r[k].deltaPsCount == ints[k].deltaPsCount && r[k].dcPsDecay == 0.0
  {
    assert PlaceOf(ints, irqNo, k);
  }

  lemma RegisterInFull(ints: Table, irqNo: int)
    requires forall i :: 0 <= i < |ints| ==> ints[i].irqNo != irqNo && ints[i].irqNo != SLOT_AVAILABLE
    ensures Register(ints, irqNo) == ints
  {
  }

  lemma {:induction false} LeastPlace(ints: Table, irqNo: int, i: nat) returns (k: nat)
    requires i < |ints| && (ints[i].irqNo == irqNo || ints[i].irqNo == SLOT_AVAILABLE)
    ensures PlaceOf(ints, irqNo, k)
  {
    if j :| 0 <= j < i && (ints[j].irqNo == irqNo || ints[j].irqNo == SLOT_AVAILABLE) {
      k := LeastPlace(ints, irqNo, j);
    } else {
      k := i;
    }
  }

  /** `move_interrupt_info`, on the destination's table. */
  method MoveInterruptInfo(ints: Table, irqNo: int) returns (r: Table)
    requires ValidTable(ints) && irqNo != SLOT_AVAILABLE
    ensures r == Register(ints, irqNo)
  {
    var irqIdx := 0;
    while irqIdx < MAX_NUM_INTERRUPTS && ints[irqIdx].irqNo != irqNo && ints[irqIdx].irqNo != SLOT_AVAILABLE
      invariant 0 <= irqIdx <= MAX_NUM_INTERRUPTS
      invariant forall i :: 0 <= i < irqIdx ==> ints[i].irqNo != irqNo && ints[i].irqNo != SLOT_AVAILABLE
    {
      irqIdx := irqIdx + 1;
    }
    r := ints;
    if irqIdx < MAX_NUM_INTERRUPTS {
      var dst := ints[irqIdx];
      r := ints[irqIdx := dst.(irqNo := irqNo, count := dst.prevCount, dcPsDecay := 0.0)];
    }
  }

  // ---- Sorting ----

  /** Sorting by falling key, the only thing assumed of `qsort` with comparators that compare keys. */
  function Insert<T>(s: seq<T>, x: T, key: T -> real): (r: seq<T>) {
    if s == [] then [x]
    else if key(x) > key(s[0]) then [x] + s
    else [s[0]] + Insert(s[1..], x, key)
  }

  ghost predicate Falling<T>(s: seq<T>, key: T -> real) {
    forall i, j :: 0 <= i < j < |s| ==> key(s[i]) >= key(s[j])
  }

  lemma {:induction false} InsertIsPermutation<T>(s: seq<T>, x: T, key: T -> real)
    ensures multiset(Insert(s, x, key)) == multiset(s) + multiset{x}
  {
    if s != [] {
      assert s == [s[0]] + s[1..];
      InsertIsPermutation(s[1..], x, key);
    }
  }

  lemma {:induction false} InsertIsSorted<T>(s: seq<T>, x: T, key: T -> real)
    requires Falling(s, key)
    ensures Falling(Insert(s, x, key), key)
    ensures Insert(s, x, key) != []
    ensures key(Insert(s, x, key)[0]) <= key(x) || (s != [] && Insert(s, x, key)[0] == s[0])
  {
    if s != [] && key(x) <= key(s[0]) {
      InsertIsSorted(s[1..], x, key);
      var rest := Insert(s[1..], x, key);
      assert key(s[0]) >= key(rest[0]);
      forall j | 0 <= j < |rest| ensures key(s[0]) >= key(rest[j]) {
        assert j == 0 || key(rest[0]) >= key(rest[j]);
      }
    }
  }

  method QSort<T>(a: seq<T>, key: T -> real) returns (r: seq<T>)
    ensures Falling(r, key) && multiset(r) == multiset(a)
  {
    r := [];
    for i := 0 to |a|
      invariant Falling(r, key) && multiset(r) == multiset(a[..i])
    {
      assert a[..i + 1] == a[..i] + [a[i]];
      InsertIsSorted(r, a[i], key);
      InsertIsPermutation(r, a[i], key);
      r := Insert(r, a[i], key);
    }
    assert a[..|a|] == a;
  }

  /** The key of `cpu_interrupt_compare`. */
  function InterruptKey(e: Interrupt): real {
    if e.irqNo == SLOT_AVAILABLE then -1.0 else e.deltaPsCount
  }

  /** A table after `qsort`: the same entries, used slots first, by falling rate. */
  lemma SortedTableIsValid(t: Table, r: Table)
    requires ValidTable(t) && multiset(r) == multiset(t) && Falling(r, InterruptKey)
    ensures ValidTable(r) && SortedTable(r) && FallingRates(r)
    ensures forall i, j :: 0 <= i < j < |r| && r[j].irqNo != SLOT_AVAILABLE ==>
              r[i].irqNo != SLOT_AVAILABLE && r[i].deltaPsCount >= r[j].deltaPsCount
  {
    assert |r| == |multiset(r)| == |multiset(t)| == |t|;
    forall i | 0 <= i < |r|
      ensures 0.0 <= r[i].deltaPsCount < TWO_TO_THE_64 as real
      ensures r[i].irqNo == SLOT_AVAILABLE ==> r[i].deltaPsCount == 0.0
    {
      assert r[i] in multiset(r);
      assert r[i] in t;
    }
    forall i, j | 0 <= i < j < |r| ensures CpuInterruptCompare(r[i], r[j]) <= 0 {
      assert InterruptKey(r[i]) >= InterruptKey(r[j]);
    }
    SortedTableFalls(r);
  }
}
