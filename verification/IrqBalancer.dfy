/** One iteration of the interrupt balancer (msm_irqbalance/msm_irqbalance.c) on its tables.
    `set_smp_affinity` is an entry in a log of requests, with an arbitrary result. */
module IrqBalancer {
  import opened IrqTables
  import opened IrqMoves

  /** The interrupt that is worth moving from a busy CPU, or SLOT_AVAILABLE. */
  method WorthMovingFrom(cpus: seq<CpuInfo>, mac: int, lac: int, irqs: seq<IrqInfo>, iteration: nat, cfg: Config)
    returns (irqNo: int)
    requires ValidCpus(cpus) && 0 <= mac < |cpus| && 0 <= lac < |cpus| && FallingRates(cpus[mac].ints)
    ensures irqNo == if WorthMoving(cpus, mac, lac, irqs, iteration, cfg)
                     then cpus[mac].ints[ClosestIrq(cpus, mac, lac, irqs, iteration)].irqNo else SLOT_AVAILABLE
  {
    var gap := Wrap64(cpus[mac].nIrqPsDecay - cpus[lac].nIrqPsDecay);
    var irqIdx := FindIrqWithCloseCount(cpus[mac].ints, gap / 2, irqs, iteration);
    irqNo := SLOT_AVAILABLE;
    if irqIdx >= 0 {
      var irq := cpus[mac].ints[irqIdx];
      if cpus[mac].ints[1].deltaPsCount > 0.0 {
        if irq.deltaPsCount > 0.0 && IsUnbalanced(gap, cpus[mac].nIrqPsDecay, cfg) && FindInfo(irqs, irq.irqNo) != -1 {
          irqNo := irq.irqNo;
        }
      }
    }
  }

  /** The code's search for the two CPUs and the interrupt: the decision's only request, if any. */
  method FindMove(cpus: seq<CpuInfo>, active: seq<int>, n: nat, irqs: seq<IrqInfo>, iteration: nat, cfg: Config)
    returns (irqNo: int, lac: int)
    requires ValidCpus(cpus) && ValidActive(active, |cpus|, n) && n >= 2 && FallingTables(cpus, active, n)
    ensures Decision(cpus, active, n, irqs, iteration, cfg) ==
            if irqNo == SLOT_AVAILABLE then [] else [Request(irqNo, lac, iteration, true)]
    ensures 0 <= lac < |cpus| && (irqNo != SLOT_AVAILABLE ==> FindInfo(irqs, irqNo) != -1)
  {
    irqNo := SLOT_AVAILABLE;
    var lacIdx := n - 1;
    lac := active[lacIdx];
    while cpus[lac].prio == 0 && lacIdx > 1
      invariant 0 < lacIdx < n && lac == active[lacIdx]
      invariant LeastActive(cpus, active, lacIdx) == LeastActive(cpus, active, n - 1)
    {
      lacIdx := lacIdx - 1;
      lac := active[lacIdx];
    }
    if cpus[lac].prio == 0 {
      return;
    }
    var currMac := 0;
    while irqNo == SLOT_AVAILABLE && currMac < lacIdx
      invariant 0 <= currMac <= lacIdx
      invariant irqNo == SLOT_AVAILABLE ==>
                  FirstWorth(cpus, active, lacIdx, irqs, iteration, cfg, currMac)
                  == FirstWorth(cpus, active, lacIdx, irqs, iteration, cfg, 0)
      invariant irqNo != SLOT_AVAILABLE ==>
                  Decision(cpus, active, n, irqs, iteration, cfg) == [Request(irqNo, lac, iteration, true)]
                  && FindInfo(irqs, irqNo) != -1
    {
      irqNo := WorthMovingFrom(cpus, active[currMac], lac, irqs, iteration, cfg);
      currMac := currMac + 1;
    }
  }

  class Balancer {
    const cpuData: array<CpuInfo>
    /** The active CPUs, then SLOT_AVAILABLE. */
    const cpuActiveList: array<int>
    const irqList: array<IrqInfo>
    /** Every affinity request of this run. */
    ghost var requests: seq<Request>

    ghost predicate Valid()
      reads this, cpuData, cpuActiveList, irqList
    {
      && cpuData.Length == cpuActiveList.Length
      && ValidCpus(cpuData[..]) && ValidIrqList(irqList[..])
    }

    /** The first `n` active CPUs are known. */
    ghost predicate ValidWith(n: nat)
      reads this, cpuData, cpuActiveList, irqList
    {
      Valid() && ValidActive(cpuActiveList[..], cpuData.Length, n)
    }

    /** `add_irq_to_list`: an unknown interrupt takes the first free slot, if there is one. */
    method AddIrqToList(irqNo: int)
      requires Valid() && irqNo != SLOT_AVAILABLE
      modifies irqList
      ensures Valid() && Discovered(old(irqList[..]), irqList[..], [irqNo])
      ensures Listed(irqList[..], irqNo) <==>
                Listed(old(irqList[..]), irqNo) || Listed(old(irqList[..]), SLOT_AVAILABLE)
      ensures forall i :: 0 <= i < irqList.Length && irqList[i] != old(irqList[i]) ==> irqList[i] == IrqInfo(irqNo, 0)
    {
      ghost var before := irqList[..];
      var i := 0;
      while i < MAX_NUM_INTERRUPTS && irqList[i].irqNo != irqNo
        invariant 0 <= i <= MAX_NUM_INTERRUPTS && irqList[..] == before
        invariant forall k :: 0 <= k < i ==> before[k].irqNo != irqNo && before[k].irqNo != SLOT_AVAILABLE
      {
        if irqList[i].irqNo == SLOT_AVAILABLE {
          irqList[i] := IrqInfo(irqNo, 0);
          assert irqList[..][i].irqNo == irqNo && before[i].irqNo == SLOT_AVAILABLE;
          return;
        }
        i := i + 1;
      }
      if i < MAX_NUM_INTERRUPTS {
        assert before[i].irqNo == irqNo;
      }
    }

    /** What is read before an iteration: tables, active CPUs, and interrupts not seen before. */
    method ReadInterruptActivity(reading: Reading)
      requires Valid() && ValidReading(reading, cpuData.Length)
      modifies cpuData, cpuActiveList, irqList
      ensures ValidWith(reading.n) && Discovered(old(irqList[..]), irqList[..], reading.irqs)
      ensures cpuData[..] == reading.cpus && cpuActiveList[..] == reading.active
    {
      forall c | 0 <= c < cpuData.Length {
        cpuData[c] := reading.cpus[c];
      }
      forall c | 0 <= c < cpuData.Length {
        cpuActiveList[c] := reading.active[c];
      }
      assert cpuData[..] == reading.cpus && cpuActiveList[..] == reading.active;
      ghost var before := irqList[..];
      NothingDiscovered(before);
      for k := 0 to |reading.irqs|
        invariant cpuData[..] == reading.cpus && cpuActiveList[..] == reading.active
        invariant Valid() && Discovered(before, irqList[..], reading.irqs[..k])
      {
        ghost var mid := irqList[..];
        AddIrqToList(reading.irqs[k]);
        DiscoveredTwice(before, mid, irqList[..], reading.irqs[..k], [reading.irqs[k]]);
        assert reading.irqs[..k + 1] == reading.irqs[..k] + [reading.irqs[k]];
      }
      assert reading.irqs[..|reading.irqs|] == reading.irqs;
    }

    method SetSmpAffinity(cpu: int, irqNo: int, iteration: nat, ghost recorded: bool) returns (ret: int)
      modifies `requests
      ensures requests == old(requests) + [Request(irqNo, cpu, iteration, recorded)]
    {
      requests := requests + [Request(irqNo, cpu, iteration, recorded)];
      ret := *;
    }

    /** Requests an affinity and, if that succeeds, registers the interrupt at the CPU. */
    method MoveTo(cpu: int, irqNo: int, iteration: nat, ghost recorded: bool) returns (ret: int)
      requires Valid() && 0 <= cpu < cpuData.Length && irqNo != SLOT_AVAILABLE
      modifies `requests, cpuData
      ensures requests == old(requests) + [Request(irqNo, cpu, iteration, recorded)]
      ensures cpuData[..] == Moved(old(cpuData[..]), cpu, irqNo, ret)
    {
      ret := SetSmpAffinity(cpu, irqNo, iteration, recorded);
      if ret == 0 {
        var ints := MoveInterruptInfo(cpuData[cpu].ints, irqNo);
        cpuData[cpu] := cpuData[cpu].(ints := ints);
      }
    }

    method GetNumAvailCpus(n: nat) returns (avail: nat)
      requires ValidWith(n) && SortedByPrio(cpuData[..], cpuActiveList[..], n)
      ensures AvailablePrefix(cpuData[..], cpuActiveList[..], n, avail)
    {
      avail := 0;
      while avail < n && cpuData[cpuActiveList[avail]].prio > 0
        invariant avail <= n
        invariant forall i :: 0 <= i < avail ==> cpuData[cpuActiveList[i]].prio > 0
      {
        avail := avail + 1;
      }
    }

    /** The next active slot of the rotation. The code tests only the number of CPUs and the ban. */
    method Rotate(idx: nat, n: nat, ghost avail: nat) returns (next: nat)
      requires ValidActive(cpuActiveList[..], cpuData.Length, n)
      requires AvailablePrefix(cpuData[..], cpuActiveList[..], n, avail)
      requires 2 <= n && avail < n && idx < Lanes(avail)
      ensures next == if idx + 1 < avail then idx + 1 else 0
    {
      next := idx + 1;
      if next >= cpuData.Length {
        next := 0;
      }
      assert Banned(cpuData[..], cpuActiveList[..], next) <==> next >= avail;
      if cpuData[cpuActiveList[next]].prio == 0 {
        next := 0;
      }
    }

    /** Where dealing out the list stands after its first `j` interrupts. */
    ghost predicate Dealing(n: nat, avail: nat, iteration: nat, cfg: Config, reqs: seq<Request>, irqs: seq<IrqInfo>,
                            j: nat, moved: nat, idx: nat)
      reads this, cpuData, cpuActiveList, irqList
    {
      && ValidActive(cpuActiveList[..], cpuData.Length, n) && AvailablePrefix(cpuData[..], cpuActiveList[..], n, avail)
      && 2 <= n && avail < n && j <= MAX_NUM_INTERRUPTS == |irqs|
      && (forall i :: 0 <= i < j ==> irqs[i].irqNo != SLOT_AVAILABLE)
      && irqList[..] == NotedUpTo(irqs, j, iteration, cfg)
      && moved == |Wanted(irqs[..j], cfg)| && idx == Lane(moved, avail)
      && requests == reqs + Dealt(Wanted(irqs[..j], cfg), cpuActiveList[..], avail, iteration, true)
    }

    /** The next interrupt of the list is dealt out and noted, unless it is ignored. */
    method DealNext(n: nat, ghost avail: nat, iteration: nat, cfg: Config, ghost reqs: seq<Request>,
                    ghost irqs: seq<IrqInfo>, j: nat, moved: nat, idx: nat) returns (moved': nat, next: nat)
      requires ValidIrqList(irqs) && Dealing(n, avail, iteration, cfg, reqs, irqs, j, moved, idx)
      requires j < irqList.Length && irqList[j].irqNo != SLOT_AVAILABLE
      modifies `requests, irqList
      ensures Dealing(n, avail, iteration, cfg, reqs, irqs, j + 1, moved', next)
    {
      moved', next := moved, idx;
      var irqNo := irqList[j].irqNo;
      assert NotedUpTo(irqs, j, iteration, cfg)[j] == irqs[j];
      NotedUpToSnoc(irqs, j, iteration, cfg);
      if !Ignored(irqNo, cfg) {
        DealtSnoc(Wanted(irqs[..j], cfg), irqNo, cpuActiveList[..], avail, iteration, true);
        NextLane(moved, avail);
        var ret := SetSmpAffinity(cpuActiveList[idx], irqNo, iteration, true);
        var k := FindInfo(irqList[..], irqNo);
        next := Rotate(idx, n, avail);
        moved' := moved + 1;
        if k != -1 {
          irqList[k] := irqList[k].(lastMovedIt := iteration);
        }
      }
    }

    /** The first iteration: every interrupt is dealt out to the available CPUs, and noted. */
    method MoveAllIrqsFromBannedCpus(n: nat, iteration: nat, cfg: Config) returns (moved: nat, ghost avail: nat)
      requires ValidWith(n) && n >= 2 && SortedByPrio(cpuData[..], cpuActiveList[..], n)
      modifies `requests, irqList
      ensures ValidWith(n) && AvailablePrefix(cpuData[..], cpuActiveList[..], n, avail)
      ensures var reqs := if avail == n then []
                          else Dealt(Wanted(old(irqList[..]), cfg), cpuActiveList[..], avail, iteration, true);
              && requests == old(requests) + reqs && moved == |reqs|
              && Noted(old(irqList[..]), irqList[..], reqs, iteration)
    {
      ghost var irqs, reqs := irqList[..], requests;
      moved := 0;
      var numAvailCpus := GetNumAvailCpus(n);
      avail := numAvailCpus;
      if numAvailCpus != n {
        var lastDestCpuIdx := 0;
        DivisionIs(0, Lanes(avail), 0, 0);
        var j := 0;
        while j < MAX_NUM_INTERRUPTS && irqList[j].irqNo != SLOT_AVAILABLE
          invariant 0 <= j <= MAX_NUM_INTERRUPTS
          invariant Dealing(n, avail, iteration, cfg, reqs, irqs, j, moved, lastDestCpuIdx)
        {
          moved, lastDestCpuIdx := DealNext(n, avail, iteration, cfg, reqs, irqs, j, moved, lastDestCpuIdx);
          j := j + 1;
        }
        NotedUpToIsNoted(irqs, j, cpuActiveList[..], avail, iteration, cfg);
      }
    }

    /** Where evacuation stands after some moves. */
    ghost predicate Evacuating(n: nat, avail: nat, iteration: nat, cpus: seq<CpuInfo>, reqs: seq<Request>,
                               moves: seq<Move>, answers: seq<int>, idx: nat)
      reads this, cpuData, cpuActiveList, irqList
    {
      && ValidWith(n) && 2 <= n && avail < n && |cpus| == cpuData.Length && idx == Lane(|moves|, avail)
      && AvailablePrefix(cpus, cpuActiveList[..], n, avail)
      && |reqs| <= |requests| && requests[..|reqs|] == reqs
      && Cleared(cpus, cpuActiveList[..], avail, iteration, moves, answers, requests[|reqs|..], cpuData[..])
    }

    /** One interrupt leaves a banned CPU. */
    method Evacuate(m: Move, idx: nat, n: nat, ghost avail: nat, iteration: nat, ghost cpus: seq<CpuInfo>,
                    ghost reqs: seq<Request>, ghost moves: seq<Move>,
                    ghost answers: seq<int>) returns (next: nat, ghost ret: int)
      requires Evacuating(n, avail, iteration, cpus, reqs, moves, answers, idx) && m.irqNo != SLOT_AVAILABLE
      modifies `requests, cpuData
      ensures Evacuating(n, avail, iteration, cpus, reqs, moves + [m], answers + [ret], next)
    {
      ghost var before, made := cpuData[..], requests[|reqs|..];
      ghost var active := cpuActiveList[..];
      var r := MoveTo(cpuActiveList[idx], m.irqNo, iteration, false);
      ClearedStep(cpus, active, avail, iteration, moves, answers, made, before, m, r);
      ret := r;
      assert requests[|reqs|..] == made + [Request(m.irqNo, active[idx], iteration, false)];
      NextLane(|moves|, avail);
      assert cpuActiveList[..] == active;
      SamePrefix(cpus, cpuData[..], active, n, avail);
      next := Rotate(idx, n, avail);
    }

    /** One slot of a banned CPU's table: its interrupt leaves if it has to. */
    method EvacuateSlot(cpu: int, j: nat, idx: nat, n: nat, ghost avail: nat, iteration: nat, cfg: Config,
                        ghost cpus: seq<CpuInfo>, ghost reqs: seq<Request>, ghost moves0: seq<Move>,
                        ghost answers0: seq<int>, ghost base: seq<Move>)
      returns (next: nat, count: nat, idle: bool, ghost moves: seq<Move>, ghost answers: seq<int>)
      requires Evacuating(n, avail, iteration, cpus, reqs, moves0, answers0, idx)
      requires ValidCpus(cpus) && 0 <= cpu < |cpus| && j < MAX_NUM_INTERRUPTS == |cpus[cpu].ints|
      requires moves0 == base + MovesUpTo(cpus, cpu, j, irqList[..], iteration, cfg)
      modifies `requests, cpuData
      ensures count == |moves| - |moves0| && moves == base + MovesUpTo(cpus, cpu, j + 1, irqList[..], iteration, cfg)
      ensures idle ==> moves == moves0 && cpus[cpu].ints[j].deltaPsCount <= 0.0
      ensures Evacuating(n, avail, iteration, cpus, reqs, moves, answers, next)
    {
      next, count, moves, answers := idx, 0, moves0, answers0;
      MovesUpToSnoc(cpus, cpuData[..], cpu, j, irqList[..], iteration, cfg);
      var irq := cpuData[cpu].ints[j];
      idle := irq.deltaPsCount <= 0.0;
      if !idle && !Ignored(irq.irqNo, cfg) && Movable(irqList[..], irq.irqNo, iteration) {
        var m := Move(cpu, irq.irqNo);
        ghost var ret;
        next, ret := Evacuate(m, idx, n, avail, iteration, cpus, reqs, moves0, answers0);
        count, moves, answers := 1, moves0 + [m], answers0 + [ret];
      }
    }

    /** What is active on one banned CPU leaves it. */
    method EvacuateCpu(cpu: int, idx: nat, n: nat, ghost avail: nat, iteration: nat, cfg: Config,
                       ghost cpus: seq<CpuInfo>, ghost reqs: seq<Request>, ghost moves0: seq<Move>,
                       ghost answers0: seq<int>)
      returns (next: nat, count: nat, ghost moves: seq<Move>, ghost answers: seq<int>)
      requires Evacuating(n, avail, iteration, cpus, reqs, moves0, answers0, idx)
      requires ValidCpus(cpus) && 0 <= cpu < |cpus| && FallingRates(cpus[cpu].ints)
      modifies `requests, cpuData
      ensures moves == moves0 + MovesOfTable(cpus[cpu].ints, cpu, irqList[..], iteration, cfg)
      ensures count == |moves| - |moves0|
      ensures Evacuating(n, avail, iteration, cpus, reqs, moves, answers, next)
    {
      next, count, moves, answers := idx, 0, moves0, answers0;
      ghost var irqs := irqList[..];
      assert ValidTable(cpus[cpu].ints);
      var j := 0;
      while j < MAX_NUM_INTERRUPTS
        invariant 0 <= j <= MAX_NUM_INTERRUPTS && count == |moves| - |moves0|
        invariant moves == moves0 + MovesUpTo(cpus, cpu, j, irqs, iteration, cfg)
        invariant Evacuating(n, avail, iteration, cpus, reqs, moves, answers, next)
      {
        var more, idle;
        next, more, idle, moves, answers :=
          EvacuateSlot(cpu, j, next, n, avail, iteration, cfg, cpus, reqs, moves, answers, moves0);
        count := count + more;
        if idle {
          break;
        }
        j := j + 1;
      }
      MovesUpToIsAll(cpus, cpu, j, irqs, iteration, cfg);
    }

    /** Later iterations: what is active on the banned CPUs leaves them. The list of interrupts is
        left as it is, so these moves are not noted. */
    method MoveIrqFromBannedCpus(n: nat, iteration: nat, cfg: Config)
      returns (moved: nat, ghost avail: nat, ghost answers: seq<int>)
      requires ValidWith(n) && n >= 2 && SortedByPrio(cpuData[..], cpuActiveList[..], n)
      requires FallingTables(cpuData[..], cpuActiveList[..], n)
      modifies `requests, cpuData
      ensures ValidWith(n) && AvailablePrefix(old(cpuData[..]), cpuActiveList[..], n, avail)
      ensures |old(requests)| <= |requests| && requests[..|old(requests)|] == old(requests)
      ensures var moves := MovesFrom(old(cpuData[..]), cpuActiveList[..], n, irqList[..], iteration, cfg, 0);
              && moved == |moves| && (avail == n ==> moves == [])
              && Cleared(old(cpuData[..]), cpuActiveList[..], avail, iteration, moves, answers,
                         requests[|old(requests)|..], cpuData[..])
    {
      ghost var cpus, active, irqs, reqs := cpuData[..], cpuActiveList[..], irqList[..], requests;
      moved, answers := 0, [];
      var numAvailCpus := GetNumAvailCpus(n);
      avail := numAvailCpus;
      ClearedAtFirst(cpus, active, avail, iteration);
      if numAvailCpus == n {
        NothingToMove(cpus, active, n, irqs, iteration, cfg, 0);
        return;
      }
      var lastDestCpuIdx := 0;
      ghost var moves: seq<Move> := [];
      var i := n - 1;
      while i >= 0
        invariant -1 <= i < n && moved == |moves|
        invariant moves == MovesFrom(cpus, active, n, irqs, iteration, cfg, i + 1)
        invariant Evacuating(n, avail, iteration, cpus, reqs, moves, answers, lastDestCpuIdx)
      {
        var currCpu := cpuActiveList[i];
        assert Banned(cpus, active, i) <==> cpuData[currCpu].prio == 0;
        if cpuData[currCpu].prio == 0 {
          var count;
          lastDestCpuIdx, count, moves, answers :=
            EvacuateCpu(currCpu, lastDestCpuIdx, n, avail, iteration, cfg, cpus, reqs, moves, answers);
          moved := moved + count;
        }
        i := i - 1;
      }
    }

    /** A balancing move, which is noted even if the request fails. */
    method MoveAndNote(cpu: int, irqNo: int, iteration: nat) returns (ret: int)
      requires Valid() && 0 <= cpu < cpuData.Length && irqNo != SLOT_AVAILABLE && FindInfo(irqList[..], irqNo) != -1
      modifies `requests, cpuData, irqList
      ensures requests == old(requests) + [Request(irqNo, cpu, iteration, true)]
      ensures cpuData[..] == Moved(old(cpuData[..]), cpu, irqNo, ret)
      ensures irqList[..] == old(irqList[..])[FindInfo(old(irqList[..]), irqNo) := IrqInfo(irqNo, iteration)]
      ensures Valid()
    {
      var k := FindInfo(irqList[..], irqNo);
      NoteKeepsValid(irqList[..], k, iteration);
      ghost var cpus := cpuData[..];
      ret := MoveTo(cpu, irqNo, iteration, true);
      MovedKeepsLoads(cpus, cpu, irqNo, ret);
      irqList[k] := irqList[k].(lastMovedIt := iteration);
    }

    /** At most one interrupt moves to the least active CPU, and the move is noted. */
    method MakeBalancingDecision(n: nat, iteration: nat, cfg: Config) returns (ret: int, ghost answers: seq<int>)
      requires ValidWith(n) && n >= 2 && FallingTables(cpuData[..], cpuActiveList[..], n)
      modifies `requests, cpuData, irqList
      ensures ValidWith(n) && |old(requests)| <= |requests| && requests[..|old(requests)|] == old(requests)
      ensures Decided(old(cpuData[..]), cpuActiveList[..], n, old(irqList[..]), iteration, cfg,
                      requests[|old(requests)|..], answers, cpuData[..], irqList[..])
      ensures ret == if answers == [] then 0 else answers[0]
    {
      ghost var cpus, active, irqs, before := cpuData[..], cpuActiveList[..], irqList[..], requests;
      ret, answers := 0, [];
      var irqNo, lac := FindMove(cpuData[..], cpuActiveList[..], n, irqList[..], iteration, cfg);
      if irqNo == SLOT_AVAILABLE {
        DecidedToStay(cpus, active, n, irqs, iteration, cfg);
      } else {
        ret := MoveAndNote(lac, irqNo, iteration);
        answers := [ret];
        DecidedToMove(cpus, active, n, irqs, iteration, cfg, Request(irqNo, lac, iteration, true), ret);
        assert requests[|before|..] == [Request(irqNo, lac, iteration, true)];
      }
    }
  
    method SortActive(n: nat, key: int -> real)
      requires ValidWith(n)
      modifies cpuActiveList
      ensures ValidWith(n) && Permuted(old(cpuActiveList[..]), cpuActiveList[..], n) && Falling(cpuActiveList[..n], key)
    {
      ghost var active := cpuActiveList[..];
      var prefix := QSort(cpuActiveList[..n], key);
      assert |prefix| == |multiset(prefix)| == |multiset(active[..n])| == n;
      forall i | 0 <= i < n {
        cpuActiveList[i] := prefix[i];
      }
      assert cpuActiveList[..n] == prefix && cpuActiveList[n..] == active[n..];
      assert cpuActiveList[..][..n] == prefix && cpuActiveList[..][n..] == active[n..];
      PermutedStaysValid(active, cpuActiveList[..], cpuData.Length, n);
    }

    /** `qsort` with `cpu_activity_compare`. */
    method SortByLoad(n: nat)
      requires ValidWith(n)
      modifies cpuActiveList
      ensures ValidWith(n) && Permuted(old(cpuActiveList[..]), cpuActiveList[..], n)
      ensures SortedByActivity(cpuData[..], cpuActiveList[..], n)
    {
      var cpus := cpuData[..];
      var key := (c: int) => if 0 <= c < |cpus| then cpus[c].nIrqPsDecay as real else 0.0;
      SortActive(n, key);
      ghost var active := cpuActiveList[..n];
      assert forall i, j :: 0 <= i < j < n ==> key(active[i]) >= key(active[j]);
    }

    /** `qsort` with `cpu_prio_compare`. */
    method SortByPriority(n: nat)
      requires ValidWith(n)
      modifies cpuActiveList
      ensures ValidWith(n) && Permuted(old(cpuActiveList[..]), cpuActiveList[..], n)
      ensures SortedByPrio(cpuData[..], cpuActiveList[..], n)
    {
      var cpus := cpuData[..];
      var key := (c: int) => if 0 <= c < |cpus| then cpus[c].prio as real else 0.0;
      SortActive(n, key);
      ghost var active := cpuActiveList[..n];
      assert forall i, j :: 0 <= i < j < n ==> key(active[i]) >= key(active[j]);
    }

    /** The tables of the active CPUs, by falling rate. */
    method SortTables(n: nat)
      requires ValidWith(n)
      modifies cpuData
      ensures ValidWith(n) && TablesSorted(old(cpuData[..]), cpuData[..], cpuActiveList[..], n)
    {
      ghost var cpus, active := cpuData[..], cpuActiveList[..];
      for i := 0 to n
        invariant ValidWith(n) && TablesSorted(cpus, cpuData[..], active, i)
      {
        var c := cpuActiveList[i];
        var ints := QSort(cpuData[c].ints, InterruptKey);
        SortedTableIsValid(cpuData[c].ints, ints);
        assert cpuData[..][c] == cpus[c] by {
          assert c !in active[..i];
        }
        TablesSortedSnoc(cpus, cpuData[..], active, i, ints);
        cpuData[c] := cpuData[c].(ints := ints);
      }
    }

    /** The sorting before an iteration: the tables by rate, the CPUs by priority. */
    method Prepare(n: nat)
      requires ValidWith(n)
      modifies cpuData, cpuActiveList
      ensures ValidWith(n) && TablesSorted(old(cpuData[..]), cpuData[..], old(cpuActiveList[..]), n)
      ensures Permuted(old(cpuActiveList[..]), cpuActiveList[..], n)
      ensures SortedByPrio(cpuData[..], cpuActiveList[..], n) && FallingTables(cpuData[..], cpuActiveList[..], n)
    {
      ghost var active, cpus := cpuActiveList[..], cpuData[..];
      SortByLoad(n);
      ghost var byLoad := cpuActiveList[..];
      SortTables(n);
      PermutedStaysSorted(cpus, cpuData[..], active, byLoad, n);
      SortByPriority(n);
      PermutedStaysFalling(cpuData[..], byLoad, cpuActiveList[..], n);
    }

    /** Interrupts leave the banned CPUs. */
    method ClearBannedCpus(n: nat, iteration: nat, cfg: Config)
      returns (moved: nat, ghost avail: nat, ghost answers: seq<int>)
      requires ValidWith(n) && n >= 2 && SortedByPrio(cpuData[..], cpuActiveList[..], n)
      requires FallingTables(cpuData[..], cpuActiveList[..], n)
      modifies `requests, cpuData, irqList
      ensures ValidWith(n) && AvailablePrefix(old(cpuData[..]), cpuActiveList[..], n, avail)
      ensures var reqs := Evacuation(old(cpuData[..]), cpuActiveList[..], n, avail, old(irqList[..]), iteration, cfg);
              && requests == old(requests) + reqs && moved == |reqs|
              && Evacuated(old(cpuData[..]), reqs, iteration, answers, cpuData[..], old(irqList[..]), irqList[..])
      ensures moved == 0 ==> cpuData[..] == old(cpuData[..]) && irqList[..] == old(irqList[..])
    {
      answers := [];
      ghost var before, irqs := requests, irqList[..];
      if iteration == 1 {
        moved, avail := MoveAllIrqsFromBannedCpus(n, iteration, cfg);
      } else {
        moved, avail, answers := MoveIrqFromBannedCpus(n, iteration, cfg);
        UnrecordedIsNoted(irqs, requests[|before|..], iteration);
      }
    }

    /** Clears the banned CPUs; if there is nothing to clear, balances the load. */
    method ClearOrBalance(n: nat, iteration: nat, cfg: Config)
      returns (ret: int, ghost avail: nat, ghost answers: seq<int>)
      requires ValidWith(n) && n >= 2 && SortedByPrio(cpuData[..], cpuActiveList[..], n)
      requires FallingTables(cpuData[..], cpuActiveList[..], n)
      modifies this`requests, cpuData, cpuActiveList, irqList
      ensures ValidWith(n) && |old(requests)| <= |requests| && requests[..|old(requests)|] == old(requests)
      ensures Permuted(old(cpuActiveList[..]), cpuActiveList[..], n)
      ensures AvailablePrefix(old(cpuData[..]), old(cpuActiveList[..]), n, avail)
      ensures Balanced(old(cpuData[..]), old(cpuActiveList[..]), cpuActiveList[..], n, avail, old(irqList[..]),
                       iteration, cfg, requests[|old(requests)|..], answers, cpuData[..], irqList[..])
      ensures ret == if Evacuation(old(cpuData[..]), old(cpuActiveList[..]), n, avail, old(irqList[..]), iteration,
                                   cfg) != []
                        || answers == []
                     then 0 else answers[0]
    {
      ghost var cpus, byPrio := cpuData[..], cpuActiveList[..];
      ret := 0;
      var moved;
      moved, avail, answers := ClearBannedCpus(n, iteration, cfg);
      if moved == 0 {
        SortByLoad(n);
        PermutedStaysFalling(cpus, byPrio, cpuActiveList[..], n);
        ret, answers := MakeBalancingDecision(n, iteration, cfg);
      }
    }

    /** One iteration. The ghost results are the active CPUs by priority, the number of available
        ones, the sorted tables and the answers to the requests. */
    method BalanceIrq(n: nat, iteration: nat, cfg: Config)
      returns (ret: int, ghost byPrio: seq<int>, ghost avail: nat, ghost sorted: seq<CpuInfo>, ghost answers: seq<int>)
      requires ValidWith(n) && iteration >= 1
      modifies this`requests, cpuData, cpuActiveList, irqList
      ensures ValidWith(n) && |old(requests)| <= |requests| && requests[..|old(requests)|] == old(requests)
      ensures IterationStep(old(irqList[..]), irqList[..], requests[|old(requests)|..], iteration)
      ensures n < 2 ==> ret == 0 && requests == old(requests) && cpuData[..] == old(cpuData[..])
                        && cpuActiveList[..] == old(cpuActiveList[..]) && irqList[..] == old(irqList[..])
                        && sorted == cpuData[..]
      ensures n >= 2 ==>
                && TablesSorted(old(cpuData[..]), sorted, old(cpuActiveList[..]), n)
                && Permuted(old(cpuActiveList[..]), byPrio, n) && Permuted(byPrio, cpuActiveList[..], n)
                && ValidActive(byPrio, cpuData.Length, n)
                && SortedByPrio(sorted, byPrio, n) && AvailablePrefix(sorted, byPrio, n, avail)
                && Balanced(sorted, byPrio, cpuActiveList[..], n, avail, old(irqList[..]), iteration, cfg,
                            requests[|old(requests)|..], answers, cpuData[..], irqList[..])
                && ret == if Evacuation(sorted, byPrio, n, avail, old(irqList[..]), iteration, cfg) != []
                             || answers == []
                          then 0 else answers[0]
    {
      ghost var irqs, before := irqList[..], requests;
      ret, byPrio, avail, sorted, answers := 0, cpuActiveList[..], 0, cpuData[..], [];
      if n < 2 {
        UnrecordedIsNoted(irqs, [], iteration);
        return;
      }
      Prepare(n);
      sorted, byPrio := cpuData[..], cpuActiveList[..];
      ret, avail, answers := ClearOrBalance(n, iteration, cfg);
      BalancedIsStep(sorted, byPrio, cpuActiveList[..], n, avail, irqs, iteration, cfg,
                     requests[|before|..], answers, cpuData[..], irqList[..]);
    }
  }
}
