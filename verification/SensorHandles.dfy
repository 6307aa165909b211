/** Global sensor handles and their two lookup tables (hidl/sensors/multihal.cpp): one process
    hands out handles 1, 2, 3, ... to the sensors of all sub-HALs and translates both ways. */
module SensorHandles {
  import opened EventQueue
  import opened Wrappers

  datatype FullHandle = FullHandle(moduleIndex: int, localHandle: int)

  datatype Sensor = Sensor(handle: int, kind: int)

  type GlobalTable = map<int, FullHandle>
  type FullTable = map<FullHandle, int>

  /** The global handle of a full handle, or -1 when it is unknown. */
  function GlobalHandle(full: FullTable, f: FullHandle): int {
    if f in full then full[f] else -1
  }

  /** Copies an event of sub-HAL `module`, replacing the local handle it carries. */
  function Remap(full: FullTable, e: Event, module_: int): Event {
    match e.body
    case MetaData(what, handle) => e.(body := MetaData(what, GlobalHandle(full, FullHandle(module_, handle))))
    case Sample(_, _) => e.(sensor := GlobalHandle(full, FullHandle(module_, e.sensor)))
  }

  /** The poller drops a remapped event exactly when its `sensor` field is -1. */
  predicate Kept(full: FullTable, e: Event, module_: int) {
    Remap(full, e, module_).sensor != -1
  }

  /** The tables after handles 1, 2, ... went to the entries of `issued`, in that order. A full
      handle that was issued twice maps to its last global handle. */
  ghost predicate TablesFor(issued: seq<FullHandle>, global: GlobalTable, full: FullTable) {
    && (forall g: int :: g in global <==> 1 <= g <= |issued|)
    && (forall g: int :: g in global ==> global[g] == issued[g - 1])
    && (forall f: FullHandle :: f in full <==> f in issued)
    && (forall f: FullHandle :: f in full ==>
          1 <= full[f] <= |issued| && issued[full[f] - 1] == f && f !in issued[full[f]..])
  }

  ghost predicate Distinct<T>(s: seq<T>) {
    forall i, j :: 0 <= i < j < |s| ==> s[i] != s[j]
  }

  ghost predicate MutualInverses(global: GlobalTable, full: FullTable) {
    && (forall g: int :: g in global ==> global[g] in full && full[global[g]] == g)
    && (forall f: FullHandle :: f in full ==> full[f] in global && global[full[f]] == f)
  }

  /** All sensors of all modules, module by module, as full handles. */
  ghost function SensorsOf(sensors: seq<Sensor>, module_: nat): (r: seq<FullHandle>)
    ensures |r| == |sensors|
  {
    seq(|sensors|, i requires 0 <= i < |sensors| => FullHandle(module_, sensors[i].handle))
  }

  ghost function AllSensors(modules: seq<seq<Sensor>>): (r: seq<FullHandle>) {
    if modules == [] then []
    else AllSensors(modules[..|modules| - 1]) + SensorsOf(modules[|modules| - 1], |modules| - 1)
  }

  ghost function AllKinds(modules: seq<seq<Sensor>>): (r: seq<int>)
    ensures |r| == |AllSensors(modules)|
  {
    if modules == [] then []
    else
      var last := modules[|modules| - 1];
      AllKinds(modules[..|modules| - 1]) + seq(|last|, i requires 0 <= i < |last| => last[i].kind)
  }

  ghost predicate LocalHandlesDistinct(modules: seq<seq<Sensor>>) {
    forall m, i, j :: 0 <= m < |modules| && 0 <= i < j < |modules[m]| ==>
      modules[m][i].handle != modules[m][j].handle
  }

  /** The two tables invert each other exactly when no full handle was issued twice. */
  lemma InversesIffDistinct(issued: seq<FullHandle>, global: GlobalTable, full: FullTable)
    requires TablesFor(issued, global, full)
    ensures MutualInverses(global, full) <==> Distinct(issued)
  {
    if Distinct(issued) {
      forall g: int | g in global ensures global[g] in full && full[global[g]] == g {
        assert issued[g - 1] in issued;
        var h := full[issued[g - 1]];
        assert issued[h - 1] == issued[g - 1];
      }
    }
    if MutualInverses(global, full) {
      forall i, j | 0 <= i < j < |issued| ensures issued[i] != issued[j] {
        assert (i + 1) in global && (j + 1) in global;
        assert global[i + 1] == issued[i] && global[j + 1] == issued[j];
      }
    }
  }

  /** The sensor in place `k` of the whole list is this one. */
  ghost predicate IsAt(modules: seq<seq<Sensor>>, k: int, m: int, s: Sensor) {
    && 0 <= k < |AllSensors(modules)|
    && AllSensors(modules)[k] == FullHandle(m, s.handle) && AllKinds(modules)[k] == s.kind
  }

  lemma IsAtInMore(modules: seq<seq<Sensor>>, k: int, m: int, s: Sensor)
    requires modules != [] && IsAt(modules[..|modules| - 1], k, m, s)
    ensures IsAt(modules, k, m, s)
  {
  }

  lemma IsAtInLast(modules: seq<seq<Sensor>>, i: nat)
    requires modules != [] && i < |modules[|modules| - 1]|
    ensures var m := |modules| - 1;
            IsAt(modules, |AllSensors(modules[..m])| + i, m, modules[m][i])
  {
  }

  /** Sensors are numbered module by module, in the order of each module's list. */
  lemma {:induction false} SensorIsAt(modules: seq<seq<Sensor>>, m: nat, i: nat)
    requires m < |modules| && i < |modules[m]|
    ensures IsAt(modules, |AllSensors(modules[..m])| + i, m, modules[m][i])
    ensures |AllSensors(modules[..m + 1])| == |AllSensors(modules[..m])| + |modules[m]|
  {
    var n := |modules| - 1;
    assert modules[..m + 1][..m] == modules[..m];
    if m < n {
      assert modules[..n][..m] == modules[..m] && modules[..n][m] == modules[m];
      SensorIsAt(modules[..n], m, i);
      IsAtInMore(modules, |AllSensors(modules[..m])| + i, m, modules[m][i]);
    } else {
      IsAtInLast(modules, i);
    }
  }

  lemma {:induction false} AllSensorsModules(modules: seq<seq<Sensor>>)
    ensures forall k :: 0 <= k < |AllSensors(modules)| ==> 0 <= AllSensors(modules)[k].moduleIndex < |modules|
  {
    if modules != [] {
      AllSensorsModules(modules[..|modules| - 1]);
    }
  }

  /** What the sub-HALs must promise for the assignment to be free of duplicates. */
  lemma {:induction false} DistinctIffLocalHandlesDistinct(modules: seq<seq<Sensor>>)
    ensures Distinct(AllSensors(modules)) <==> LocalHandlesDistinct(modules)
  {
    if modules != [] {
      var n := |modules| - 1;
      var init, last := modules[..n], modules[n];
      var a, b := AllSensors(init), SensorsOf(last, n);
      DistinctIffLocalHandlesDistinct(init);
      AllSensorsModules(init);
      assert AllSensors(modules) == a + b;
      if Distinct(a + b) {
        assert Distinct(a) by {
          forall i, j | 0 <= i < j < |a| ensures a[i] != a[j] {
            assert (a + b)[i] == a[i] && (a + b)[j] == a[j];
          }
        }
        forall m, i, j | 0 <= m < |modules| && 0 <= i < j < |modules[m]|
          ensures modules[m][i].handle != modules[m][j].handle
        {
          if m < n {
            assert init[m] == modules[m];
          } else {
            assert (a + b)[|a| + i] == b[i] && (a + b)[|a| + j] == b[j];
          }
        }
      }
      if LocalHandlesDistinct(modules) {
        assert LocalHandlesDistinct(init);
        forall i, j | 0 <= i < j < |a + b| ensures (a + b)[i] != (a + b)[j] {
          if i >= |a| {
            assert modules[n][i - |a|].handle != modules[n][j - |a|].handle;
          }
        }
      }
    }
  }

  /** Where a call on a global handle ends up: which sub-HAL and with which local handle. */
  function Dispatch(global: GlobalTable, devices: nat, g: int): (r: Option<FullHandle>)
    ensures r.Some? ==> g in global && r.value == global[g]
  {
    if g in global && global[g].localHandle >= 0 && 0 <= global[g].moduleIndex < devices
    then Some(global[g]) else None
  }

  /** Commands and events agree: a command on `g` reaches sub-HAL `f.moduleIndex` with local
      handle `f.localHandle` exactly when ordinary events carrying that local handle come back
      under `g` - provided the local handle is not negative, which only commands check. */
  lemma DispatchRoundTrip(issued: seq<FullHandle>, global: GlobalTable, full: FullTable,
                          devices: nat, g: int, f: FullHandle, e: Event)
    requires TablesFor(issued, global, full) && Distinct(issued)
    requires forall k :: 0 <= k < |issued| ==> 0 <= issued[k].moduleIndex < devices
    requires e.body.Sample? && e.sensor == f.localHandle
    ensures Dispatch(global, devices, g) == Some(f) <==>
            Kept(full, e, f.moduleIndex) && Remap(full, e, f.moduleIndex).sensor == g && f.localHandle >= 0
  {
    InversesIffDistinct(issued, global, full);
    if f in full {
      assert issued[full[f] - 1] == f;
    }
  }

  /** Without that provision the round trip fails: a sensor with local handle -2 delivers its
      events but can be neither activated nor given a delay. */
  lemma NegativeLocalHandleCannotBeCommanded(e: Event)
    requires e.body.Sample? && e.sensor == -2
    ensures var issued := [FullHandle(0, -2)];
            var global: GlobalTable := map[1 := FullHandle(0, -2)];
            var full: FullTable := map[FullHandle(0, -2) := 1];
            && TablesFor(issued, global, full) && Distinct(issued)
            && Remap(full, e, 0).sensor == 1 && Kept(full, e, 0)
            && Dispatch(global, 1, 1) == None
  {
    var issued := [FullHandle(0, -2)];
    assert issued[0] in issued;
  }

  lemma TablesForSnoc(issued: seq<FullHandle>, global: GlobalTable, full: FullTable, f: FullHandle)
    requires TablesFor(issued, global, full)
    ensures TablesFor(issued + [f], global[|issued| + 1 := f], full[f := |issued| + 1])
  {
    var more, full' := issued + [f], full[f := |issued| + 1];
    assert forall h :: h in more <==> h in issued || h == f;
    forall h: FullHandle | h in full' && h != f
      ensures 1 <= full'[h] <= |more| && more[full'[h] - 1] == h && h !in more[full'[h]..]
    {
      assert more[full[h]..] == issued[full[h]..] + [f];
    }
  }

  // ---- The tables as functions of what was issued ----

  function GlobalOf(issued: seq<FullHandle>): GlobalTable {
    if issued == [] then map[] else GlobalOf(issued[..|issued| - 1])[|issued| := issued[|issued| - 1]]
  }

  function TableOf(issued: seq<FullHandle>): FullTable {
    if issued == [] then map[] else TableOf(issued[..|issued| - 1])[issued[|issued| - 1] := |issued|]
  }

  lemma {:induction false} TableOfIsTable(issued: seq<FullHandle>)
    ensures TablesFor(issued, GlobalOf(issued), TableOf(issued))
  {
    if issued != [] {
      var init, last := issued[..|issued| - 1], issued[|issued| - 1];
      TableOfIsTable(init);
      TablesForSnoc(init, GlobalOf(init), TableOf(init), last);
      assert issued == init + [last];
    }
  }

  lemma {:induction false} OnlyOneIsLast(issued: seq<FullHandle>, f: FullHandle, g: int, h: int)
    requires 1 <= g <= |issued| && issued[g - 1] == f && f !in issued[g..]
    requires 1 <= h <= |issued| && issued[h - 1] == f && f !in issued[h..]
    ensures g == h
  {
    forall k | g <= k < |issued| ensures issued[k] != f {
      assert issued[k] == issued[g..][k - g];
    }
    forall k | h <= k < |issued| ensures issued[k] != f {
      assert issued[k] == issued[h..][k - h];
    }
  }

  lemma GlobalIsDetermined(issued: seq<FullHandle>, global: GlobalTable)
    requires forall g: int :: g in global <==> 1 <= g <= |issued|
    requires forall g: int :: g in global ==> global[g] == issued[g - 1]
    ensures global == GlobalOf(issued)
  {
    TableOfIsTable(issued);
    forall g: int ensures g in global.Keys <==> g in GlobalOf(issued).Keys {
      assert g in global <==> 1 <= g <= |issued|;
    }
    assert global.Keys == GlobalOf(issued).Keys;
    forall g | g in global ensures global[g] == GlobalOf(issued)[g] {
      assert g in GlobalOf(issued);
    }
  }

  /** What was issued determines both tables. */
  lemma {:induction false} TablesAreDetermined(issued: seq<FullHandle>, global: GlobalTable, full: FullTable)
    requires TablesFor(issued, global, full)
    ensures global == GlobalOf(issued) && full == TableOf(issued)
  {
    GlobalIsDetermined(issued, global);
    TableOfIsTable(issued);
    forall f: FullHandle ensures f in full.Keys <==> f in TableOf(issued).Keys {
      assert f in full <==> f in issued;
    }
    assert full.Keys == TableOf(issued).Keys;
    forall f | f in full ensures full[f] == TableOf(issued)[f] {
      OnlyOneIsLast(issued, f, full[f], TableOf(issued)[f]);
    }
  }

  /** A sensor keeps its global handle while further ones are issued. */
  lemma HandlesNeverChange(known: seq<FullHandle>, issued: seq<FullHandle>, f: FullHandle)
    requires known <= issued && Distinct(issued) && f in known
    ensures f in TableOf(known) && f in TableOf(issued) && TableOf(known)[f] == TableOf(issued)[f]
  {
    TableOfIsTable(known);
    TableOfIsTable(issued);
    var g, h := TableOf(known)[f], TableOf(issued)[f];
    assert known[g - 1] == issued[g - 1];
  }

  // ---- What is passed on ----

  /** The last number issued to a full handle, or -1 if none was. */
  ghost predicate IsNumberOf(issued: seq<FullHandle>, f: FullHandle, g: int) {
    if f in issued
    then 1 <= g <= |issued| && issued[g - 1] == f && forall k :: g <= k < |issued| ==> issued[k] != f
    else g == -1
  }

  /** An event of module `module_` and its copy, which differs in one handle only: a sample's `sensor`, or
      the handle inside a metadata event. */
  ghost predicate IsCopy(issued: seq<FullHandle>, module_: int, e: Event, copy: Event) {
    && copy.timestamp == e.timestamp
    && match e.body
       case Sample(_, _) => copy.body == e.body && IsNumberOf(issued, FullHandle(module_, e.sensor), copy.sensor)
       case MetaData(what, handle) =>
         && copy.sensor == e.sensor && copy.body.MetaData? && copy.body.what == what
         && IsNumberOf(issued, FullHandle(module_, handle), copy.body.handle)
  }

  /** Remapping replaces that handle, and leaves everything else as it is. */
  lemma RemapIsCopy(issued: seq<FullHandle>, global: GlobalTable, full: FullTable, e: Event, module_: int)
    requires TablesFor(issued, global, full)
    ensures IsCopy(issued, module_, e, Remap(full, e, module_))
  {
    var f := FullHandle(module_, match e.body case MetaData(_, handle) => handle case Sample(_, _) => e.sensor);
    if f in full {
      forall k | full[f] <= k < |issued| ensures issued[k] != f {
        assert issued[k] == issued[full[f]..][k - full[f]];
      }
    }
  }

  /** An event that the poller may pass on, given the sensors that are known. */
  predicate Arrives(issued: seq<FullHandle>, module_: int, e: Event) {
    match e.body
    case Sample(_, _) => FullHandle(module_, e.sensor) in issued
    case MetaData(_, _) => e.sensor != -1
  }

  /** An ordinary event is passed on exactly when its handle is known; a metadata event whenever its
      `sensor` field is not -1, whatever handle it carries inside. */
  lemma KeptIffKnown(issued: seq<FullHandle>, global: GlobalTable, full: FullTable, e: Event, module_: int)
    requires TablesFor(issued, global, full)
    ensures Kept(full, e, module_) <==>
            if e.body.MetaData? then e.sensor != -1 else FullHandle(module_, e.sensor) in full
  {
  }

  /** The event carries -1 in place of a handle. */
  predicate Corrupted(e: Event) {
    e.sensor == -1 || (e.body.MetaData? && e.body.handle == -1)
  }

  /** The code means to pass no corrupted event upstream. It does pass one exactly when that is a
      metadata event about a sensor that is not known. */
  lemma CorruptedIsPassedOnIff(issued: seq<FullHandle>, global: GlobalTable, full: FullTable, e: Event, module_: int)
    requires TablesFor(issued, global, full)
    ensures Kept(full, e, module_) && Corrupted(Remap(full, e, module_)) <==>
            e.body.MetaData? && e.sensor != -1 && FullHandle(module_, e.body.handle) !in full
  {
  }

  /** Such an event: no sensor is known, and a flush-complete for sensor 5 arrives. */
  lemma CorruptedMetaDataIsPassedOn()
    ensures TablesFor([], map[], map[])
    ensures var e := Event(0, 0, MetaData(0, 5));
            Kept(map[], e, 0) && Remap(map[], e, 0) == Event(0, 0, MetaData(0, -1))
  {
  }

  class HandleRegistry {
    var globalToFull: GlobalTable
    var fullToGlobal: FullTable
    var nextGlobalHandle: int
    ghost var issued: seq<FullHandle>

    ghost predicate Valid()
      reads this
    {
      nextGlobalHandle == |issued| + 1 && TablesFor(issued, globalToFull, fullToGlobal)
    }

    constructor ()
      ensures Valid() && issued == []
    {
      globalToFull := map[];
      fullToGlobal := map[];
      nextGlobalHandle := 1;
      issued := [];
    }

    method AssignGlobalHandle(moduleIndex: int, localHandle: int) returns (g: int)
      requires Valid()
      modifies this
      ensures Valid() && issued == old(issued) + [FullHandle(moduleIndex, localHandle)]
      ensures g == |issued|
    {
      g := nextGlobalHandle;
      nextGlobalHandle := nextGlobalHandle + 1;
      var f := FullHandle(moduleIndex, localHandle);
      fullToGlobal := fullToGlobal[f := g];
      globalToFull := globalToFull[g := f];
      TablesForSnoc(issued, old(globalToFull), old(fullToGlobal), f);
      issued := issued + [f];
    }

    method GetLocalHandle(g: int) returns (l: int)
      requires Valid()
      ensures l == if 1 <= g <= |issued| then issued[g - 1].localHandle else -1
    {
      if g !in globalToFull {
        return -1;
      }
      l := globalToFull[g].localHandle;
    }

    method GetModuleIndex(g: int) returns (m: int)
      requires Valid()
      ensures m == if 1 <= g <= |issued| then issued[g - 1].moduleIndex else -1
    {
      if g !in globalToFull {
        return -1;
      }
      m := globalToFull[g].moduleIndex;
    }

    /** `activate` and `setDelay`: the call they make on a sub-HAL, or none (-EINVAL). */
    method DispatchCommand(deviceCount: nat, g: int) returns (target: Option<FullHandle>)
      requires Valid()
      ensures target == Dispatch(globalToFull, deviceCount, g)
    {
      var l := GetLocalHandle(g);
      var m := GetModuleIndex(g);
      if l >= 0 && !(m < 0 || m >= deviceCount) {
        target := Some(FullHandle(m, l));
      } else {
        target := None;
      }
    }

    /** Concatenates the sub-HALs' sensor lists; the n-th sensor overall gets global handle n. */
    method BuildSensorsList(modules: seq<seq<Sensor>>) returns (list: seq<Sensor>)
      requires Valid() && issued == []
      modifies this
      ensures Valid() && issued == AllSensors(modules)
      ensures |list| == |issued|
      ensures forall n :: 0 <= n < |list| ==> list[n] == Sensor(n + 1, AllKinds(modules)[n])
      ensures MutualInverses(globalToFull, fullToGlobal) <==> LocalHandlesDistinct(modules)
    {
      list := [];
      for m := 0 to |modules|
        invariant Valid() && issued == AllSensors(modules[..m])
        invariant |list| == |issued|
        invariant forall n :: 0 <= n < |list| ==> list[n] == Sensor(n + 1, AllKinds(modules[..m])[n])
      {
        ghost var before := issued;
        ghost var kindsBefore := AllKinds(modules[..m]);
        var local := modules[m];
        for i := 0 to |local|
          invariant Valid() && issued == before + SensorsOf(local, m)[..i]
          invariant |list| == |issued|
          invariant forall n :: 0 <= n < |before| ==> list[n] == Sensor(n + 1, kindsBefore[n])
          invariant forall n :: |before| <= n < |list| ==> list[n] == Sensor(n + 1, local[n - |before|].kind)
        {
          var g := AssignGlobalHandle(m, local[i].handle);
          list := list + [local[i].(handle := g)];
        }
        assert modules[..m + 1][..m] == modules[..m];
        assert issued == before + SensorsOf(local, m);
      }
      assert modules[..|modules|] == modules;
      InversesIffDistinct(issued, globalToFull, fullToGlobal);
      DistinctIffLocalHandlesDistinct(modules);
    }
  }
}
