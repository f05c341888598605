/**
 The handoff table: which CPUs the loader starts, and where. Its entries are made while partitions
 are loaded, the first partition of a CPU deciding.
 */
module Handoff {
  import opened ImageHeader

  datatype Option<T> = None | Some(value: T)

  datatype HandoffValue = HandoffValue(settings: bv32, address: u64)

  function CpuId(v: HandoffValue): bv32 {
    v.settings & CPU_MASK
  }

  /** The processor the loader runs on, and whether only the application CPUs were reset. */
  datatype Platform = Platform(runningCpu: bv32, apuOnlyReset: bool)

  ghost predicate Known(pf: Platform) {
    pf.runningCpu in {A53_0, R5_0, R5_L}
  }

  function CpuOf(ph: PartitionHeader, pf: Platform): bv32 {
    ResolvedCpu(ph.attributes, pf.runningCpu)
  }

  /** The partitions the loader handles; the others it passes over. */
  predicate Handled(ph: PartitionHeader, pf: Platform) {
    OwnedByFsbl(ph.attributes) && (pf.apuOnlyReset ==> IsA53(DestinationCpu(ph.attributes)))
  }

  /** A partition executed in place always counts for its CPU; one that is loaded does unless it is
      for the programmable logic or the PMU. */
  predicate Counts(ph: PartitionHeader, pf: Platform) {
    && Handled(ph, pf)
    && (ph.unEncryptedLength == 0 || (DestinationDevice(ph.attributes) != DEVICE_PL && CpuOf(ph, pf) != PMU))
  }

  /** In the numbers of the attribute word: the owner is the loader, an A53 is named if only the application
      CPUs were reset, and unless the partition is executed in place the device is not the logic nor the CPU
      the PMU. */
  lemma CountsExactly(ph: PartitionHeader, a: Attributes, pf: Platform)
    requires Known(pf) && ph.attributes == a.Word()
    ensures Counts(ph, pf) <==>
              && a.owner == 0 && (pf.apuOnlyReset ==> 1 <= a.cpu <= 4)
              && (ph.unEncryptedLength == 0 || (a.device != 2 && a.cpu != 8))
    ensures CpuOf(ph, pf) == if a.cpu == 0 then pf.runningCpu else (a.cpu as bv32) << 8
  {
    FieldsReadBack(a);
    CpuNames(a);
    hide DestinationCpu, DestinationDevice, OwnedByFsbl, IsA53;
  }

  function ValueOf(ph: PartitionHeader, pf: Platform): HandoffValue {
    HandoffValue(CpuOf(ph, pf) | ExecState(ph.attributes), ph.execAddress)
  }

  ghost predicate Absent(table: seq<HandoffValue>, cpu: bv32) {
    forall i :: 0 <= i < |table| ==> CpuId(table[i]) != cpu
  }

  /** The table after one more partition has been loaded. */
  ghost function Record(table: seq<HandoffValue>, ph: PartitionHeader, pf: Platform): seq<HandoffValue> {
    if Counts(ph, pf) && Absent(table, CpuOf(ph, pf)) then table + [ValueOf(ph, pf)] else table
  }

  /** The table after partitions 1 to `k - 1`. */
  ghost function TableAfter(phs: seq<PartitionHeader>, k: nat, pf: Platform): seq<HandoffValue>
    requires k <= |phs|
  {
    if k <= 1 then [] else Record(TableAfter(phs, k - 1, pf), phs[k - 1], pf)
  }

  /** The CPUs of the entries are pairwise distinct, and among the eight there are. */
  ghost predicate Sound(table: seq<HandoffValue>) {
    && (forall i :: 0 <= i < |table| ==> CpuId(table[i]) in Cpus())
    && (forall i, j :: 0 <= i < j < |table| ==> CpuId(table[i]) != CpuId(table[j]))
  }

  lemma ValueCpu(ph: PartitionHeader, pf: Platform)
    requires CpuOf(ph, pf) in Cpus()
    ensures CpuId(ValueOf(ph, pf)) == CpuOf(ph, pf)
    ensures ExecState(ValueOf(ph, pf).settings) == ExecState(ph.attributes)
  {
    MaskedOr(CpuOf(ph, pf), ph.attributes);
  }

  lemma MaskedOr(cpu: bv32, attributes: bv32)
    ensures cpu & 0xF00 == cpu ==>
              var settings := cpu | (attributes & 0x8);
              settings & 0xF00 == cpu && settings & 0x8 == attributes & 0x8
  {
  }

  lemma RecordSound(table: seq<HandoffValue>, ph: PartitionHeader, pf: Platform)
    requires Sound(table) && CpuOf(ph, pf) in Cpus()
    ensures Sound(Record(table, ph, pf))
  {
    ValueCpu(ph, pf);
    hide ValueOf, CpuId, CpuOf, Counts, Cpus;
  }

  ghost function CpuSet(table: seq<HandoffValue>): set<bv32> {
    set i | 0 <= i < |table| :: CpuId(table[i])
  }

  lemma {:induction false} DistinctCpus(table: seq<HandoffValue>)
    requires Sound(table)
    ensures |CpuSet(table)| == |table| && CpuSet(table) <= Cpus()
    decreases |table|
  {
    hide CpuId, Cpus;
    if table == [] {
    } else {
      var last := |table| - 1;
      var before := table[..last];
      DistinctCpus(before);
      assert CpuId(table[last]) !in CpuSet(before);
      assert CpuSet(table) == CpuSet(before) + {CpuId(table[last])};
    }
  }

  /** The table has at most eight entries, of the ten there is room for. */
  lemma NeverOverflows(table: seq<HandoffValue>)
    requires Sound(table)
    ensures |table| <= 8
  {
    DistinctCpus(table);
    hide Sound, CpuSet;
    assert |Cpus()| == 8;
    SubsetSize(CpuSet(table), Cpus());
  }

  lemma {:induction false} SubsetSize<T>(a: set<T>, b: set<T>)
    requires a <= b
    ensures |a| <= |b|
    decreases a
  {
    if a == {} {
    } else {
      var x :| x in a;
      SubsetSize(a - {x}, b - {x});
    }
  }

  /** The first partition, from 1 up to `k - 1`, that counts for a CPU. */
  function FirstFor(phs: seq<PartitionHeader>, k: nat, cpu: bv32, pf: Platform): (r: Option<nat>)
    requires k <= |phs|
    ensures r.Some? ==> 1 <= r.value < k
  {
    if k <= 1 then None
    else
      var before := FirstFor(phs, k - 1, cpu, pf);
      if before.Some? then before
      else if Counts(phs[k - 1], pf) && CpuOf(phs[k - 1], pf) == cpu then Some(k - 1)
      else None
  }

  lemma {:induction false} FirstIsFirst(phs: seq<PartitionHeader>, k: nat, cpu: bv32, pf: Platform)
    requires k <= |phs|
    ensures var r := FirstFor(phs, k, cpu, pf);
            && (r.Some? ==> Counts(phs[r.value], pf) && CpuOf(phs[r.value], pf) == cpu)
            && (forall i :: 1 <= i < (if r.Some? then r.value else k) && Counts(phs[i], pf) ==>
                  CpuOf(phs[i], pf) != cpu)
    decreases k
  {
    hide Counts, CpuOf;
    if k <= 1 {
    } else {
      FirstIsFirst(phs, k - 1, cpu, pf);
    }
  }

  /** What the table says about a CPU. */
  ghost function Lookup(table: seq<HandoffValue>, cpu: bv32): Option<HandoffValue> {
    if table == [] then None
    else
      var last := table[|table| - 1];
      if CpuId(last) == cpu then Some(last) else Lookup(table[..|table| - 1], cpu)
  }

  lemma {:induction false} LookupAbsent(table: seq<HandoffValue>, cpu: bv32)
    ensures Lookup(table, cpu) == None <==> Absent(table, cpu)
    decreases |table|
  {
    hide CpuId;
    if table == [] {
    } else {
      LookupAbsent(table[..|table| - 1], cpu);
    }
  }

  lemma {:induction false} LookupFinds(table: seq<HandoffValue>, cpu: bv32)
    ensures var v := Lookup(table, cpu); v.Some? ==> v.value in table && CpuId(v.value) == cpu
    decreases |table|
  {
    hide CpuId;
    if table == [] {
    } else {
      LookupFinds(table[..|table| - 1], cpu);
    }
  }

  lemma {:induction false} LookupOwn(table: seq<HandoffValue>, i: nat)
    requires Sound(table) && i < |table|
    ensures Lookup(table, CpuId(table[i])) == Some(table[i])
    decreases |table|
  {
    hide CpuId, Cpus;
    if i < |table| - 1 {
      LookupOwn(table[..|table| - 1], i);
    }
  }

  lemma LookupAppend(table: seq<HandoffValue>, v: HandoffValue, cpu: bv32)
    ensures Lookup(table + [v], cpu) == if CpuId(v) == cpu then Some(v) else Lookup(table, cpu)
  {
    assert (table + [v])[..|table|] == table;
  }

  /** Every CPU is in the table exactly if some partition loaded counts for it, and then with the
      settings and the execution address of the first such partition. */
  lemma {:induction false} TableHasFirsts(phs: seq<PartitionHeader>, k: nat, cpu: bv32, pf: Platform)
    requires k <= |phs|
    requires forall i :: 1 <= i < k && Counts(phs[i], pf) ==> CpuOf(phs[i], pf) in Cpus()
    ensures Lookup(TableAfter(phs, k, pf), cpu)
            == match FirstFor(phs, k, cpu, pf) case None => None case Some(i) => Some(ValueOf(phs[i], pf))
    decreases k
  {
    if k <= 1 {
    } else {
      TableHasFirsts(phs, k - 1, cpu, pf);
      var before, ph := TableAfter(phs, k - 1, pf), phs[k - 1];
      if Counts(ph, pf) {
        TableHasFirsts(phs, k - 1, CpuOf(ph, pf), pf);
        ValueCpu(ph, pf);
        hide CpuId, ValueOf, CpuOf, Counts;
        LookupAbsent(before, CpuOf(ph, pf));
        LookupAppend(before, ValueOf(ph, pf), cpu);
      }
    }
  }

  lemma {:induction false} TableSound(phs: seq<PartitionHeader>, k: nat, pf: Platform)
    requires k <= |phs|
    requires forall i :: 1 <= i < k && Counts(phs[i], pf) ==> CpuOf(phs[i], pf) in Cpus()
    ensures Sound(TableAfter(phs, k, pf))
    decreases k
  {
    if k <= 1 {
    } else {
      TableSound(phs, k - 1, pf);
      hide Sound, Counts, CpuOf;
      if Counts(phs[k - 1], pf) {
        RecordSound(TableAfter(phs, k - 1, pf), phs[k - 1], pf);
      }
    }
  }

  // ---- Starting the CPUs ----

  datatype Departure = NoHandoff | Handoff64 | Handoff32

  datatype Event =
    | Loaded(index: nat, ok: bool)
    | PoweredUp(settings: bv32)
    | VectorSet(settings: bv32, address: u64, vector: bv32)
    | Released(settings: bv32)
    | Left(address: u64, how: Departure)
    | LockedDown

  /** Where a partition wants the exception vectors of its CPU, low (0) or high (1). */
  function VectorLocation(attributes: bv32): bv32 {
    (attributes & 0x80_0000) >> 23
  }

  /** Low if bit 23 is clear, high if it is set. */
  lemma VectorLocationIsBit(attributes: bv32)
    ensures VectorLocation(attributes) == if attributes & 0x80_0000 == 0 then 0 else 1
  {
  }

  lemma VectorReadsBack(a: Attributes)
    ensures VectorLocation(a.Word()) == a.vector as bv32
  {
  }

  /** A CPU is powered up, given its address and a vector location, and released. */
  function StartEvents(v: HandoffValue, vector: bv32): seq<Event> {
    [PoweredUp(v.settings), VectorSet(v.settings, v.address, vector), Released(v.settings)]
  }

  /** What starts the CPUs of the table, other than the running one. */
  function Releases(table: seq<HandoffValue>, runningCpu: bv32, vector: bv32): seq<Event> {
    if table == [] then []
    else
      var before, v := Releases(table[..|table| - 1], runningCpu, vector), table[|table| - 1];
      if CpuId(v) == runningCpu then before
      else before + StartEvents(v, vector)
  }

  lemma ReleasesNext(table: seq<HandoffValue>, i: nat, runningCpu: bv32, vector: bv32)
    requires i < |table|
    ensures Releases(table[..i + 1], runningCpu, vector)
            == if CpuId(table[i]) == runningCpu then Releases(table[..i], runningCpu, vector)
               else Releases(table[..i], runningCpu, vector) + StartEvents(table[i], vector)
  {
    assert table[..i + 1][..i] == table[..i];
  }

  /** How far a start can have come when the run stops. */
  lemma StopsShort(was: seq<Event>, table: seq<HandoffValue>, i: nat, runningCpu: bv32, vector: bv32,
                   events: seq<Event>)
    requires i < |table|
    requires var start := was + Releases(table[..i], runningCpu, vector);
             || events == start
             || (CpuId(table[i]) != runningCpu && start <= events <= start + StartEvents(table[i], vector))
    ensures was <= events <= was + Releases(table, runningCpu, vector)
  {
    ReleasesGrow(table, i + 1, runningCpu, vector);
    ReleasesNext(table, i, runningCpu, vector);
    var r, r' := Releases(table[..i], runningCpu, vector), Releases(table[..i + 1], runningCpu, vector);
    var all := Releases(table, runningCpu, vector);
    hide *;
    if r' != r {
      assert was + r' == (was + r) + StartEvents(table[i], vector);
    }
    PrefixBehind(was, r', all);
    PrefixBehind(was, [], all);
  }

  lemma PrefixBehind<T>(was: seq<T>, a: seq<T>, b: seq<T>)
    requires a <= b
    ensures was <= was + a <= was + b
  {
  }

  lemma {:induction false} ReleasesGrow(table: seq<HandoffValue>, i: nat, runningCpu: bv32, vector: bv32)
    requires i <= |table|
    ensures Releases(table[..i], runningCpu, vector) <= Releases(table, runningCpu, vector)
    decreases |table| - i
  {
    if i == |table| {
      assert table[..i] == table;
    } else {
      ReleasesNext(table, i, runningCpu, vector);
      ReleasesGrow(table, i + 1, runningCpu, vector);
    }
  }

  /** And how the loader itself ends: at the address of the running CPU, if it has one. */
  ghost function Leaving(table: seq<HandoffValue>, runningCpu: bv32): Event {
    LeavingFor(Lookup(table, runningCpu))
  }

  function LeavingFor(running: Option<HandoffValue>): Event {
    if running.None? then Left(0, NoHandoff)
    else Left(running.value.address, if ExecState(running.value.settings) == 0x8 then Handoff32 else Handoff64)
  }

  /** What has happened to a CPU: the addresses and vector locations it was given, and how often it was
      released. */
  datatype Fate = Fate(addresses: seq<u64>, vectors: seq<bv32>, releases: nat)

  const NOTHING: Fate := Fate([], [], 0)

  function AfterEvent(fate: Fate, e: Event, cpu: bv32): Fate {
    if e.VectorSet? && e.settings & CPU_MASK == cpu then
      Fate(fate.addresses + [e.address], fate.vectors + [e.vector], fate.releases)
    else if e.Released? && e.settings & CPU_MASK == cpu then fate.(releases := fate.releases + 1)
    else fate
  }

  function FateOf(events: seq<Event>, cpu: bv32): Fate {
    if events == [] then NOTHING else AfterEvent(FateOf(events[..|events| - 1], cpu), events[|events| - 1], cpu)
  }

  lemma FateNext(events: seq<Event>, e: Event, cpu: bv32)
    ensures FateOf(events + [e], cpu) == AfterEvent(FateOf(events, cpu), e, cpu)
  {
    assert (events + [e])[..|events|] == events;
  }

  lemma FateOfStart(events: seq<Event>, v: HandoffValue, vector: bv32, cpu: bv32)
    ensures var before := FateOf(events, cpu);
            FateOf(events + StartEvents(v, vector), cpu)
            == if CpuId(v) != cpu then before
               else Fate(before.addresses + [v.address], before.vectors + [vector], before.releases + 1)
  {
    var a := events + [PoweredUp(v.settings)];
    var b := a + [VectorSet(v.settings, v.address, vector)];
    FateNext(events, PoweredUp(v.settings), cpu);
    FateNext(a, VectorSet(v.settings, v.address, vector), cpu);
    FateNext(b, Released(v.settings), cpu);
    hide FateOf;
    assert events + StartEvents(v, vector) == b + [Released(v.settings)];
  }

  /** What the handoff should do to a CPU. */
  ghost function Due(table: seq<HandoffValue>, runningCpu: bv32, vector: bv32, cpu: bv32): Fate {
    if cpu == runningCpu then NOTHING
    else match Lookup(table, cpu)
      case None => NOTHING
      case Some(v) => Fate([v.address], [vector], 1)
  }

  /** Every CPU in the table but the running one is given its own address, and the one vector location,
      and released, once; no other is touched. */
  lemma {:induction false} ReleasedOnce(was: seq<Event>, table: seq<HandoffValue>, runningCpu: bv32, vector: bv32,
                                        cpu: bv32)
    requires Sound(table) && FateOf(was, cpu) == NOTHING
    ensures FateOf(was + Releases(table, runningCpu, vector), cpu) == Due(table, runningCpu, vector, cpu)
    decreases |table|
  {
    hide CpuId, FateOf, Cpus, StartEvents;
    if table == [] {
      assert was + Releases(table, runningCpu, vector) == was;
    } else {
      var last := |table| - 1;
      var before, v := table[..last], table[last];
      assert Sound(before) && Absent(before, CpuId(v));
      LookupAbsent(before, CpuId(v));
      hide Sound, Absent;
      ReleasedOnce(was, before, runningCpu, vector, cpu);
      var events := was + Releases(before, runningCpu, vector);
      FateOfStart(events, v, vector, cpu);
      assert was + (Releases(before, runningCpu, vector) + StartEvents(v, vector)) == events + StartEvents(v, vector);
    }
  }
}
