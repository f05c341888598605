/**
 The boot loader from power-up to handoff, in the shipped configuration without early handoff:
 initialise, read the image header, load the partitions in turn, start the CPUs, leave.
 */
module BootRun {
  import opened Words
  import opened ImageHeader
  import opened Handoff

  datatype LoadStatus = LoadOk | HeaderFailed(header: HeaderStatus) | PartitionCopyFailed | ValidationFailed

  datatype HandoffStatus =
    | Exited
    | PmInitFailed
    | ProtectionFailed
    | HookFailed
    | UnavailableCpu
    | PowerUpFailed
    | ReleaseFailed
    | UnsupportedHandoff

  /** The ways to fail that are an attempt at something outside the loader failing. */
  predicate AttemptFails(status: HandoffStatus) {
    status == PmInitFailed || status == ProtectionFailed || status == HookFailed || StartFails(status)
  }

  predicate StartFails(status: HandoffStatus) {
    status == PowerUpFailed || status == ReleaseFailed
  }

  predicate Refuses(status: HandoffStatus) {
    status == UnavailableCpu || status == UnsupportedHandoff
  }

  datatype InitStatus = InitOk | Jtag | InitFailed

  const STAGE_1: nat := 1
  const STAGE_2: nat := 2
  const STAGE_3: nat := 3
  const STAGE_4: nat := 4
  const STAGE_ERR: nat := 5
  const STAGE_DEFAULT: nat := 6

  /** The loads of partitions 1 to `k - 1`, all successful. */
  function Loads(k: nat): seq<Event> {
    if k <= 1 then [] else Loads(k - 1) + [Loaded(k - 1, true)]
  }

  /** A partition header that the loader may have loaded is for one of the eight CPUs. */
  ghost predicate LoadsValid(phs: seq<PartitionHeader>, k: nat, pf: Platform) {
    forall i :: 1 <= i < k && i < |phs| && Counts(phs[i], pf) ==> CpuOf(phs[i], pf) in Cpus()
  }

  /** The vector location that every CPU is given: that of the last partition. */
  function LastVector(phs: seq<PartitionHeader>): bv32
    requires phs != []
  {
    VectorLocation(phs[|phs| - 1].attributes)
  }

  /** A run that ends well: every partition is loaded, in order, once; then every CPU of the table
      is started; then the loader leaves. */
  ghost predicate GoodRun(events: seq<Event>, phs: seq<PartitionHeader>, pf: Platform) {
    && MIN_PARTITIONS < |phs| <= MAX_PARTITIONS && LoadsValid(phs, |phs|, pf)
    && var table := TableAfter(phs, |phs|, pf);
       events == Loads(|phs|) + Releases(table, pf.runningCpu, LastVector(phs)) + [Leaving(table, pf.runningCpu)]
  }

  /** A run that fails: nothing is loaded after a load that failed, no CPU is started unless all
      loads were successful, and the end is a lockdown. */
  ghost predicate FailedRun(events: seq<Event>, phs: seq<PartitionHeader>, pf: Platform) {
    || events == [LockedDown]
    || (exists k: nat :: 1 <= k < |phs| && FailedLoad(events, k))
    || (exists starts :: FailedHandoff(events, starts, phs, pf))
  }

  ghost predicate FailedLoad(events: seq<Event>, k: nat) {
    events == Loads(k) + [Loaded(k, false)] + [LockedDown]
  }

  ghost predicate FailedHandoff(events: seq<Event>, starts: seq<Event>, phs: seq<PartitionHeader>, pf: Platform) {
    && phs != [] && LoadsValid(phs, |phs|, pf)
    && starts <= Releases(TableAfter(phs, |phs|, pf), pf.runningCpu, LastVector(phs))
    && events == Loads(|phs|) + starts + [LockedDown]
  }

  lemma StartOfLoads(phs: seq<PartitionHeader>, pf: Platform)
    requires |phs| >= 1
    ensures Loads(1) == [] && TableAfter(phs, 1, pf) == [] && LoadsValid(phs, 1, pf)
  {
  }

  lemma FailsAtOnce()
    ensures forall phs, pf :: FailedRun([] + [LockedDown], phs, pf)
  {
  }

  lemma LoadFails(phs: seq<PartitionHeader>, k: nat, pf: Platform)
    requires 1 <= k < |phs|
    ensures FailedRun(Loads(k) + [Loaded(k, false)] + [LockedDown], phs, pf)
  {
    assert FailedLoad(Loads(k) + [Loaded(k, false)] + [LockedDown], k);
  }

  lemma HandoffFails(events: seq<Event>, phs: seq<PartitionHeader>, pf: Platform)
    requires phs != [] && LoadsValid(phs, |phs|, pf)
    requires var all := Releases(TableAfter(phs, |phs|, pf), pf.runningCpu, LastVector(phs));
             Loads(|phs|) <= events <= Loads(|phs|) + all
    ensures FailedRun(events + [LockedDown], phs, pf)
  {
    hide Loads, Releases, TableAfter, LoadsValid;
    var starts := events[|Loads(|phs|)|..];
    assert events == Loads(|phs|) + starts;
    assert FailedHandoff(events + [LockedDown], starts, phs, pf);
  }

  lemma {:induction false} LoadsTouchNothing(k: nat, cpu: bv32)
    ensures FateOf(Loads(k), cpu) == NOTHING
    decreases k
  {
    if k <= 1 {
    } else {
      LoadsTouchNothing(k - 1, cpu);
      FateNext(Loads(k - 1), Loaded(k - 1, true), cpu);
    }
  }

  /** In a run that ends well, the first partition that counts for a CPU decides: if there is one,
      the CPU is released once, at that partition's execution address, unless it is the one the
      loader runs on, to which the loader then leaves; if there is none, nothing happens to it. */
  lemma FirstPartitionDecides(events: seq<Event>, phs: seq<PartitionHeader>, pf: Platform, cpu: bv32)
    requires GoodRun(events, phs, pf)
    ensures var first := FirstFor(phs, |phs|, cpu, pf);
            FateOf(events, cpu)
            == if cpu != pf.runningCpu && first.Some? then Fate([phs[first.value].execAddress], [LastVector(phs)], 1)
               else NOTHING
    ensures var own := FirstFor(phs, |phs|, pf.runningCpu, pf);
            events[|events| - 1]
            == if own == None then Left(0, NoHandoff)
               else Left(phs[own.value].execAddress,
                         if ExecState(phs[own.value].attributes) == 0x8 then Handoff32 else Handoff64)
  {
    var n, running := |phs|, pf.runningCpu;
    var table := TableAfter(phs, n, pf);
    TableSound(phs, n, pf);
    TableHasFirsts(phs, n, cpu, pf);
    TableHasFirsts(phs, n, running, pf);
    FirstIsFirst(phs, n, running, pf);
    LoadsTouchNothing(n, cpu);
    ReleasedOnce(Loads(n), table, running, LastVector(phs), cpu);
    FateNext(Loads(n) + Releases(table, running, LastVector(phs)), Leaving(table, running), cpu);
    var own := FirstFor(phs, n, running, pf);
    if own.Some? {
      ValueCpu(phs[own.value], pf);
    }
    hide TableAfter, Releases, Loads, FateOf, FirstFor, Sound, Lookup;
  }

  /** A CPU that is released gets the vector location that the partition deciding about it asks for
      exactly if that partition and the last one agree on bit 23 of their attributes. */
  lemma VectorIsOwnExactly(events: seq<Event>, phs: seq<PartitionHeader>, pf: Platform, cpu: bv32)
    requires GoodRun(events, phs, pf) && cpu != pf.runningCpu && FirstFor(phs, |phs|, cpu, pf).Some?
    ensures var first, last := phs[FirstFor(phs, |phs|, cpu, pf).value].attributes, phs[|phs| - 1].attributes;
            FateOf(events, cpu).vectors == [VectorLocation(first)] <==> first & 0x80_0000 == last & 0x80_0000
  {
    FirstPartitionDecides(events, phs, pf, cpu);
    VectorLocationIsBit(phs[FirstFor(phs, |phs|, cpu, pf).value].attributes);
    VectorLocationIsBit(phs[|phs| - 1].attributes);
    SameBit(phs[FirstFor(phs, |phs|, cpu, pf).value].attributes, phs[|phs| - 1].attributes);
    hide GoodRun, FateOf, FirstFor, VectorLocation;
  }

  lemma SameBit(a: bv32, b: bv32)
    ensures a & 0x80_0000 == b & 0x80_0000 <==> (a & 0x80_0000 == 0 <==> b & 0x80_0000 == 0)
  {
  }

  class Fsbl {
    const platform: Platform
    const a53ExecState: bv32
    const jtag: bool
    const supported: bv32 -> bool
    const addressOk: (u64, bv32, bv32) -> bool
    const imageOffset: u32
    const tableOffset: u32
    const reader: Reader
    const handoffValues: array<HandoffValue>
    var handoffCpuNo: nat
    var phs: seq<PartitionHeader>
    var events: seq<Event>
    // Whether anything the loader has attempted, other than a copy of a header, has failed.
    var attemptFailed: bool

    ghost predicate Valid()
      reads this`handoffCpuNo, handoffValues
    {
      && Known(platform) && reader.Valid()
      && handoffValues.Length == 10 && handoffCpuNo <= 10
      && Sound(handoffValues[..handoffCpuNo])
    }

    ghost function Table(): seq<HandoffValue>
      reads this`handoffCpuNo, handoffValues
      requires Valid()
    {
      handoffValues[..handoffCpuNo]
    }

    constructor (platform: Platform, a53ExecState: bv32, jtag: bool, supported: bv32 -> bool,
                 addressOk: (u64, bv32, bv32) -> bool, imageOffset: u32, tableOffset: u32)
      requires Known(platform)
      ensures Valid() && AtStart() && fresh(handoffValues) && fresh(reader) && fresh(reader.entry)
      ensures this.platform == platform && this.a53ExecState == a53ExecState && this.jtag == jtag
      ensures this.supported == supported && this.addressOk == addressOk
      ensures this.imageOffset == imageOffset && this.tableOffset == tableOffset
    {
      this.platform, this.a53ExecState, this.jtag := platform, a53ExecState, jtag;
      this.supported, this.addressOk := supported, addressOk;
      this.imageOffset, this.tableOffset := imageOffset, tableOffset;
      handoffValues := new HandoffValue[10](_ => HandoffValue(0, 0));
      reader := new Reader();
      handoffCpuNo, phs, events, attemptFailed := 0, [], [], false;
    }

    /** Nothing has been read, attempted or started. */
    ghost predicate AtStart()
      reads this, handoffValues, reader
      requires Valid()
    {
      Table() == [] && events == [] && phs == [] && !attemptFailed && reader.Fresh()
    }

    /** The power-up, power-management and protection set-up calls, and everything else that is done by
        others, may fail. */
    method Attempt() returns (ok: bool)
      modifies this`attemptFailed
      ensures attemptFailed <==> old(attemptFailed) || !ok
    {
      ok := *;
      if !ok {
        attemptFailed := true;
      }
    }

    /** Whether no entry of the table is for this CPU. */
    method CheckHandoffCpu(cpu: bv32) returns (absent: bool)
      requires Valid()
      ensures absent <==> Absent(Table(), cpu)
    {
      var index := 0;
      while index < handoffCpuNo
        invariant index <= handoffCpuNo && forall i :: 0 <= i < index ==> CpuId(Table()[i]) != cpu
      {
        if handoffValues[index].settings & CPU_MASK == cpu {
          assert CpuId(Table()[index]) == cpu;
          return false;
        }
        index := index + 1;
      }
      return true;
    }

    /** Adds an entry, unless there is one for the CPU already. */
    method AddHandoff(ph: PartitionHeader, cpu: bv32)
      requires Valid() && cpu == CpuOf(ph, platform) && cpu in Cpus()
      modifies this`handoffCpuNo, handoffValues
      ensures Valid()
      ensures Table() == if old(Absent(Table(), cpu)) then old(Table()) + [ValueOf(ph, platform)] else old(Table())
    {
      var cpuNo := handoffCpuNo;
      var absent := CheckHandoffCpu(cpu);
      if absent {
        NeverOverflows(Table());
        ghost var before := Table();
        handoffValues[cpuNo] := HandoffValue(cpu | (ph.attributes & EXEC_ST_MASK), ph.execAddress);
        handoffCpuNo := handoffCpuNo + 1;
        assert handoffValues[..handoffCpuNo] == before + [ValueOf(ph, platform)];
        ValueCpu(ph, platform);
        AddSound(before, ValueOf(ph, platform));
      }
    }

    lemma AddSound(table: seq<HandoffValue>, v: HandoffValue)
      requires Sound(table) && CpuId(v) in Cpus() && Absent(table, CpuId(v))
      ensures Sound(table + [v])
    {
      hide CpuId, Cpus;
    }

    /** Execution in place needs no copy, only an entry in the table. */
    method PartitionCopy(ph: PartitionHeader) returns (ok: bool)
      requires Valid() && CpuOf(ph, platform) in Cpus()
      modifies this`handoffCpuNo, handoffValues, this`attemptFailed
      ensures Valid() && (attemptFailed <==> old(attemptFailed) || !ok)
      ensures ph.unEncryptedLength == 0 ==>
                && ok
                && Table() == if old(Absent(Table(), CpuOf(ph, platform))) then old(Table()) + [ValueOf(ph, platform)]
                              else old(Table())
      ensures ph.unEncryptedLength != 0 ==> Table() == old(Table())
    {
      var cpu := DestinationCpu(ph.attributes);
      if cpu == CPU_NONE {
        cpu := platform.runningCpu;
      }
      if ph.unEncryptedLength == 0 {
        AddHandoff(ph, cpu);
        return true;
      }
      ok := Attempt();
    }

    /** Checksum, signature, decryption and bitstream download may fail; then the table is updated. */
    method PartitionValidation(ph: PartitionHeader) returns (ok: bool)
      requires Valid() && CpuOf(ph, platform) in Cpus()
      modifies this`handoffCpuNo, handoffValues, this`attemptFailed
      ensures Valid() && (attemptFailed <==> old(attemptFailed) || !ok)
      ensures !ok ==> Table() == old(Table())
      ensures ok ==>
                Table() == if DestinationDevice(ph.attributes) != DEVICE_PL && CpuOf(ph, platform) != PMU
                              && old(Absent(Table(), CpuOf(ph, platform)))
                           then old(Table()) + [ValueOf(ph, platform)] else old(Table())
    {
      var cpu := DestinationCpu(ph.attributes);
      if cpu == CPU_NONE {
        cpu := platform.runningCpu;
      }
      ok := Attempt();
      if !ok {
        return;
      }
      if DestinationDevice(ph.attributes) != DEVICE_PL && cpu != PMU {
        AddHandoff(ph, cpu);
      }
    }

    ghost function Verdict(ph: PartitionHeader): HeaderStatus {
      PartitionHeaderValidation(ph, platform.runningCpu, platform.apuOnlyReset, addressOk)
    }

    /** A partition that is accepted, or passed over. */
    ghost predicate Loadable(ph: PartitionHeader) {
      Verdict(ph) == HeaderOk || Verdict(ph) == NotPartitionOwner
    }

    /** One partition: check its header, pass it over if it is not the loader's, otherwise copy and
        validate it. Only a bad header or a failing copy or validation stops it. */
    method PartitionLoad(partitionNum: nat) returns (status: LoadStatus)
      requires Valid() && partitionNum < |phs|
      modifies this`handoffCpuNo, handoffValues, this`attemptFailed
      ensures Valid()
      ensures attemptFailed <==> old(attemptFailed) || status == PartitionCopyFailed || status == ValidationFailed
      ensures Verdict(phs[partitionNum]) == NotPartitionOwner ==> status == LoadOk
      ensures status.HeaderFailed? <==> !Loadable(phs[partitionNum])
      ensures status.HeaderFailed? ==> status.header == Verdict(phs[partitionNum])
      ensures status == LoadOk ==>
                && Table() == Record(old(Table()), phs[partitionNum], platform)
                && (Counts(phs[partitionNum], platform) ==> CpuOf(phs[partitionNum], platform) in Cpus())
    {
      hide CpuId, ValueOf, CpuOf, Cpus, PartitionHeaderValidation, DestinationDevice, Sound, Handled, OwnedByFsbl;
      var ph := phs[partitionNum];
      var header := PartitionHeaderValidation(ph, platform.runningCpu, platform.apuOnlyReset, addressOk);
      HandledIfOk(ph);
      if header == NotPartitionOwner {
        return LoadOk;
      } else if header != HeaderOk {
        return HeaderFailed(header);
      }
      CpuIsValid(ph);
      ValueCpu(ph, platform);
      ghost var before := Table();
      var ok := PartitionCopy(ph);
      if !ok {
        return PartitionCopyFailed;
      }
      assert Table() != before ==> Table()[|before|] == ValueOf(ph, platform);
      ok := PartitionValidation(ph);
      status := if ok then LoadOk else ValidationFailed;
    }

    lemma CpuIsValid(ph: PartitionHeader)
      requires Known(platform) && Verdict(ph) == HeaderOk
      ensures CpuOf(ph, platform) in Cpus()
    {
      ValidCpu(ph, platform.runningCpu, platform.apuOnlyReset, addressOk);
    }

    lemma HandledIfOk(ph: PartitionHeader)
      ensures var header := PartitionHeaderValidation(ph, platform.runningCpu, platform.apuOnlyReset, addressOk);
              && (header == HeaderOk ==> Handled(ph, platform))
              && (header == NotPartitionOwner ==> !Handled(ph, platform))
    {
      hide SumsToOnes;
    }

    /** Starts one other CPU. */
    method Start(v: HandoffValue, vector: bv32) returns (status: HandoffStatus)
      modifies this`events, this`attemptFailed
      ensures status == Exited || status == UnavailableCpu || StartFails(status)
      ensures status == UnavailableCpu <==> !supported(CpuId(v))
      ensures attemptFailed <==> old(attemptFailed) || StartFails(status)
      ensures status == Exited ==>
                && supported(CpuId(v))
                && events == old(events) + StartEvents(v, vector)
      ensures status != Exited ==> old(events) <= events <= old(events) + StartEvents(v, vector)
    {
      if !supported(CpuId(v)) {
        return UnavailableCpu;
      }
      var ok := Attempt();
      if !ok {
        return PowerUpFailed;
      }
      events := events + [PoweredUp(v.settings)];
      events := events + [VectorSet(v.settings, v.address, vector)];
      ok := Attempt();
      if !ok {
        return ReleaseFailed;
      }
      events := events + [Released(v.settings)];
      return Exited;
    }

    /** A 64-bit loader cannot leave to 32-bit code on its own CPU, nor the other way round. */
    predicate Switches(settings: bv32) {
      || (a53ExecState == 0x0 && ExecState(settings) == 0x8)
      || (a53ExecState == 0x8 && ExecState(settings) == 0x0)
    }

    /** Another CPU must be fitted; the one that runs the loader goes on as 64-bit code if it is 64-bit now,
        and as 32-bit code if it is 32-bit. */
    predicate Startable(v: HandoffValue) {
      if v.settings & 0xF00 == platform.runningCpu then
        (a53ExecState == 0x0 ==> v.settings & 0x8 == 0x0) && (a53ExecState == 0x8 ==> v.settings & 0x8 == 0x8)
      else
        supported(v.settings & 0xF00)
    }

    predicate AllStartable(table: seq<HandoffValue>) {
      forall i :: 0 <= i < |table| ==> Startable(table[i])
    }

    lemma OneNotStartable(table: seq<HandoffValue>, i: nat)
      ensures i < |table| && !Startable(table[i]) ==> !AllStartable(table)
    {
    }

    lemma SwitchesIs(v: HandoffValue)
      ensures Startable(v) <==> if CpuId(v) == platform.runningCpu then !Switches(v.settings) else supported(CpuId(v))
    {
    }

    /** The first `i` entries of the table have been dealt with; what is known of the running CPU. */
    ghost predicate Dealt(was: seq<Event>, now: seq<Event>, table: seq<HandoffValue>, i: nat, vector: bv32,
                          running: Option<HandoffValue>)
    {
      && i <= |table|
      && now == was + Releases(table[..i], platform.runningCpu, vector)
      && (forall k :: 0 <= k < i ==> Startable(table[k]))
      && running == Lookup(table[..i], platform.runningCpu)
    }

    static lemma Reassociate(a: seq<Event>, b: seq<Event>, c: seq<Event>)
      ensures a + (b + c) == (a + b) + c
    {
    }

    lemma DealtNext(was: seq<Event>, now: seq<Event>, table: seq<HandoffValue>, i: nat, vector: bv32,
                    running: Option<HandoffValue>)
      requires i < |table| && Dealt(was, now, table, i, vector, running) && Startable(table[i])
      ensures if CpuId(table[i]) == platform.runningCpu then Dealt(was, now, table, i + 1, vector, Some(table[i]))
              else Dealt(was, now + StartEvents(table[i], vector), table, i + 1, vector, running)
    {
      hide Releases, Lookup, StartEvents, Startable, CpuId;
      var v := table[i];
      ReleasesNext(table, i, platform.runningCpu, vector);
      assert table[..i + 1] == table[..i] + [v];
      LookupAppend(table[..i], v, platform.runningCpu);
      Reassociate(was, Releases(table[..i], platform.runningCpu, vector), StartEvents(v, vector));
    }

    /** The turn of one entry of the table. */
    method StartNext(cpuIndex: nat, vector: bv32, running: Option<HandoffValue>, ghost was: seq<Event>)
      returns (status: HandoffStatus, running': Option<HandoffValue>)
      requires Valid() && cpuIndex < handoffCpuNo && Dealt(was, events, Table(), cpuIndex, vector, running)
      modifies this`events, this`attemptFailed
      ensures Valid() && (attemptFailed <==> old(attemptFailed) || StartFails(status))
      ensures status == Exited || StartFails(status) || (Refuses(status) && !Startable(Table()[cpuIndex]))
      ensures status == Exited ==> Dealt(was, events, Table(), cpuIndex + 1, vector, running')
      ensures status != Exited ==> was <= events <= was + Releases(Table(), platform.runningCpu, vector)
    {
      var v := handoffValues[cpuIndex];
      ghost var table, now := Table(), events;
      assert v == table[cpuIndex] && now == was + Releases(table[..cpuIndex], platform.runningCpu, vector);
      SwitchesIs(v);
      if Startable(v) {
        DealtNext(was, now, table, cpuIndex, vector, running);
      }
      hide Dealt, Releases, Sound, Switches, StartEvents, Lookup, ExecState, Startable;
      running' := running;
      if CpuId(v) != platform.runningCpu {
        status := Start(v, vector);
      } else {
        running' := Some(v);
        status := if Switches(v.settings) then UnsupportedHandoff else Exited;
      }
      if status != Exited {
        StopsShort(was, table, cpuIndex, platform.runningCpu, vector, events);
      }
    }

    lemma NoneDealt(vector: bv32)
      requires Valid()
      ensures Dealt(events, events, Table(), 0, vector, None)
    {
      assert Table()[..0] == [];
    }

    /** The CPUs of the table in turn; what is found out about the running one on the way. */
    method StartAll(vector: bv32) returns (status: HandoffStatus, running: Option<HandoffValue>)
      requires Valid()
      modifies this`events, this`attemptFailed
      ensures Valid() && (attemptFailed <==> old(attemptFailed) || StartFails(status))
      ensures status == Exited || StartFails(status) || (Refuses(status) && !AllStartable(Table()))
      ensures status == Exited ==> Dealt(old(events), events, Table(), handoffCpuNo, vector, running)
      ensures status != Exited ==> old(events) <= events <= old(events) + Releases(Table(), platform.runningCpu, vector)
    {
      hide Dealt, Releases, AllStartable, Startable, Sound, Lookup;
      status, running := Exited, None;
      var cpuIndex := 0;
      NoneDealt(vector);
      while cpuIndex < handoffCpuNo
        invariant cpuIndex <= handoffCpuNo && Valid() && status == Exited && attemptFailed == old(attemptFailed)
        invariant Dealt(old(events), events, Table(), cpuIndex, vector, running)
      {
        ghost var table := Table();
        status, running := StartNext(cpuIndex, vector, running, old(events));
        if status != Exited {
          OneNotStartable(table, cpuIndex);
          return;
        }
        cpuIndex := cpuIndex + 1;
      }
    }

    /** What it means that the whole table has been dealt with. */
    lemma AllDealt(was: seq<Event>, vector: bv32, running: Option<HandoffValue>)
      requires Valid() && Dealt(was, events, Table(), handoffCpuNo, vector, running)
      ensures events == was + Releases(Table(), platform.runningCpu, vector)
      ensures AllStartable(Table()) && running == Lookup(Table(), platform.runningCpu)
    {
      assert Table()[..handoffCpuNo] == Table();
    }

    /** Where the run ends well. It does not return from here. */
    method HandoffExit(address: u64, how: Departure)
      modifies this`events
      ensures events == old(events) + [Left(address, how)]
    {
      events := events + [Left(address, how)];
    }

    /** Leaves for the running CPU's address, if it has one, in its execution state. */
    method Leave(running: Option<HandoffValue>)
      modifies this`events
      ensures events == old(events) + [LeavingFor(running)]
    {
      if running.Some? {
        if ExecState(running.value.settings) == 0x8 {
          HandoffExit(running.value.address, Handoff32);
        } else {
          HandoffExit(running.value.address, Handoff64);
        }
      } else {
        HandoffExit(0, NoHandoff);
      }
    }

    /** How a handoff ends: with the releases due and then the exit due, for a table that can be started, or
        with a beginning of the releases. */
    ghost predicate HandedOff(was: seq<Event>, now: seq<Event>, table: seq<HandoffValue>, vector: bv32,
                              status: HandoffStatus)
    {
      var all := Releases(table, platform.runningCpu, vector);
      if status == Exited then
        now == was + all + [Leaving(table, platform.runningCpu)] && AllStartable(table)
      else
        was <= now <= was + all
    }

    lemma NothingStarted(partitionNum: nat)
      requires Valid() && (!jtag ==> partitionNum < |phs|)
      ensures !jtag ==>
                var vector := VectorLocation(phs[partitionNum].attributes);
                forall status :: status != Exited ==> HandedOff(events, events, Table(), vector, status)
    {
      if !jtag {
        var vector := VectorLocation(phs[partitionNum].attributes);
        PrefixBehind(events, [], Releases(Table(), platform.runningCpu, vector));
      }
    }

    method StartAndLeave(vector: bv32) returns (status: HandoffStatus)
      requires Valid()
      modifies this`events, this`attemptFailed
      ensures attemptFailed <==> old(attemptFailed) || StartFails(status)
      ensures status == Exited || StartFails(status) || (Refuses(status) && !AllStartable(Table()))
      ensures HandedOff(old(events), events, Table(), vector, status)
    {
      hide Releases, Lookup, AllStartable, Sound, Dealt, LeavingFor;
      var running;
      status, running := StartAll(vector);
      if status == Exited {
        AllDealt(old(events), vector, running);
        Leave(running);
      }
    }

    /** Power management and protection, which are left alone when only the application CPUs were reset. */
    method SetUpProtection() returns (failure: Option<HandoffStatus>)
      modifies this`attemptFailed
      ensures failure.None? || failure == Some(PmInitFailed) || failure == Some(ProtectionFailed)
      ensures attemptFailed <==> old(attemptFailed) || failure.Some?
      ensures platform.apuOnlyReset ==> failure.None?
    {
      if !platform.apuOnlyReset {
        var ok := Attempt();
        if !ok {
          return Some(PmInitFailed);
        }
        ok := Attempt();
        if !ok {
          return Some(ProtectionFailed);
        }
      }
      return None;
    }

    predicate LeftToDebugger(was: seq<Event>, now: seq<Event>) {
      now == was + [Left(0xFFFC_0000, Handoff64)] || now == was + [Left(0, NoHandoff)]
    }

    /** With a debugger attached the loader leaves without starting anything. */
    method JtagExit()
      modifies this`events
      ensures LeftToDebugger(old(events), events)
    {
      var known := *;
      if known {
        HandoffExit(0xFFFC_0000, Handoff64);
      } else {
        HandoffExit(0, NoHandoff);
      }
    }

    /** The final handoff. It succeeds unless something attempted fails or an entry of the table cannot be
        started. */
    method Handoff(partitionNum: nat) returns (status: HandoffStatus)
      requires Valid() && (!jtag ==> partitionNum < |phs|)
      modifies this`events, this`attemptFailed
      ensures attemptFailed <==> old(attemptFailed) || AttemptFails(status)
      ensures platform.apuOnlyReset ==> status != PmInitFailed && status != ProtectionFailed
      ensures status == Exited || AttemptFails(status) || (!jtag && Refuses(status) && !AllStartable(Table()))
      ensures !jtag ==>
                HandedOff(old(events), events, Table(), VectorLocation(phs[partitionNum].attributes), status)
      ensures jtag && status == Exited ==> LeftToDebugger(old(events), events)
      ensures jtag && status != Exited ==> events == old(events)
    {
      hide HandedOff, AllStartable, LeftToDebugger, VectorLocation, Fsbl.Valid, Fsbl.Table;
      NothingStarted(partitionNum);
      var failure := SetUpProtection();
      if failure.Some? {
        return failure.value;
      }
      if jtag {
        JtagExit();
        return Exited;
      }
      var ok := Attempt();
      if !ok {
        return HookFailed;
      }
      status := StartAndLeave(VectorLocation(phs[partitionNum].attributes));
    }

    /** What the loader has of the image: the headers that were copied, as many as the table says, from the
        chain of addresses that begins where the table says. */
    ghost predicate ImageRead()
      reads this, reader
    {
      && TableIsRight(reader.table) && reader.tableFrom == Wrap(imageOffset + tableOffset)
      && phs == reader.headers && |phs| == reader.table.noOfPartitions && 2 <= |phs| <= 32
      && Chained(reader.copied, phs, imageOffset, reader.table.partitionHeaderAddress)
    }

    /** Boot device and image header. */
    method BootDeviceInitAndValidate() returns (status: InitStatus)
      requires Valid() && reader.Fresh()
      modifies this`phs, this`attemptFailed, reader, reader.entry
      ensures Valid() && Table() == old(Table())
      ensures status == Jtag <==> jtag
      ensures !jtag && !old(attemptFailed) ==>
                (status == InitOk <==> !attemptFailed && !reader.copyFailed && TableIsRight(reader.table))
      ensures status == InitOk ==> ImageRead()
    {
      if jtag {
        return Jtag;
      }
      var ok := Attempt();
      if !ok {
        return InitFailed;
      }
      var imageStatus, headers := reader.ReadImageHeader(imageOffset, tableOffset, platform.runningCpu);
      phs := headers;
      status := if imageStatus == ImageOk then InitOk else InitFailed;
    }

    /** Stage 3 for one partition. */
    method LoadStage(partitionNum: nat) returns (ok: bool)
      requires Valid() && 1 <= partitionNum < |phs| && events == Loads(partitionNum)
      requires LoadsValid(phs, partitionNum, platform) && Table() == TableAfter(phs, partitionNum, platform)
      modifies this`handoffCpuNo, handoffValues, this`events, this`attemptFailed
      ensures Valid()
      ensures !old(attemptFailed) ==> (ok <==> !attemptFailed && Loadable(phs[partitionNum]))
      ensures ok ==>
                && events == Loads(partitionNum + 1)
                && LoadsValid(phs, partitionNum + 1, platform) && Table() == TableAfter(phs, partitionNum + 1, platform)
      ensures !ok ==> events == Loads(partitionNum) + [Loaded(partitionNum, false)]
    {
      var status := PartitionLoad(partitionNum);
      ok := status == LoadOk;
      events := events + [Loaded(partitionNum, ok)];
    }

    /** What a run needs to end well: nothing that is attempted fails, the image header table is right, every
        partition but the first is accepted or passed over, and every CPU of the table can be started. */
    ghost predicate CanBoot()
      reads this, reader
    {
      && !attemptFailed && !reader.copyFailed && TableIsRight(reader.table)
      && (forall k :: 1 <= k < |phs| ==> Loadable(phs[k])) && AllStartable(TableAfter(phs, |phs|, platform))
    }

    /** What it takes to start a CPU, or to leave for it: the partition that decides about it, if there is one,
        is for a CPU that is fitted, or for the running one in the execution state it is in. */
    ghost predicate CpuStarts(cpu: bv32)
      reads this
    {
      var first := FirstFor(phs, |phs|, cpu, platform);
      first.Some? ==>
        if cpu == platform.runningCpu then
          var exec := phs[first.value].attributes & 0x8;
          (a53ExecState == 0x0 ==> exec == 0x0) && (a53ExecState == 0x8 ==> exec == 0x8)
        else
          supported(cpu)
    }

    lemma ValueStarts(ph: PartitionHeader)
      requires CpuOf(ph, platform) in Cpus()
      ensures Startable(ValueOf(ph, platform)) <==>
                if CpuOf(ph, platform) == platform.runningCpu then
                  var exec := ph.attributes & 0x8;
                  (a53ExecState == 0x0 ==> exec == 0x0) && (a53ExecState == 0x8 ==> exec == 0x8)
                else supported(CpuOf(ph, platform))
    {
      ValueCpu(ph, platform);
      hide ValueOf, CpuOf, Cpus;
    }

    lemma LoadableIsValid(k: nat)
      requires Known(platform) && k < |phs| && Loadable(phs[k]) && Counts(phs[k], platform)
      ensures CpuOf(phs[k], platform) in Cpus()
    {
      HandledIfOk(phs[k]);
      CpuIsValid(phs[k]);
    }

    lemma CpuStartsIs(cpu: bv32)
      requires Known(platform) && forall k :: 1 <= k < |phs| ==> Loadable(phs[k])
      ensures var table := TableAfter(phs, |phs|, platform);
              && Sound(table)
              && (CpuStarts(cpu) <==> var v := Lookup(table, cpu); v.Some? ==> Startable(v.value))
    {
      forall i | 1 <= i < |phs| && Counts(phs[i], platform) ensures CpuOf(phs[i], platform) in Cpus() {
        LoadableIsValid(i);
      }
      hide Loadable;
      TableSound(phs, |phs|, platform);
      TableHasFirsts(phs, |phs|, cpu, platform);
      FirstIsFirst(phs, |phs|, cpu, platform);
      var first := FirstFor(phs, |phs|, cpu, platform);
      if first.Some? {
        ValueStarts(phs[first.value]);
      }
      hide Sound, TableAfter, FirstFor, Lookup, Startable, CpuOf, ValueOf, Counts, Cpus;
    }

    /** In terms of the headers alone: a run ends well if nothing that is attempted fails, the image header
        table is right, every partition is accepted or passed over, and for every CPU the first partition
        that counts for it can be started. */
    lemma CanBootExactly()
      requires Known(platform)
      ensures CanBoot() <==>
                && !attemptFailed && !reader.copyFailed && TableIsRight(reader.table)
                && (forall k :: 1 <= k < |phs| ==> Loadable(phs[k]))
                && (forall cpu :: CpuStarts(cpu))
    {
      hide Loadable, CpuStarts, Startable, TableAfter, TableIsRight;
      if forall k :: 1 <= k < |phs| ==> Loadable(phs[k]) {
        var table := TableAfter(phs, |phs|, platform);
        forall cpu ensures CpuStarts(cpu) <==> var v := Lookup(table, cpu); v.Some? ==> Startable(v.value) {
          CpuStartsIs(cpu);
        }
        CpuStartsIs(0);
        forall cpu ensures var v := Lookup(table, cpu); v.Some? ==> v.value in table {
          LookupFinds(table, cpu);
        }
        forall i: nat | i < |table| ensures Lookup(table, CpuId(table[i])) == Some(table[i]) {
          LookupOwn(table, i);
        }
        hide Lookup, Sound, CpuId;
        if forall cpu :: CpuStarts(cpu) {
          forall i: nat | i < |table| ensures Startable(table[i]) {
            assert CpuStarts(CpuId(table[i]));
          }
        }
      }
    }

    /** The first `k - 1` partitions after the loader's own have been loaded. */
    ghost predicate Loading(k: nat)
      reads this, handoffValues, reader
      requires Valid()
    {
      && ImageRead() && k <= |phs| && events == Loads(k)
      && LoadsValid(phs, k, platform) && Table() == TableAfter(phs, k, platform)
      && (forall i :: 1 <= i < k ==> Loadable(phs[i]))
    }

    /** The whole run, without a debugger attached: it ends, and well exactly if it can. */
    method Run() returns (exited: bool)
      requires Valid() && AtStart() && !jtag
      modifies this, handoffValues, reader, reader.entry
      ensures exited <==> CanBoot()
      ensures exited ==> GoodRun(events, phs, platform) && ImageRead()
      ensures !exited ==> FailedRun(events, phs, platform)
    {
      var stage, partitionNum := STAGE_1, 0;
      FailsAtOnce();
      hide FailedRun, Loads, LoadsValid, TableAfter, Releases, Leaving, Sound, AllStartable, Chained, TableIsRight;
      hide Fsbl.Loadable;
      while stage <= STAGE_DEFAULT
        invariant Valid() && STAGE_1 <= stage <= STAGE_ERR
        invariant stage <= STAGE_4 ==> !attemptFailed
        invariant stage <= STAGE_2 ==> events == [] && Table() == [] && reader.Fresh()
        invariant stage == STAGE_3 || stage == STAGE_4 ==> !reader.copyFailed
        invariant stage == STAGE_3 ==> 1 <= partitionNum < |phs| && Loading(partitionNum)
        invariant stage == STAGE_4 ==> partitionNum == |phs| - 1 && Loading(|phs|)
        invariant stage == STAGE_ERR ==> FailedRun(events + [LockedDown], phs, platform) && !CanBoot()
        decreases STAGE_DEFAULT - stage, if stage == STAGE_3 then |phs| - partitionNum else 0
      {
        match stage {
          case 1 =>
            var ok := Attempt();
            stage := if ok then STAGE_2 else STAGE_ERR;
          case 2 =>
            var status := BootDeviceInitAndValidate();
            if status == InitOk {
              StartOfLoads(phs, platform);
              partitionNum := 1;
              stage := STAGE_3;
            } else {
              stage := STAGE_ERR;
            }
          case 3 =>
            var ok := LoadStage(partitionNum);
            if !ok {
              LoadFails(phs, partitionNum, platform);
              stage := STAGE_ERR;
            } else if partitionNum < |phs| - 1 {
              partitionNum := partitionNum + 1;
            } else {
              stage := STAGE_4;
            }
          case 4 =>
            var status := Handoff(partitionNum);
            if status == Exited {
              return true;
            }
            HandoffFails(events, phs, platform);
            stage := STAGE_ERR;
          case _ =>
            events := events + [LockedDown];
            return false;
        }
      }
      return false;
    }
  }
}
