/**
 The image header: word checksums, the partition attributes, the checks on headers, and the
 parameter block that tells the ARM Trusted Firmware what to start.
 */
module ImageHeader {
  import opened Words

  type u64 = x: nat | x < 0x1_0000_0000_0000_0000

  const MIN_PARTITIONS: nat := 1
  const MAX_PARTITIONS: nat := 32
  const MAX_ENTRIES_FOR_ATF: nat := 8

  // ---- Checksums ----

  function Sum(words: seq<u32>): nat {
    if words == [] then 0 else Sum(words[..|words| - 1]) + words[|words| - 1]
  }

  /** The last word is the complement of the wrapping sum of the others, which is to say that all
      of them together sum to all ones. */
  predicate SumsToOnes(words: seq<u32>) {
    |words| >= 2 && Wrap(Sum(words)) == 0xFFFF_FFFF
  }

  method ValidateChecksum(buffer: array<u32>, length: nat) returns (ok: bool)
    requires length <= buffer.Length
    ensures ok <==> SumsToOnes(buffer[..length])
    ensures ok <==> length >= 2 && buffer[length - 1] == 0xFFFF_FFFF - Wrap(Sum(buffer[..length - 1]))
  {
    if length < 2 {
      return false;
    }
    var checksum: u32, count := 0, 0;
    while count < length - 1
      invariant count <= length - 1 && checksum == Wrap(Sum(buffer[..count]))
    {
      assert buffer[..count + 1][..count] == buffer[..count];
      WrapAdd(Sum(buffer[..count]), buffer[count]);
      checksum := Wrap(checksum + buffer[count]);
      count := count + 1;
    }
    assert buffer[..length][..length - 1] == buffer[..length - 1];
    WrapAdd(Sum(buffer[..length - 1]), buffer[length - 1]);
    checksum := 0xFFFF_FFFF - checksum;
    ok := buffer[length - 1] == checksum;
  }

  lemma WrapAdd(a: nat, b: nat)
    ensures Wrap(Wrap(a) + b) == Wrap(a + b)
  {
  }

  /** A header is accepted for its last word, which is the complement of the sum of the others. */
  lemma ComplementOfSum(words: seq<u32>)
    ensures SumsToOnes(words) <==>
              |words| >= 2 && words[|words| - 1] == 0xFFFF_FFFF - Wrap(Sum(words[..|words| - 1]))
  {
    if |words| >= 2 {
      var last := |words| - 1;
      WrapAdd(Sum(words[..last]), words[last]);
    }
  }

  lemma {:induction false} SumUpdate(words: seq<u32>, i: nat, w: u32)
    requires i < |words|
    ensures Sum(words[i := w]) == Sum(words) - words[i] + w
    decreases |words|
  {
    var last := |words| - 1;
    if i == last {
      assert words[i := w][..last] == words[..last];
    } else {
      assert words[i := w][..last] == words[..last][i := w];
      SumUpdate(words[..last], i, w);
    }
  }

  /** No single word of an accepted header can be changed unnoticed. */
  lemma OneWordChanged(words: seq<u32>, i: nat, w: u32)
    requires SumsToOnes(words) && i < |words| && w != words[i]
    ensures !SumsToOnes(words[i := w])
  {
    SumUpdate(words, i, w);
  }

  // ---- Partition headers ----

  /** A partition header: its sixteen words as checksummed, and the fields they hold. */
  datatype PartitionHeader = PartitionHeader(
    words: seq<u32>,
    encryptedLength: u32, unEncryptedLength: u32, totalLength: u32, nextOffset: u32,
    execAddress: u64, loadAddress: u64, attributes: bv32)

  const CPU_MASK: bv32 := 0xF00
  const CPU_NONE: bv32 := 0x000
  const A53_0: bv32 := 0x100
  const A53_1: bv32 := 0x200
  const A53_2: bv32 := 0x300
  const A53_3: bv32 := 0x400
  const R5_0: bv32 := 0x500
  const R5_1: bv32 := 0x600
  const R5_L: bv32 := 0x700
  const PMU: bv32 := 0x800

  const DEVICE_PL: bv32 := 0x20
  const DEVICE_PMU: bv32 := 0x30
  const EXEC_ST_MASK: bv32 := 0x8

  function DestinationCpu(attributes: bv32): bv32 {
    attributes & CPU_MASK
  }

  function DestinationDevice(attributes: bv32): bv32 {
    attributes & 0x70
  }

  function ExecState(attributes: bv32): bv32 {
    attributes & EXEC_ST_MASK
  }

  function ChecksumType(attributes: bv32): bv32 {
    attributes & 0x7000
  }

  predicate IsEncrypted(attributes: bv32) {
    attributes & 0x80 == 0x80
  }

  predicate IsAuthenticated(attributes: bv32) {
    attributes & 0x8000 == 0x8000
  }

  predicate OwnedByFsbl(attributes: bv32) {
    attributes & 0x30000 == 0
  }

  /** The fields of an attribute word, from the top, and the word they make. */
  datatype Attributes = Attributes(
    reserved: bv8, vector: bv1, block: bv3, endian: bv1, owner: bv2, signed: bv1, checksum: bv3, cpu: bv4,
    encrypted: bv1, device: bv3, exec: bv1, level: bv2, secure: bv1)
  {
    function Word(): bv32 {
      (reserved as bv32 << 24) | (vector as bv32 << 23) | (block as bv32 << 20) | (endian as bv32 << 18)
      | (owner as bv32 << 16) | (signed as bv32 << 15) | (checksum as bv32 << 12) | (cpu as bv32 << 8)
      | (encrypted as bv32 << 7) | (device as bv32 << 4) | (exec as bv32 << 3) | (level as bv32 << 1) | (secure as bv32)
    }
  }

  /** Every field reads back from its word, and every name stands for its number. */
  lemma FieldsReadBack(a: Attributes)
    ensures var w := a.Word();
            && DestinationCpu(w) == (a.cpu as bv32) << 8
            && DestinationDevice(w) == (a.device as bv32) << 4
            && ExecState(w) == (a.exec as bv32) << 3
            && ChecksumType(w) == (a.checksum as bv32) << 12
            && (IsEncrypted(w) <==> a.encrypted == 1) && (IsAuthenticated(w) <==> a.signed == 1)
            && (OwnedByFsbl(w) <==> a.owner == 0)
            && (DestinationDevice(w) == DEVICE_PL <==> a.device == 2)
            && (DestinationDevice(w) <= DEVICE_PMU <==> a.device <= 3)
  {
  }

  /** The CPUs by number: none, the four A53, the two R5, both R5 in lock-step, the PMU. */
  lemma CpuNames(a: Attributes)
    ensures var cpu := DestinationCpu(a.Word());
            && (cpu == CPU_NONE <==> a.cpu == 0) && (IsA53(cpu) <==> 1 <= a.cpu <= 4)
            && (cpu == A53_0 <==> a.cpu == 1) && (cpu == A53_1 <==> a.cpu == 2)
            && (cpu == A53_2 <==> a.cpu == 3) && (cpu == A53_3 <==> a.cpu == 4)
            && (cpu == R5_0 <==> a.cpu == 5) && (cpu == R5_1 <==> a.cpu == 6)
            && (cpu == R5_L <==> a.cpu == 7) && (cpu == PMU <==> a.cpu == 8)
  {
  }

  /** A partition that names no CPU is for the one that runs the loader. */
  function ResolvedCpu(attributes: bv32, runningCpu: bv32): bv32 {
    if DestinationCpu(attributes) == CPU_NONE then runningCpu else DestinationCpu(attributes)
  }

  predicate IsA53(cpu: bv32) {
    A53_0 <= cpu <= A53_3
  }

  // ---- The checks on a partition header ----

  datatype HeaderStatus =
    | HeaderOk
    | NotPartitionOwner
    | ChecksumFailed
    | XipAuthEncPresent
    | XipExecAddress
    | PartitionLength
    | BadAddress
    | InvalidChecksumType
    | InvalidCpuType
    | LockstepCpuType
    | InvalidDestDevice

  const QSPI_LINEAR_START: nat := 0xC000_0000
  const QSPI_LINEAR_END: nat := 0xDFFF_FFFF

  function CheckXip(ph: PartitionHeader): HeaderStatus {
    if ph.unEncryptedLength != 0 then HeaderOk
    else if IsAuthenticated(ph.attributes) || IsEncrypted(ph.attributes) then XipAuthEncPresent
    else if ph.execAddress < QSPI_LINEAR_START || ph.execAddress > QSPI_LINEAR_END then XipExecAddress
    else HeaderOk
  }

  function CheckLengths(ph: PartitionHeader): HeaderStatus {
    var a, e := IsAuthenticated(ph.attributes), IsEncrypted(ph.attributes);
    var plain, cipher, total := ph.unEncryptedLength, ph.encryptedLength, ph.totalLength;
    if !a && !e && (plain != cipher || cipher != total) then PartitionLength
    else if a && !e && (plain != cipher || cipher >= total) then PartitionLength
    else if !a && e && (plain >= cipher || cipher != total) then PartitionLength
    else if a && e && (plain >= cipher || cipher >= total) then PartitionLength
    else HeaderOk
  }

  /** Which address ranges exist depends on the board: `addressOk(address, cpu, device)`. */
  function CheckTarget(ph: PartitionHeader, runningCpu: bv32, addressOk: (u64, bv32, bv32) -> bool): HeaderStatus {
    var cpu, device := ResolvedCpu(ph.attributes, runningCpu), DestinationDevice(ph.attributes);
    if !addressOk(ph.loadAddress, cpu, device) then BadAddress
    else if (runningCpu == R5_0 || runningCpu == R5_L) && cpu in {A53_0, A53_1, A53_2, A53_3}
            && ph.loadAddress < 0x80000 then BadAddress
    else if ChecksumType(ph.attributes) !in {0, 0x1000, 0x3000} then InvalidChecksumType
    else if cpu > PMU then InvalidCpuType
    else if (cpu == R5_0 || cpu == R5_1) && runningCpu == R5_L then LockstepCpuType
    else if cpu == R5_L && runningCpu == R5_0 then LockstepCpuType
    else if device > DEVICE_PMU then InvalidDestDevice
    else HeaderOk
  }

  function ValidatePartitionHeader(ph: PartitionHeader, runningCpu: bv32, apuOnlyReset: bool,
                                   addressOk: (u64, bv32, bv32) -> bool): HeaderStatus
  {
    if apuOnlyReset && !IsA53(DestinationCpu(ph.attributes)) then NotPartitionOwner
    else if CheckXip(ph) != HeaderOk then CheckXip(ph)
    else if CheckLengths(ph) != HeaderOk then CheckLengths(ph)
    else CheckTarget(ph, runningCpu, addressOk)
  }

  function PartitionHeaderValidation(ph: PartitionHeader, runningCpu: bv32, apuOnlyReset: bool,
                                     addressOk: (u64, bv32, bv32) -> bool): HeaderStatus
  {
    if !SumsToOnes(ph.words) then ChecksumFailed
    else if !OwnedByFsbl(ph.attributes) then NotPartitionOwner
    else ValidatePartitionHeader(ph, runningCpu, apuOnlyReset, addressOk)
  }

  /** The CPUs that a partition can be for. */
  function Cpus(): set<bv32> {
    {A53_0, A53_1, A53_2, A53_3, R5_0, R5_1, R5_L, PMU}
  }

  lemma CpuFields(attributes: bv32)
    ensures DestinationCpu(attributes) <= PMU ==>
              DestinationCpu(attributes) == CPU_NONE || DestinationCpu(attributes) in Cpus()
  {
    var f := (attributes >> 8) & 0xF;
    assert DestinationCpu(attributes) == f << 8;
  }

  /** A partition that gets through the checks is for one of the eight CPUs. */
  lemma ValidCpu(ph: PartitionHeader, runningCpu: bv32, apuOnlyReset: bool, addressOk: (u64, bv32, bv32) -> bool)
    requires runningCpu in Cpus()
    requires PartitionHeaderValidation(ph, runningCpu, apuOnlyReset, addressOk) == HeaderOk
    ensures ResolvedCpu(ph.attributes, runningCpu) in Cpus()
  {
    CpuFields(ph.attributes);
  }

  /** What it takes to get through. */
  lemma AcceptedHeader(ph: PartitionHeader, runningCpu: bv32, apuOnlyReset: bool, addressOk: (u64, bv32, bv32) -> bool)
    ensures PartitionHeaderValidation(ph, runningCpu, apuOnlyReset, addressOk) == HeaderOk <==>
              var a, e := IsAuthenticated(ph.attributes), IsEncrypted(ph.attributes);
              var cpu, device := ResolvedCpu(ph.attributes, runningCpu), DestinationDevice(ph.attributes);
              && SumsToOnes(ph.words) && OwnedByFsbl(ph.attributes)
              && (apuOnlyReset ==> IsA53(DestinationCpu(ph.attributes)))
              && (if e then ph.unEncryptedLength < ph.encryptedLength else ph.unEncryptedLength == ph.encryptedLength)
              && (if a then ph.encryptedLength < ph.totalLength else ph.encryptedLength == ph.totalLength)
              && (ph.unEncryptedLength == 0 ==> !a && !e && 0xC000_0000 <= ph.execAddress <= 0xDFFF_FFFF)
              && addressOk(ph.loadAddress, cpu, device)
              && ((runningCpu == R5_0 || runningCpu == R5_L) && cpu in {A53_0, A53_1, A53_2, A53_3} ==>
                    ph.loadAddress >= 0x80000)
              && ChecksumType(ph.attributes) in {0, 0x1000, 0x3000}
              && cpu <= PMU && device <= DEVICE_PMU
              && !((cpu == R5_0 || cpu == R5_1) && runningCpu == R5_L) && !(cpu == R5_L && runningCpu == R5_0)
  {
    hide SumsToOnes;
  }

  /** What it takes to be passed over: the checksum is right, and another owner is named, or, when only
      the application CPUs were reset, no A53. */
  lemma PassedOver(ph: PartitionHeader, runningCpu: bv32, apuOnlyReset: bool, addressOk: (u64, bv32, bv32) -> bool)
    ensures PartitionHeaderValidation(ph, runningCpu, apuOnlyReset, addressOk) == NotPartitionOwner <==>
              && SumsToOnes(ph.words)
              && (ph.attributes & 0x30000 != 0
                  || (apuOnlyReset && ph.attributes & 0xF00 !in {0x100, 0x200, 0x300, 0x400}))
  {
    OnlyFourA53(ph.attributes);
    hide SumsToOnes, IsA53, DestinationCpu;
  }

  lemma OnlyFourA53(attributes: bv32)
    ensures IsA53(DestinationCpu(attributes)) <==> attributes & 0xF00 in {0x100, 0x200, 0x300, 0x400}
  {
  }

  // ---- The parameter block for the ARM Trusted Firmware ----

  datatype AtfEntry = AtfEntry(entryPoint: u64, flags: bv32)

  function AtfCpu(attributes: bv32): bv32 {
    if DestinationCpu(attributes) == A53_0 then 0x00
    else if DestinationCpu(attributes) == A53_1 then 0x20
    else if DestinationCpu(attributes) == A53_2 then 0x40
    else 0x60
  }

  /** The attribute fields, moved to where the firmware expects them, beside the CPU. */
  function Flags(attributes: bv32, cpu: bv32): bv32 {
    ((attributes & 0x8) >> 3) | ((attributes & 0x40000) >> 17) | ((attributes & 0x1) << 2) | ((attributes & 0x6) << 2)
    | cpu
  }

  function AtfFlags(attributes: bv32): bv32 {
    Flags(attributes, AtfCpu(attributes))
  }

  /** The fields first, then the CPU. */
  lemma AtfFlagWord(attributes: bv32, fields: bv32, flags: bv32)
    requires fields == ((attributes & 0x8) >> 3) | ((attributes & 0x40000) >> 17)
                       | ((attributes & 0x1) << 2) | ((attributes & 0x6) << 2)
    requires flags == fields | AtfCpu(attributes)
    ensures flags == AtfFlags(attributes)
  {
    hide AtfCpu;
  }

  /** The CPU that the firmware reads from the flags. */
  function CpuOfFlags(flags: bv32): bv32 {
    (((flags & 0x60) >> 5) + 1) << 8
  }

  lemma FieldsOfFlags(attributes: bv32, cpu: bv32)
    requires cpu & 0x60 == cpu
    ensures var flags := Flags(attributes, cpu);
            && (flags & 0x1) << 3 == ExecState(attributes)
            && (flags & 0x2) << 17 == attributes & 0x40000
            && (flags & 0x4) >> 2 == attributes & 0x1
            && (flags & 0x18) >> 2 == attributes & 0x6
            && flags & 0x60 == cpu
  {
  }

  lemma CpusOfFlags(attributes: bv32)
    ensures var cpu := AtfCpu(attributes);
            && cpu & 0x60 == cpu
            && (CpuOfFlags(cpu) == DestinationCpu(attributes) <==> IsA53(DestinationCpu(attributes)))
  {
  }

  lemma OnlyCpuBits(flags: bv32, cpu: bv32)
    requires flags & 0x60 == cpu && cpu & 0x60 == cpu
    ensures CpuOfFlags(flags) == CpuOfFlags(cpu)
  {
  }

  /** The flags decode to the execution state, endianness, security and exception level of the
      partition, whatever it is for. */
  lemma FlagsDecode(attributes: bv32)
    ensures var flags := AtfFlags(attributes);
            && (flags & 0x1) << 3 == ExecState(attributes)
            && (flags & 0x2) << 17 == attributes & 0x40000
            && (flags & 0x4) >> 2 == attributes & 0x1
            && (flags & 0x18) >> 2 == attributes & 0x6
            && flags & 0x60 == AtfCpu(attributes)
  {
    CpusOfFlags(attributes);
    hide CpuOfFlags, AtfCpu, DestinationCpu, IsA53, Flags, ExecState;
    FieldsOfFlags(attributes, AtfCpu(attributes));
  }

  /** They decode to its CPU exactly when it names an A53. */
  lemma CpuDecodes(attributes: bv32)
    ensures CpuOfFlags(AtfFlags(attributes)) == DestinationCpu(attributes) <==> IsA53(DestinationCpu(attributes))
  {
    CpusOfFlags(attributes);
    FlagsDecode(attributes);
    hide AtfFlags, AtfCpu, DestinationCpu, IsA53;
    OnlyCpuBits(AtfFlags(attributes), AtfCpu(attributes));
  }

  /** Whether the firmware is to start this partition, at this index of the image. */
  predicate Qualifies(ph: PartitionHeader, index: nat, runningCpu: bv32) {
    && index > 1
    && ph.execAddress != 0
    && IsA53(ResolvedCpu(ph.attributes, runningCpu))
  }

  /** From the third partition on those with an execution address that are for an A53, by name or because
      the loader runs on one. */
  lemma WhoIsListed(ph: PartitionHeader, index: nat, runningCpu: bv32)
    ensures Qualifies(ph, index, runningCpu) <==>
              && index >= 2 && ph.execAddress != 0
              && (ph.attributes & 0xF00 in {0x100, 0x200, 0x300, 0x400}
                  || (ph.attributes & 0xF00 == 0 && 0x100 <= runningCpu <= 0x400))
  {
    OnlyFourA53(ph.attributes);
  }

  /** For a partition that is listed, the flags name the CPU it will run on exactly when it names
      one itself, or the loader runs on the last A53. */
  lemma ListedCpu(ph: PartitionHeader, index: nat, runningCpu: bv32)
    requires Qualifies(ph, index, runningCpu)
    ensures CpuOfFlags(AtfFlags(ph.attributes)) == ResolvedCpu(ph.attributes, runningCpu)
            <==> DestinationCpu(ph.attributes) != CPU_NONE || runningCpu == A53_3
  {
    var a := ph.attributes;
    CpuDecodes(a);
    FlagsDecode(a);
    CpusOfFlags(a);
    OnlyCpuBits(AtfFlags(a), AtfCpu(a));
    hide AtfFlags, ExecState;
    if DestinationCpu(a) == CPU_NONE {
      assert AtfCpu(a) == 0x60;
      hide DestinationCpu;
    }
  }

  function EntryOf(ph: PartitionHeader): AtfEntry {
    AtfEntry(ph.execAddress, AtfFlags(ph.attributes))
  }

  /** The entries of all the partitions that qualify, in image order. */
  function Qualifying(phs: seq<PartitionHeader>, runningCpu: bv32): seq<AtfEntry> {
    if phs == [] then []
    else
      var before := Qualifying(phs[..|phs| - 1], runningCpu);
      var last := phs[|phs| - 1];
      if Qualifies(last, |phs| - 1, runningCpu) then before + [EntryOf(last)] else before
  }

  // ---- Reading the image header ----

  datatype ImageStatus =
    | ImageOk
    | CopyFailed
    | TableChecksumFailed
    | BadPresentDevice
    | SecondaryBootMode
    | BadPartitionCount

  datatype ImageHeaderTable = ImageHeaderTable(
    words: seq<u32>, noOfPartitions: u32, partitionHeaderAddress: u32, partitionPresentDevice: u32)

  function ValidateImageHeaderTable(t: ImageHeaderTable): ImageStatus {
    if !SumsToOnes(t.words) then TableChecksumFailed
    else if t.partitionPresentDevice > 0xB then BadPresentDevice
    else if t.partitionPresentDevice != 0 then SecondaryBootMode
    else if t.noOfPartitions <= MIN_PARTITIONS || t.noOfPartitions > MAX_PARTITIONS then BadPartitionCount
    else ImageOk
  }

  /** A table that is used: its last word is the complement of the sum of the others, the partitions are on
      the same device, and there are 2 to 32 of them. */
  predicate TableIsRight(t: ImageHeaderTable) {
    && |t.words| >= 2 && t.words[|t.words| - 1] == 0xFFFF_FFFF - Wrap(Sum(t.words[..|t.words| - 1]))
    && t.partitionPresentDevice == 0
    && 2 <= t.noOfPartitions <= 32
  }

  lemma RightTable(t: ImageHeaderTable)
    ensures ValidateImageHeaderTable(t) == ImageOk <==> TableIsRight(t)
  {
    ComplementOfSum(t.words);
  }

  /** Where header `k` is: the one before tells. */
  function HeaderAddress(phs: seq<PartitionHeader>, k: nat, base: nat, first: u32): u32
    requires k <= |phs|
  {
    Wrap(base + Wrap(4 * if k == 0 then first else phs[k - 1].nextOffset))
  }

  ghost predicate Chained(from: seq<u32>, phs: seq<PartitionHeader>, base: nat, first: u32) {
    && |from| == |phs|
    && (forall k :: 0 <= k < |phs| ==> from[k] == HeaderAddress(phs, k, base, first))
  }

  lemma ChainedNext(from: seq<u32>, phs: seq<PartitionHeader>, base: nat, first: u32, ph: PartitionHeader)
    requires Chained(from, phs, base, first)
    ensures Chained(from + [HeaderAddress(phs, |phs|, base, first)], phs + [ph], base, first)
  {
  }

  /** An offset counts words of four bytes from the beginning of the image, with 32-bit wrap-around. */
  lemma ChainedInWords(from: seq<u32>, phs: seq<PartitionHeader>, base: nat, first: u32, k: nat)
    requires Chained(from, phs, base, first) && k < |phs|
    ensures var words := if k == 0 then first else phs[k - 1].nextOffset;
            from[k] == (base + words + words + words + words) % 0x1_0000_0000
  {
    WrapAdd(4 * if k == 0 then first else phs[k - 1].nextOffset, base);
  }

  lemma QualifyingNext(phs: seq<PartitionHeader>, ph: PartitionHeader, runningCpu: bv32)
    ensures Qualifying(phs + [ph], runningCpu)
            == if Qualifies(ph, |phs|, runningCpu) then Qualifying(phs, runningCpu) + [EntryOf(ph)]
               else Qualifying(phs, runningCpu)
  {
    assert (phs + [ph])[..|phs|] == phs;
  }

  function Capped(n: nat): nat {
    if n < 8 then n else 8
  }

  class Reader {
    var magic: string
    var numEntries: nat
    const entry: array<AtfEntry>
    // What was copied from the boot device: from where, what it was, and whether a copy has failed.
    var tableFrom: u32
    var table: ImageHeaderTable
    var copied: seq<u32>
    var headers: seq<PartitionHeader>
    var copyFailed: bool

    ghost predicate Valid() {
      entry.Length == MAX_ENTRIES_FOR_ATF
    }

    constructor ()
      ensures Valid() && fresh(entry) && numEntries == 0 && Fresh()
    {
      magic, numEntries := "", 0;
      copied, headers, copyFailed := [], [], false;
      tableFrom, table := 0, ImageHeaderTable([], 0, 0, 0);
      entry := new AtfEntry[MAX_ENTRIES_FOR_ATF](_ => AtfEntry(0, 0));
    }

    /** Nothing has been copied yet. */
    ghost predicate Fresh()
      reads this
    {
      copied == [] && headers == [] && !copyFailed
    }

    /** The block holds `qs`, up to its capacity, and nothing has changed behind them; with nothing
        to hold it is as it was. */
    twostate predicate Holds(qs: seq<AtfEntry>)
      reads this, entry
    {
      var k := Capped(|qs|);
      && entry.Length == MAX_ENTRIES_FOR_ATF
      && (if k == 0 then magic == old(magic) && numEntries == old(numEntries) else magic == "XLNX" && numEntries == k)
      && (forall i :: 0 <= i < MAX_ENTRIES_FOR_ATF ==> entry[i] == if i < k then qs[i] else old(entry[i]))
    }

    method SetATFHandoffParameters(ph: PartitionHeader, entryCount: nat)
      requires Valid() && entryCount < MAX_ENTRIES_FOR_ATF
      modifies this`magic, this`numEntries, entry
      ensures magic == if entryCount == 0 then "XLNX" else old(magic)
      ensures numEntries == entryCount + 1
      ensures forall i :: 0 <= i < MAX_ENTRIES_FOR_ATF ==>
                entry[i] == if i == entryCount then EntryOf(ph) else old(entry[i])
    {
      var flags := ((ph.attributes & 0x8) >> 3) | ((ph.attributes & 0x40000) >> 17)
                   | ((ph.attributes & 0x1) << 2) | ((ph.attributes & 0x6) << 2);
      ghost var fields := flags;
      if ph.attributes & CPU_MASK == A53_0 {
        flags := flags | 0x00;
      } else if ph.attributes & CPU_MASK == A53_1 {
        flags := flags | 0x20;
      } else if ph.attributes & CPU_MASK == A53_2 {
        flags := flags | 0x40;
      } else {
        flags := flags | 0x60;
      }
      AtfFlagWord(ph.attributes, fields, flags);
      hide AtfFlags, AtfCpu, DestinationCpu;
      if entryCount == 0 {
        magic := "XLNX";
      }
      numEntries := entryCount + 1;
      entry[entryCount] := AtfEntry(ph.execAddress, flags);
    }

    /** A copy from the boot device: whatever is there, or a failure. */
    method CopyTable(address: u32) returns (ok: bool)
      modifies this`tableFrom, this`table, this`copyFailed
      ensures tableFrom == address && (copyFailed <==> old(copyFailed) || !ok)
    {
      tableFrom := address;
      ok := *;
      if ok {
        table := *;
      } else {
        copyFailed := true;
      }
    }

    method CopyHeader(address: u32) returns (ok: bool, ph: PartitionHeader)
      modifies this`copied, this`headers, this`copyFailed
      ensures copyFailed <==> old(copyFailed) || !ok
      ensures copied == old(copied) + [address] && headers == if ok then old(headers) + [ph] else old(headers)
    {
      copied := copied + [address];
      ok := *;
      ph := *;
      if ok {
        headers := headers + [ph];
      } else {
        copyFailed := true;
      }
    }

    /** Lists a partition for the firmware, if it qualifies and there is room. */
    method ListPartition(ph: PartitionHeader, index: nat, entryCount: nat, runningCpu: bv32, ghost qs: seq<AtfEntry>)
      returns (entryCount': nat)
      requires Valid() && entryCount == Capped(|qs|)
      requires forall i :: 0 <= i < entryCount ==> entry[i] == qs[i]
      requires entryCount > 0 ==> magic == "XLNX" && numEntries == entryCount
      modifies this`magic, this`numEntries, entry
      ensures var qs' := if Qualifies(ph, index, runningCpu) then qs + [EntryOf(ph)] else qs;
              && entryCount' == Capped(|qs'|)
              && (if entryCount' == 0 then magic == old(magic) && numEntries == old(numEntries)
                  else magic == "XLNX" && numEntries == entryCount')
              && (forall i :: 0 <= i < MAX_ENTRIES_FOR_ATF ==>
                    entry[i] == if i < entryCount' then qs'[i] else old(entry[i]))
    {
      entryCount' := entryCount;
      var destnCpu := if DestinationCpu(ph.attributes) == CPU_NONE then runningCpu else DestinationCpu(ph.attributes);
      if index > 1 && entryCount < MAX_ENTRIES_FOR_ATF && ph.execAddress != 0 && A53_0 <= destnCpu <= A53_3 {
        SetATFHandoffParameters(ph, entryCount);
        entryCount' := entryCount + 1;
      }
    }

    /** The headers of a table that has been read. */
    method ReadHeaders(flashOffset: u32, runningCpu: bv32) returns (status: ImageStatus, phs: seq<PartitionHeader>)
      requires Valid() && Fresh()
      modifies this`magic, this`numEntries, this`copied, this`headers, this`copyFailed, entry
      ensures phs == headers && status == if copyFailed then CopyFailed else ImageOk
      ensures status == ImageOk ==>
                && |phs| == table.noOfPartitions && Chained(copied, phs, flashOffset, table.partitionHeaderAddress)
                && Holds(Qualifying(phs, runningCpu))
    {
      status, phs := ImageOk, [];
      var address := Wrap(table.partitionHeaderAddress * 4);
      ghost var first := table.partitionHeaderAddress;
      var entryCount, index := 0, 0;
      assert Chained(copied, phs, flashOffset, first) && Qualifying([], runningCpu) == [];
      hide Wrap, Qualifying, Qualifies, EntryOf, Chained;
      while index < table.noOfPartitions
        invariant Valid() && index <= table.noOfPartitions && |phs| == index
        invariant !copyFailed && phs == headers
        invariant entryCount == Capped(|Qualifying(phs, runningCpu)|)
        invariant Holds(Qualifying(phs, runningCpu))
        invariant Chained(copied, phs, flashOffset, first)
        invariant Wrap(flashOffset + address) == HeaderAddress(phs, index, flashOffset, first)
      {
        var ok, ph := CopyHeader(Wrap(flashOffset + address));
        if !ok {
          return CopyFailed, phs;
        }
        ChainedNext(copied[..index], phs, flashOffset, first, ph);
        entryCount := ListPartition(ph, index, entryCount, runningCpu, Qualifying(phs, runningCpu));
        QualifyingNext(phs, ph, runningCpu);
        phs := phs + [ph];
        address := Wrap(ph.nextOffset * 4);
        index := index + 1;
      }
    }

    /** Reads the table and the headers it leads to, and succeeds exactly if no copy fails and the table is
        right. Then it has as many headers as the table says, those that were copied, from the chain of
        addresses that begins where the table says; and the block for the firmware lists the first eight
        that qualify, in image order. */
    method ReadImageHeader(flashOffset: u32, tableOffset: u32, runningCpu: bv32)
      returns (status: ImageStatus, phs: seq<PartitionHeader>)
      requires Valid() && Fresh()
      modifies this, entry
      ensures tableFrom == Wrap(flashOffset + tableOffset) && phs == headers
      ensures status == CopyFailed <==> copyFailed
      ensures status == ImageOk <==> !copyFailed && TableIsRight(table)
      ensures status == ImageOk ==>
                && |phs| == table.noOfPartitions && 2 <= |phs| <= 32
                && Chained(copied, phs, flashOffset, table.partitionHeaderAddress)
                && Holds(Qualifying(phs, runningCpu))
    {
      phs := [];
      var ok := CopyTable(Wrap(flashOffset + tableOffset));
      if !ok {
        return CopyFailed, phs;
      }
      status := ValidateImageHeaderTable(table);
      RightTable(table);
      if status != ImageOk {
        return;
      }
      hide TableIsRight;
      status, phs := ReadHeaders(flashOffset, runningCpu);
    }
  }
}
