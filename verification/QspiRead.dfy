/**
 Reading the QSPI flash: one or two chips behind one address space, seen through 3-byte addresses
 and a bank register per chip, or through 4-byte addresses.
 */
module QspiRead {
  import opened Tiling
  import opened Words

  const BANK: nat := 0x100_0000
  const DMA_DATA_TRAN_SIZE: nat := 0x2000_0000

  datatype Mode = Single | Stacked | Parallel
  datatype Make = Micron | Spansion | Macronix | Winbond | Issi
  datatype Select = Lower | Upper | Both
  datatype Status = Success | LengthError | ReadError

  /** One read command that was carried out: the logical range asked for, the chips selected, the
      address bytes sent to them, and what the bank registers of those chips held. */
  datatype Transfer = Transfer(range: Read, sel: Select, command: seq<nat>, banks: seq<nat>)

  function BankStart(x: nat, paired: bool): nat {
    x - (if paired then x % (2 * BANK) else x % BANK)
  }

  lemma LowBitsSplit(x: bv32)
    ensures x as nat == ((x & 0xFF_FFFF) as bv24) as nat + (x & 0xFF00_0000) as nat
  {
  }

  lemma LowBitsOfPairSplit(x: bv32)
    ensures x as nat == ((x & 0x1FF_FFFF) as bv25) as nat + (x & (0xFF00_0000 * 2)) as nat
  {
  }

  lemma OneBankSplit(x: bv32) returns (all: nat, masked: nat, hi: nat, lo: nat)
    ensures all == x as nat && masked == (x & 0xFF00_0000) as nat
    ensures all == lo + masked && masked == hi * 0x100_0000 && lo < 0x100_0000
  {
    LowBitsSplit(x);
    all, masked, hi, lo := x as nat, (x & 0xFF00_0000) as nat, (x >> 24) as nat, ((x & 0xFF_FFFF) as bv24) as nat;
  }

  lemma PairOfBanksSplit(x: bv32) returns (all: nat, masked: nat, hi: nat, lo: nat)
    ensures all == x as nat && masked == (x & (0xFF00_0000 * 2)) as nat
    ensures all == lo + masked && masked == hi * 0x200_0000 && lo < 0x200_0000
  {
    LowBitsOfPairSplit(x);
    all, masked := x as nat, (x & (0xFF00_0000 * 2)) as nat;
    hi, lo := (x >> 25) as nat, ((x & 0x1FF_FFFF) as bv25) as nat;
  }

  lemma BankStartIs(all: nat, hi: nat, lo: nat, paired: bool)
    requires var size := if paired then 0x200_0000 else 0x100_0000; all == lo + hi * size && lo < size
    ensures BankStart(all, paired) == all - lo
  {
  }

  lemma OneBank(x: bv32)
    ensures (x & 0xFF00_0000) as nat == BankStart(x as nat, false)
  {
    hide *;
    var all, masked, hi, lo := OneBankSplit(x);
    BankStartIs(all, hi, lo, false);
  }

  lemma PairOfBanks(x: bv32)
    ensures (x & (0xFF00_0000 * 2)) as nat == BankStart(x as nat, true)
  {
    hide *;
    var all, masked, hi, lo := PairOfBanksSplit(x);
    BankStartIs(all, hi, lo, true);
  }

  /** The bank mask of one chip, and of two chips side by side, where doubling it wraps: masking
      an address gives the beginning of its bank, or of its pair of banks. */
  lemma BankMask(x: bv32)
    ensures (x & 0xFF00_0000) as nat == BankStart(x as nat, false)
    ensures (x & (0xFF00_0000 * 2)) as nat == BankStart(x as nat, true)
  {
    OneBank(x);
    PairOfBanks(x);
  }

  /** A transfer that runs out of the 32-bit addresses runs out of its bank. */
  lemma BankWraps(x: u32, n: nat, paired: bool)
    requires 0 < n <= DMA_DATA_TRAN_SIZE
    ensures BankStart(x, paired) != BankStart(Wrap(x + n), paired) <==> BankStart(x, paired) != BankStart(x + n, paired)
  {
    if x + n >= U32 {
      WrapSmall(x + n - U32);
      assert Wrap(x + n) == Wrap(x + n - U32);
      hide Wrap;
    } else {
      WrapSmall(x + n);
      hide BankStart, Wrap;
    }
  }

  lemma BankRest(x: u32, paired: bool)
    ensures var rest := BankStart(x, paired) + (if paired then 2 * BANK else BANK) - x;
            0 <= rest && Wrap(rest) == rest
  {
    WrapSmall(BankStart(x, paired) + (if paired then 2 * BANK else BANK) - x);
    hide Wrap;
  }

  /** Two addresses with different banks have the end of the first one's bank between them. */
  lemma BankEnd(x: nat, n: nat, paired: bool)
    requires BankStart(x, paired) != BankStart(x + n, paired)
    ensures x < BankStart(x, paired) + (if paired then 2 * BANK else BANK) <= x + n
  {
    if paired {
      var q, q' := x / 0x200_0000, (x + n) / 0x200_0000;
      assert BankStart(x, true) == q * 0x200_0000 && BankStart(x + n, true) == q' * 0x200_0000;
      assert q < q';
    } else {
      var q, q' := x / 0x100_0000, (x + n) / 0x100_0000;
      assert BankStart(x, false) == q * 0x100_0000 && BankStart(x + n, false) == q' * 0x100_0000;
      assert q < q';
    }
  }

  /** The address bytes of a read command, and the address the chip makes of them. */
  function Command24(addr: nat): (r: seq<nat>)
    ensures |r| == 3
  {
    [addr / 0x1_0000 % 256, addr / 0x100 % 256, addr % 256]
  }

  function Command32(addr: nat): (r: seq<nat>)
    ensures |r| == 4
  {
    [addr / 0x100_0000 % 256] + Command24(addr)
  }

  function Decode(bytes: seq<nat>): nat
    requires 3 <= |bytes| <= 4
  {
    if |bytes| == 4 then bytes[0] * 0x100_0000 + Decode(bytes[1..])
    else bytes[0] * 0x1_0000 + bytes[1] * 0x100 + bytes[2]
  }

  lemma CommandsDecode(addr: u32)
    ensures Decode(Command24(addr)) == addr % BANK
    ensures Decode(Command32(addr)) == addr
  {
    assert Command32(addr)[1..] == Command24(addr);
  }

  ghost function Ranges(ts: seq<Transfer>): seq<Read> {
    if ts == [] then [] else [ts[0].range] + Ranges(ts[1..])
  }

  class Qspi {
    const mode: Mode
    const make: Make
    const chipSize: nat
    const chips: seq<seq<byte>>
    var selected: Select
    var banks: seq<nat>
    ghost var log: seq<Transfer>

    /** Whether a command to the chips has ever failed. */
    var failed: bool

    function FlashSize(): nat {
      if mode == Single then chipSize else 2 * chipSize
    }

    function BankSize(): nat {
      if mode == Parallel then 2 * BANK else BANK
    }

    function BankSelectNeeded(): bool {
      FlashSize() > BankSize()
    }

    predicate MakeSelectsBanks() {
      make == Micron || make == Macronix || make == Spansion
    }

    /** Chips hold 8 MB, or whole banks; two of them fit a 32-bit size. */
    predicate ChipSizeKnown() {
      chipSize == BANK / 2 || (0 < chipSize < 128 * BANK && chipSize % BANK == 0)
    }

    ghost predicate Valid()
      reads this
    {
      && ChipSizeKnown()
      && Shaped() && |banks| == 2
      && (!(BankSelectNeeded() && MakeSelectsBanks()) ==> banks == [0, 0])
    }

    /** The flash as one memory. */
    function Logical(a: nat): byte
      requires a < FlashSize() && Shaped()
    {
      match mode
      case Single => chips[0][a]
      case Stacked => if a >= FlashSize() / 2 then chips[1][a - FlashSize() / 2] else chips[0][a]
      case Parallel => chips[a % 2][a / 2]
    }

    function Slice(a: nat, n: nat): (r: seq<byte>)
      requires a + n <= FlashSize() && Shaped()
      ensures |r| == n
    {
      seq(n, i requires 0 <= i < n => Logical(a + i))
    }

    /** Two chips side by side are only addressed in pairs of bytes. */
    function Base(a: nat): nat {
      if mode == Parallel then a - a % 2 else a
    }

    predicate Straddles(src: nat, len: nat) {
      mode == Stacked && src < chipSize < src + len
    }

    ghost predicate FirstBanks(src: nat, len: nat) {
      forall a :: src <= a < src + len ==> ChipAddr(a) < BANK
    }

    /** When the 24-bit reads reach the bytes asked for, or those of the pairs they begin in: the bank
        register can be set if any but the first bank is needed, and the range does not run from one
        8 MB chip into the other. */
    ghost predicate Reachable24(src: nat, len: nat) {
      && (BankSelectNeeded() && !MakeSelectsBanks() ==> FirstBanks(Base(src), len))
      && (chipSize < BANK ==> !Straddles(src, len))
    }

    /** Only an even address is where a read of two chips side by side begins. */
    predicate Begins(src: nat) {
      mode == Parallel ==> src % 2 == 0
    }

    /** When they get every byte from the right place. */
    ghost predicate Readable24(src: nat, len: nat) {
      Reachable24(src, len) && (len > 0 ==> Begins(src))
    }

    function ChipAddr(src: nat): nat {
      match mode
      case Single => src
      case Stacked => if src >= FlashSize() / 2 then src - FlashSize() / 2 else src
      case Parallel => src / 2
    }

    function ChipsFor(src: nat): Select {
      match mode
      case Single => Lower
      case Stacked => if src >= FlashSize() / 2 then Upper else Lower
      case Parallel => Both
    }

    /** How much of the next `remaining` bytes is read at once. */
    function TransferBytes(src: nat, remaining: nat): (n: nat)
      requires remaining > 0
      ensures 0 < n <= remaining && n <= DMA_DATA_TRAN_SIZE
    {
      var n := if remaining > DMA_DATA_TRAN_SIZE then DMA_DATA_TRAN_SIZE else remaining;
      var orig := if mode == Parallel then 2 * ChipAddr(src) else ChipAddr(src);
      if BankStart(orig, mode == Parallel) != BankStart(orig + n, mode == Parallel) then
        BankEnd(orig, n, mode == Parallel);
        BankStart(orig, mode == Parallel) + BankSize() - orig
      else n
    }

    /** The banks that the chips selected for `src` have when it is read. */
    function BanksFor(src: nat): seq<nat> {
      var bank := if BankSelectNeeded() && MakeSelectsBanks() then ChipAddr(src) / BANK else 0;
      if ChipsFor(src) == Both then [bank, bank] else [bank]
    }

    /** The reads that a copy makes if no command fails. */
    function Plan(src: u32, remaining: nat): seq<Transfer>
      decreases remaining
    {
      if remaining == 0 then []
      else
        var n := TransferBytes(src, remaining);
        [Transfer(Read(src, n), ChipsFor(src), Command24(ChipAddr(src)), BanksFor(src))]
        + Plan(Wrap(src + n), remaining - n)
    }

    /** Where the chip with this register reads: the register completes a 3-byte address. */
    function Effective(command: seq<nat>, bank: nat): nat
      requires 3 <= |command| <= 4
    {
      if |command| == 3 then bank * BANK + Decode(command) else Decode(command)
    }

    /** The chip finds the `n` bytes in one bank, inside itself, and where they should be. */
    predicate ChipReads(t: Transfer, n: nat, bank: nat)
      requires 3 <= |t.command| <= 4
    {
      && Effective(t.command, bank) == ChipAddr(t.range.addr)
      && ChipAddr(t.range.addr) + n <= chipSize
      && (|t.command| == 3 ==> Decode(t.command) + n <= BANK)
    }

    /** The chips selected are those that hold the range, and each reads its part of it, from the byte
        or the pair of bytes that holds the first one on. */
    predicate InPlace(t: Transfer) {
      && 3 <= |t.command| <= 4
      && t.sel == ChipsFor(t.range.addr)
      && if t.sel == Both then
           && |t.banks| == 2
           && ChipReads(t, (t.range.len + 1) / 2, t.banks[0]) && ChipReads(t, t.range.len / 2, t.banks[1])
         else |t.banks| == 1 && ChipReads(t, t.range.len, t.banks[0])
    }

    /** And that first byte is the first one asked for. */
    predicate Right(t: Transfer) {
      InPlace(t) && Begins(t.range.addr)
    }

    ghost predicate Shaped() {
      |chips| == 2 && |chips[0]| == |chips[1]| == chipSize
    }

    /** The chips find all the bytes asked for inside one of their banks. */
    predicate Answerable(sel: Select, command: seq<nat>, banks: seq<nat>, n: nat) {
      && 3 <= |command| <= 4
      && (|command| == 3 ==> Decode(command) + (if sel == Both then (n + 1) / 2 else n) <= BANK)
      && if sel == Both then
           && |banks| == 2
           && Effective(command, banks[0]) + (n + 1) / 2 <= chipSize && Effective(command, banks[1]) + n / 2 <= chipSize
         else |banks| == 1 && Effective(command, banks[0]) + n <= chipSize
    }

    /** What the selected chips return then. */
    function Answer(sel: Select, command: seq<nat>, banks: seq<nat>, n: nat): (r: seq<byte>)
      requires Shaped() && Answerable(sel, command, banks, n)
      ensures |r| == n
    {
      match sel
      case Lower => chips[0][Effective(command, banks[0])..Effective(command, banks[0]) + n]
      case Upper => chips[1][Effective(command, banks[0])..Effective(command, banks[0]) + n]
      case Both => seq(n, i requires 0 <= i < n => chips[i % 2][Effective(command, banks[i % 2]) + i / 2])
    }

    /** Bytes `2 * a..2 * a + n` of two banks side by side are bytes `a..` of each. */
    static lemma PairsInBank(a: nat, n: nat)
      requires n > 0
      ensures BankStart(2 * a, true) == BankStart(2 * a + n, true) ==> a % BANK + (n + 1) / 2 <= BANK
      ensures a % BANK + (BankStart(2 * a, true) + 2 * BANK - 2 * a) / 2 == BANK
    {
    }

    /** The first transfer of a plan stays inside one bank. */
    lemma TransferInBank(src: nat, remaining: nat)
      requires remaining > 0
      ensures var n := TransferBytes(src, remaining);
              ChipAddr(src) % BANK + (if mode == Parallel then (n + 1) / 2 else n) <= BANK
    {
      if mode == Parallel {
        var n := if remaining > DMA_DATA_TRAN_SIZE then DMA_DATA_TRAN_SIZE else remaining;
        PairsInBank(src / 2, n);
        hide BankStart;
      }
    }

    /** A transfer that does not end the copy keeps the next one on a pair of bytes. */
    lemma TransferToBank(src: nat, remaining: nat)
      requires remaining > 0
      ensures var n := TransferBytes(src, remaining);
              n != remaining ==> Base(src + n) == Base(src) + n && (Begins(src + n) <==> Begins(src))
    {
      if mode == Parallel {
        var orig := 2 * (src / 2);
        assert (BankStart(orig, true) + 2 * BANK - orig) % 2 == 0;
        hide BankStart;
      }
    }

    lemma TransferInOneOfTwo(src: nat, remaining: nat)
      requires ChipSizeKnown() && remaining > 0 && src + remaining <= FlashSize()
      ensures var n := TransferBytes(src, remaining);
              if chipSize < BANK then n == remaining else !Straddles(src, n)
    {
      if mode == Stacked {
        TransferInBank(src, remaining);
      }
    }

    lemma TransferInChip(src: nat, n: nat)
      requires ChipSizeKnown() && n > 0 && src + n <= FlashSize()
      ensures ChipAddr(src) + (if mode == Parallel then (n + 1) / 2 else n) <= chipSize <==> !Straddles(src, n)
    {
    }

    lemma TransferInFirstBank(src: nat, n: nat)
      requires ChipSizeKnown() && n > 0 && src + n <= FlashSize() && !Straddles(src, n)
      requires ChipAddr(src) % BANK + (if mode == Parallel then (n + 1) / 2 else n) <= BANK
      ensures ChipAddr(src) < BANK <==> FirstBanks(Base(src), n)
    {
      if ChipAddr(src) >= BANK {
        assert ChipAddr(Base(src)) >= BANK;
      }
    }

    ghost function First(src: nat, remaining: nat): Transfer
      requires remaining > 0
    {
      Transfer(Read(src, TransferBytes(src, remaining)), ChipsFor(src), Command24(ChipAddr(src)), BanksFor(src))
    }

    /** The bank chosen for an address is right, unless there is a choice and no way to make it. */
    lemma BankIsRight(src: nat, bank: nat)
      requires ChipSizeKnown() && src < FlashSize() && bank in BanksFor(src)
      ensures Effective(Command24(ChipAddr(src)), bank) == ChipAddr(src)
              <==> (BankSelectNeeded() && !MakeSelectsBanks() ==> ChipAddr(src) < BANK)
    {
      CommandsDecode(ChipAddr(src));
    }

    lemma FirstIsRight(src: nat, remaining: nat)
      requires ChipSizeKnown() && remaining > 0 && src + remaining <= FlashSize()
      ensures InPlace(First(src, remaining)) <==> Reachable24(src, TransferBytes(src, remaining))
      ensures Right(First(src, remaining)) <==> Readable24(src, TransferBytes(src, remaining))
    {
      FirstInPlace(src, remaining);
      hide TransferBytes, InPlace, Reachable24;
    }

    lemma FirstInPlace(src: nat, remaining: nat)
      requires ChipSizeKnown() && remaining > 0 && src + remaining <= FlashSize()
      ensures InPlace(First(src, remaining)) <==> Reachable24(src, TransferBytes(src, remaining))
    {
      var n := TransferBytes(src, remaining);
      hide TransferBytes, BankStart, FirstBanks, Command24, Decode;
      TransferInBank(src, remaining);
      TransferInOneOfTwo(src, remaining);
      TransferInChip(src, n);
      if !Straddles(src, n) {
        TransferInFirstBank(src, n);
      }
      CommandsDecode(ChipAddr(src));
      assert BanksFor(src)[0] in BanksFor(src);
      BankIsRight(src, BanksFor(src)[0]);
      hide Straddles, Base, ChipAddr, Effective;
    }

    lemma EmptyIsReadable(src: nat)
      ensures Reachable24(src, 0) && Readable24(src, 0)
    {
    }

    lemma ReachableSplits(src: nat, remaining: nat)
      requires ChipSizeKnown() && remaining > 0 && src + remaining <= FlashSize()
      ensures var n := TransferBytes(src, remaining);
              Reachable24(src, remaining) <==> Reachable24(src, n) && Reachable24(src + n, remaining - n)
    {
      TransferToBank(src, remaining);
      TransferInOneOfTwo(src, remaining);
      hide TransferBytes, ChipAddr;
    }

    lemma ReadableSplits(src: nat, remaining: nat)
      requires ChipSizeKnown() && remaining > 0 && src + remaining <= FlashSize()
      ensures var n := TransferBytes(src, remaining);
              Readable24(src, remaining) <==> Readable24(src, n) && Readable24(src + n, remaining - n)
    {
      ReachableSplits(src, remaining);
      TransferToBank(src, remaining);
      hide TransferBytes, Reachable24, Begins;
    }

    lemma PlanStep(src: u32, remaining: nat)
      ensures Plan(src, 0) == []
      ensures remaining > 0 ==>
                var n := TransferBytes(src, remaining);
                Plan(src, remaining) == [First(src, remaining)] + Plan(Wrap(src + n), remaining - n)
    {
    }

    ghost predicate AllInPlace(ts: seq<Transfer>) {
      forall i :: 0 <= i < |ts| ==> InPlace(ts[i])
    }

    ghost predicate AllRight(ts: seq<Transfer>) {
      forall i :: 0 <= i < |ts| ==> Right(ts[i])
    }

    lemma AllSplits(t: Transfer, ts: seq<Transfer>)
      ensures AllInPlace([t] + ts) <==> InPlace(t) && AllInPlace(ts)
      ensures AllRight([t] + ts) <==> Right(t) && AllRight(ts)
    {
      var all := [t] + ts;
      assert all[0] == t;
      hide InPlace, Right;
      forall i | 0 <= i < |ts|
        ensures (AllInPlace(all) ==> InPlace(ts[i])) && (AllRight(all) ==> Right(ts[i]))
      {
        assert all[i + 1] == ts[i];
      }
    }

    /** Of a range inside the flash, every read of a plan is in one chip and one bank, with the right
        bank selected, exactly when the range is reachable. */
    lemma {:induction false} PlanInFlash(src: nat, remaining: nat)
      requires ChipSizeKnown() && src + remaining <= FlashSize()
      ensures AllInPlace(Plan(src, remaining)) <==> Reachable24(src, remaining)
      ensures AllRight(Plan(src, remaining)) <==> Readable24(src, remaining)
      decreases remaining
    {
      hide Plan, TransferBytes, InPlace, Right, Reachable24, Readable24;
      PlanStep(src, remaining);
      if remaining == 0 {
        EmptyIsReadable(src);
      } else {
        var n := TransferBytes(src, remaining);
        FirstIsRight(src, remaining);
        ReachableSplits(src, remaining);
        ReadableSplits(src, remaining);
        PlanInFlash(src + n, remaining - n);
        hide AllInPlace, AllRight;
        AllSplits(First(src, remaining), Plan(src + n, remaining - n));
      }
    }

    lemma RightIsInFlash(t: Transfer)
      requires ChipSizeKnown() && Right(t)
      ensures t.range.len > 0 ==> t.range.addr + t.range.len <= FlashSize()
    {
    }

    /** A range that leaves the flash has a read that is not right. */
    lemma {:induction false} PlanOutOfFlash(src: u32, remaining: nat)
      requires ChipSizeKnown() && remaining > 0 && src + remaining > FlashSize()
      ensures !AllRight(Plan(src, remaining))
      decreases remaining
    {
      hide Plan, TransferBytes, Right;
      PlanStep(src, remaining);
      var n := TransferBytes(src, remaining);
      if src + n > FlashSize() {
        if Right(First(src, remaining)) {
          RightIsInFlash(First(src, remaining));
        }
      } else {
        PlanOutOfFlash(src + n, remaining - n);
      }
      hide AllRight, First, FlashSize;
      AllSplits(First(src, remaining), Plan(Wrap(src + n), remaining - n));
    }

    /** The reads of a copy are all right exactly when the range is in the flash and readable. */
    lemma PlanIsRight(src: u32, remaining: nat)
      requires ChipSizeKnown()
      ensures AllRight(Plan(src, remaining))
              <==> (remaining > 0 ==> src + remaining <= FlashSize()) && Readable24(src, remaining)
    {
      hide Plan, AllRight, AllInPlace, Readable24;
      if src + remaining <= FlashSize() {
        PlanInFlash(src, remaining);
      } else if remaining > 0 {
        PlanOutOfFlash(src, remaining);
      } else {
        EmptyIsReadable(src);
        NothingIsRight(src);
      }
    }

    /** Where the byte at `a` is on its chip. */
    function Offset(a: nat): nat {
      match mode
      case Single => a
      case Stacked => if a < chipSize then a else a - chipSize
      case Parallel => a / 2
    }

    /** A range in the flash that begins on a pair of bytes, if two chips are side by side, and does not
        run from one 8 MB chip of a stack into the other. */
    predicate Plain(src: nat, len: nat) {
      && src + len <= (if mode == Single then chipSize else 2 * chipSize)
      && (mode == Parallel ==> src % 2 == 0)
      && (mode == Stacked && chipSize == 0x80_0000 ==> src + len <= chipSize || chipSize <= src)
    }

    /** Micron, Macronix and Spansion flashes can be read everywhere; those of other makes just in the
        first 16 MB of each chip. */
    lemma MakesAndBanks(src: nat, len: nat)
      requires ChipSizeKnown() && Plain(src, len)
      ensures make == Micron || make == Macronix || make == Spansion ==> AllRight(Plan(src, len))
      ensures make == Winbond || make == Issi ==>
                (AllRight(Plan(src, len)) <==> forall a :: src <= a < src + len ==> Offset(a) < 0x100_0000)
    {
      hide Plan, AllRight, FirstBanks, Offset;
      PlanIsRight(src, len);
      PlainIsReadable(src, len);
      OffsetsInFirstBanks(src, len);
      assert MakeSelectsBanks() <==> make == Micron || make == Macronix || make == Spansion;
      hide *;
    }

    lemma PlainIsReadable(src: nat, len: nat)
      requires ChipSizeKnown() && Plain(src, len)
      ensures Readable24(src, len) <==> (BankSelectNeeded() && !MakeSelectsBanks() ==> FirstBanks(Base(src), len))
      ensures src + len <= FlashSize() < U32
    {
      hide FirstBanks, Base;
    }

    lemma OffsetsInFirstBanks(src: nat, len: nat)
      requires ChipSizeKnown() && Plain(src, len)
      ensures FirstBanks(Base(src), len) <==> forall a :: src <= a < src + len ==> Offset(a) < 0x100_0000
      ensures !BankSelectNeeded() ==> FirstBanks(Base(src), len)
    {
      assert Base(src) == src && forall a :: src <= a < src + len ==> Offset(a) == ChipAddr(a);
      hide Base;
    }

    lemma NothingIsRight(src: u32)
      ensures AllRight(Plan(src, 0))
    {
    }

    ghost predicate TransfersTile(ts: seq<Transfer>, a: nat, b: nat) {
      Tiles(Ranges(ts), a, b, DMA_DATA_TRAN_SIZE)
    }

    lemma TransfersTileFirst(t: Transfer, ts: seq<Transfer>, b: nat)
      requires 0 < t.range.len <= DMA_DATA_TRAN_SIZE && TransfersTile(ts, t.range.addr + t.range.len, b)
      ensures TransfersTile([t] + ts, t.range.addr, b)
    {
      assert ([t] + ts)[1..] == ts;
      TilesFirst(t.range, Ranges(ts), b, DMA_DATA_TRAN_SIZE);
    }

    /** The plan covers the range once, in order, in nonempty reads. */
    lemma {:induction false} PlanTiles(src: nat, remaining: nat)
      requires src + remaining < U32
      ensures TransfersTile(Plan(src, remaining), src, src + remaining)
      decreases remaining
    {
      hide Plan, TransferBytes;
      PlanStep(src, remaining);
      if remaining == 0 {
      } else {
        var n := TransferBytes(src, remaining);
        PlanTiles(src + n, remaining - n);
        WrapSmall(src + n);
        hide Ranges, Tiles;
        TransfersTileFirst(First(src, remaining), Plan(src + n, remaining - n), src + remaining);
      }
    }

    lemma InPlaceAnswers(t: Transfer)
      requires ChipSizeKnown() && InPlace(t) && t.range.len > 0
      ensures Base(t.range.addr) + t.range.len <= FlashSize()
      ensures Answerable(t.sel, t.command, t.banks, t.range.len)
    {
      hide Decode, Effective;
    }

    lemma AnsweredByte(t: Transfer, i: nat)
      requires ChipSizeKnown() && Shaped() && InPlace(t) && i < t.range.len
      requires Answerable(t.sel, t.command, t.banks, t.range.len)
      requires Base(t.range.addr) + t.range.len <= FlashSize()
      ensures Answer(t.sel, t.command, t.banks, t.range.len)[i] == Logical(Base(t.range.addr) + i)
    {
      var a := Base(t.range.addr);
      hide Answerable, Effective, ChipSizeKnown;
      if mode == Parallel {
        assert (a + i) % 2 == i % 2 && (a + i) / 2 == a / 2 + i / 2;
      }
    }

    /** What the chips return for a read in place is the logical flash, from the pair of bytes the
        range begins in on. */
    lemma InPlaceIsLogical(t: Transfer)
      requires ChipSizeKnown() && Shaped() && InPlace(t) && t.range.len > 0
      ensures Base(t.range.addr) + t.range.len <= FlashSize()
      ensures Answerable(t.sel, t.command, t.banks, t.range.len)
      ensures Answer(t.sel, t.command, t.banks, t.range.len) == Slice(Base(t.range.addr), t.range.len)
    {
      InPlaceAnswers(t);
      hide Answerable, Base;
      forall i | 0 <= i < t.range.len
        ensures Answer(t.sel, t.command, t.banks, t.range.len)[i] == Logical(Base(t.range.addr) + i)
      {
        AnsweredByte(t, i);
        hide Answer, Logical, InPlace;
      }
    }

    /** And for a read that is right, from the first byte asked for on. */
    lemma RightIsLogical(t: Transfer)
      requires ChipSizeKnown() && Shaped() && Right(t) && t.range.len > 0
      ensures t.range.addr + t.range.len <= FlashSize()
      ensures Answerable(t.sel, t.command, t.banks, t.range.len)
      ensures Answer(t.sel, t.command, t.banks, t.range.len) == Slice(t.range.addr, t.range.len)
    {
      InPlaceIsLogical(t);
      hide Answer, Answerable, InPlace, Slice, FlashSize;
    }

    /** From two chips side by side and an odd address on, the bytes are the ones asked for only if
        they are all alike. */
    lemma OddSource(src: nat, n: nat)
      requires Shaped() && !Begins(src) && src + n <= FlashSize()
      ensures Slice(Base(src), n) == Slice(src, n)
              <==> forall a :: src <= a < src + n ==> Logical(a) == Logical(src - 1)
    {
      assert Base(src) == src - 1;
      hide Logical, Base, FlashSize;
      if Slice(src - 1, n) == Slice(src, n) {
        forall a | src <= a < src + n ensures Logical(a) == Logical(src - 1) {
          AllAlike(src, n, a);
        }
      } else {
        var i :| 0 <= i < n && Slice(src - 1, n)[i] != Slice(src, n)[i];
        assert Logical(src - 1 + i) != Logical(src + i);
        assert i > 0 ==> src <= src - 1 + i < src + n;
      }
    }

    lemma {:induction false} AllAlike(src: nat, n: nat, a: nat)
      requires Shaped() && 0 < src <= a < src + n <= FlashSize() && Slice(src - 1, n) == Slice(src, n)
      ensures Logical(a) == Logical(src - 1)
      decreases a
    {
      hide Logical, FlashSize;
      assert Slice(src - 1, n)[a - src] == Logical(a - 1) && Slice(src, n)[a - src] == Logical(a);
      if a == src {
      } else {
        AllAlike(src, n, a - 1);
      }
    }

    // ---- The device ----

    /** The registers of the chips selected. */
    function SelectedBanks(): seq<nat>
      reads this`selected, this`banks
      requires |banks| == 2
    {
      match selected
      case Lower => [banks[0]]
      case Upper => [banks[1]]
      case Both => banks
    }

    /** Selects the chips that hold the address, and translates it for them. */
    method GetQspiAddr(address: u32) returns (realAddr: u32)
      modifies this`selected
      ensures realAddr == ChipAddr(address) && selected == ChipsFor(address)
    {
      match mode {
        case Single =>
          selected := Lower;
          realAddr := address;
        case Stacked =>
          if address >= FlashSize() / 2 {
            selected := Upper;
            realAddr := address - FlashSize() / 2;
          } else {
            selected := Lower;
            realAddr := address;
          }
        case Parallel =>
          selected := Both;
          realAddr := address / 2;
      }
    }

    /** A command to the chips, which may fail; a register that reads back wrong counts as failing. */
    method Command() returns (ok: bool)
      modifies this`failed
      ensures failed <==> old(failed) || !ok
    {
      ok := *;
      failed := failed || !ok;
    }

    /** Writes the bank register of the selected chips, and reads it back. A failure may leave it
        written or not. */
    method WriteBankRegister(bankSel: nat) returns (ok: bool)
      requires Valid() && BankSelectNeeded() && MakeSelectsBanks()
      modifies this`banks, this`failed
      ensures Valid() && (failed <==> old(failed) || !ok)
      ensures ok ==> SelectedBanks() == if selected == Both then [bankSel, bankSel] else [bankSel]
    {
      ok := Command();
      var reached := *;
      if ok || reached {
        banks := match selected
                 case Lower => banks[0 := bankSel]
                 case Upper => banks[1 := bankSel]
                 case Both => [bankSel, bankSel];
      }
      if ok {
        ok := Command();
      }
    }

    /** Selects a bank, for the makes that have a register for it. */
    method SendBankSelect(bankSel: nat) returns (ok: bool)
      requires Valid() && BankSelectNeeded() && bankSel < 256
      modifies this`banks, this`failed
      ensures Valid() && (failed <==> old(failed) || !ok)
      ensures ok && MakeSelectsBanks() ==>
                SelectedBanks() == if selected == Both then [bankSel, bankSel] else [bankSel]
    {
      ok := true;
      if make == Micron || make == Macronix {
        ok := Command();
        if ok {
          ok := WriteBankRegister(bankSel);
        }
      }
      if make == Spansion {
        ok := WriteBankRegister(bankSel);
      }
    }

    /** One read command: address bytes out, `n` bytes in from the selected chips. A read that runs
        out of its bank or its chip returns something; a failing one may have written part of its
        range. `from` is where in the logical flash the caller is asked to read. */
    method PolledTransfer(command: seq<nat>, n: nat, dst: array<byte>, at: nat, ghost from: nat) returns (ok: bool)
      requires Shaped() && |banks| == 2 && at + n <= dst.Length
      modifies this`log, this`failed, dst
      ensures failed <==> old(failed) || !ok
      ensures log == if ok then old(log) + [Transfer(Read(from, n), selected, command, SelectedBanks())] else old(log)
      ensures ok && Answerable(selected, command, SelectedBanks(), n) ==>
                dst[at..at + n] == Answer(selected, command, SelectedBanks(), n)
      ensures forall j :: 0 <= j < at || at + n <= j < dst.Length ==> dst[j] == old(dst[j])
    {
      ok := Command();
      var bytes: seq<byte> := *;
      if |bytes| < n {
        bytes := seq(n, _ => 0);
      }
      if ok {
        if Answerable(selected, command, SelectedBanks(), n) {
          bytes := Answer(selected, command, SelectedBanks(), n);
        }
        log := log + [Transfer(Read(from, n), selected, command, SelectedBanks())];
      }
      forall i | 0 <= i < n {
        dst[at + i] := bytes[i];
      }
    }

    // ---- The copies ----

    /** The length check is done on a 32-bit sum: the ranges it lets through though they do not fit
        are exactly those that wrap round to inside the flash. */
    lemma LengthCheck(src: u32, len: u32)
      requires ChipSizeKnown()
      ensures Wrap(src + len) <= FlashSize() < src + len <==> U32 <= src + len <= U32 + FlashSize()
    {
      if src + len < U32 {
        WrapSmall(src + len);
      } else {
        WrapSmall(src + len - U32);
        assert Wrap(src + len) == Wrap(src + len - U32);
      }
    }

    /** The `n` bytes at `at` are those of the logical flash from `base` on. */
    ghost predicate Holds(dst: array<byte>, at: nat, base: nat, n: nat)
      reads dst
      requires Shaped() && base + n <= FlashSize()
    {
      at + n <= dst.Length && dst[at..at + n] == Slice(base, n)
    }

    /** Of the reads of `full`, those behind `was` in the log have been made, and the copy stands at
        `src`. */
    ghost predicate OnPlan(was: seq<Transfer>, full: seq<Transfer>, now: seq<Transfer>, src: u32, remaining: nat) {
      was <= now && was + full == now + Plan(src, remaining)
    }

    lemma OnPlanNext(was: seq<Transfer>, full: seq<Transfer>, now: seq<Transfer>, src: u32, remaining: nat)
      requires remaining > 0 && OnPlan(was, full, now, src, remaining)
      ensures var n := TransferBytes(src, remaining);
              OnPlan(was, full, now + [First(src, remaining)], Wrap(src + n), remaining - n)
      ensures AllInPlace(full) ==> InPlace(First(src, remaining))
    {
      hide TransferBytes, First, InPlace;
      PlanStep(src, remaining);
      assert (was + full)[|now|] == First(src, remaining);
      assert full[|now| - |was|] == First(src, remaining);
    }

    lemma OnPlanPrefix(was: seq<Transfer>, full: seq<Transfer>, now: seq<Transfer>, src: u32, remaining: nat)
      requires OnPlan(was, full, now, src, remaining)
      ensures var taken := now[|was|..];
              now == was + taken && taken <= full && (remaining == 0 ==> taken == full)
    {
      assert full == (was + full)[|was|..];
    }

    /** Selects chip and bank for the next read, and cuts it at the end of the bank. */
    method SelectFor(srcAddress: u32, remainingBytes: nat) returns (ok: bool, qspiAddr: u32, transferBytes: nat)
      requires Valid() && remainingBytes > 0
      modifies this`selected, this`banks, this`failed
      ensures Valid() && transferBytes == TransferBytes(srcAddress, remainingBytes) && qspiAddr == ChipAddr(srcAddress)
      ensures ok ==> selected == ChipsFor(srcAddress) && SelectedBanks() == BanksFor(srcAddress)
      ensures failed <==> old(failed) || !ok
    {
      ok := true;
      transferBytes := if remainingBytes > DMA_DATA_TRAN_SIZE then DMA_DATA_TRAN_SIZE else remainingBytes;
      qspiAddr := GetQspiAddr(srcAddress);
      var origAddr: u32 := if mode == Parallel then qspiAddr * 2 else qspiAddr;
      if FlashSize() > BankSize() {
        ok := SendBankSelect(qspiAddr / BANK);
      }
      BankWraps(origAddr, transferBytes, mode == Parallel);
      BankRest(origAddr, mode == Parallel);
      hide BankStart, Wrap, Valid, BanksFor, ChipsFor, SelectedBanks, ChipAddr;
      if BankStart(origAddr, mode == Parallel) != BankStart(Wrap(origAddr + transferBytes), mode == Parallel) {
        transferBytes := Wrap(BankStart(origAddr, mode == Parallel) + BankSize() - origAddr);
      }
    }

    /** One turn of the 24-bit copy. */
    method ReadInBank(srcAddress: u32, remainingBytes: nat, dst: array<byte>, at: nat)
      returns (ok: bool, transferBytes: nat)
      requires Valid() && remainingBytes > 0 && at + remainingBytes <= dst.Length
      modifies this`selected, this`banks, this`log, this`failed, dst
      ensures Valid() && transferBytes == TransferBytes(srcAddress, remainingBytes)
      ensures failed <==> old(failed) || !ok
      ensures log == if ok then old(log) + [First(srcAddress, remainingBytes)] else old(log)
      ensures ok && InPlace(First(srcAddress, remainingBytes)) ==>
                && Base(srcAddress) + transferBytes <= FlashSize()
                && Holds(dst, at, Base(srcAddress), transferBytes)
      ensures forall j :: 0 <= j < at || at + transferBytes <= j < dst.Length ==> dst[j] == old(dst[j])
    {
      var qspiAddr;
      ok, qspiAddr, transferBytes := SelectFor(srcAddress, remainingBytes);
      if !ok {
        return;
      }
      ghost var t := First(srcAddress, remainingBytes);
      if InPlace(t) {
        InPlaceIsLogical(t);
      }
      assert t == Transfer(Read(srcAddress, transferBytes), selected, Command24(qspiAddr), SelectedBanks());
      hide TransferBytes, BanksFor, ChipsFor, InPlace, First, Answer, Answerable, SelectedBanks, Command24, Base;
      ok := PolledTransfer(Command24(qspiAddr), transferBytes, dst, at, srcAddress);
    }

    /** The bytes a copy has brought, from `base` on if it is a `good` one, are where it stands. */
    ghost predicate Progress(full: seq<Transfer>, good: bool, src: u32, remaining: nat, got: seq<byte>, base: nat)
      requires Shaped()
    {
      good ==>
        && AllInPlace(full) && src + remaining <= FlashSize() && base + |got| <= FlashSize()
        && (remaining > 0 ==> Base(src) == base + |got|)
        && got == Slice(base, |got|)
    }

    /** A copy that has filled `at..to`, and has made all the reads of `full` up to `src`. */
    ghost predicate Underway(was: seq<Transfer>, full: seq<Transfer>, good: bool, src: u32, remaining: nat,
                             dst: array<byte>, at: nat, to: nat, base: nat)
      reads this`log, dst
      requires Shaped() && at <= to <= dst.Length
    {
      OnPlan(was, full, log, src, remaining) && Progress(full, good, src, remaining, dst[at..to], base)
    }

    lemma FlashIsSmall()
      requires ChipSizeKnown()
      ensures FlashSize() < U32
    {
    }

    /** A copy is good if the range is in the flash and reachable. */
    ghost predicate Good24(src: u32, length: nat) {
      src + length <= FlashSize() && Reachable24(src, length)
    }

    lemma UnderwayStart(src: u32, length: nat, dst: array<byte>, at: nat)
      requires Shaped() && ChipSizeKnown() && at <= dst.Length
      ensures Underway(log, Plan(src, length), Good24(src, length), src, length, dst, at, at, Base(src))
    {
      if Good24(src, length) {
        PlanInFlash(src, length);
      }
      hide Plan, AllInPlace, Reachable24;
    }

    /** Inside the flash the copy goes on where the read before has ended. */
    lemma NextBase(src: u32, remaining: nat)
      requires ChipSizeKnown() && remaining > 0 && src + remaining <= FlashSize()
      ensures var n := TransferBytes(src, remaining);
              Wrap(src + n) == src + n && (n != remaining ==> Base(src + n) == Base(src) + n)
    {
      TransferToBank(src, remaining);
      FlashIsSmall();
      hide TransferBytes, Base;
    }

    lemma SliceJoin(base: nat, n: nat, m: nat)
      requires Shaped() && base + n + m <= FlashSize()
      ensures Slice(base, n) + Slice(base + n, m) == Slice(base, n + m)
    {
      hide Logical, FlashSize;
    }

    lemma ProgressNext(full: seq<Transfer>, good: bool, src: u32, remaining: nat, got: seq<byte>, base: nat,
                       more: seq<byte>)
      requires Shaped() && ChipSizeKnown() && remaining > 0 && |more| == TransferBytes(src, remaining)
      requires Progress(full, good, src, remaining, got, base)
      requires AllInPlace(full) ==> InPlace(First(src, remaining))
      requires InPlace(First(src, remaining)) ==>
                 Base(src) + |more| <= FlashSize() && more == Slice(Base(src), |more|)
      ensures Progress(full, good, Wrap(src + |more|), remaining - |more|, got + more, base)
    {
      hide TransferBytes, AllInPlace, InPlace, First, Base, Wrap, FlashSize, ChipSizeKnown, Shaped, Slice;
      if good {
        NextBase(src, remaining);
        SliceJoin(base, |got|, |more|);
      }
    }

    /** What a turn leaves, if nothing before `to` has changed. */
    lemma TurnEnds(was: seq<Transfer>, full: seq<Transfer>, good: bool, now: seq<Transfer>, src: u32, remaining: nat,
                   dst: array<byte>, at: nat, to: nat, base: nat, ok: bool)
      requires Shaped() && ChipSizeKnown() && remaining > 0 && at <= to && to + remaining <= dst.Length
      requires OnPlan(was, full, now, src, remaining) && Progress(full, good, src, remaining, dst[at..to], base)
      requires log == if ok then now + [First(src, remaining)] else now
      requires ok && InPlace(First(src, remaining)) ==>
                 && Base(src) + TransferBytes(src, remaining) <= FlashSize()
                 && Holds(dst, to, Base(src), TransferBytes(src, remaining))
      ensures var n := TransferBytes(src, remaining);
              if ok then Underway(was, full, good, Wrap(src + n), remaining - n, dst, at, to + n, base)
              else Underway(was, full, good, src, remaining, dst, at, to, base)
    {
      if ok {
        var n := TransferBytes(src, remaining);
        OnPlanNext(was, full, now, src, remaining);
        hide OnPlan, Progress, First, InPlace, AllInPlace, Slice, Base, TransferBytes, Wrap, FlashSize, ChipSizeKnown;
        ProgressNext(full, good, src, remaining, dst[at..to], base, dst[to..to + n]);
        assert dst[at..to + n] == dst[at..to] + dst[to..to + n];
      }
    }

    /** One turn takes such a copy on, or leaves it where it is. */
    method ReadNext(src: u32, remainingBytes: nat, dst: array<byte>, to: nat,
                    ghost was: seq<Transfer>, ghost full: seq<Transfer>, ghost good: bool,
                    ghost at: nat, ghost base: nat)
      returns (ok: bool, transferBytes: nat)
      requires Valid() && remainingBytes > 0 && to + remainingBytes <= dst.Length && at <= to
      requires Underway(was, full, good, src, remainingBytes, dst, at, to, base)
      modifies this`selected, this`banks, this`log, this`failed, dst
      ensures Valid() && 0 < transferBytes <= remainingBytes && (failed <==> old(failed) || !ok)
      ensures if ok then
                Underway(was, full, good, Wrap(src + transferBytes), remainingBytes - transferBytes, dst, at,
                         to + transferBytes, base)
              else Underway(was, full, good, src, remainingBytes, dst, at, to, base)
      ensures forall j :: 0 <= j < to || to + transferBytes <= j < dst.Length ==> dst[j] == old(dst[j])
    {
      ghost var now, got := log, dst[at..to];
      assert Shaped() && ChipSizeKnown() && OnPlan(was, full, now, src, remainingBytes);
      assert Progress(full, good, src, remainingBytes, got, base);
      hide *;
      ok, transferBytes := ReadInBank(src, remainingBytes, dst, to);
      assert dst[at..to] == got;
      TurnEnds(was, full, good, now, src, remainingBytes, dst, at, to, base, ok);
    }

    lemma ShapeIsValid()
      requires Valid()
      ensures Shaped() && ChipSizeKnown()
    {
    }

    /** The turns of the 24-bit copy. */
    method CopyTurns(srcAddress: u32, dst: array<byte>, at: nat, length: nat)
      returns (ok: bool, ghost done: nat, ghost reached: u32)
      requires Valid() && at + length <= dst.Length
      modifies this`selected, this`banks, this`log, this`failed, dst
      ensures Valid() && done <= length && (ok ==> done == length) && (failed <==> old(failed) || !ok)
      ensures Underway(old(log), Plan(srcAddress, length), Good24(srcAddress, length), reached, length - done, dst, at,
                       at + done, Base(srcAddress))
      ensures forall j :: 0 <= j < at || at + length <= j < dst.Length ==> dst[j] == old(dst[j])
    {
      hide *;
      ghost var was, full, good, base := log, Plan(srcAddress, length), Good24(srcAddress, length), Base(srcAddress);
      var src: u32, to: nat, remainingBytes: nat := srcAddress, at, length;
      ok := true;
      ShapeIsValid();
      UnderwayStart(srcAddress, length, dst, at);
      while remainingBytes > 0 && ok
        invariant Valid() && at <= to && to + remainingBytes == at + length && (failed <==> old(failed) || !ok)
        invariant Underway(was, full, good, src, remainingBytes, dst, at, to, base)
        invariant forall j :: 0 <= j < at || at + length <= j < dst.Length ==> dst[j] == old(dst[j])
        decreases remainingBytes, ok
      {
        var transferBytes;
        ok, transferBytes := ReadNext(src, remainingBytes, dst, to, was, full, good, at, base);
        if ok {
          remainingBytes := remainingBytes - transferBytes;
          src, to := Wrap(src + transferBytes), to + transferBytes;
        }
      }
      done, reached := to - at, src;
    }

    /** What a copy that has stopped has done. */
    lemma Fetched(was: seq<Transfer>, src: u32, length: nat, dst: array<byte>, at: nat, done: nat, reached: u32)
      requires Shaped() && done <= length && at + done <= dst.Length
      requires Underway(was, Plan(src, length), Good24(src, length), reached, length - done,
                        dst, at, at + done, Base(src))
      ensures var taken := if |was| <= |log| then log[|was|..] else [];
              log == was + taken && taken <= Plan(src, length) && (done == length ==> taken == Plan(src, length))
      ensures Good24(src, length) ==> dst[at..at + done] == Slice(Base(src), done)
      ensures Good24(src, length) && Begins(src) ==> dst[at..at + done] == Slice(src, done)
    {
      OnPlanPrefix(was, Plan(src, length), log, reached, length - done);
      hide Plan, OnPlan, AllInPlace, Reachable24, Slice;
    }

    lemma PlainIsGood(src: nat, len: nat)
      requires ChipSizeKnown() && Plain(src, len)
      ensures src + len <= FlashSize() < U32 && Begins(src)
      ensures make == Micron || make == Macronix || make == Spansion ==> Good24(src, len)
    {
    }

    /** The 24-bit copy. It fails with a length error exactly when the end of the range, as a 32-bit
        sum, is outside the flash, and before it touches anything. Otherwise it makes the reads of its
        plan, all of them if it succeeds, the first few if a command fails; and if the range is in the
        flash and reachable, what they brought is the logical flash, one byte low if two chips are
        side by side and the source is odd. */
    method Copy24(srcAddress: u32, dst: array<byte>, at: nat, length: u32)
      returns (status: Status, ghost taken: seq<Transfer>, ghost done: nat)
      requires Valid() && at + length <= dst.Length
      modifies this`selected, this`banks, this`log, this`failed, dst
      ensures Valid() && done <= length && log == old(log) + taken
      ensures failed <==> old(failed) || status == ReadError
      ensures status == LengthError <==> Wrap(srcAddress + length) > FlashSize()
      ensures status == LengthError ==> taken == [] && dst[..] == old(dst[..])
      ensures status != LengthError ==> taken <= Plan(srcAddress, length)
      ensures status != LengthError && Good24(srcAddress, length) ==>
                && dst[at..at + done] == Slice(Base(srcAddress), done)
                && (Begins(srcAddress) ==> dst[at..at + done] == Slice(srcAddress, done))
      ensures status == Success ==> done == length && taken == Plan(srcAddress, length)
      ensures Plain(srcAddress, length) && (make == Micron || make == Macronix || make == Spansion) ==>
                && status != LengthError
                && srcAddress + length <= FlashSize()
                && (status == Success ==> dst[at..at + length] == Slice(srcAddress, length))
      ensures forall j :: 0 <= j < at || at + length <= j < dst.Length ==> dst[j] == old(dst[j])
    {
      done, taken := 0, [];
      if Plain(srcAddress, length) {
        PlainIsGood(srcAddress, length);
        WrapSmall(srcAddress + length);
      }
      if Wrap(srcAddress + length) > FlashSize() {
        return LengthError, taken, done;
      }
      hide Plain, MakeSelectsBanks, Wrap;
      var ok;
      ghost var reached;
      ok, done, reached := CopyTurns(srcAddress, dst, at, length);
      Fetched(old(log), srcAddress, length, dst, at, done, reached);
      hide Underway, Plan, Slice, Good24;
      taken := log[|old(log)|..];
      status := if ok then Success else ReadError;
    }

    // ---- The form with 4-byte addresses ----

    /** A copy through 4-byte addresses is good if the range is in the flash and does not straddle the
        two chips of a stack. */
    predicate Good32(src: u32, length: nat) {
      src + length <= FlashSize() && !Straddles(src, length)
    }

    /** The read that one turn of the 32-bit copy makes. */
    ghost function Whole(src: nat, n: nat, banks: seq<nat>): Transfer {
      Transfer(Read(src, n), ChipsFor(src), Command32(ChipAddr(src)), banks)
    }

    /** It needs no bank register, but it must not run from one chip into the other. */
    lemma WholeIsRight(src: u32, n: nat, banks: seq<nat>)
      requires ChipSizeKnown() && n > 0
      requires |banks| == if ChipsFor(src) == Both then 2 else 1
      ensures Good32(src, n) ==> InPlace(Whole(src, n, banks))
      ensures Right(Whole(src, n, banks)) <==> Good32(src, n) && Begins(src)
    {
      CommandsDecode(ChipAddr(src));
      if src + n <= FlashSize() {
        TransferInChip(src, n);
      } else if Right(Whole(src, n, banks)) {
        RightIsInFlash(Whole(src, n, banks));
      }
      hide Decode, Command32, Straddles;
    }

    /** One turn of the 32-bit copy. */
    method ReadWhole(srcAddress: u32, n: nat, dst: array<byte>, at: nat) returns (ok: bool)
      requires Valid() && n > 0 && at + n <= dst.Length
      modifies this`selected, this`log, this`failed, dst
      ensures Valid() && (failed <==> old(failed) || !ok)
      ensures ok && Good32(srcAddress, n) ==>
                && Base(srcAddress) + n <= FlashSize()
                && Holds(dst, at, Base(srcAddress), n)
      ensures forall j :: 0 <= j < at || at + n <= j < dst.Length ==> dst[j] == old(dst[j])
    {
      var qspiAddr := GetQspiAddr(srcAddress);
      ghost var t := Whole(srcAddress, n, SelectedBanks());
      WholeIsRight(srcAddress, n, SelectedBanks());
      if InPlace(t) {
        InPlaceIsLogical(t);
      }
      hide InPlace, Answer, Answerable, SelectedBanks, Command32, Base;
      ok := PolledTransfer(Command32(qspiAddr), n, dst, at, srcAddress);
    }

    /** The bytes a good copy has brought, and where it stands. */
    ghost predicate Progress32(start: u32, length: nat, src: u32, got: seq<byte>)
      requires Shaped()
    {
      Good32(start, length) ==>
        && |got| <= length && src == start + |got| && Base(start) + |got| <= FlashSize()
        && (|got| < length ==> Base(src) == Base(start) + |got|)
        && got == Slice(Base(start), |got|)
    }

    /** The next turn of a good copy reads a good range too, and goes on where this one ends. */
    lemma GoodTurn(src: u32, length: nat, done: nat, n: nat)
      requires ChipSizeKnown() && Good32(src, length) && 0 < n && done + n <= length
      requires Base(src + done) == Base(src) + done
      requires done + n == length || n == DMA_DATA_TRAN_SIZE
      ensures Good32(src + done, n) && Wrap(src + done + n) == src + done + n
      ensures Base(src) + done + n <= FlashSize()
      ensures done + n < length ==> Base(src + done + n) == Base(src) + done + n
    {
    }

    lemma Progress32Next(start: u32, length: nat, src: u32, got: seq<byte>, more: seq<byte>)
      requires Shaped() && ChipSizeKnown() && 0 < |more| && |got| + |more| <= length
      requires |got| + |more| == length || |more| == DMA_DATA_TRAN_SIZE
      requires Progress32(start, length, src, got)
      requires Good32(src, |more|) ==> Base(src) + |more| <= FlashSize() && more == Slice(Base(src), |more|)
      ensures Progress32(start, length, Wrap(src + |more|), got + more)
    {
      if Good32(start, length) {
        GoodTurn(start, length, |got|, |more|);
        SliceJoin(Base(start), |got|, |more|);
      }
      hide Good32, Base, Wrap, FlashSize, ChipSizeKnown, Shaped, Slice;
    }

    /** One turn takes a good copy on, or leaves it where it is. */
    method WholeNext(src: u32, n: nat, dst: array<byte>, to: nat, ghost start: u32, ghost length: nat, ghost at: nat)
      returns (ok: bool)
      requires Valid() && 0 < n && at <= to && to + n <= dst.Length && to - at + n <= length
      requires to - at + n == length || n == DMA_DATA_TRAN_SIZE
      requires Progress32(start, length, src, dst[at..to])
      modifies this`selected, this`log, this`failed, dst
      ensures Valid() && (failed <==> old(failed) || !ok)
      ensures if ok then Progress32(start, length, Wrap(src + n), dst[at..to + n])
              else Progress32(start, length, src, dst[at..to])
      ensures forall j :: 0 <= j < to || to + n <= j < dst.Length ==> dst[j] == old(dst[j])
    {
      ghost var got := dst[at..to];
      hide Good32, Base, Slice, Progress32, ChipSizeKnown, FlashSize, Wrap;
      ok := ReadWhole(src, n, dst, to);
      assert dst[at..to] == got;
      if ok {
        ghost var more := dst[to..to + n];
        Progress32Next(start, length, src, got, more);
        assert dst[at..to + n] == got + more;
      }
    }

    /** What a copy that is through has brought. */
    lemma FinalSlice(start: u32, length: nat)
      requires Shaped()
      ensures forall src, got :: |got| == length && Progress32(start, length, src, got) && Good32(start, length) ==>
                && Base(start) + length <= FlashSize() && got == Slice(Base(start), length)
                && (Begins(start) ==> got == Slice(start, length))
    {
      hide Slice;
    }

    /** The same without bank registers: not from one chip of a stack into the other. */
    predicate Plain32(src: nat, len: nat) {
      && src + len <= (if mode == Single then chipSize else 2 * chipSize)
      && (mode == Parallel ==> src % 2 == 0)
      && (mode == Stacked ==> src + len <= chipSize || chipSize <= src)
    }

    lemma Plain32IsGood(src: nat, len: nat)
      requires ChipSizeKnown() && Plain32(src, len)
      ensures src + len <= FlashSize() < U32 && Begins(src) && Good32(src, len)
    {
    }

    /** The 32-bit copy: the logical flash for every good range, one byte low if two chips are side by
        side and the source is odd. */
    method Copy32(srcAddress: u32, dst: array<byte>, at: nat, length: u32) returns (status: Status)
      requires Valid() && at + length <= dst.Length
      modifies this`selected, this`log, this`failed, dst
      ensures Valid() && (failed <==> old(failed) || status == ReadError)
      ensures status == LengthError <==> Wrap(srcAddress + length) > FlashSize()
      ensures status == LengthError ==> dst[..] == old(dst[..])
      ensures status == Success && Good32(srcAddress, length) ==>
                && dst[at..at + length] == Slice(Base(srcAddress), length)
                && (Begins(srcAddress) ==> dst[at..at + length] == Slice(srcAddress, length))
      ensures Plain32(srcAddress, length) ==>
                && status != LengthError
                && srcAddress + length <= FlashSize()
                && (status == Success ==> dst[at..at + length] == Slice(srcAddress, length))
      ensures forall j :: 0 <= j < at || at + length <= j < dst.Length ==> dst[j] == old(dst[j])
    {
      if Plain32(srcAddress, length) {
        Plain32IsGood(srcAddress, length);
        WrapSmall(srcAddress + length);
      }
      if Wrap(srcAddress + length) > FlashSize() {
        return LengthError;
      }
      var src: u32, to: nat, remainingBytes: nat := srcAddress, at, length;
      var ok := true;
      assert dst[at..to] == [] == Slice(0, 0);
      FinalSlice(srcAddress, length);
      assert Shaped() && Progress32(srcAddress, length, src, dst[at..to]);
      hide Good32, Base, Slice, ChipSizeKnown, FlashSize, Progress32, Wrap, Begins, Plain32;
      while remainingBytes > 0 && ok
        invariant Valid() && at <= to && to + remainingBytes == at + length && (failed <==> old(failed) || !ok)
        invariant Progress32(srcAddress, length, src, dst[at..to])
        invariant forall j :: 0 <= j < at || at + length <= j < dst.Length ==> dst[j] == old(dst[j])
        decreases remainingBytes, ok
      {
        var transferBytes := if remainingBytes > DMA_DATA_TRAN_SIZE then DMA_DATA_TRAN_SIZE else remainingBytes;
        ok := WholeNext(src, transferBytes, dst, to, srcAddress, length, at);
        if ok {
          remainingBytes := remainingBytes - transferBytes;
          src, to := Wrap(src + transferBytes), to + transferBytes;
        }
      }
      status := if ok then Success else ReadError;
    }

    /** Both forms take the same ranges, and bring the same bytes of those that are good for both. */
    method CopiesAgree(srcAddress: u32, d24: array<byte>, d32: array<byte>, length: u32)
      returns (status24: Status, status32: Status)
      requires Valid() && d24 != d32 && d24.Length == d32.Length == length
      modifies this`selected, this`banks, this`log, this`failed, d24, d32
      ensures status24 == LengthError <==> status32 == LengthError
      ensures status24 == status32 == Success && Good24(srcAddress, length) && Good32(srcAddress, length) ==>
                d24[..] == d32[..]
    {
      ghost var taken, done;
      status24, taken, done := Copy24(srcAddress, d24, 0, length);
      status32 := Copy32(srcAddress, d32, 0, length);
      hide Good24, Good32, Slice, Plan;
      if status24 == status32 == Success {
        assert d24[..] == d24[0..0 + done] && d32[..] == d32[0..0 + length];
      }
    }
  }
}
