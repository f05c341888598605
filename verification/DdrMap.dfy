/**
 The DDR address map: which bit of a host address (HIF) carries which column, bank group, bank and
 row bit of the memory, and the registers that say so. For a 64-bit bus and no video buffer.
 */
module DdrMap {
  import opened Words

  const MAX_ROWS: nat := 18
  const MAX_COLUMNS: nat := 12
  const MAX_BANKS: nat := 3
  const MAX_BANK_GROUPS: nat := 2

  datatype Option<T> = None | Some(value: T)

  /** A bit of a memory coordinate. */
  datatype Bit = Col(i: nat) | Row(i: nat) | Bank(i: nat) | Bg(i: nat) | Rank(i: nat)

  /** The numbers that stand for them in the table. */
  function Code(bit: Bit): nat {
    match bit
    case Col(i) => 100 + i
    case Row(i) => 200 + i
    case Bank(i) => 300 + i
    case Bg(i) => 400 + i
    case Rank(i) => 500 + i
  }

  lemma CodesDiffer(a: Bit, b: Bit)
    requires a.i < 100 && b.i < 100 && Code(a) == Code(b)
    ensures a == b
  {
  }

  /** The numbers of address bits of a DIMM. */
  datatype Dimm = Dimm(cols: nat, rows: nat, banks: nat, bgs: nat, ranks: nat)

  ghost predicate Supported(d: Dimm) {
    && 9 <= d.cols <= MAX_COLUMNS
    && d.rows <= MAX_ROWS && d.banks <= MAX_BANKS && d.bgs <= MAX_BANK_GROUPS && d.ranks <= 2
  }

  datatype Kind = Ddr4 | Brc | MemMap | NonDdr4

  /** Which builder is used. */
  function KindOf(isDdr4: bool, brcMapping: nat, ddr4AddrMapping: nat): Kind {
    if !isDdr4 then NonDdr4
    else if brcMapping == 1 then Brc
    else if ddr4AddrMapping == 1 then MemMap
    else Ddr4
  }

  predicate Used(d: Dimm, bit: Bit) {
    match bit
    case Col(i) => i < d.cols
    case Row(i) => i < d.rows
    case Bank(i) => i < d.banks
    case Bg(i) => i < d.bgs
    case Rank(i) => i < d.ranks
  }

  /** The bits that a builder lays down: the two DDR4 maps with a fixed beginning lay down one bank
      group bit however many there are, the map for other memories none. */
  predicate Laid(kind: Kind, d: Dimm, bit: Bit) {
    if !bit.Bg? then Used(d, bit)
    else match kind
      case Ddr4 => bit.i < d.bgs
      case NonDdr4 => false
      case _ => bit.i == 0
  }

  /** The maps that lay down every bank group bit there is. */
  predicate Findable(kind: Kind, d: Dimm) {
    match kind
    case Ddr4 => true
    case NonDdr4 => d.bgs == 0
    case _ => d.bgs <= 1
  }

  lemma FindableIs(kind: Kind, d: Dimm)
    requires Supported(d)
    ensures Findable(kind, d) <==> forall g: nat :: g < d.bgs ==> Laid(kind, d, Bg(g))
  {
    if d.bgs > 0 && !Findable(kind, d) {
      assert !Laid(kind, d, Bg(d.bgs - 1));
    }
  }

  function Laids(kind: Kind, d: Dimm): nat {
    d.cols + d.rows + d.banks + d.ranks + match kind
                                          case Ddr4 => d.bgs
                                          case NonDdr4 => 0
                                          case _ => 1
  }

  /** Where each bit is meant to go. */
  function Pos(kind: Kind, d: Dimm, bit: Bit): nat {
    var fixed := if kind == Brc || kind == MemMap then 1 else 0;
    var bgs := match kind
      case Ddr4 => d.bgs
      case NonDdr4 => 0
      case _ => 1;
    match bit
    case Col(i) => if i < 3 then i else i + fixed
    case Bg(i) => if fixed == 1 then 3 + i else d.cols + i
    case Bank(i) => d.cols + bgs + (if kind == Brc then d.rows else 0) + i
    case Row(i) => d.cols + bgs + (if kind == Brc then 0 else d.banks) + i
    case Rank(i) => d.cols + bgs + d.banks + d.rows + i
  }

  /** And which bit is meant to be where. */
  function BitAt(kind: Kind, d: Dimm, p: nat): Bit {
    var fixed := if kind == Brc || kind == MemMap then 1 else 0;
    var bgs := match kind
      case Ddr4 => d.bgs
      case NonDdr4 => 0
      case _ => 1;
    var q := p - d.cols - bgs;
    if fixed == 1 && p == 3 then Bg(0)
    else if p < d.cols + fixed then Col(if p < 3 then p else p - fixed)
    else if p < d.cols + bgs then Bg(p - d.cols)
    else if kind == Brc then
      if q < d.rows then Row(q) else if q < d.rows + d.banks then Bank(q - d.rows) else Rank(q - d.rows - d.banks)
    else
      if q < d.banks then Bank(q) else if q < d.banks + d.rows then Row(q - d.banks) else Rank(q - d.banks - d.rows)
  }

  /** The two are inverse: the layout is a permutation of the bits laid down. */
  lemma PosThenBit(kind: Kind, d: Dimm, bit: Bit)
    requires Supported(d) && Laid(kind, d, bit)
    ensures Pos(kind, d, bit) < Laids(kind, d) <= 38 && BitAt(kind, d, Pos(kind, d, bit)) == bit
  {
    match kind {
      case Ddr4 =>
      case Brc =>
      case MemMap =>
      case NonDdr4 =>
    }
  }

  lemma BitThenPos(kind: Kind, d: Dimm, p: nat)
    requires Supported(d) && p < Laids(kind, d)
    ensures Laid(kind, d, BitAt(kind, d, p)) && Pos(kind, d, BitAt(kind, d, p)) == p && BitAt(kind, d, p).i < 40
  {
    match kind {
      case Ddr4 =>
      case Brc =>
      case MemMap =>
      case NonDdr4 =>
    }
  }

  /** The table holds the layout, and nothing behind it. */
  ghost predicate Written(hif: array<nat>, kind: Kind, d: Dimm)
    reads hif
  {
    && hif.Length == 40
    && forall p :: 0 <= p < 40 ==> hif[p] == if p < Laids(kind, d) then Code(BitAt(kind, d, p)) else 0
  }

  // ---- The builders ----

  /** One loop of a builder: consecutive bits from `from` up to `upto`. */
  method Define(hif: array<nat>, position: nat, base: nat, from: nat, upto: nat) returns (next: nat)
    requires position + (if upto > from then upto - from else 0) <= hif.Length
    modifies hif
    ensures next == position + if upto > from then upto - from else 0
    ensures forall p :: 0 <= p < hif.Length ==>
              hif[p] == if position <= p < next then base + from + (p - position) else old(hif[p])
  {
    next := position;
    var index := from;
    while index < upto
      invariant from <= index && (index == from || index <= upto) && next == position + (index - from)
      invariant forall p :: 0 <= p < hif.Length ==>
                  hif[p] == if position <= p < next then base + from + (p - position) else old(hif[p])
    {
      hif[next] := base + index;
      next := next + 1;
      index := index + 1;
    }
  }

  method CalcDdr4HifAddr(d: Dimm, hif: array<nat>)
    requires Supported(d) && hif.Length == 40 && forall p :: 0 <= p < 40 ==> hif[p] == 0
    modifies hif
    ensures Written(hif, Ddr4, d)
  {
    var position := Define(hif, 0, 100, 0, d.cols);
    position := Define(hif, position, 400, 0, d.bgs);
    position := Define(hif, position, 300, 0, d.banks);
    position := Define(hif, position, 200, 0, d.rows);
    position := Define(hif, position, 500, 0, d.ranks);
  }

  method CalcHifAddrBrcMap(d: Dimm, hif: array<nat>)
    requires Supported(d) && hif.Length == 40 && forall p :: 0 <= p < 40 ==> hif[p] == 0
    modifies hif
    ensures Written(hif, Brc, d)
  {
    hif[0], hif[1], hif[2], hif[3] := Code(Col(0)), Code(Col(1)), Code(Col(2)), Code(Bg(0));
    var position := Define(hif, 4, 100, 3, d.cols);
    position := Define(hif, position, 200, 0, d.rows);
    position := Define(hif, position, 300, 0, d.banks);
    position := Define(hif, position, 500, 0, d.ranks);
  }

  method CalcHifAddrMemMap(d: Dimm, hif: array<nat>)
    requires Supported(d) && hif.Length == 40 && forall p :: 0 <= p < 40 ==> hif[p] == 0
    modifies hif
    ensures Written(hif, MemMap, d)
  {
    hif[0], hif[1], hif[2], hif[3] := Code(Col(0)), Code(Col(1)), Code(Col(2)), Code(Bg(0));
    var position := Define(hif, 4, 100, 3, d.cols);
    position := Define(hif, position, 300, 0, d.banks);
    position := Define(hif, position, 200, 0, d.rows);
    position := Define(hif, position, 500, 0, d.ranks);
  }

  method CalcHifAddr(d: Dimm, hif: array<nat>)
    requires Supported(d) && hif.Length == 40 && forall p :: 0 <= p < 40 ==> hif[p] == 0
    modifies hif
    ensures Written(hif, NonDdr4, d)
  {
    var position := Define(hif, 0, 100, 0, d.cols);
    position := Define(hif, position, 300, 0, d.banks);
    position := Define(hif, position, 200, 0, d.rows);
    position := Define(hif, position, 500, 0, d.ranks);
  }

  // ---- The searches ----

  /** A search loop has no bound; `None` stands for one that runs off the table. */
  method Search(hif: array<nat>, bit: Bit, ghost kind: Kind, ghost d: Dimm) returns (index: Option<nat>)
    requires Supported(d) && Written(hif, kind, d) && bit.i < 40
    ensures index == if Laid(kind, d, bit) then Some(Pos(kind, d, bit)) else None
  {
    if Laid(kind, d, bit) {
      PosThenBit(kind, d, bit);
    }
    assert Code(bit) != 0;
    hide Pos, Laid, BitAt, Laids, Supported, Code;
    var i := 0;
    while i < hif.Length && hif[i] != Code(bit)
      invariant i <= hif.Length
      invariant Laid(kind, d, bit) ==> i <= Pos(kind, d, bit)
    {
      i := i + 1;
    }
    index := if i < hif.Length then Some(i) else None;
    if i < hif.Length {
      BitThenPos(kind, d, i);
      CodesDiffer(BitAt(kind, d, i), bit);
    }
  }

  // ---- The register fields ----

  /** What the controller adds to a field to get the HIF bit number. */
  function Bias(bit: Bit): nat {
    match bit
    case Col(i) => i
    case Bank(i) => i + 2
    case Bg(i) => i + 2
    case Row(i) => i + 6
    case Rank(_) => 6
  }

  /** The field values that mean "no such bit". */
  function UnusedCode(bit: Bit): nat {
    if bit.Col? || bit.Row? then 0xF else 0x1F
  }

  /** The bits that have a field of their own. Columns 0 and 1 are wired to HIF bits 0 and 1. */
  predicate HasField(bit: Bit) {
    match bit
    case Col(i) => 2 <= i < MAX_COLUMNS
    case Row(i) => i < MAX_ROWS
    case Bank(i) => i < MAX_BANKS
    case Bg(i) => i < MAX_BANK_GROUPS
    case Rank(_) => false
  }

  /** Which register holds a field, and in which of its bytes. */
  function RegOf(bit: Bit): (r: nat)
    requires HasField(bit)
    ensures r < 12
  {
    match bit
    case Col(i) => if i < 6 then 2 else if i < 10 then 3 else 4
    case Row(i) =>
      if i < 2 then 5 else if i < 6 then 9 else if i < 10 then 10
      else if i < 11 then 11 else if i < 12 then 5 else if i < 16 then 6 else 7
    case Bank(_) => 1
    case Bg(_) => 8
  }

  function LaneOf(bit: Bit): (k: nat)
    requires HasField(bit)
    ensures k < 4
  {
    match bit
    case Col(i) => if i < 6 then i - 2 else if i < 10 then i - 6 else i - 10
    case Row(i) =>
      if i < 2 then i else if i < 6 then i - 2 else if i < 10 then i - 6
      else if i < 11 then 0 else if i < 12 then 3 else if i < 16 then i - 12 else i - 16
    case Bank(i) => i
    case Bg(i) => i
  }

  /** Four fields side by side in a word. */
  function Pack(f3: nat, f2: nat, f1: nat, f0: nat): nat {
    ((f3 * 0x100 + f2) * 0x100 + f1) * 0x100 + f0
  }

  function Lane(word: nat, k: nat): nat {
    match k
    case 0 => word % 0x100
    case 1 => word / 0x100 % 0x100
    case 2 => word / 0x1_0000 % 0x100
    case _ => word / 0x100_0000 % 0x100
  }

  function Masked(f: nat, mask: nat): nat {
    f % (if mask == 0xF then 0x10 else 0x20)
  }

  lemma MaskKeeps(f: nat, mask: nat)
    requires f <= mask && mask in {0xF, 0x1F}
    ensures Masked(f, mask) == f
  {
  }

  lemma LanesOfPack(f3: nat, f2: nat, f1: nat, f0: nat)
    requires f3 < 0x100 && f2 < 0x100 && f1 < 0x100 && f0 < 0x100
    ensures var w := Pack(f3, f2, f1, f0); Lane(w, 0) == f0 && Lane(w, 1) == f1 && Lane(w, 2) == f2 && Lane(w, 3) == f3
  {
    var w := Pack(f3, f2, f1, f0);
    assert w / 0x100 == (f3 * 0x100 + f2) * 0x100 + f1;
    assert w / 0x1_0000 == f3 * 0x100 + f2;
    assert w / 0x100_0000 == f3;
  }

  lemma MaskKeepsBits(f: bv5)
    ensures f as bv32 & 0x1F == f as bv32
    ensures (f as bv32) as nat == f as nat == Masked(f as nat, 0x1F)
  {
  }

  lemma NarrowMaskKeepsBits(f: bv4)
    ensures f as bv32 & 0xF == f as bv32 == (f as bv5) as bv32
    ensures f as nat == (f as bv5) as nat == Masked(f as nat, 0xF)
  {
  }

  lemma ShiftIsTimes(f: bv5)
    ensures ((f as bv32) << 24) as nat == f as nat * 0x100_0000
    ensures ((f as bv32) << 16) as nat == f as nat * 0x1_0000
    ensures ((f as bv32) << 8) as nat == f as nat * 0x100
    ensures (f as bv32) as nat == f as nat
  {
  }

  lemma OrIsPlus(f3: bv5, f2: bv5, f1: bv5, f0: bv5)
    ensures (((f3 as bv32) << 24) | ((f2 as bv32) << 16) | ((f1 as bv32) << 8) | (f0 as bv32)) as nat
            == ((f3 as bv32) << 24) as nat + ((f2 as bv32) << 16) as nat
               + ((f1 as bv32) << 8) as nat + (f0 as bv32) as nat
  {
  }

  /** The program masks, shifts and ORs, which for fields that fit the mask of five bits is to put them
      side by side. */
  lemma OrIsPack(f3: bv5, f2: bv5, f1: bv5, f0: bv5)
    ensures (((f3 as bv32 & 0x1F) << 24) | ((f2 as bv32 & 0x1F) << 16)
             | ((f1 as bv32 & 0x1F) << 8) | (f0 as bv32 & 0x1F)) as nat
            == Pack(Masked(f3 as nat, 0x1F), Masked(f2 as nat, 0x1F), Masked(f1 as nat, 0x1F), Masked(f0 as nat, 0x1F))
  {
    ShiftIsTimes(f3);
    ShiftIsTimes(f2);
    ShiftIsTimes(f1);
    ShiftIsTimes(f0);
    OrIsPlus(f3, f2, f1, f0);
    MaskKeepsBits(f3);
    MaskKeepsBits(f2);
    MaskKeepsBits(f1);
    MaskKeepsBits(f0);
  }

  /** And the same for those that fit the mask of four bits. */
  lemma OrIsPackNarrow(f3: bv4, f2: bv4, f1: bv4, f0: bv4)
    ensures (((f3 as bv32 & 0xF) << 24) | ((f2 as bv32 & 0xF) << 16)
             | ((f1 as bv32 & 0xF) << 8) | (f0 as bv32 & 0xF)) as nat
            == Pack(Masked(f3 as nat, 0xF), Masked(f2 as nat, 0xF), Masked(f1 as nat, 0xF), Masked(f0 as nat, 0xF))
  {
    ShiftIsTimes(f3 as bv5);
    ShiftIsTimes(f2 as bv5);
    ShiftIsTimes(f1 as bv5);
    ShiftIsTimes(f0 as bv5);
    OrIsPlus(f3 as bv5, f2 as bv5, f1 as bv5, f0 as bv5);
    NarrowMaskKeepsBits(f3);
    NarrowMaskKeepsBits(f2);
    NarrowMaskKeepsBits(f1);
    NarrowMaskKeepsBits(f0);
  }

  /** The field that the program computes for a bit. */
  function Field(kind: Kind, d: Dimm, bit: Bit): u32 {
    if !Used(d, bit) then UnusedCode(bit)
    else if bit.Bg? && Pos(kind, d, bit) < Bias(bit) then 0
    else Wrap(Pos(kind, d, bit) - Bias(bit))
  }

  /** No field is out of range or looks unused: the position is never below the bias, nor too far
      above it. */
  lemma FieldFits(kind: Kind, d: Dimm, bit: Bit)
    requires Supported(d) && HasField(bit) && Used(d, bit) && Laid(kind, d, bit)
    ensures Field(kind, d, bit) == Pos(kind, d, bit) - Bias(bit) < UnusedCode(bit)
  {
    WrapSmall(if Pos(kind, d, bit) >= Bias(bit) then Pos(kind, d, bit) - Bias(bit) else 0);
  }

  // ---- What the registers mean ----

  /** The HIF bit that carries a coordinate bit, as the controller reads the registers. */
  function Decoded(regs: seq<nat>, bit: Bit): Option<nat>
    requires |regs| == 12
  {
    if bit == Col(0) || bit == Col(1) then Some(bit.i)
    else if !HasField(bit) then None
    else
      var field := Lane(regs[RegOf(bit)], LaneOf(bit));
      if field == UnusedCode(bit) then None else Some(field + Bias(bit))
  }

  /** The registers hold the fields that the program computed. */
  ghost predicate Programmed(regs: seq<nat>, kind: Kind, d: Dimm) {
    && |regs| == 12
    && forall bit :: HasField(bit) ==> Lane(regs[RegOf(bit)], LaneOf(bit)) == Field(kind, d, bit)
  }

  /** Every bit of the memory has a host address bit of its own, and the host address bits used are
      the lowest ones, without a hole. */
  ghost predicate OneToOne(regs: seq<nat>, d: Dimm)
    requires |regs| == 12
  {
    var n := d.cols + d.rows + d.banks + d.bgs + d.ranks;
    && (forall bit :: Used(d, bit) ==> Decoded(regs, bit).Some? && Decoded(regs, bit).value < n)
    && (forall p: nat :: p < n ==> Reached(regs, d, p))
    && (forall a, b :: Used(d, a) && Used(d, b) && Decoded(regs, a) == Decoded(regs, b) ==> a == b)
    && (forall bit :: HasField(bit) && !Used(d, bit) ==> Decoded(regs, bit) == None)
  }

  ghost predicate Reached(regs: seq<nat>, d: Dimm, p: nat)
    requires |regs| == 12
  {
    exists bit :: Used(d, bit) && Decoded(regs, bit) == Some(p)
  }

  /** The number of bank group bits each map is made for, and a single rank. */
  predicate MadeFor(kind: Kind, d: Dimm) {
    && d.ranks == 0
    && match kind
       case Ddr4 => true
       case NonDdr4 => d.bgs == 0
       case _ => d.bgs == 1
  }

  lemma DecodedIs(regs: seq<nat>, kind: Kind, d: Dimm, bit: Bit)
    requires Supported(d) && Programmed(regs, kind, d)
    requires Findable(kind, d)
    requires !bit.Rank?
    ensures Used(d, bit) ==> Decoded(regs, bit) == Some(Pos(kind, d, bit)) && Laid(kind, d, bit)
    ensures !Used(d, bit) && HasField(bit) ==> Decoded(regs, bit) == None
  {
    hide Lane, RegOf, LaneOf;
    if bit == Col(0) || bit == Col(1) {
    } else if Used(d, bit) {
      hide Pos, Bias, UnusedCode, Field;
      FieldFits(kind, d, bit);
    } else {
      hide Pos, Bias, UnusedCode;
    }
  }

  /** The map is one to one exactly for the memories it is made for. */
  lemma OneToOneExactly(regs: seq<nat>, kind: Kind, d: Dimm)
    requires Supported(d) && Programmed(regs, kind, d)
    requires Findable(kind, d)
    ensures OneToOne(regs, d) <==> MadeFor(kind, d)
  {
    if d.ranks > 0 {
      assert Used(d, Rank(0)) && Decoded(regs, Rank(0)) == None;
    } else if MadeFor(kind, d) {
      MadeForIsOneToOne(regs, kind, d);
    } else {
      Hole(regs, kind, d);
    }
  }

  /** A map with a fixed place for a bank group bit leaves a hole there when there is none. */
  lemma Hole(regs: seq<nat>, kind: Kind, d: Dimm)
    requires Supported(d) && Programmed(regs, kind, d)
    requires d.bgs == 0 && d.ranks == 0 && (kind == Brc || kind == MemMap)
    ensures !Reached(regs, d, 3)
  {
    forall bit | Used(d, bit) ensures Decoded(regs, bit) != Some(3) {
      DecodedIs(regs, kind, d, bit);
    }
  }

  lemma MadeForIsOneToOne(regs: seq<nat>, kind: Kind, d: Dimm)
    requires Supported(d) && Programmed(regs, kind, d) && MadeFor(kind, d)
    ensures OneToOne(regs, d)
  {
    var n := d.cols + d.rows + d.banks + d.bgs + d.ranks;
    assert Laids(kind, d) == n;
    assert forall bit :: Used(d, bit) <==> Laid(kind, d, bit);
    forall bit | Used(d, bit) ensures Decoded(regs, bit).Some? && Decoded(regs, bit).value < n {
      DecodedIs(regs, kind, d, bit);
      PosThenBit(kind, d, bit);
    }
    forall p: nat | p < n ensures Reached(regs, d, p) {
      BitThenPos(kind, d, p);
      DecodedIs(regs, kind, d, BitAt(kind, d, p));
    }
    forall a, b | Used(d, a) && Used(d, b) && Decoded(regs, a) == Decoded(regs, b) ensures a == b {
      DecodedIs(regs, kind, d, a);
      DecodedIs(regs, kind, d, b);
      PosThenBit(kind, d, a);
      PosThenBit(kind, d, b);
    }
    forall bit | HasField(bit) && !Used(d, bit) ensures Decoded(regs, bit) == None {
      DecodedIs(regs, kind, d, bit);
    }
  }

  /** The host address bit of one coordinate bit is below that of another. */
  ghost predicate Below(regs: seq<nat>, a: Bit, b: Bit)
    requires |regs| == 12
  {
    && Decoded(regs, a).Some? && Decoded(regs, b).Some?
    && Decoded(regs, a).value < Decoded(regs, b).value
  }

  /** The bits of each coordinate ascend. */
  ghost predicate Ascending(regs: seq<nat>, d: Dimm)
    requires |regs| == 12
  {
    && (forall i: nat, j: nat :: i < j < d.cols ==> Below(regs, Col(i), Col(j)))
    && (forall i: nat, j: nat :: i < j < d.rows ==> Below(regs, Row(i), Row(j)))
    && (forall i: nat, j: nat :: i < j < d.banks ==> Below(regs, Bank(i), Bank(j)))
    && (forall i: nat, j: nat :: i < j < d.bgs ==> Below(regs, Bg(i), Bg(j)))
  }

  /** Which coordinates are above which: the bits of each ascend, columns and bank groups are below banks
      and rows, and banks below rows save in the bank-row-column map. The default DDR4 map has its bank
      groups on top of the columns, the other two have bank group bit 0 on host bit 3. */
  ghost predicate InOrder(regs: seq<nat>, isDdr4: bool, brcMapping: nat, ddr4AddrMapping: nat, d: Dimm)
    requires |regs| == 12
  {
    && Ascending(regs, d)
    && (forall c: nat, b: nat :: c < d.cols && b < d.banks ==> Below(regs, Col(c), Bank(b)))
    && (forall c: nat, r: nat :: c < d.cols && r < d.rows ==> Below(regs, Col(c), Row(r)))
    && (forall g: nat, b: nat :: g < d.bgs && b < d.banks ==> Below(regs, Bg(g), Bank(b)))
    && (forall g: nat, r: nat :: g < d.bgs && r < d.rows ==> Below(regs, Bg(g), Row(r)))
    && (forall b: nat, r: nat :: b < d.banks && r < d.rows ==>
          if isDdr4 && brcMapping == 1 then Below(regs, Row(r), Bank(b)) else Below(regs, Bank(b), Row(r)))
    && (isDdr4 && brcMapping != 1 && ddr4AddrMapping != 1 ==>
          forall c: nat, g: nat :: c < d.cols && g < d.bgs ==> Below(regs, Col(c), Bg(g)))
    && (isDdr4 && (brcMapping == 1 || ddr4AddrMapping == 1) && d.bgs > 0 ==> Decoded(regs, Bg(0)) == Some(3))
  }

  lemma DecodedBelow(regs: seq<nat>, kind: Kind, d: Dimm, a: Bit, b: Bit)
    requires Supported(d) && Programmed(regs, kind, d) && Findable(kind, d)
    requires Used(d, a) && Used(d, b) && !a.Rank? && !b.Rank? && Pos(kind, d, a) < Pos(kind, d, b)
    ensures Below(regs, a, b)
  {
    DecodedIs(regs, kind, d, a);
    DecodedIs(regs, kind, d, b);
  }

  lemma AllBelow(regs: seq<nat>, kind: Kind, d: Dimm)
    requires Supported(d) && Programmed(regs, kind, d) && Findable(kind, d)
    ensures forall a, b :: Used(d, a) && Used(d, b) && !a.Rank? && !b.Rank? && Pos(kind, d, a) < Pos(kind, d, b) ==>
                             Below(regs, a, b)
  {
    assert |regs| == 12;
    hide Below, Pos, Used;
    forall a, b | Used(d, a) && Used(d, b) && !a.Rank? && !b.Rank? && Pos(kind, d, a) < Pos(kind, d, b)
      ensures Below(regs, a, b)
    {
      DecodedBelow(regs, kind, d, a, b);
    }
  }

  lemma Ascends(regs: seq<nat>, kind: Kind, d: Dimm)
    requires Supported(d) && Programmed(regs, kind, d) && Findable(kind, d)
    ensures Ascending(regs, d)
  {
    assert |regs| == 12;
    hide Decoded, Below, Programmed, Supported, Findable;
    AllBelow(regs, kind, d);
  }

  lemma OrderedAs(regs: seq<nat>, isDdr4: bool, brcMapping: nat, ddr4AddrMapping: nat, d: Dimm)
    requires var kind := KindOf(isDdr4, brcMapping, ddr4AddrMapping);
             Supported(d) && Programmed(regs, kind, d) && Findable(kind, d)
    ensures InOrder(regs, isDdr4, brcMapping, ddr4AddrMapping, d)
  {
    var kind := KindOf(isDdr4, brcMapping, ddr4AddrMapping);
    assert |regs| == 12;
    if d.bgs > 0 {
      DecodedIs(regs, kind, d, Bg(0));
    }
    hide Decoded, Below, Programmed, Supported, Findable, Laid, Ascending;
    Ascends(regs, kind, d);
    AllBelow(regs, kind, d);
  }

  // ---- The program ----

  class Ddrc {
    const dimm: Dimm
    const bankBit: array<u32>
    const bgBit: array<u32>
    const colBit: array<u32>
    const rowBit: array<u32>
    const regVal: array<nat>

    ghost predicate Valid() {
      && Supported(dimm)
      && bankBit.Length == MAX_BANKS && bgBit.Length == MAX_BANK_GROUPS
      && colBit.Length == MAX_COLUMNS && rowBit.Length == MAX_ROWS && regVal.Length == 12
      && bankBit != bgBit && bankBit != colBit && bankBit != rowBit
      && bgBit != colBit && bgBit != rowBit && colBit != rowBit
    }

    constructor (dimm: Dimm)
      requires Supported(dimm)
      ensures Valid() && this.dimm == dimm
      ensures fresh(bankBit) && fresh(bgBit) && fresh(colBit) && fresh(rowBit) && fresh(regVal)
    {
      this.dimm := dimm;
      bankBit := new u32[MAX_BANKS](_ => 0);
      bgBit := new u32[MAX_BANK_GROUPS](_ => 0);
      colBit := new u32[MAX_COLUMNS](_ => 0);
      rowBit := new u32[MAX_ROWS](_ => 0);
      regVal := new nat[12](_ => 0);
    }

    method CalcBankAddr(hif: array<nat>, ghost kind: Kind)
      requires Valid() && Written(hif, kind, dimm)
      modifies bankBit
      ensures forall b: nat :: b < MAX_BANKS ==> bankBit[b] == Field(kind, dimm, Bank(b))
    {
      hide Pos, BitAt, Laids;
      for b := 0 to MAX_BANKS
        invariant forall i: nat :: i < b ==> bankBit[i] == Field(kind, dimm, Bank(i))
      {
        if b < dimm.banks {
          var index := Search(hif, Bank(b), kind, dimm);
          bankBit[b] := Wrap(index.value - (b + 2));
        } else {
          bankBit[b] := 0x1F;
        }
      }
    }

    /** The search for a bank group bit that was not laid down runs off the table. */
    method CalcBgAddr(hif: array<nat>, ghost kind: Kind) returns (ok: bool)
      requires Valid() && Written(hif, kind, dimm)
      modifies bgBit
      ensures ok <==> Findable(kind, dimm)
      ensures ok ==> forall g: nat :: g < MAX_BANK_GROUPS ==> bgBit[g] == Field(kind, dimm, Bg(g))
    {
      hide Pos, BitAt, Laids;
      for g := 0 to MAX_BANK_GROUPS
        invariant forall i: nat :: i < g && i < dimm.bgs ==> Laid(kind, dimm, Bg(i))
        invariant forall i: nat :: i < g ==> bgBit[i] == Field(kind, dimm, Bg(i))
      {
        if g < dimm.bgs {
          var index := Search(hif, Bg(g), kind, dimm);
          if index == None {
            FindableIs(kind, dimm);
            return false;
          }
          if index.value >= g + 2 {
            bgBit[g] := Wrap(index.value - (g + 2));
          } else {
            bgBit[g] := 0;
          }
        } else {
          bgBit[g] := 0x1F;
        }
      }
      FindableIs(kind, dimm);
      return true;
    }

    method CalcColAddr(hif: array<nat>, ghost kind: Kind)
      requires Valid() && Written(hif, kind, dimm)
      modifies colBit
      ensures forall c: nat :: 2 <= c < MAX_COLUMNS ==> colBit[c] == Field(kind, dimm, Col(c))
    {
      hide Pos, BitAt, Laids;
      for c := 2 to MAX_COLUMNS
        invariant forall i: nat :: 2 <= i < c ==> colBit[i] == Field(kind, dimm, Col(i))
      {
        if c < dimm.cols {
          var index := Search(hif, Col(c), kind, dimm);
          colBit[c] := Wrap(index.value - c);
        } else {
          colBit[c] := 0xF;
        }
      }
    }

    method CalcRowAddr(hif: array<nat>, ghost kind: Kind)
      requires Valid() && Written(hif, kind, dimm)
      modifies rowBit
      ensures forall r: nat :: r < MAX_ROWS ==> rowBit[r] == Field(kind, dimm, Row(r))
    {
      hide Pos, BitAt, Laids;
      for r := 0 to MAX_ROWS
        invariant forall i: nat :: i < r ==> rowBit[i] == Field(kind, dimm, Row(i))
      {
        if r < dimm.rows {
          var index := Search(hif, Row(r), kind, dimm);
          rowBit[r] := Wrap(index.value - (r + 6));
        } else {
          rowBit[r] := 0xF;
        }
      }
    }

    ghost function Entry(bit: Bit): u32
      reads bankBit, bgBit, colBit, rowBit
      requires Valid() && HasField(bit)
    {
      match bit
      case Col(i) => colBit[i]
      case Row(i) => rowBit[i]
      case Bank(i) => bankBit[i]
      case Bg(i) => bgBit[i]
    }

    static predicate FourLanes(word: nat, f3: nat, f2: nat, f1: nat, f0: nat) {
      && Lane(word, 0) == f0 && Lane(word, 1) == f1 && Lane(word, 2) == f2 && Lane(word, 3) == f3
      && word < 0x1_0000_0000
    }

    /** All fields are where they belong. */
    ghost predicate AllPacked()
      reads regVal, bankBit, bgBit, colBit, rowBit
      requires Valid()
    {
      && FourLanes(regVal[0], 0, 0, 0, 0x1F)
      && FourLanes(regVal[1], 0, bankBit[2], bankBit[1], bankBit[0])
      && FourLanes(regVal[2], colBit[5], colBit[4], colBit[3], colBit[2])
      && FourLanes(regVal[3], colBit[9], colBit[8], colBit[7], colBit[6])
      && FourLanes(regVal[4], 0, 0, colBit[11], colBit[10])
      && FourLanes(regVal[5], rowBit[11], 15, rowBit[1], rowBit[0])
      && FourLanes(regVal[6], rowBit[15], rowBit[14], rowBit[13], rowBit[12])
      && FourLanes(regVal[7], 0, 0, rowBit[17], rowBit[16])
      && FourLanes(regVal[8], 0, 0, bgBit[1], bgBit[0])
      && FourLanes(regVal[9], rowBit[5], rowBit[4], rowBit[3], rowBit[2])
      && FourLanes(regVal[10], rowBit[9], rowBit[8], rowBit[7], rowBit[6])
      && FourLanes(regVal[11], 0, 0, 0, rowBit[10])
    }

    /** So every field is read back where the controller reads it. */
    lemma PackedIsRead()
      requires Valid() && AllPacked()
      ensures forall bit :: HasField(bit) ==> Lane(regVal[RegOf(bit)], LaneOf(bit)) == Entry(bit)
    {
      hide Lane;
    }

    static lemma WordOfLanes(word: nat, f3: nat, f2: nat, f1: nat, f0: nat)
      requires FourLanes(word, f3, f2, f1, f0)
      ensures word == ((f3 * 0x100 + f2) * 0x100 + f1) * 0x100 + f0
    {
      assert word / 0x1_0000 == word / 0x100 / 0x100 && word / 0x100_0000 == word / 0x1_0000 / 0x100;
    }

    /** The registers of a DDR4 memory with 10 columns, 15 rows and 4 banks in each of 4 groups. */
    lemma UsualRegisters()
      requires Valid() && dimm == Dimm(10, 15, 2, 2, 0)
      requires Programmed(regVal[..], KindOf(true, 0, 0), dimm) && AllPacked()
      ensures regVal[..] == [0x1F, 0x1F_0A0A, 0, 0, 0x0F0F, 0x080F_0808, 0x0F08_0808, 0x0F0F, 0x0808,
                             0x0808_0808, 0x0808_0808, 0x08]
    {
      forall bit | HasField(bit)
        ensures Entry(bit) == if !Used(dimm, bit) then UnusedCode(bit)
                              else if bit.Bank? then 10 else if bit.Col? then 0 else 8
      {
        PackedIsRead();
        if Used(dimm, bit) {
          FieldFits(Ddr4, dimm, bit);
        }
      }
      UsualWords();
    }

    lemma UsualWords()
      requires Valid() && dimm == Dimm(10, 15, 2, 2, 0) && AllPacked()
      requires forall bit :: HasField(bit) ==>
                 Entry(bit) == if !Used(dimm, bit) then UnusedCode(bit)
                               else if bit.Bank? then 10 else if bit.Col? then 0 else 8
      ensures regVal[..] == [0x1F, 0x1F_0A0A, 0, 0, 0x0F0F, 0x080F_0808, 0x0F08_0808, 0x0F0F, 0x0808,
                             0x0808_0808, 0x0808_0808, 0x08]
    {
      forall b: nat | b < MAX_BANKS ensures bankBit[b] == if b < 2 then 10 else 0x1F {
        assert HasField(Bank(b));
      }
      forall g: nat | g < MAX_BANK_GROUPS ensures bgBit[g] == 8 {
        assert HasField(Bg(g));
      }
      forall c: nat | 2 <= c < MAX_COLUMNS ensures colBit[c] == if c < 10 then 0 else 0xF {
        assert HasField(Col(c));
      }
      forall r: nat | r < MAX_ROWS ensures rowBit[r] == if r < 15 then 8 else 0xF {
        assert HasField(Row(r));
      }
      assert bankBit.Length == 3 && bgBit.Length == 2 && colBit.Length == 12 && rowBit.Length == 18;
      assert regVal.Length == 12;
      hide *;
      WordOfLanes(regVal[0], 0, 0, 0, 0x1F);
      WordOfLanes(regVal[1], 0, bankBit[2], bankBit[1], bankBit[0]);
      WordOfLanes(regVal[2], colBit[5], colBit[4], colBit[3], colBit[2]);
      WordOfLanes(regVal[3], colBit[9], colBit[8], colBit[7], colBit[6]);
      WordOfLanes(regVal[4], 0, 0, colBit[11], colBit[10]);
      WordOfLanes(regVal[5], rowBit[11], 15, rowBit[1], rowBit[0]);
      WordOfLanes(regVal[6], rowBit[15], rowBit[14], rowBit[13], rowBit[12]);
      WordOfLanes(regVal[7], 0, 0, rowBit[17], rowBit[16]);
      WordOfLanes(regVal[8], 0, 0, bgBit[1], bgBit[0]);
      WordOfLanes(regVal[9], rowBit[5], rowBit[4], rowBit[3], rowBit[2]);
      WordOfLanes(regVal[10], rowBit[9], rowBit[8], rowBit[7], rowBit[6]);
      WordOfLanes(regVal[11], 0, 0, 0, rowBit[10]);
    }

    /** Masks the fields of one register and puts them side by side. */
    method SetReg(r: nat, mask: nat, f3: u32, f2: u32, f1: u32, f0: u32)
      requires Valid() && r < 12 && mask in {0xF, 0x1F}
      requires f3 <= mask && f2 <= mask && f1 <= mask && f0 <= mask
      modifies regVal
      ensures FourLanes(regVal[r], f3, f2, f1, f0)
      ensures forall i :: 0 <= i < 12 && i != r ==> regVal[i] == old(regVal[i])
    {
      LanesOfPack(f3, f2, f1, f0);
      MaskKeeps(f3, mask);
      MaskKeeps(f2, mask);
      MaskKeeps(f1, mask);
      MaskKeeps(f0, mask);
      hide Lane, Pack, Masked;
      regVal[r] := Pack(Masked(f3, mask), Masked(f2, mask), Masked(f1, mask), Masked(f0, mask));
    }

    /** The twelve registers. The chip select is not mapped, and the row bits 2 to 10 have fields of
        their own. */
    method PackRegisters()
      requires Valid() && forall bit :: HasField(bit) ==> Entry(bit) <= UnusedCode(bit)
      modifies regVal
      ensures forall bit :: HasField(bit) ==> Lane(regVal[RegOf(bit)], LaneOf(bit)) == Entry(bit)
      ensures AllPacked()
    {
      EntriesFit();
      hide Lane, Pack, FourLanes, Entry, RegOf, LaneOf;
      var csBit0, rowBits2To10 := 0x1F, 15;
      SetReg(0, 0x1F, 0, 0, 0, csBit0);
      SetReg(1, 0x1F, 0, bankBit[2], bankBit[1], bankBit[0]);
      SetReg(2, 0xF, colBit[5], colBit[4], colBit[3], colBit[2]);
      SetReg(3, 0xF, colBit[9], colBit[8], colBit[7], colBit[6]);
      SetReg(4, 0xF, 0, 0, colBit[11], colBit[10]);
      SetReg(5, 0xF, rowBit[11], rowBits2To10, rowBit[1], rowBit[0]);
      SetReg(6, 0xF, rowBit[15], rowBit[14], rowBit[13], rowBit[12]);
      SetReg(7, 0xF, 0, 0, rowBit[17], rowBit[16]);
      SetReg(8, 0x1F, 0, 0, bgBit[1], bgBit[0]);
      SetReg(9, 0xF, rowBit[5], rowBit[4], rowBit[3], rowBit[2]);
      SetReg(10, 0xF, rowBit[9], rowBit[8], rowBit[7], rowBit[6]);
      SetReg(11, 0xF, 0, 0, 0, rowBit[10]);
      PackedIsRead();
    }

    lemma EntriesFit()
      requires Valid() && forall bit :: HasField(bit) ==> Entry(bit) <= UnusedCode(bit)
      ensures forall i: nat :: i < MAX_BANKS ==> bankBit[i] <= 0x1F
      ensures forall i: nat :: i < MAX_BANK_GROUPS ==> bgBit[i] <= 0x1F
      ensures forall i: nat :: 2 <= i < MAX_COLUMNS ==> colBit[i] <= 0xF
      ensures forall i: nat :: i < MAX_ROWS ==> rowBit[i] <= 0xF
    {
      forall i: nat | i < MAX_BANKS ensures bankBit[i] <= 0x1F { assert HasField(Bank(i)); }
      forall i: nat | i < MAX_BANK_GROUPS ensures bgBit[i] <= 0x1F { assert HasField(Bg(i)); }
      forall i: nat | 2 <= i < MAX_COLUMNS ensures colBit[i] <= 0xF { assert HasField(Col(i)); }
      forall i: nat | i < MAX_ROWS ensures rowBit[i] <= 0xF { assert HasField(Row(i)); }
    }

    /** Builds the table, searches it, and fills the registers. It gets through exactly when every
        bank group bit was laid down, and then the registers are one to one exactly for the memories
        that the map is made for. */
    method CalcAddrMap(isDdr4: bool, brcMapping: nat, ddr4AddrMapping: nat) returns (ok: bool)
      requires Valid()
      modifies bankBit, bgBit, colBit, rowBit, regVal
      ensures var kind := KindOf(isDdr4, brcMapping, ddr4AddrMapping);
              && (ok <==> Findable(kind, dimm))
              && (ok ==> Programmed(regVal[..], kind, dimm))
              && (ok ==> (OneToOne(regVal[..], dimm) <==> MadeFor(kind, dimm)))
      ensures ok <==> dimm.bgs <= if !isDdr4 then 0 else if brcMapping == 1 || ddr4AddrMapping == 1 then 1 else 2
      ensures ok ==> (OneToOne(regVal[..], dimm) <==>
                      dimm.ranks == 0 && (isDdr4 && (brcMapping == 1 || ddr4AddrMapping == 1) ==> dimm.bgs == 1))
      ensures ok ==> InOrder(regVal[..], isDdr4, brcMapping, ddr4AddrMapping, dimm)
      ensures ok ==> AllPacked()
    {
      ghost var kind := KindOf(isDdr4, brcMapping, ddr4AddrMapping);
      var hif := new nat[40](_ => 0);
      if brcMapping == 1 {
        if !isDdr4 {
          CalcHifAddr(dimm, hif);
        } else {
          CalcHifAddrBrcMap(dimm, hif);
        }
      } else {
        if !isDdr4 {
          CalcHifAddr(dimm, hif);
        } else if ddr4AddrMapping == 1 {
          CalcHifAddrMemMap(dimm, hif);
        } else {
          CalcDdr4HifAddr(dimm, hif);
        }
      }
      assert Written(hif, kind, dimm);
      ok := FillFields(hif, kind);
      if ok {
        PackRegisters();
        OneToOneExactly(regVal[..], kind, dimm);
        OrderedAs(regVal[..], isDdr4, brcMapping, ddr4AddrMapping, dimm);
      }
    }

    method FillFields(hif: array<nat>, ghost kind: Kind) returns (ok: bool)
      requires Valid() && Written(hif, kind, dimm)
      modifies bankBit, bgBit, colBit, rowBit
      ensures ok <==> Findable(kind, dimm)
      ensures ok ==> forall bit :: HasField(bit) ==> Entry(bit) == Field(kind, dimm, bit) <= UnusedCode(bit)
    {
      CalcBankAddr(hif, kind);
      CalcColAddr(hif, kind);
      CalcRowAddr(hif, kind);
      ok := CalcBgAddr(hif, kind);
      if ok {
        forall bit | HasField(bit) ensures Entry(bit) == Field(kind, dimm, bit) <= UnusedCode(bit) {
          if Used(dimm, bit) {
            assert bit.Bg? ==> bit == Bg(bit.i);
            FieldFits(kind, dimm, bit);
          }
        }
      }
    }
  }
}
