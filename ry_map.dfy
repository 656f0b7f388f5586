/** The address map of the RY parts: how the shared mode register selects the
    layout of program flash (P-flash, four 2 MiB controller blocks) and data
    flash (D-flash, two 128 KiB blocks plus the SCS window), and how an
    address is resolved to the index of the controller that owns it. */
module RyMap {
  import opened Flash

  /** Which flash, chosen by a type bit of the address. */
  datatype Kind = PFlash | DFlash

  /** en_flash_mapping_mode_t */
  datatype Mode = Single | DoubleA | DoubleB

  const MODE_REG: Word := 0x4002703C
  const PFLASH_TYPE_BIT: nat := 0x10000000
  const DFLASH_TYPE_BIT: nat := 0x40000000

  const PFU_BLOCK_SIZE: nat := 0x200000
  const DFU_BLOCK_SIZE: nat := 0x20000
  const SCS_BASE: nat := 0x40C00000
  const SCS_BLOCK_SIZE: nat := 0x4000

  /** The flash an address belongs to: the P bit is tested before the D bit;
      an address with neither is invalid. */
  function Classify(addr: Word): Option<Kind>
  {
    if BitSet(addr, PFLASH_TYPE_BIT) then Some(PFlash)
    else if BitSet(addr, DFLASH_TYPE_BIT) then Some(DFlash)
    else None
  }

  /** The mode FLASH_GetMapMode reports for `kind` given the mode register's
      value: P-flash looks at bits 0 and 2, D-flash at bits 1 and 3; the low
      bit clear means single mapping, otherwise the high bit picks A over B. */
  function MapMode(kind: Kind, scs: Word): Mode
  {
    var (enable, pickA) := if kind == PFlash then (1, 4) else (2, 8);
    if !BitSet(scs, enable) then Single
    else if BitSet(scs, pickA) then DoubleA
    else DoubleB
  }

  /** A mode-register value that selects P-flash mode `p` and D-flash mode `d`. */
  function ScsValue(p: Mode, d: Mode): Word
  {
    (match p case Single => 0 case DoubleA => 5 case DoubleB => 1) +
    (match d case Single => 0 case DoubleA => 10 case DoubleB => 2)
  }

  /** Decoding an encoded mode register gives back both modes: each flash's
      mode is read from its own two bits only. */
  lemma MapModeDecodesScsValue(p: Mode, d: Mode)
    ensures MapMode(PFlash, ScsValue(p, d)) == p
    ensures MapMode(DFlash, ScsValue(p, d)) == d
  {
    var v := ScsValue(p, d);
    assert v < 16;
  }

  /** Bits 0 to 3 of a value are those of its low nibble, one bit at a time. */
  lemma LowBit1(v: nat)
    ensures BitSet(v, 1) == BitSet(v % 16, 1)
  {
    assert v == 2 * (8 * (v / 16) + (v % 16) / 2) + v % 2;
  }

  lemma ParityShift(x: nat, y: nat)
    ensures (2 * x + y) % 2 == y % 2
  {
  }

  lemma LowBit2(v: nat)
    ensures BitSet(v, 2) == BitSet(v % 16, 2)
  {
    var q, lo := v / 16, v % 16;
    var a, b := v / 2, lo / 2;
    assert v == 2 * (8 * q + b) + lo % 2;
    assert a == 2 * (4 * q) + b;
    ParityShift(4 * q, b);
  }

  lemma LowBit4(v: nat)
    ensures BitSet(v, 4) == BitSet(v % 16, 4)
  {
    var q, lo := v / 16, v % 16;
    var a, b := v / 4, lo / 4;
    assert v == 4 * (4 * q + b) + lo % 4;
    assert a == 2 * (2 * q) + b;
    ParityShift(2 * q, b);
  }

  lemma LowBit8(v: nat)
    ensures BitSet(v, 8) == BitSet(v % 16, 8)
  {
    var q, lo := v / 16, v % 16;
    var a, b := v / 8, lo / 8;
    assert v == 8 * (2 * q + b) + lo % 8;
    assert a == 2 * q + b;
    ParityShift(q, b);
  }

  /** For every register value, P-flash's mode is decided by bits 0 and 2
      alone and D-flash's by bits 1 and 3 alone. */
  lemma MapModeOwnBits(v: Word)
    ensures MapMode(PFlash, v) == MapMode(PFlash, v % 2 + 4 * ((v / 4) % 2))
    ensures MapMode(DFlash, v) == MapMode(DFlash, 2 * ((v / 2) % 2) + 8 * ((v / 8) % 2))
  {
    var p0, p2 := v % 2, (v / 4) % 2;
    var w := p0 + 4 * p2;
    assert w % 2 == p0 && (w / 4) % 2 == p2;
    var d1, d3 := (v / 2) % 2, (v / 8) % 2;
    var u := 2 * d1 + 8 * d3;
    assert u / 2 == d1 + 4 * d3 && u / 8 == d3;
    assert (u / 2) % 2 == d1 by { ParityShift(2 * d3, d1); assert d1 + 4 * d3 == 2 * (2 * d3) + d1; }
  }

  /** Only the low four bits of the mode register matter. */
  lemma MapModeLowNibble(kind: Kind, scs: Word)
    ensures MapMode(kind, scs) == MapMode(kind, scs % 16)
  {
    LowBit1(scs);
    LowBit2(scs);
    LowBit4(scs);
    LowBit8(scs);
  }

  /** The controller base-address tables, per flash and mode. */
  function Table(kind: Kind, mode: Mode): (t: seq<Word>)
    ensures |t| == if kind == PFlash then 4 else 2
  {
    match (kind, mode)
    case (PFlash, Single) => [0x10000000, 0x10200000, 0x10400000, 0x10600000]
    case (PFlash, DoubleA) => [0x10000000, 0x10200000, 0x14000000, 0x14200000]
    case (PFlash, DoubleB) => [0x14000000, 0x14200000, 0x10000000, 0x10200000]
    case (DFlash, Single) => [0x40400000, 0x40420000]
    case (DFlash, DoubleA) => [0x40400000, 0x40800000]
    case (DFlash, DoubleB) => [0x40800000, 0x40400000]
  }

  function Block(kind: Kind): nat
  {
    if kind == PFlash then PFU_BLOCK_SIZE else DFU_BLOCK_SIZE
  }

  predicate InBlock(start: nat, size: nat, addr: nat)
  {
    start <= addr < start + size
  }

  /** No address lies in two blocks of a table. */
  predicate Disjoint(t: seq<Word>, size: nat)
  {
    forall i, j :: 0 <= i < |t| && 0 <= j < |t| && i != j ==> t[i] + size <= t[j] || t[j] + size <= t[i]
  }

  lemma TablesDisjoint(kind: Kind, mode: Mode)
    ensures Disjoint(Table(kind, mode), Block(kind))
  {
    var t := Table(kind, mode);
    forall i, j | 0 <= i < |t| && 0 <= j < |t| && i != j
      ensures t[i] + Block(kind) <= t[j] || t[j] + Block(kind) <= t[i]
    {
    }
  }

  /** The chain `if (addr in block 0) ... else if (addr in block 1) ...`
      from entry `i` on: the first block that holds `addr`, if any. */
  function FirstHit(t: seq<Word>, size: nat, addr: nat, i: nat): (r: Option<nat>)
    requires i <= |t|
    ensures r.Some? ==> i <= r.value < |t| && InBlock(t[r.value], size, addr)
    ensures r.Some? ==> forall j :: i <= j < r.value ==> !InBlock(t[j], size, addr)
    ensures r.None? ==> forall j :: i <= j < |t| ==> !InBlock(t[j], size, addr)
    decreases |t| - i
  {
    if i == |t| then None
    else if InBlock(t[i], size, addr) then Some(i)
    else FirstHit(t, size, addr, i + 1)
  }

  predicate InScs(addr: nat)
  {
    InBlock(SCS_BASE, SCS_BLOCK_SIZE, addr)
  }

  /** The controller index of `addr` once its flash and the mode are known
      (the lookup part of get_pdfu_instance): a D-flash address in the SCS
      window belongs to controller 0 whatever the mode; otherwise the address
      belongs to the one table entry whose block holds it, and to none if no
      block does. */
  function Resolve(kind: Kind, mode: Mode, addr: Word): (r: Option<nat>)
    ensures r.Some? ==> r.value < |Table(kind, mode)|
    ensures kind == DFlash && InScs(addr) ==> r == Some(0)
    ensures !(kind == DFlash && InScs(addr)) ==>
              forall i :: 0 <= i < |Table(kind, mode)| ==>
                (r == Some(i) <==> InBlock(Table(kind, mode)[i], Block(kind), addr))
  {
    if kind == DFlash && InScs(addr) then Some(0)
    else
      TablesDisjoint(kind, mode);
      FirstHit(Table(kind, mode), Block(kind), addr, 0)
  }

  /** The instance index in mode B is the mode-A index shifted by half the
      table: the two halves of each flash swap places. */
  function Swapped(kind: Kind, r: Option<nat>): Option<nat>
  {
    var n := if kind == PFlash then 4 else 2;
    match r
    case None => None
    case Some(i) => Some((i + n / 2) % n)
  }

  lemma DoubleBSwapsHalves(kind: Kind, addr: Word)
    requires !(kind == DFlash && InScs(addr))
    ensures Resolve(kind, DoubleB, addr) == Swapped(kind, Resolve(kind, DoubleA, addr))
  {
    var a := Resolve(kind, DoubleA, addr);
    var tA, tB := Table(kind, DoubleA), Table(kind, DoubleB);
    var n := |tA|;
    if kind == PFlash {
      assert tB == [tA[2], tA[3], tA[0], tA[1]];
    } else {
      assert tB == [tA[1], tA[0]];
    }
    if a.Some? {
      var j := (a.value + n / 2) % n;
      assert tB[j] == tA[a.value];
    } else {
      assert forall j :: 0 <= j < n ==> !InBlock(tA[j], Block(kind), addr);
      assert forall j :: 0 <= j < n ==> !InBlock(tB[j], Block(kind), addr);
    }
  }

  // ---------------------------------------------------------------------------
  // Probe geometry

  /** Bank base, sector size and bank size as ry_probe sets them. */
  datatype Geometry = Geometry(base: Word, sectorSize: nat, size: nat)

  /** Bank numbers 0 and 1 are the two P-flash halves, 2 and 3 the two D-flash
      blocks, 4 the SCS area; any other number gets an empty bank and keeps its base. */
  function ProbeGeometry(bankNumber: int, oldBase: Word): Geometry
  {
    if bankNumber == 0 then Geometry(0x10000000, 0x4000, 0x400000)
    else if bankNumber == 1 then Geometry(0x14000000, 0x4000, 0x400000)
    else if bankNumber == 2 then Geometry(0x40400000, 0x1000, 0x20000)
    else if bankNumber == 3 then Geometry(0x40800000, 0x1000, 0x20000)
    else if bankNumber == 4 then Geometry(0x40c00000, 0x1000, 0x4000)
    else Geometry(oldBase, 0, 0)
  }

  /** num_sectors = size / sector_size, with no sectors for an empty geometry. */
  function SectorCount(g: Geometry): nat
  {
    if g.sectorSize == 0 then 0 else g.size / g.sectorSize
  }

  /** The controller each byte of a probed bank belongs to, read off the
      memory map: P-flash bank 0 is controllers 0-1 (2-3 in mode B), bank 1 is
      controllers 2-3 (0-1 in mode B) and absent in single mode; D-flash bank 2
      is controller 0 (1 in mode B), bank 3 is controller 1 (0 in mode B) and
      absent in single mode; the SCS bank 4 is controller 0. */
  function BankController(bankNumber: nat, mode: Mode, offset: nat): Option<nat>
  {
    var half := offset / PFU_BLOCK_SIZE;
    if bankNumber == 0 then (if mode == DoubleB then Some(2 + half) else Some(half))
    else if bankNumber == 1 then
      (if mode == Single then None else if mode == DoubleA then Some(2 + half) else Some(half))
    else if bankNumber == 2 then (if mode == DoubleB then Some(1) else Some(0))
    else if bankNumber == 3 then
      (if mode == Single then None else if mode == DoubleA then Some(1) else Some(0))
    else Some(0)
  }

  function BankKind(bankNumber: nat): Kind
  {
    if bankNumber <= 1 then PFlash else DFlash
  }

  /** Every byte of each probed bank classifies as that bank's flash and
      resolves to the controller the memory map gives it. */
  lemma ProbedBankResolves(bankNumber: nat, mode: Mode, offset: nat)
    requires bankNumber <= 4
    requires offset < ProbeGeometry(bankNumber, 0).size
    ensures var addr := Add32(offset, ProbeGeometry(bankNumber, 0).base);
            Classify(addr) == Some(BankKind(bankNumber)) &&
            Resolve(BankKind(bankNumber), mode, addr) == BankController(bankNumber, mode, offset)
  {
    var g := ProbeGeometry(bankNumber, 0);
    var addr := Add32(offset, g.base);
    assert addr == g.base + offset;
    var kind := BankKind(bankNumber);
    if bankNumber <= 1 {
      assert addr / PFLASH_TYPE_BIT == 1;
    } else {
      assert addr / PFLASH_TYPE_BIT == 4;
      assert addr / DFLASH_TYPE_BIT == 1;
    }
    var t := Table(kind, mode);
    var want := BankController(bankNumber, mode, offset);
    if bankNumber <= 1 {
      var half := offset / PFU_BLOCK_SIZE;
      assert half == 0 || half == 1;
      assert half * PFU_BLOCK_SIZE <= offset < half * PFU_BLOCK_SIZE + PFU_BLOCK_SIZE;
      if want.Some? {
        assert InBlock(t[want.value], Block(kind), addr);
      } else {
        assert forall i :: 0 <= i < |t| ==> !InBlock(t[i], Block(kind), addr);
      }
    } else if bankNumber <= 3 {
      if want.Some? {
        assert InBlock(t[want.value], Block(kind), addr);
      } else {
        assert forall i :: 0 <= i < |t| ==> !InBlock(t[i], Block(kind), addr);
      }
    }
  }
}
