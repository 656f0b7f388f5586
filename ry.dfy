/** The RY flash driver (ry.c): register handshakes, status polling, sector
    erase, programming, probe and mass erase for the P-flash and D-flash
    controllers.  Every statement of the driver of the form
    `retval = <register access>; if (retval != ERROR_OK) return retval;`
    is one `Step`; `Exec` runs a list of steps and stops at the first failure.
    Each driver operation is a method on the target whose postcondition ties
    the accesses it issues and its return code to a specification function. */
module Ry {
  import opened Flash
  import opened RyMap

  // Controller register blocks
  const PFU_CTRL_BASE: seq<Word> := [0x40070000, 0x40070400, 0x40070800, 0x40070C00]
  const DFU_CTRL_BASE: seq<Word> := [0x40078000, 0x40078400]

  // Register offsets within a controller block
  const WMPR_OFFSET: nat := 0x4
  const WMR_OFFSET: nat := 0xC
  const OSR_OFFSET: nat := 0x10
  const FSR_OFFSET: nat := 0x20
  const OAR_OFFSET: nat := 0x30
  const PDR0_OFFSET: nat := 0x40
  const SWER_OFFSETS: seq<nat> := [0x80, 0x84, 0x8C, 0x90]

  // Register values
  const KEY1: Word := 0x01234567
  const KEY2: Word := 0xFEDCBA98
  const FSR_RDY: nat := 0x100
  const FSR_SPWP: nat := 0x200
  const OSR_OPST: Word := 1
  const SECTOR_ERASE_MODE: Word := 3
  const SINGLE_PROGRAM_MODE: Word := 6
  const SERIES_PROGRAM_MODE: Word := 0xC
  const MASS_ERASE_CMD: Word := 2
  const ERASE_TIMEOUT: int := 100000

  /** The bank's base carries a type bit, so ry_get_flash_status reads a status register. */
  predicate Typed(base: Word)
  {
    BitSet(base, PFLASH_TYPE_BIT) || BitSet(base, DFLASH_TYPE_BIT)
  }

  // ---------------------------------------------------------------------------
  // Finding the controller of an address

  /** The outcome of get_pdfu_instance: a return code, the accesses, the instance. */
  datatype Lookup = Lookup(code: int, acc: seq<Access>, inst: nat)

  /** get_pdfu_instance: an address with no type bit fails without any access;
      otherwise the mode register is read once (a failed read fails), and the
      address is looked up in that mode's table. */
  function InstanceAt(env: Env, pos: nat, addr: Word): Lookup
  {
    match Classify(addr)
    case None => Lookup(ERROR_FAIL, [], 0)
    case Some(kind) =>
      match env.reply(pos, MODE_REG)
      case Failed(_) => Lookup(ERROR_FAIL, [Read(MODE_REG)], 0)
      case Value(v) =>
        match Resolve(kind, MapMode(kind, v), addr)
        case None => Lookup(ERROR_FAIL, [Read(MODE_REG)], 0)
        case Some(i) => Lookup(ERROR_OK, [Read(MODE_REG)], i)
  }

  /** Which controller table a driver statement indexes. */
  datatype Unit = Pfu | Dfu

  function Ctrl(u: Unit): seq<Word>
  {
    if u == Pfu then PFU_CTRL_BASE else DFU_CTRL_BASE
  }

  /** CTRL_BASE[inst] + off; the table has no entry `inst` when the index is out of range. */
  function CtrlReg(u: Unit, inst: nat, off: nat): Option<Word>
  {
    if inst < |Ctrl(u)| then Some(Add32(Ctrl(u)[inst], off)) else None
  }

  /** The register ry_get_flash_status reads: the flash status register of
      controller `inst` in the table that the bank base's type bit selects.
      (A base with neither bit reads no register; the driver then tests an
      uninitialised status, which the operations exclude by precondition.) */
  function StatusReg(base: Word, inst: nat): Option<Word>
  {
    if BitSet(base, PFLASH_TYPE_BIT) then CtrlReg(Pfu, inst, FSR_OFFSET)
    else if BitSet(base, DFLASH_TYPE_BIT) then CtrlReg(Dfu, inst, FSR_OFFSET)
    else None
  }

  // ---------------------------------------------------------------------------
  // Driver statements

  /** Where a status wait takes its controller index from. */
  datatype Source = At(addr: Word) | Fixed(inst: nat)

  datatype Step =
    | Put(reg: Word, value: Word)                          // target_write_u32(reg, value)
    | PutAt(unit: Unit, at: Word, off: nat, value: Word)   // target_write_u32(CTRL[get_pdfu_instance(at)] + off, value)
    | Wait(src: Source, permit: bool)                      // wait for RDY, or for SPWP when `permit`
    | Writes(ws: seq<(Word, Word)>)                        // a helper's chain of target_write_u32(reg, value)

  function WaitBit(permit: bool): nat
  {
    if permit then FSR_SPWP else FSR_RDY
  }

  function SourceLookup(env: Env, pos: nat, src: Source): Lookup
  {
    match src
    case At(a) => InstanceAt(env, pos, a)
    case Fixed(i) => Lookup(ERROR_OK, [], i)
  }

  /** A write to a register of the controller that owns `at`.  A failed
      lookup, or an index outside the table, ends the operation with
      ERROR_FAIL before the write. */
  function PutAtRun(env: Env, pos: nat, u: Unit, at: Word, off: nat, v: Word): Run
  {
    var l := InstanceAt(env, pos, at);
    if l.code != ERROR_OK then Run(l.code, l.acc)
    else match CtrlReg(u, l.inst, off)
         case None => Run(ERROR_FAIL, l.acc)
         case Some(reg) => Run(env.ack(pos + |l.acc|), l.acc + [Write(reg, v)])
  }

  /** The wait loop on controller `inst`: a poll of its status register with
      the driver's countdown, or ERROR_FAIL if the table has no such controller. */
  function StatusWait(env: Env, pos: nat, base: Word, inst: nat, permit: bool): Run
  {
    match StatusReg(base, inst)
    case None => Run(ERROR_FAIL, [])
    case Some(reg) => Poll(env, pos, reg, WaitBit(permit), ERASE_TIMEOUT)
  }

  /** A status wait on the controller `src` names. */
  function WaitRun(env: Env, pos: nat, base: Word, src: Source, permit: bool): Run
  {
    var l := SourceLookup(env, pos, src);
    if l.code != ERROR_OK then Run(l.code, l.acc)
    else Join(Run(ERROR_OK, l.acc), StatusWait(env, pos + |l.acc|, base, l.inst, permit))
  }

  /** One statement, issued at log position `pos`. */
  function StepRun(env: Env, pos: nat, base: Word, s: Step): Run
  {
    match s
    case Put(reg, v) => Run(env.ack(pos), [Write(reg, v)])
    case PutAt(u, at, off, v) => PutAtRun(env, pos, u, at, off, v)
    case Wait(src, permit) => WaitRun(env, pos, base, src, permit)
    case Writes(ws) => Issue(env, pos, ws)
  }

  /** The statements' meaning against a target, for a bank at `base`. */
  function Sem(env: Env, base: Word): (nat, Step) -> Run
  {
    (p: nat, s: Step) => StepRun(env, p, base, s)
  }

  /** `sem` gives every statement the meaning StepRun gives it on this target
      and bank.  The operations below take the meaning as a parameter under
      this condition, so their proofs never unfold StepRun. */
  ghost predicate Denotes(sem: (nat, Step) -> Run, env: Env, base: Word)
  {
    forall p: nat, s: Step {:trigger StepRun(env, p, base, s)} :: sem(p, s) == StepRun(env, p, base, s)
  }

  lemma SemDenotes(env: Env, base: Word)
    ensures Denotes(Sem(env, base), env, base)
  {
  }

  // ---------------------------------------------------------------------------
  // The methods behind the statements

  /** FLASH_GetMapMode: one read of the mode register; a failed read is ERROR_FAIL. */
  method GetMapMode(t: Target, kind: Kind) returns (r: int, mode: Mode)
    modifies t`log
    ensures t.log == old(t.log) + [Read(MODE_REG)]
    ensures var rep := t.env.reply(|old(t.log)|, MODE_REG);
            (rep.Failed? ==> r == ERROR_FAIL) &&
            (rep.Value? ==> r == ERROR_OK && mode == MapMode(kind, rep.v))
  {
    var c, scs := t.ReadU32(MODE_REG);
    if c != ERROR_OK {
      return ERROR_FAIL, Single;
    }
    var enable, pickA := if kind == PFlash then 1 else 2, if kind == PFlash then 4 else 8;
    if !BitSet(scs, enable) {
      mode := Single;
    } else if BitSet(scs, pickA) {
      mode := DoubleA;
    } else {
      mode := DoubleB;
    }
    r := ERROR_OK;
  }

  /** get_pdfu_instance.  The driver returns ERROR_FAIL in place of an instance
      on failure; here the failure is a separate return code. */
  method GetPdfuInstance(t: Target, addr: Word) returns (r: int, inst: nat)
    modifies t`log
    ensures t.log == old(t.log) + InstanceAt(t.env, |old(t.log)|, addr).acc
    ensures r == InstanceAt(t.env, |old(t.log)|, addr).code
    ensures r == ERROR_OK ==> inst == InstanceAt(t.env, |old(t.log)|, addr).inst
  {
    var kind;
    if BitSet(addr, PFLASH_TYPE_BIT) {
      kind := PFlash;
    } else if BitSet(addr, DFLASH_TYPE_BIT) {
      kind := DFlash;
    } else {
      return ERROR_FAIL, 0;
    }
    var mode;
    r, mode := GetMapMode(t, kind);
    if r != ERROR_OK {
      return ERROR_FAIL, 0;
    }
    match Resolve(kind, mode, addr) {
      case None => return ERROR_FAIL, 0;
      case Some(i) => return ERROR_OK, i;
    }
  }

  /** ry_wait_status_busy (RDY) and ry_wait_status_write_permit (SPWP): poll
      the status register of controller `inst` until the bit shows. */
  method WaitStatus(t: Target, base: Word, inst: nat, permit: bool) returns (r: int)
    modifies t`log
    ensures t.log == old(t.log) + StatusWait(t.env, |old(t.log)|, base, inst, permit).acc
    ensures r == StatusWait(t.env, |old(t.log)|, base, inst, permit).code
  {
    match StatusReg(base, inst) {
      case None => return ERROR_FAIL;
      case Some(reg) => r := WaitFor(t, reg, WaitBit(permit), ERASE_TIMEOUT);
    }
  }

  /** target_write_u32(CTRL[get_pdfu_instance(at)] + off, v) */
  method PutResolved(t: Target, u: Unit, at: Word, off: nat, v: Word) returns (r: int)
    modifies t`log
    ensures t.log == old(t.log) + PutAtRun(t.env, |old(t.log)|, u, at, off, v).acc
    ensures r == PutAtRun(t.env, |old(t.log)|, u, at, off, v).code
  {
    var inst;
    r, inst := GetPdfuInstance(t, at);
    if r != ERROR_OK {
      return;
    }
    match CtrlReg(u, inst, off) {
      case None => return ERROR_FAIL;
      case Some(reg) => r := t.WriteU32(reg, v);
    }
  }

  /** wait_status_*(bank, FLASH_ERASE_TIMEOUT, get_pdfu_instance(at)) */
  method WaitResolved(t: Target, base: Word, at: Word, permit: bool) returns (r: int)
    modifies t`log
    ensures t.log == old(t.log) + WaitRun(t.env, |old(t.log)|, base, At(at), permit).acc
    ensures r == WaitRun(t.env, |old(t.log)|, base, At(at), permit).code
  {
    var inst;
    r, inst := GetPdfuInstance(t, at);
    if r != ERROR_OK {
      return;
    }
    r := WaitStatus(t, base, inst, permit);
  }

  /** One driver statement. */
  method DoStep(t: Target, base: Word, s: Step, ghost sem: (nat, Step) -> Run) returns (r: int)
    requires Denotes(sem, t.env, base)
    modifies t`log
    ensures t.log == old(t.log) + sem(|old(t.log)|, s).acc
    ensures r == sem(|old(t.log)|, s).code
  {
    ghost var sr := StepRun(t.env, |t.log|, base, s);
    match s {
      case Put(reg, v) => r := t.WriteU32(reg, v);
      case PutAt(u, at, off, v) => r := PutResolved(t, u, at, off, v);
      case Wait(At(a), permit) => r := WaitResolved(t, base, a, permit);
      case Wait(Fixed(i), permit) =>
        r := WaitStatus(t, base, i, permit);
        assert [] + StatusWait(t.env, |old(t.log)|, base, i, permit).acc
            == StatusWait(t.env, |old(t.log)|, base, i, permit).acc;
      case Writes(ws) => r := IssueWrites(t, ws);
    }
  }

  /** Run the statements of `steps` in order, stopping at the first failure. */
  method ExecSteps(t: Target, base: Word, steps: seq<Step>, ghost sem: (nat, Step) -> Run) returns (r: int)
    requires Denotes(sem, t.env, base)
    modifies t`log
    ensures t.log == old(t.log) + ExecFrom(sem, |old(t.log)|, steps, 0).acc
    ensures r == ExecFrom(sem, |old(t.log)|, steps, 0).code
  {
    ghost var p0 := |t.log|;
    ghost var done: seq<Access> := [];
    assert done + [] == done;
    var i := 0;
    while i < |steps|
      invariant 0 <= i <= |steps|
      invariant t.log == old(t.log) + done
      invariant ExecResumes(sem, p0, steps, done, i)
    {
      ExecStep(sem, p0, steps, done, i);
      ghost var sr := sem(p0 + |done|, steps[i]);
      r := DoStep(t, base, steps[i], sem);
      AppendAssoc(old(t.log), done, sr.acc);
      if r != ERROR_OK {
        return;
      }
      done := done + sr.acc;
      i := i + 1;
    }
    ExecEnd(sem, p0, steps, done);
    r := ERROR_OK;
  }

  // ---------------------------------------------------------------------------
  // Register write protection and sector write enable

  /** The two unlock keys, written to the write-protection register of controller block `ctrl`. */
  function Keys(ctrl: Word): seq<(Word, Word)>
  {
    [(Add32(ctrl, WMPR_OFFSET), KEY1), (Add32(ctrl, WMPR_OFFSET), KEY2)]
  }

  /** ry_write_protection_enable: DFU0, DFU1, then PFU0 .. PFU3. */
  const UNLOCK: seq<(Word, Word)> :=
    Keys(DFU_CTRL_BASE[0]) + Keys(DFU_CTRL_BASE[1]) +
    Keys(PFU_CTRL_BASE[0]) + Keys(PFU_CTRL_BASE[1]) + Keys(PFU_CTRL_BASE[2]) + Keys(PFU_CTRL_BASE[3])

  /** All-ones to sector write-enable registers SWER0 .. SWER3 of controller block `ctrl`. */
  function SectorEnables(ctrl: Word): seq<(Word, Word)>
  {
    [(Add32(ctrl, SWER_OFFSETS[0]), 0xFFFFFFFF), (Add32(ctrl, SWER_OFFSETS[1]), 0xFFFFFFFF),
     (Add32(ctrl, SWER_OFFSETS[2]), 0xFFFFFFFF), (Add32(ctrl, SWER_OFFSETS[3]), 0xFFFFFFFF)]
  }

  /** ry_sector_write_protection_enable: SWER0-3 of PFU0 .. PFU3, then SWER0 of DFU0 and DFU1. */
  const SWER: seq<(Word, Word)> :=
    SectorEnables(PFU_CTRL_BASE[0]) + SectorEnables(PFU_CTRL_BASE[1]) +
    SectorEnables(PFU_CTRL_BASE[2]) + SectorEnables(PFU_CTRL_BASE[3]) +
    [(Add32(DFU_CTRL_BASE[0], SWER_OFFSETS[0]), 0xFFFFFFFF), (Add32(DFU_CTRL_BASE[1], SWER_OFFSETS[0]), 0xFFFFFFFF)]

  /** ry_write_protection_enable, then ry_sector_write_protection_enable. */
  const HANDSHAKES: seq<Step> := [Writes(UNLOCK), Writes(SWER)]

  /** What erase, write and mass erase do first: refuse a running target
      (no access), then unlock the controllers and enable every sector. */
  function PrologueRun(sem: (nat, Step) -> Run, pos: nat, halted: bool): Run
  {
    if !halted then Run(ERROR_TARGET_NOT_HALTED, []) else ExecFrom(sem, pos, HANDSHAKES, 0)
  }

  /** The halt check and the two handshakes at the head of each operation. */
  method Prologue(t: Target, base: Word, ghost sem: (nat, Step) -> Run) returns (r: int)
    requires Denotes(sem, t.env, base)
    modifies t`log
    ensures t.log == old(t.log) + PrologueRun(sem, |old(t.log)|, t.halted).acc
    ensures r == PrologueRun(sem, |old(t.log)|, t.halted).code
  {
    if !t.halted {
      return ERROR_TARGET_NOT_HALTED;
    }
    r := ExecSteps(t, base, HANDSHAKES, sem);
  }

  // ---------------------------------------------------------------------------
  // ry_erase

  /** The body of ry_erase's sector loop, for the sector at address `at`
      (sectors[i].offset + base) on the controller kind `u`. */
  function SectorSteps(u: Unit, at: Word): seq<Step>
  {
    [PutAt(u, at, WMR_OFFSET, SECTOR_ERASE_MODE), PutAt(u, at, OAR_OFFSET, at),
     PutAt(u, at, OSR_OFFSET, OSR_OPST), Wait(At(at), false)]
  }

  /** The meaning of one iteration of the sector loop, for the sector at
      offset `off` of the bank at `base`. */
  function SectorRun(sem: (nat, Step) -> Run, base: Word, u: Unit): (nat, nat) -> Run
  {
    (p: nat, off: nat) => ExecFrom(sem, p, SectorSteps(u, Add32(off, base)), 0)
  }

  /** `body` is SectorRun(sem, base, u); the loop's proof does not unfold it. */
  ghost predicate IsSectorRun(body: (nat, nat) -> Run, sem: (nat, Step) -> Run, base: Word, u: Unit)
  {
    forall p: nat, off: nat {:trigger SectorSteps(u, Add32(off, base)), body(p, off)} ::
      body(p, off) == ExecFrom(sem, p, SectorSteps(u, Add32(off, base)), 0)
  }

  lemma SectorRunIs(sem: (nat, Step) -> Run, base: Word, u: Unit)
    ensures IsSectorRun(SectorRun(sem, base, u), sem, base, u)
  {
  }

  /** The outcome of an erase: the run, and how many sectors from `first` on
      the P-flash loop and the D-flash loop each marked erased. */
  datatype Erasure = Erasure(run: Run, pDone: nat, dDone: nat)

  /** The type bit of the bank base that selects the controllers `u`. */
  function TypeBit(u: Unit): nat
  {
    if u == Pfu then PFLASH_TYPE_BIT else DFLASH_TYPE_BIT
  }

  /** One of ry_erase's two blocks: when the bank base has u's type bit, the
      sector loop over first .. last on the controllers `u`; otherwise nothing. */
  function EraseBlock(sem: (nat, Step) -> Run, pos: nat, base: Word, u: Unit, offs: seq<nat>, first: nat, last: nat): Progress
    requires first <= last ==> last < |offs|
  {
    if BitSet(base, TypeBit(u)) then Iterate(SectorRun(sem, base, u), pos, offs, first, SectorEnd(first, last))
    else Progress(Run(ERROR_OK, []), 0)
  }

  /** The part of ry_erase after the prologue: the P-flash block, then, if
      that succeeded, the D-flash block. */
  function EraseBlocks(sem: (nat, Step) -> Run, pos: nat, base: Word, offs: seq<nat>, first: nat, last: nat): Erasure
    requires first <= last ==> last < |offs|
  {
    var p := EraseBlock(sem, pos, base, Pfu, offs, first, last);
    if p.run.code != ERROR_OK then Erasure(p.run, p.done, 0)
    else
      var d := EraseBlock(sem, pos + |p.run.acc|, base, Dfu, offs, first, last);
      Erasure(Run(d.run.code, p.run.acc + d.run.acc), p.done, d.done)
  }

  /** ry_erase on a bank at `base` whose sector offsets are `offs`, the
      statements meaning `sem` (that is, Sem(env, base)). */
  function EraseSpec(sem: (nat, Step) -> Run, pos: nat, halted: bool, base: Word, offs: seq<nat>,
                     first: nat, last: nat): Erasure
    requires first <= last ==> last < |offs|
  {
    var pre := PrologueRun(sem, pos, halted);
    if pre.code != ERROR_OK then Erasure(pre, 0, 0)
    else
      var e := EraseBlocks(sem, pos + |pre.acc|, base, offs, first, last);
      Erasure(Run(e.run.code, pre.acc + e.run.acc), e.pDone, e.dDone)
  }

  /** EraseSpec when the prologue fails, and when it succeeds. */
  lemma EraseSpecCases(sem: (nat, Step) -> Run, pos: nat, halted: bool, base: Word, offs: seq<nat>,
                       first: nat, last: nat)
    requires first <= last ==> last < |offs|
    ensures var pre := PrologueRun(sem, pos, halted);
            pre.code != ERROR_OK ==> EraseSpec(sem, pos, halted, base, offs, first, last) == Erasure(pre, 0, 0)
    ensures var pre := PrologueRun(sem, pos, halted);
            var b := EraseBlocks(sem, pos + |pre.acc|, base, offs, first, last);
            pre.code == ERROR_OK ==>
              EraseSpec(sem, pos, halted, base, offs, first, last) == Erasure(Run(b.run.code, pre.acc + b.run.acc), b.pDone, b.dDone)
  {
  }

  /** One iteration of ry_erase's sector loop: erase sector i of the bank at
      `base` on the controllers of kind `u`, and mark it erased once that succeeded. */
  method EraseSector(t: Target, sectors: array<Sector>, base: Word, u: Unit, i: nat,
                     ghost sem: (nat, Step) -> Run, ghost body: (nat, nat) -> Run) returns (r: int)
    requires Denotes(sem, t.env, base) && IsSectorRun(body, sem, base, u)
    requires i < sectors.Length
    modifies t`log, sectors
    ensures var e := body(|old(t.log)|, old(sectors[i]).offset);
            t.log == old(t.log) + e.acc && r == e.code
    ensures forall j :: 0 <= j < sectors.Length ==>
              sectors[j] == if j == i && r == ERROR_OK then old(sectors[j]).(isErased := Erased) else old(sectors[j])
  {
    r := ExecSteps(t, base, SectorSteps(u, Add32(sectors[i].offset, base)), sem);
    if r == ERROR_OK {
      sectors[i] := sectors[i].(isErased := Erased);
    }
  }

  /** The sector loop of one of ry_erase's blocks: erase sectors first .. last
      of the bank at `base` on the controllers of kind `u`, marking each erased
      once its erase completed. */
  method SectorLoop(t: Target, sectors: array<Sector>, base: Word, u: Unit, first: nat, last: nat,
                      ghost sem: (nat, Step) -> Run, ghost body: (nat, nat) -> Run) returns (r: int)
    requires Denotes(sem, t.env, base) && IsSectorRun(body, sem, base, u)
    requires first <= last ==> last < sectors.Length
    modifies t`log, sectors
    ensures var p := Iterate(body, |old(t.log)|, Offsets(old(sectors[..])), first, SectorEnd(first, last));
            && t.log == old(t.log) + p.run.acc
            && r == p.run.code
            && forall j :: 0 <= j < sectors.Length ==>
                 sectors[j] == if first <= j < first + p.done then old(sectors[j]).(isErased := Erased) else old(sectors[j])
  {
    ghost var s0 := sectors[..];
    ghost var offs := Offsets(s0);
    ghost var end := SectorEnd(first, last);
    ghost var p0 := |t.log|;
    ghost var done: seq<Access> := [];
    var i := first;
    while i <= last
      invariant first <= i <= end
      invariant t.log == old(t.log) + done
      invariant Resumes(body, p0, offs, first, end, done, i)
      invariant forall j :: 0 <= j < sectors.Length ==>
                  sectors[j] == if first <= j < i then s0[j].(isErased := Erased) else s0[j]
      decreases last - i
    {
      IterateStep(body, p0, offs, first, end, done, i);
      ghost var sr := body(p0 + |done|, offs[i]);
      r := EraseSector(t, sectors, base, u, i, sem, body);
      AppendAssoc(old(t.log), done, sr.acc);
      if r != ERROR_OK {
        return;
      }
      done := done + sr.acc;
      i := i + 1;
    }
    IterateEnd(body, p0, offs, first, end, done);
    r := ERROR_OK;
  }

  /** One of ry_erase's two blocks `if (bank->base & TYPE_BIT) for (...) ...`. */
  method EraseSectors(t: Target, sectors: array<Sector>, base: Word, u: Unit, first: nat, last: nat,
                      ghost sem: (nat, Step) -> Run) returns (r: int)
    requires Denotes(sem, t.env, base)
    requires first <= last ==> last < sectors.Length
    modifies t`log, sectors
    ensures var p := EraseBlock(sem, |old(t.log)|, base, u, Offsets(old(sectors[..])), first, last);
            && t.log == old(t.log) + p.run.acc
            && r == p.run.code
            && forall j :: 0 <= j < sectors.Length ==>
                 sectors[j] == if first <= j < first + p.done then old(sectors[j]).(isErased := Erased) else old(sectors[j])
  {
    if BitSet(base, TypeBit(u)) {
      SectorRunIs(sem, base, u);
      r := SectorLoop(t, sectors, base, u, first, last, sem, SectorRun(sem, base, u));
    } else {
      r := ERROR_OK;
    }
  }

  /** The two blocks of ry_erase, on the bank at `base` with sector table `sectors`. */
  method EraseBothBlocks(t: Target, sectors: array<Sector>, base: Word, first: nat, last: nat,
                         ghost sem: (nat, Step) -> Run) returns (r: int)
    requires Denotes(sem, t.env, base)
    requires first <= last ==> last < sectors.Length
    modifies t`log, sectors
    ensures var e := EraseBlocks(sem, |old(t.log)|, base, Offsets(old(sectors[..])), first, last);
            && t.log == old(t.log) + e.run.acc
            && r == e.run.code
            && forall j :: 0 <= j < sectors.Length ==>
                 sectors[j] == if first <= j < first + e.pDone || first <= j < first + e.dDone
                               then old(sectors[j]).(isErased := Erased) else old(sectors[j])
  {
    ghost var s0 := sectors[..];
    ghost var offs := Offsets(s0);
    ghost var log0 := t.log;
    r := EraseSectors(t, sectors, base, Pfu, first, last, sem);
    ghost var p := EraseBlock(sem, |log0|, base, Pfu, offs, first, last);
    if r != ERROR_OK {
      return;
    }
    MarkedOffsets(s0, sectors[..], first, p.done);
    ghost var log1 := t.log;
    r := EraseSectors(t, sectors, base, Dfu, first, last, sem);
    ghost var d := EraseBlock(sem, |log1|, base, Dfu, offs, first, last);
    AppendAssoc(log0, p.run.acc, d.run.acc);
  }

  /** ry_erase on the bank at `base` with sector table `sectors`: the
      prologue, then the P-flash block, then the D-flash block. */
  method EraseOn(t: Target, sectors: array<Sector>, base: Word, first: nat, last: nat,
                 ghost sem: (nat, Step) -> Run) returns (r: int)
    requires Denotes(sem, t.env, base)
    requires first <= last ==> last < sectors.Length
    modifies t`log, sectors
    ensures var e := EraseSpec(sem, |old(t.log)|, t.halted, base, Offsets(old(sectors[..])), first, last);
            && t.log == old(t.log) + e.run.acc
            && r == e.run.code
            && forall j :: 0 <= j < sectors.Length ==>
                 sectors[j] == if first <= j < first + e.pDone || first <= j < first + e.dDone
                               then old(sectors[j]).(isErased := Erased) else old(sectors[j])
  {
    ghost var s0 := sectors[..];
    ghost var offs := Offsets(s0);
    ghost var log0 := t.log;
    ghost var pre := PrologueRun(sem, |log0|, t.halted);
    ghost var e := EraseSpec(sem, |log0|, t.halted, base, offs, first, last);
    EraseSpecCases(sem, |log0|, t.halted, base, offs, first, last);
    r := Prologue(t, base, sem);
    if r != ERROR_OK {
      return;
    }
    assert sectors[..] == s0;
    ghost var b := EraseBlocks(sem, |t.log|, base, offs, first, last);
    assert e == Erasure(Run(b.run.code, pre.acc + b.run.acc), b.pDone, b.dDone);
    r := EraseBothBlocks(t, sectors, base, first, last, sem);
    AppendAssoc(log0, pre.acc, b.run.acc);
  }

  /** ry_erase: a sector is marked erased once a block's loop erased it. */
  method Erase(bank: Bank, first: nat, last: nat, ghost sem: (nat, Step) -> Run) returns (r: int)
    requires Denotes(sem, bank.target.env, bank.base)
    requires first <= last ==> last < bank.sectors.Length
    modifies bank.target`log, bank.sectors
    ensures var e := EraseSpec(sem, |old(bank.target.log)|, bank.target.halted, bank.base,
                               Offsets(old(bank.sectors[..])), first, last);
            && bank.target.log == old(bank.target.log) + e.run.acc
            && r == e.run.code
            && forall j :: 0 <= j < bank.sectors.Length ==>
                 bank.sectors[j] == if first <= j < first + e.pDone || first <= j < first + e.dDone
                                    then old(bank.sectors[j]).(isErased := Erased) else old(bank.sectors[j])
  {
    r := EraseOn(bank.target, bank.sectors, bank.base, first, last, sem);
  }

  // ---------------------------------------------------------------------------
  // ry_write

  /** One 16-byte group of a P-flash chunk: wait for write permission, load
      the four program-data registers with the group's words, start. */
  function GroupSteps(at: Word, data: seq<Byte>): seq<Step>
    requires |data| == 16
  {
    [Wait(At(at), true),
     PutAt(Pfu, at, PDR0_OFFSET, Word4(data[0..4])),
     PutAt(Pfu, at, PDR0_OFFSET + 4, Word4(data[4..8])),
     PutAt(Pfu, at, PDR0_OFFSET + 8, Word4(data[8..12])),
     PutAt(Pfu, at, PDR0_OFFSET + 12, Word4(data[12..16])),
     PutAt(Pfu, at, OSR_OFFSET, OSR_OPST)]
  }

  /** Groups g .. 7 of a 128-byte chunk. */
  function GroupsFrom(at: Word, chunk: seq<Byte>, g: nat): (s: seq<Step>)
    requires |chunk| == 128 && g <= 8
    ensures |s| == 6 * (8 - g)
    decreases 8 - g
  {
    if g == 8 then [] else GroupSteps(at, chunk[16 * g..16 * g + 16]) + GroupsFrom(at, chunk, g + 1)
  }

  /** The body of the P-flash loop for the chunk programmed at address `at`:
      series-program mode, the target address, eight groups, then the wait
      for the controller to finish. */
  function ChunkSteps(at: Word, chunk: seq<Byte>): seq<Step>
    requires |chunk| == 128
  {
    [PutAt(Pfu, at, WMR_OFFSET, SERIES_PROGRAM_MODE), PutAt(Pfu, at, OAR_OFFSET, at)]
    + GroupsFrom(at, chunk, 0) + [Wait(At(at), false)]
  }

  /** The body of the D-flash loop for the word `w` programmed at address `at`. */
  function WordSteps(at: Word, w: Word): seq<Step>
  {
    [PutAt(Dfu, at, WMR_OFFSET, SINGLE_PROGRAM_MODE), PutAt(Dfu, at, OAR_OFFSET, at),
     PutAt(Dfu, at, PDR0_OFFSET, w), PutAt(Dfu, at, OSR_OFFSET, OSR_OPST), Wait(At(at), false)]
  }

  /** The iterations of `for (i = 0; i < count; i += 128)`. */
  function Chunks(count: nat): nat
  {
    (count + 127) / 128
  }

  lemma ChunksCover(count: nat, c: nat)
    ensures c < Chunks(count) <==> 128 * c < count
  {
  }

  /** The statements of iteration c of the P-flash loop: the chunk
      buffer[128c .. 128c+128) to bank offset offset + 128c. */
  function ChunkAt(base: Word, buf: seq<Byte>, offset: Word, c: nat): seq<Step>
    requires 128 * c + 128 <= |buf|
  {
    ChunkSteps(Add32(Add32(offset, 128 * c), base), buf[128 * c..128 * c + 128])
  }

  /** Iteration c of the P-flash loop.  (Buffers too short for the chunk
      are excluded by Write's precondition.) */
  function PChunkRun(sem: (nat, Step) -> Run, base: Word, buf: seq<Byte>, offset: Word): (nat, nat) -> Run
  {
    (p: nat, c: nat) =>
      if 128 * c + 128 <= |buf| then ExecFrom(sem, p, ChunkAt(base, buf, offset, c), 0)
      else Run(ERROR_FAIL, [])
  }

  /** Iteration w of the D-flash loop: the word buffer[4w .. 4w+4) to bank
      offset start + 4w, `start` being where the P-flash loop left `addr`. */
  function DWordRun(sem: (nat, Step) -> Run, base: Word, buf: seq<Byte>, start: Word): (nat, nat) -> Run
  {
    (p: nat, w: nat) =>
      if 4 * w + 4 <= |buf|
      then ExecFrom(sem, p, WordSteps(Add32(Add32(start, 4 * w), base), Word4(buf[4 * w..4 * w + 4])), 0)
      else Run(ERROR_FAIL, [])
  }

  /** `body` is PChunkRun(sem, base, buf, offset); the loop's proof does not unfold it. */
  ghost predicate IsPChunkRun(body: (nat, nat) -> Run, sem: (nat, Step) -> Run, base: Word, buf: seq<Byte>, offset: Word)
  {
    forall p: nat, c: nat {:trigger ChunkAt(base, buf, offset, c), body(p, c)} ::
      128 * c + 128 <= |buf| ==> body(p, c) == ExecFrom(sem, p, ChunkAt(base, buf, offset, c), 0)
  }

  lemma PChunkRunIs(sem: (nat, Step) -> Run, base: Word, buf: seq<Byte>, offset: Word)
    ensures IsPChunkRun(PChunkRun(sem, base, buf, offset), sem, base, buf, offset)
  {
  }

  ghost predicate IsDWordRun(body: (nat, nat) -> Run, sem: (nat, Step) -> Run, base: Word, buf: seq<Byte>, start: Word)
  {
    forall p: nat, w: nat {:trigger body(p, w)} :: body(p, w) == DWordRun(sem, base, buf, start)(p, w)
  }

  lemma DWordRunIs(sem: (nat, Step) -> Run, base: Word, buf: seq<Byte>, start: Word)
    ensures IsDWordRun(DWordRun(sem, base, buf, start), sem, base, buf, start)
  {
  }

  /** The two blocks of ry_write after the alignment checks: the P-flash
      loop when the base has the P-flash type bit, then, if that succeeded,
      the D-flash loop when it has the D-flash type bit, continuing from the
      address the P-flash loop reached. */
  function WriteBlocks(sem: (nat, Step) -> Run, pos: nat, base: Word, buf: seq<Byte>, offset: Word, count: nat): Run
  {
    var pf := BitSet(base, PFLASH_TYPE_BIT);
    var p := if pf then Repeat(PChunkRun(sem, base, buf, offset), pos, 0, Chunks(count))
             else Progress(Run(ERROR_OK, []), 0);
    if p.run.code != ERROR_OK then p.run
    else
      var start := if pf then Add32(offset, 128 * Chunks(count)) else offset;
      var d := if BitSet(base, DFLASH_TYPE_BIT) then Repeat(DWordRun(sem, base, buf, start), pos + |p.run.acc|, 0, count / 4)
               else Progress(Run(ERROR_OK, []), 0);
      Run(d.run.code, p.run.acc + d.run.acc)
  }

  /** ry_write of `count` bytes of `buf` to bank offset `offset`: the
      prologue, then an unaligned offset or count is refused, then the blocks. */
  function WriteSpec(sem: (nat, Step) -> Run, pos: nat, halted: bool, base: Word, buf: seq<Byte>,
                     offset: Word, count: Word): Run
  {
    var pre := PrologueRun(sem, pos, halted);
    if pre.code != ERROR_OK then pre
    else if offset % 4 != 0 || count % 4 != 0 then Run(ERROR_FLASH_DST_BREAKS_ALIGNMENT, pre.acc)
    else
      var w := WriteBlocks(sem, pos + |pre.acc|, base, buf, offset, count);
      Run(w.code, pre.acc + w.acc)
  }

  /** What the P-flash loop reads of the buffer: whole 128-byte chunks,
      and the loop counter stays a valid uint32. */
  predicate PChunksFit(buf: seq<Byte>, count: nat)
  {
    128 * Chunks(count) <= |buf| && 128 * Chunks(count) < WORD_MOD
  }

  /** The loop's own expression for chunk c's statements. */
  lemma ChunkAtIs(base: Word, buf: seq<Byte>, offset: Word, c: nat, i: nat, addr: Word)
    requires i == 128 * c && i + 128 <= |buf| && addr == Add32(offset, 128 * c)
    ensures ChunkSteps(Add32(addr, base), buf[i..i + 128]) == ChunkAt(base, buf, offset, c)
  {
  }

  /** One iteration of ry_write's P-flash loop: chunk c, which starts at
      buffer index i == 128c and bank offset addr == offset + 128c. */
  method ProgramChunk(t: Target, base: Word, buf: seq<Byte>, offset: Word, c: nat, i: nat, addr: Word,
                      ghost sem: (nat, Step) -> Run, ghost body: (nat, nat) -> Run) returns (r: int)
    requires Denotes(sem, t.env, base) && IsPChunkRun(body, sem, base, buf, offset)
    requires i == 128 * c && i + 128 <= |buf| && addr == Add32(offset, 128 * c)
    modifies t`log
    ensures t.log == old(t.log) + body(|old(t.log)|, c).acc && r == body(|old(t.log)|, c).code
  {
    ChunkAtIs(base, buf, offset, c, i, addr);
    r := ExecSteps(t, base, ChunkSteps(Add32(addr, base), buf[i..i + 128]), sem);
  }

  /** The P-flash loop of ry_write. */
  method ProgramPFlash(t: Target, base: Word, buf: seq<Byte>, offset: Word, count: Word,
                       ghost sem: (nat, Step) -> Run, ghost body: (nat, nat) -> Run) returns (r: int, addr: Word)
    requires Denotes(sem, t.env, base) && IsPChunkRun(body, sem, base, buf, offset)
    requires PChunksFit(buf, count)
    modifies t`log
    ensures var p := Repeat(body, |old(t.log)|, 0, Chunks(count));
            && t.log == old(t.log) + p.run.acc
            && r == p.run.code
            && (r == ERROR_OK ==> addr == Add32(offset, 128 * Chunks(count)))
  {
    ghost var p0 := |t.log|;
    ghost var n := Chunks(count);
    ghost var done: seq<Access> := [];
    assert done + [] == done;
    var i: nat := 0;
    var c: nat := 0;
    addr := offset;
    while i < count
      invariant i == 128 * c && c <= n
      invariant addr == Add32(offset, 128 * c)
      invariant t.log == old(t.log) + done
      invariant RepeatResumes(body, p0, n, done, c)
      decreases count - i
    {
      ChunksCover(count, c);
      RepeatStep(body, p0, n, done, c);
      ghost var sr := body(p0 + |done|, c);
      r := ProgramChunk(t, base, buf, offset, c, i, addr, sem, body);
      AppendAssoc(old(t.log), done, sr.acc);
      if r != ERROR_OK {
        return;
      }
      done := done + sr.acc;
      Add32Assoc(offset, 128 * c, 128);
      i, addr, c := i + 128, Add32(addr, 128), c + 1;
    }
    ChunksCover(count, c);
    RepeatEnd(body, p0, n, done);
    r := ERROR_OK;
  }

  /** One iteration of ry_write's D-flash loop: word w, at buffer index
      i == 4w and bank offset addr == start + 4w. */
  method ProgramWord(t: Target, base: Word, buf: seq<Byte>, start: Word, w: nat, i: nat, addr: Word,
                     ghost sem: (nat, Step) -> Run, ghost body: (nat, nat) -> Run) returns (r: int)
    requires Denotes(sem, t.env, base) && IsDWordRun(body, sem, base, buf, start)
    requires i == 4 * w && i + 4 <= |buf| && addr == Add32(start, 4 * w)
    modifies t`log
    ensures t.log == old(t.log) + body(|old(t.log)|, w).acc && r == body(|old(t.log)|, w).code
  {
    r := ExecSteps(t, base, WordSteps(Add32(addr, base), Word4(buf[i..i + 4])), sem);
  }

  /** The D-flash loop of ry_write, starting at bank offset `start`. */
  method ProgramDFlash(t: Target, base: Word, buf: seq<Byte>, start: Word, count: Word,
                       ghost sem: (nat, Step) -> Run, ghost body: (nat, nat) -> Run) returns (r: int)
    requires Denotes(sem, t.env, base) && IsDWordRun(body, sem, base, buf, start)
    requires count % 4 == 0 && count <= |buf|
    modifies t`log
    ensures var d := Repeat(body, |old(t.log)|, 0, count / 4);
            t.log == old(t.log) + d.run.acc && r == d.run.code
  {
    ghost var p0 := |t.log|;
    ghost var done: seq<Access> := [];
    assert done + [] == done;
    var i: nat := 0;
    var w: nat := 0;
    var addr := start;
    while i < count
      invariant i == 4 * w && w <= count / 4
      invariant addr == Add32(start, 4 * w)
      invariant t.log == old(t.log) + done
      invariant RepeatResumes(body, p0, count / 4, done, w)
      decreases count - i
    {
      RepeatStep(body, p0, count / 4, done, w);
      ghost var sr := body(p0 + |done|, w);
      r := ProgramWord(t, base, buf, start, w, i, addr, sem, body);
      AppendAssoc(old(t.log), done, sr.acc);
      if r != ERROR_OK {
        return;
      }
      done := done + sr.acc;
      Add32Assoc(start, 4 * w, 4);
      i, addr, w := i + 4, Add32(addr, 4), w + 1;
    }
    RepeatEnd(body, p0, count / 4, done);
    r := ERROR_OK;
  }

  /** The P-flash and D-flash blocks of ry_write. */
  method WriteBoth(t: Target, base: Word, buf: seq<Byte>, offset: Word, count: Word,
                   ghost sem: (nat, Step) -> Run) returns (r: int)
    requires Denotes(sem, t.env, base)
    requires count % 4 == 0 && count <= |buf|
    requires BitSet(base, PFLASH_TYPE_BIT) ==> PChunksFit(buf, count)
    modifies t`log
    ensures t.log == old(t.log) + WriteBlocks(sem, |old(t.log)|, base, buf, offset, count).acc
    ensures r == WriteBlocks(sem, |old(t.log)|, base, buf, offset, count).code
  {
    ghost var log0 := t.log;
    var addr := offset;
    if BitSet(base, PFLASH_TYPE_BIT) {
      PChunkRunIs(sem, base, buf, offset);
      r, addr := ProgramPFlash(t, base, buf, offset, count, sem, PChunkRun(sem, base, buf, offset));
      if r != ERROR_OK {
        return;
      }
    }
    ghost var log1 := t.log;
    if BitSet(base, DFLASH_TYPE_BIT) {
      DWordRunIs(sem, base, buf, addr);
      r := ProgramDFlash(t, base, buf, addr, count, sem, DWordRun(sem, base, buf, addr));
      ghost var d := Repeat(DWordRun(sem, base, buf, addr), |log1|, 0, count / 4);
      AppendAssoc(log0, log1[|log0|..], d.run.acc);
      if r != ERROR_OK {
        return;
      }
    }
    r := ERROR_OK;
  }

  /** ry_write on the bank at `base`. */
  method WriteOn(t: Target, base: Word, buf: seq<Byte>, offset: Word, count: Word,
                 ghost sem: (nat, Step) -> Run) returns (r: int)
    requires Denotes(sem, t.env, base)
    requires count <= |buf|
    requires BitSet(base, PFLASH_TYPE_BIT) && offset % 4 == 0 && count % 4 == 0 ==> PChunksFit(buf, count)
    modifies t`log
    ensures t.log == old(t.log) + WriteSpec(sem, |old(t.log)|, t.halted, base, buf, offset, count).acc
    ensures r == WriteSpec(sem, |old(t.log)|, t.halted, base, buf, offset, count).code
  {
    ghost var log0 := t.log;
    ghost var pre := PrologueRun(sem, |log0|, t.halted);
    r := Prologue(t, base, sem);
    if r != ERROR_OK {
      return;
    }
    if offset % 4 != 0 {
      return ERROR_FLASH_DST_BREAKS_ALIGNMENT;
    }
    if count % 4 != 0 {
      return ERROR_FLASH_DST_BREAKS_ALIGNMENT;
    }
    ghost var b := WriteBlocks(sem, |t.log|, base, buf, offset, count);
    r := WriteBoth(t, base, buf, offset, count, sem);
    AppendAssoc(log0, pre.acc, b.acc);
  }

  /** ry_write: program `count` bytes of `buffer` at bank offset `offset`. */
  method WriteFlash(bank: Bank, buffer: seq<Byte>, offset: Word, count: Word, ghost sem: (nat, Step) -> Run)
    returns (r: int)
    requires Denotes(sem, bank.target.env, bank.base)
    requires count <= |buffer|
    requires BitSet(bank.base, PFLASH_TYPE_BIT) && offset % 4 == 0 && count % 4 == 0 ==> PChunksFit(buffer, count)
    modifies bank.target`log
    ensures var w := WriteSpec(sem, |old(bank.target.log)|, bank.target.halted, bank.base, buffer, offset, count);
            bank.target.log == old(bank.target.log) + w.acc && r == w.code
  {
    r := WriteOn(bank.target, bank.base, buffer, offset, count, sem);
  }

  // ---------------------------------------------------------------------------
  // ry_probe

  /** ry_probe: the bank number picks the geometry; the sector table is
      replaced by SectorCount sectors of the new size.  No target access. */
  method Probe(bank: Bank) returns (r: int)
    modifies bank`base, bank`size, bank`sectors
    ensures var g := ProbeGeometry(bank.bankNumber, old(bank.base));
            && bank.base == g.base && bank.size == g.size
            && bank.sectors.Length == SectorCount(g)
            && forall i :: 0 <= i < bank.sectors.Length ==>
                 bank.sectors[i] == Sector(i * g.sectorSize, g.sectorSize, Unknown, false)
    ensures fresh(bank.sectors) && r == ERROR_OK
  {
    var g := ProbeGeometry(bank.bankNumber, bank.base);
    bank.base := g.base;
    bank.size := g.size;
    bank.ResetSectors(SectorCount(g), g.sectorSize);
    r := ERROR_OK;
  }

  /** The five probed banks: base, size and sector count, the sectors
      tiling the bank exactly; any other bank number is empty. */
  lemma ProbeTable(n: int, oldBase: Word)
    ensures var g := ProbeGeometry(n, oldBase);
            && (n == 0 ==> g == Geometry(0x10000000, 0x4000, 0x400000) && SectorCount(g) == 256)
            && (n == 1 ==> g == Geometry(0x14000000, 0x4000, 0x400000) && SectorCount(g) == 256)
            && (n == 2 ==> g == Geometry(0x40400000, 0x1000, 0x20000) && SectorCount(g) == 32)
            && (n == 3 ==> g == Geometry(0x40800000, 0x1000, 0x20000) && SectorCount(g) == 32)
            && (n == 4 ==> g == Geometry(0x40C00000, 0x1000, 0x4000) && SectorCount(g) == 4)
            && (!(0 <= n <= 4) ==> g.base == oldBase && g.size == 0 && SectorCount(g) == 0)
            && SectorCount(g) * g.sectorSize == g.size
  {
  }

  // ---------------------------------------------------------------------------
  // ry_mass_erase and its command

  /** One controller's mass erase in ry_mass_erase: mass-erase mode, the
      address, start, then the busy wait on controller `inst`. */
  function MassGroup(ctrl: Word, oar: Word, inst: nat): seq<Step>
  {
    [Put(Add32(ctrl, WMR_OFFSET), MASS_ERASE_CMD), Put(Add32(ctrl, OAR_OFFSET), oar),
     Put(Add32(ctrl, OSR_OFFSET), OSR_OPST), Wait(Fixed(inst), false)]
  }

  const P_MASS_ADDR: Word := 0x10000000  // PFU0_ADDR_SINGLE, used for all four P-flash controllers
  const D0_MASS_ADDR: Word := 0x40400000  // DFU0_ADDR_MAP_A
  const D1_MASS_ADDR: Word := 0x40800000  // DFU1_ADDR_MAP_A

  /** The statements of ry_mass_erase after the prologue, by bank id. */
  function MassSteps(id: nat): seq<Step>
  {
    if id == 0 then MassGroup(PFU_CTRL_BASE[0], P_MASS_ADDR, 0) + MassGroup(PFU_CTRL_BASE[1], P_MASS_ADDR, 1)
    else if id == 1 then MassGroup(PFU_CTRL_BASE[2], P_MASS_ADDR, 2) + MassGroup(PFU_CTRL_BASE[3], P_MASS_ADDR, 3)
    else if id == 2 then MassGroup(DFU_CTRL_BASE[0], D0_MASS_ADDR, 0)
    else if id == 3 then MassGroup(DFU_CTRL_BASE[1], D1_MASS_ADDR, 1)
    else []
  }

  /** ry_mass_erase: the prologue, then the id's controller groups. */
  function MassEraseSpec(sem: (nat, Step) -> Run, pos: nat, halted: bool, id: nat): Run
  {
    var pre := PrologueRun(sem, pos, halted);
    if pre.code != ERROR_OK then pre
    else
      var m := ExecFrom(sem, pos + |pre.acc|, MassSteps(id), 0);
      Run(m.code, pre.acc + m.acc)
  }

  /** ry_mass_erase.  The busy waits read the status register the bank base's
      type bit selects, so an id that reaches them needs a base that carries one. */
  method MassErase(t: Target, base: Word, id: nat, ghost sem: (nat, Step) -> Run) returns (r: int)
    requires Denotes(sem, t.env, base) && (MassEraseId(id) ==> Typed(base))
    modifies t`log
    ensures t.log == old(t.log) + MassEraseSpec(sem, |old(t.log)|, t.halted, id).acc
    ensures r == MassEraseSpec(sem, |old(t.log)|, t.halted, id).code
  {
    ghost var log0 := t.log;
    ghost var pre := PrologueRun(sem, |log0|, t.halted);
    r := Prologue(t, base, sem);
    if r != ERROR_OK {
      return;
    }
    ghost var m := ExecFrom(sem, |t.log|, MassSteps(id), 0);
    r := ExecSteps(t, base, MassSteps(id), sem);
    AppendAssoc(log0, pre.acc, m.acc);
  }

  /** The ids ry_handle_mass_erase_command accepts. */
  predicate MassEraseId(id: nat)
  {
    id == 0 || id == 1 || id == 2 || id == 3
  }

  /** ry_handle_mass_erase_command with a parsed id: other ids are a syntax
      error with no access; otherwise mass erase, and all sectors are marked
      erased when it succeeded.  The command itself reports ERROR_OK either way. */
  method MassEraseCommand(bank: Bank, id: nat, ghost sem: (nat, Step) -> Run) returns (r: int)
    requires Denotes(sem, bank.target.env, bank.base) && (MassEraseId(id) ==> Typed(bank.base))
    modifies bank.target`log, bank.sectors
    ensures var m := MassEraseSpec(sem, |old(bank.target.log)|, bank.target.halted, id);
            && r == (if MassEraseId(id) then ERROR_OK else ERROR_COMMAND_SYNTAX_ERROR)
            && bank.target.log == old(bank.target.log) + (if MassEraseId(id) then m.acc else [])
            && forall i :: 0 <= i < bank.sectors.Length ==>
                 bank.sectors[i] == if MassEraseId(id) && m.code == ERROR_OK
                                    then old(bank.sectors[i]).(isErased := Erased) else old(bank.sectors[i])
  {
    if !MassEraseId(id) {
      return ERROR_COMMAND_SYNTAX_ERROR;
    }
    var m := MassErase(bank.target, bank.base, id, sem);
    if m == ERROR_OK {
      bank.MarkAllErased();
    }
    r := ERROR_OK;
  }
}
