/** The XC2xx flash driver (xc2xx.c): four program-flash controllers, their
    register handshakes, the ready poll, sector erase, programming in 16-byte
    groups, the alternating probe and mass erase.  As in the RY driver, every
    `retval = <register access>; if (retval != ERROR_OK) return retval;` is
    one `Op`, a list of them runs until the first failure, and each operation
    is a method whose postcondition ties the accesses it issues and its return
    code to a specification function. */
module Xc2xx {
  import opened Flash

  // Controller register blocks PFU0 .. PFU3
  const PFU_CTRL_BASE: seq<Word> := [0x40070000, 0x40070400, 0x40070800, 0x40070C00]

  // Register offsets within a controller block
  const WMPR_OFFSET: nat := 0x4
  const WMR_OFFSET: nat := 0xC
  const OSR_OFFSET: nat := 0x10
  const FSR_OFFSET: nat := 0x20
  const OAR_OFFSET: nat := 0x30
  const PDR_OFFSETS: seq<nat> := [0x40, 0x44, 0x48, 0x4C]
  const SWER_OFFSETS: seq<nat> := [0x80, 0x84, 0x8C, 0x90]

  // Register values
  const KEY1: Word := 0x01234567
  const KEY2: Word := 0xFEDCBA98
  const FSR_RDY: nat := 0x100
  const OSR_OPST: Word := 1
  const SECTOR_ERASE_MODE: Word := 3
  const SINGLE_PROGRAM_MODE: Word := 6
  const MASS_ERASE_CMD: Word := 2
  const ERASE_TIMEOUT: int := 100000

  // The program-flash blocks
  const BLOCK_SIZE: nat := 0x200000
  const PFU0_ADDR: Word := 0x10000000
  const PFU1_ADDR: Word := 0x10200000
  const PFU2_ADDR: Word := 0x14000000
  const PFU3_ADDR: Word := 0x14200000

  // ---------------------------------------------------------------------------
  // get_pfu_instance

  /** The bounds of get_pfu_instance's four range tests, as the driver writes
      them: test k sets the instance to k when RANGE_LO[k] <= addr < RANGE_HI[k]. */
  const RANGE_LO: seq<nat> := [PFU0_ADDR, PFU1_ADDR, PFU2_ADDR, PFU3_ADDR]
  const RANGE_HI: seq<nat> := [PFU1_ADDR + BLOCK_SIZE, PFU2_ADDR + BLOCK_SIZE, PFU2_ADDR + BLOCK_SIZE, PFU3_ADDR + BLOCK_SIZE]

  predicate InRange(addr: Word, k: nat)
    requires k < 4
  {
    RANGE_LO[k] <= addr < RANGE_HI[k]
  }

  /** Tests k .. 3 run on `addr` with the instance so far `inst`. */
  function TestsFrom(addr: Word, k: nat, inst: nat): (i: nat)
    requires k <= 4 && inst < 4
    ensures i < 4
    decreases 4 - k
  {
    if k == 4 then inst else TestsFrom(addr, k + 1, if InRange(addr, k) then k else inst)
  }

  /** get_pfu_instance: start from 0 and run the four tests in order. */
  function PfuInstance(addr: Word): (i: nat)
    ensures i < 4
  {
    TestsFrom(addr, 0, 0)
  }

  /** The status register xc2xx_get_flash_status reads for `addr`:
      FSR of the controller of addr + base.  (The driver's function names
      `bank` without having it as a parameter; it is modelled with the bank
      base as a parameter.) */
  function StatusReg(base: Word, addr: Word): Word
  {
    Add32(PFU_CTRL_BASE[PfuInstance(Add32(addr, base))], FSR_OFFSET)
  }

  /** PFU_CTRL_BASE[get_pfu_instance(at)] + off. */
  function CtrlReg(at: Word, off: nat): Word
  {
    Add32(PFU_CTRL_BASE[PfuInstance(at)], off)
  }

  // ---------------------------------------------------------------------------
  // Driver statements

  datatype Op =
    | Put(reg: Word, value: Word)            // target_write_u32(reg, value)
    | Writes(ws: seq<(Word, Word)>)          // a helper's chain of target_write_u32(reg, value)
    | Await(addr: Word)                      // xc2xx_wait_status_busy(bank, FLASH_ERASE_TIMEOUT, addr)

  /** One statement, issued at log position `pos`, for the bank at `base`. */
  function OpRun(env: Env, pos: nat, base: Word, op: Op): Run
  {
    match op
    case Put(reg, v) => Run(env.ack(pos), [Write(reg, v)])
    case Writes(ws) => Issue(env, pos, ws)
    case Await(a) => Poll(env, pos, StatusReg(base, a), FSR_RDY, ERASE_TIMEOUT)
  }

  /** The statements' meaning against a target, for a bank at `base`. */
  function Sem(env: Env, base: Word): (nat, Op) -> Run
  {
    (p: nat, op: Op) => OpRun(env, p, base, op)
  }

  /** `sem` gives every statement the meaning OpRun gives it; the operations
      take the meaning as a parameter under this condition. */
  ghost predicate Denotes(sem: (nat, Op) -> Run, env: Env, base: Word)
  {
    forall p: nat, op: Op {:trigger OpRun(env, p, base, op)} :: sem(p, op) == OpRun(env, p, base, op)
  }

  lemma SemDenotes(env: Env, base: Word)
    ensures Denotes(Sem(env, base), env, base)
  {
  }

  // ---------------------------------------------------------------------------
  // The methods behind the statements

  /** xc2xx_get_flash_status: one read of the status register of addr + base's controller. */
  method GetFlashStatus(t: Target, base: Word, addr: Word) returns (r: int, status: Word)
    modifies t`log
    ensures t.log == old(t.log) + [Read(StatusReg(base, addr))]
    ensures var rep := t.env.reply(|old(t.log)|, StatusReg(base, addr));
            (rep.Value? ==> r == ERROR_OK && status == rep.v) && (rep.Failed? ==> r == rep.code)
  {
    r, status := t.ReadU32(Add32(PFU_CTRL_BASE[PfuInstance(Add32(addr, base))], FSR_OFFSET));
  }

  /** xc2xx_wait_status_busy: read the status until RDY shows, passing a
      failed read on, and fail once the countdown is used up.  One iteration
      is one read; the delay between reads is not modelled. */
  method WaitStatusBusy(t: Target, base: Word, timeout: int, addr: Word) returns (r: int)
    modifies t`log
    ensures t.log == old(t.log) + Poll(t.env, |old(t.log)|, StatusReg(base, addr), FSR_RDY, timeout).acc
    ensures r == Poll(t.env, |old(t.log)|, StatusReg(base, addr), FSR_RDY, timeout).code
  {
    ghost var reg := StatusReg(base, addr);
    ghost var p0 := |t.log|;
    ghost var n: nat := 0;
    var left := timeout;
    while true
      invariant t.log == old(t.log) + Reads(reg, n)
      invariant var q := Polls(t.env, p0 + n, reg, FSR_RDY, left);
                Polls(t.env, p0, reg, FSR_RDY, timeout) == Polled(q.code, q.count + n)
      decreases Max0(left)
    {
      var c, status := GetFlashStatus(t, base, addr);
      assert Reads(reg, n) + [Read(reg)] == Reads(reg, n + 1);
      if c != ERROR_OK {
        return c;
      }
      if BitSet(status, FSR_RDY) {
        return ERROR_OK;
      }
      if left <= 0 {
        return ERROR_FAIL;
      }
      n := n + 1;
      left := left - 1;
    }
  }

  /** One driver statement. */
  method DoOp(t: Target, base: Word, op: Op, ghost sem: (nat, Op) -> Run) returns (r: int)
    requires Denotes(sem, t.env, base)
    modifies t`log
    ensures t.log == old(t.log) + sem(|old(t.log)|, op).acc
    ensures r == sem(|old(t.log)|, op).code
  {
    ghost var sr := OpRun(t.env, |t.log|, base, op);
    match op {
      case Put(reg, v) => r := t.WriteU32(reg, v);
      case Writes(ws) => r := IssueWrites(t, ws);
      case Await(a) => r := WaitStatusBusy(t, base, ERASE_TIMEOUT, a);
    }
  }

  /** Run the statements of `ops` in order, stopping at the first failure. */
  method ExecOps(t: Target, base: Word, ops: seq<Op>, ghost sem: (nat, Op) -> Run) returns (r: int)
    requires Denotes(sem, t.env, base)
    modifies t`log
    ensures t.log == old(t.log) + ExecFrom(sem, |old(t.log)|, ops, 0).acc
    ensures r == ExecFrom(sem, |old(t.log)|, ops, 0).code
  {
    ghost var p0 := |t.log|;
    ghost var done: seq<Access> := [];
    assert done + [] == done;
    var i := 0;
    while i < |ops|
      invariant 0 <= i <= |ops|
      invariant t.log == old(t.log) + done
      invariant ExecResumes(sem, p0, ops, done, i)
    {
      ExecStep(sem, p0, ops, done, i);
      ghost var sr := sem(p0 + |done|, ops[i]);
      r := DoOp(t, base, ops[i], sem);
      AppendAssoc(old(t.log), done, sr.acc);
      if r != ERROR_OK {
        return;
      }
      done := done + sr.acc;
      i := i + 1;
    }
    ExecEnd(sem, p0, ops, done);
    r := ERROR_OK;
  }

  // ---------------------------------------------------------------------------
  // Register write protection and sector write enable

  /** The two unlock keys, written to the write-protection register of controller block `ctrl`. */
  function Keys(ctrl: Word): seq<(Word, Word)>
  {
    [(Add32(ctrl, WMPR_OFFSET), KEY1), (Add32(ctrl, WMPR_OFFSET), KEY2)]
  }

  /** xc2xx_write_protection_enable: PFU0 .. PFU3. */
  const UNLOCK: seq<(Word, Word)> :=
    Keys(PFU_CTRL_BASE[0]) + Keys(PFU_CTRL_BASE[1]) + Keys(PFU_CTRL_BASE[2]) + Keys(PFU_CTRL_BASE[3])

  /** All-ones to sector write-enable registers SWER0 .. SWER3 of controller block `ctrl`. */
  function SectorEnables(ctrl: Word): seq<(Word, Word)>
  {
    [(Add32(ctrl, SWER_OFFSETS[0]), 0xFFFFFFFF), (Add32(ctrl, SWER_OFFSETS[1]), 0xFFFFFFFF),
     (Add32(ctrl, SWER_OFFSETS[2]), 0xFFFFFFFF), (Add32(ctrl, SWER_OFFSETS[3]), 0xFFFFFFFF)]
  }

  /** xc2xx_sector_write_protection_enable: SWER0-3 of PFU0 .. PFU3. */
  const SWER: seq<(Word, Word)> :=
    SectorEnables(PFU_CTRL_BASE[0]) + SectorEnables(PFU_CTRL_BASE[1]) +
    SectorEnables(PFU_CTRL_BASE[2]) + SectorEnables(PFU_CTRL_BASE[3])

  /** xc2xx_write_protection_enable, then xc2xx_sector_write_protection_enable. */
  const HANDSHAKES: seq<Op> := [Writes(UNLOCK), Writes(SWER)]

  /** What erase, write and mass erase do first: refuse a running target
      (no access), then unlock the controllers and enable every sector. */
  function PrologueRun(sem: (nat, Op) -> Run, pos: nat, halted: bool): Run
  {
    if !halted then Run(ERROR_TARGET_NOT_HALTED, []) else ExecFrom(sem, pos, HANDSHAKES, 0)
  }

  method Prologue(t: Target, base: Word, ghost sem: (nat, Op) -> Run) returns (r: int)
    requires Denotes(sem, t.env, base)
    modifies t`log
    ensures t.log == old(t.log) + PrologueRun(sem, |old(t.log)|, t.halted).acc
    ensures r == PrologueRun(sem, |old(t.log)|, t.halted).code
  {
    if !t.halted {
      return ERROR_TARGET_NOT_HALTED;
    }
    r := ExecOps(t, base, HANDSHAKES, sem);
  }

  // ---------------------------------------------------------------------------
  // xc2xx_erase

  /** The body of xc2xx_erase's loop for the sector at address `at`
      (sectors[i].offset + base): sector-erase mode, the address, start, and
      the ready wait, which the driver passes `at` and which adds the base
      once more. */
  function SectorOps(at: Word): seq<Op>
  {
    [Put(CtrlReg(at, WMR_OFFSET), SECTOR_ERASE_MODE), Put(CtrlReg(at, OAR_OFFSET), at),
     Put(CtrlReg(at, OSR_OFFSET), OSR_OPST), Await(at)]
  }

  /** The meaning of one iteration of the loop, for the sector at offset `off`. */
  function SectorRun(sem: (nat, Op) -> Run, base: Word): (nat, nat) -> Run
  {
    (p: nat, off: nat) => ExecFrom(sem, p, SectorOps(Add32(off, base)), 0)
  }

  /** `body` is SectorRun(sem, base); the loop's proof does not unfold it. */
  ghost predicate IsSectorRun(body: (nat, nat) -> Run, sem: (nat, Op) -> Run, base: Word)
  {
    forall p: nat, off: nat {:trigger SectorOps(Add32(off, base)), body(p, off)} ::
      body(p, off) == ExecFrom(sem, p, SectorOps(Add32(off, base)), 0)
  }

  lemma SectorRunIs(sem: (nat, Op) -> Run, base: Word)
    ensures IsSectorRun(SectorRun(sem, base), sem, base)
  {
  }

  /** xc2xx_erase on a bank at `base` whose sector offsets are `offs`: the
      prologue, then the loop over sectors first .. last; `done` sectors
      from `first` on completed. */
  function EraseSpec(sem: (nat, Op) -> Run, pos: nat, halted: bool, base: Word, offs: seq<nat>,
                     first: nat, last: nat): Progress
    requires first <= last ==> last < |offs|
  {
    var pre := PrologueRun(sem, pos, halted);
    if pre.code != ERROR_OK then Progress(pre, 0)
    else
      var p := Iterate(SectorRun(sem, base), pos + |pre.acc|, offs, first, SectorEnd(first, last));
      Progress(Run(p.run.code, pre.acc + p.run.acc), p.done)
  }

  /** One iteration of the sector loop: erase sector i, and mark it erased once that succeeded. */
  method EraseSector(t: Target, sectors: array<Sector>, base: Word, i: nat,
                     ghost sem: (nat, Op) -> Run, ghost body: (nat, nat) -> Run) returns (r: int)
    requires Denotes(sem, t.env, base) && IsSectorRun(body, sem, base)
    requires i < sectors.Length
    modifies t`log, sectors
    ensures var e := body(|old(t.log)|, old(sectors[i]).offset);
            t.log == old(t.log) + e.acc && r == e.code
    ensures forall j :: 0 <= j < sectors.Length ==>
              sectors[j] == if j == i && r == ERROR_OK then old(sectors[j]).(isErased := Erased) else old(sectors[j])
  {
    r := ExecOps(t, base, SectorOps(Add32(sectors[i].offset, base)), sem);
    if r == ERROR_OK {
      sectors[i] := sectors[i].(isErased := Erased);
    }
  }

  /** The sector loop of xc2xx_erase over first .. last. */
  method SectorLoop(t: Target, sectors: array<Sector>, base: Word, first: nat, last: nat,
                    ghost sem: (nat, Op) -> Run, ghost body: (nat, nat) -> Run) returns (r: int)
    requires Denotes(sem, t.env, base) && IsSectorRun(body, sem, base)
    requires first <= last ==> last < sectors.Length
    modifies t`log, sectors
    ensures var p := Iterate(body, |old(t.log)|, Offsets(old(sectors[..])), first, SectorEnd(first, last));
            && t.log == old(t.log) + p.run.acc
            && r == p.run.code
            && forall j :: 0 <= j < sectors.Length ==>
                 sectors[j] == if first <= j < first + p.done then old(sectors[j]).(isErased := Erased) else old(sectors[j])
  {
    ghost var s0 := sectors[..];
    ghost var offs := Offsets(s0);
    ghost var end := SectorEnd(first, last);
    ghost var p0 := |t.log|;
    ghost var done: seq<Access> := [];
    var i := first;
    while i <= last
      invariant first <= i <= end
      invariant t.log == old(t.log) + done
      invariant Resumes(body, p0, offs, first, end, done, i)
      invariant forall j :: 0 <= j < sectors.Length ==>
                  sectors[j] == if first <= j < i then s0[j].(isErased := Erased) else s0[j]
      decreases last - i
    {
      IterateStep(body, p0, offs, first, end, done, i);
      ghost var sr := body(p0 + |done|, offs[i]);
      r := EraseSector(t, sectors, base, i, sem, body);
      AppendAssoc(old(t.log), done, sr.acc);
      if r != ERROR_OK {
        return;
      }
      done := done + sr.acc;
      i := i + 1;
    }
    IterateEnd(body, p0, offs, first, end, done);
    r := ERROR_OK;
  }

  /** xc2xx_erase on the bank at `base` with sector table `sectors`. */
  method EraseOn(t: Target, sectors: array<Sector>, base: Word, first: nat, last: nat,
                 ghost sem: (nat, Op) -> Run) returns (r: int)
    requires Denotes(sem, t.env, base)
    requires first <= last ==> last < sectors.Length
    modifies t`log, sectors
    ensures var e := EraseSpec(sem, |old(t.log)|, t.halted, base, Offsets(old(sectors[..])), first, last);
            && t.log == old(t.log) + e.run.acc
            && r == e.run.code
            && forall j :: 0 <= j < sectors.Length ==>
                 sectors[j] == if first <= j < first + e.done then old(sectors[j]).(isErased := Erased) else old(sectors[j])
  {
    ghost var log0 := t.log;
    ghost var pre := PrologueRun(sem, |log0|, t.halted);
    r := Prologue(t, base, sem);
    if r != ERROR_OK {
      return;
    }
    ghost var p := Iterate(SectorRun(sem, base), |t.log|, Offsets(sectors[..]), first, SectorEnd(first, last));
    SectorRunIs(sem, base);
    r := SectorLoop(t, sectors, base, first, last, sem, SectorRun(sem, base));
    AppendAssoc(log0, pre.acc, p.run.acc);
  }

  /** xc2xx_erase: a sector is marked erased once its erase and wait succeeded. */
  method Erase(bank: Bank, first: nat, last: nat, ghost sem: (nat, Op) -> Run) returns (r: int)
    requires Denotes(sem, bank.target.env, bank.base)
    requires first <= last ==> last < bank.sectors.Length
    modifies bank.target`log, bank.sectors
    ensures var e := EraseSpec(sem, |old(bank.target.log)|, bank.target.halted, bank.base,
                               Offsets(old(bank.sectors[..])), first, last);
            && bank.target.log == old(bank.target.log) + e.run.acc
            && r == e.run.code
            && forall j :: 0 <= j < bank.sectors.Length ==>
                 bank.sectors[j] == if first <= j < first + e.done
                                    then old(bank.sectors[j]).(isErased := Erased) else old(bank.sectors[j])
  {
    r := EraseOn(bank.target, bank.sectors, bank.base, first, last, sem);
  }

  // ---------------------------------------------------------------------------
  // xc2xx_write

  /** One iteration of xc2xx_write's loop: the 16 bytes `data` programmed at
      bank offset `addr` of the bank at `base`.  The controller is the one of
      addr + base, but OAR receives `addr` itself. */
  function GroupOps(base: Word, addr: Word, data: seq<Byte>): seq<Op>
    requires |data| == 16
  {
    var at := Add32(addr, base);
    [Put(CtrlReg(at, WMR_OFFSET), SINGLE_PROGRAM_MODE),
     Put(CtrlReg(at, OAR_OFFSET), addr),
     Put(CtrlReg(at, PDR_OFFSETS[0]), Word4(data[0..4])),
     Put(CtrlReg(at, PDR_OFFSETS[1]), Word4(data[4..8])),
     Put(CtrlReg(at, PDR_OFFSETS[2]), Word4(data[8..12])),
     Put(CtrlReg(at, PDR_OFFSETS[3]), Word4(data[12..16])),
     Put(CtrlReg(at, OSR_OFFSET), OSR_OPST),
     Await(addr)]
  }

  /** The iterations of `for (i = 0; i < count; i += 16)`. */
  function Groups(count: nat): nat
  {
    (count + 15) / 16
  }

  lemma GroupsCover(count: nat, g: nat)
    ensures g < Groups(count) <==> 16 * g < count
  {
  }

  /** What the loop reads of the buffer: whole 16-byte groups, and the loop
      counter stays a valid uint32. */
  predicate GroupsFit(buf: seq<Byte>, count: nat)
  {
    16 * Groups(count) <= |buf| && 16 * Groups(count) < WORD_MOD
  }

  /** The statements of iteration g: buffer[16g .. 16g+16) to bank offset offset + 16g. */
  function GroupAt(base: Word, buf: seq<Byte>, offset: Word, g: nat): seq<Op>
    requires 16 * g + 16 <= |buf|
  {
    GroupOps(base, Add32(offset, 16 * g), buf[16 * g..16 * g + 16])
  }

  /** Iteration g of the loop.  (A buffer too short for the group is
      excluded by the write's precondition.) */
  function GroupRun(sem: (nat, Op) -> Run, base: Word, buf: seq<Byte>, offset: Word): (nat, nat) -> Run
  {
    (p: nat, g: nat) =>
      if 16 * g + 16 <= |buf| then ExecFrom(sem, p, GroupAt(base, buf, offset, g), 0)
      else Run(ERROR_FAIL, [])
  }

  ghost predicate IsGroupRun(body: (nat, nat) -> Run, sem: (nat, Op) -> Run, base: Word, buf: seq<Byte>, offset: Word)
  {
    forall p: nat, g: nat {:trigger GroupAt(base, buf, offset, g), body(p, g)} ::
      16 * g + 16 <= |buf| ==> body(p, g) == ExecFrom(sem, p, GroupAt(base, buf, offset, g), 0)
  }

  lemma GroupRunIs(sem: (nat, Op) -> Run, base: Word, buf: seq<Byte>, offset: Word)
    ensures IsGroupRun(GroupRun(sem, base, buf, offset), sem, base, buf, offset)
  {
  }

  /** xc2xx_write of `count` bytes of `buf` to bank offset `offset`: the
      prologue, then an unaligned offset or count is refused, then the groups. */
  function WriteSpec(sem: (nat, Op) -> Run, pos: nat, halted: bool, base: Word, buf: seq<Byte>,
                     offset: Word, count: Word): Run
  {
    var pre := PrologueRun(sem, pos, halted);
    if pre.code != ERROR_OK then pre
    else if offset % 4 != 0 || count % 4 != 0 then Run(ERROR_FLASH_DST_BREAKS_ALIGNMENT, pre.acc)
    else
      var w := Repeat(GroupRun(sem, base, buf, offset), pos + |pre.acc|, 0, Groups(count)).run;
      Run(w.code, pre.acc + w.acc)
  }

  /** The loop's own expression for group g's statements. */
  lemma GroupAtIs(base: Word, buf: seq<Byte>, offset: Word, g: nat, i: nat, addr: Word)
    requires i == 16 * g && i + 16 <= |buf| && addr == Add32(offset, 16 * g)
    ensures GroupOps(base, addr, buf[i..i + 16]) == GroupAt(base, buf, offset, g)
  {
  }

  /** One iteration of the write loop: group g, at buffer index i == 16g and
      bank offset addr == offset + 16g. */
  method ProgramGroup(t: Target, base: Word, buf: seq<Byte>, offset: Word, g: nat, i: nat, addr: Word,
                      ghost sem: (nat, Op) -> Run, ghost body: (nat, nat) -> Run) returns (r: int)
    requires Denotes(sem, t.env, base) && IsGroupRun(body, sem, base, buf, offset)
    requires i == 16 * g && i + 16 <= |buf| && addr == Add32(offset, 16 * g)
    modifies t`log
    ensures t.log == old(t.log) + body(|old(t.log)|, g).acc && r == body(|old(t.log)|, g).code
  {
    GroupAtIs(base, buf, offset, g, i, addr);
    r := ExecOps(t, base, GroupOps(base, addr, buf[i..i + 16]), sem);
  }

  /** The loop of xc2xx_write. */
  method ProgramGroups(t: Target, base: Word, buf: seq<Byte>, offset: Word, count: Word,
                       ghost sem: (nat, Op) -> Run, ghost body: (nat, nat) -> Run) returns (r: int)
    requires Denotes(sem, t.env, base) && IsGroupRun(body, sem, base, buf, offset)
    requires GroupsFit(buf, count)
    modifies t`log
    ensures var p := Repeat(body, |old(t.log)|, 0, Groups(count));
            t.log == old(t.log) + p.run.acc && r == p.run.code
  {
    ghost var p0 := |t.log|;
    ghost var n := Groups(count);
    ghost var done: seq<Access> := [];
    assert done + [] == done;
    var i: nat := 0;
    var g: nat := 0;
    var addr := offset;
    while i < count
      invariant i == 16 * g && g <= n
      invariant addr == Add32(offset, 16 * g)
      invariant t.log == old(t.log) + done
      invariant RepeatResumes(body, p0, n, done, g)
      decreases count - i
    {
      GroupsCover(count, g);
      RepeatStep(body, p0, n, done, g);
      ghost var sr := body(p0 + |done|, g);
      r := ProgramGroup(t, base, buf, offset, g, i, addr, sem, body);
      AppendAssoc(old(t.log), done, sr.acc);
      if r != ERROR_OK {
        return;
      }
      done := done + sr.acc;
      Add32Assoc(offset, 16 * g, 16);
      i, addr, g := i + 16, Add32(addr, 16), g + 1;
    }
    GroupsCover(count, g);
    RepeatEnd(body, p0, n, done);
    r := ERROR_OK;
  }

  /** xc2xx_write on the bank at `base`. */
  method WriteOn(t: Target, base: Word, buf: seq<Byte>, offset: Word, count: Word,
                 ghost sem: (nat, Op) -> Run) returns (r: int)
    requires Denotes(sem, t.env, base)
    requires offset % 4 == 0 && count % 4 == 0 ==> GroupsFit(buf, count)
    modifies t`log
    ensures t.log == old(t.log) + WriteSpec(sem, |old(t.log)|, t.halted, base, buf, offset, count).acc
    ensures r == WriteSpec(sem, |old(t.log)|, t.halted, base, buf, offset, count).code
  {
    ghost var log0 := t.log;
    ghost var pre := PrologueRun(sem, |log0|, t.halted);
    r := Prologue(t, base, sem);
    if r != ERROR_OK {
      return;
    }
    if offset % 4 != 0 {
      return ERROR_FLASH_DST_BREAKS_ALIGNMENT;
    }
    if count % 4 != 0 {
      return ERROR_FLASH_DST_BREAKS_ALIGNMENT;
    }
    ghost var w := Repeat(GroupRun(sem, base, buf, offset), |t.log|, 0, Groups(count)).run;
    GroupRunIs(sem, base, buf, offset);
    r := ProgramGroups(t, base, buf, offset, count, sem, GroupRun(sem, base, buf, offset));
    AppendAssoc(log0, pre.acc, w.acc);
  }

  /** xc2xx_write: program `count` bytes of `buffer` at bank offset `offset`. */
  method WriteFlash(bank: Bank, buffer: seq<Byte>, offset: Word, count: Word, ghost sem: (nat, Op) -> Run)
    returns (r: int)
    requires Denotes(sem, bank.target.env, bank.base)
    requires offset % 4 == 0 && count % 4 == 0 ==> GroupsFit(buffer, count)
    modifies bank.target`log
    ensures var w := WriteSpec(sem, |old(bank.target.log)|, bank.target.halted, bank.base, buffer, offset, count);
            bank.target.log == old(bank.target.log) + w.acc && r == w.code
  {
    r := WriteOn(bank.target, bank.base, buffer, offset, count, sem);
  }

  // ---------------------------------------------------------------------------
  // xc2xx_probe

  const PROBE_SIZE: nat := 0x400000
  const PROBE_SECTOR_SIZE: nat := 0x4000
  const PROBE_SECTORS: nat := 256

  /** The driver's static state. */
  class Driver {
    /** dual_bank_probed: whether the last probe took the first bank. */
    var dualBankProbed: bool

    constructor ()
      ensures !dualBankProbed
    {
      dualBankProbed := false;
    }
  }

  /** The base a probe assigns, by the flag before it. */
  function ProbeBase(probed: bool): Word
  {
    if !probed then PFU0_ADDR else PFU2_ADDR
  }

  /** xc2xx_probe: size 0x400000 in 256 sectors of 0x4000 whatever the bank,
      and a base that alternates between the two halves, toggling the flag.
      (The driver's sector loop assigns to `offset + base`, which is not an
      lvalue; it is modelled as assigning i * sector_size to the offset.) */
  method Probe(bank: Bank, d: Driver) returns (r: int)
    modifies bank`base, bank`size, bank`sectors, d`dualBankProbed
    ensures bank.base == ProbeBase(old(d.dualBankProbed)) && d.dualBankProbed == !old(d.dualBankProbed)
    ensures bank.size == PROBE_SIZE && bank.sectors.Length == PROBE_SECTORS
    ensures forall i :: 0 <= i < bank.sectors.Length ==>
              bank.sectors[i] == Sector(i * PROBE_SECTOR_SIZE, PROBE_SECTOR_SIZE, Unknown, false)
    ensures fresh(bank.sectors) && r == ERROR_OK
  {
    var sectorSize := PROBE_SECTOR_SIZE;
    bank.size := PROBE_SIZE;
    var numSectors := bank.size / sectorSize;
    if !d.dualBankProbed {
      bank.base := PFU0_ADDR;
      d.dualBankProbed := true;
    } else {
      bank.base := PFU2_ADDR;
      d.dualBankProbed := false;
    }
    bank.ResetSectors(numSectors, sectorSize);
    r := ERROR_OK;
  }

  // ---------------------------------------------------------------------------
  // xc2xx_mass_erase and its command

  /** One controller's mass erase: mass-erase mode, the block address,
      start, then the ready wait, which the driver passes the block address
      and which adds the bank base to it. */
  function MassGroup(ctrl: Word, oar: Word): seq<Op>
  {
    [Put(Add32(ctrl, WMR_OFFSET), MASS_ERASE_CMD), Put(Add32(ctrl, OAR_OFFSET), oar),
     Put(Add32(ctrl, OSR_OFFSET), OSR_OPST), Await(oar)]
  }

  /** The statements of xc2xx_mass_erase after the prologue, by bank id. */
  function MassOps(id: nat): seq<Op>
  {
    if id == 0 then MassGroup(PFU_CTRL_BASE[0], PFU0_ADDR) + MassGroup(PFU_CTRL_BASE[1], PFU1_ADDR)
    else if id == 1 then MassGroup(PFU_CTRL_BASE[2], PFU2_ADDR) + MassGroup(PFU_CTRL_BASE[3], PFU3_ADDR)
    else []
  }

  /** xc2xx_mass_erase: the prologue, then the id's controller groups. */
  function MassEraseSpec(sem: (nat, Op) -> Run, pos: nat, halted: bool, id: nat): Run
  {
    var pre := PrologueRun(sem, pos, halted);
    if pre.code != ERROR_OK then pre
    else
      var m := ExecFrom(sem, pos + |pre.acc|, MassOps(id), 0);
      Run(m.code, pre.acc + m.acc)
  }

  method MassErase(t: Target, base: Word, id: nat, ghost sem: (nat, Op) -> Run) returns (r: int)
    requires Denotes(sem, t.env, base)
    modifies t`log
    ensures t.log == old(t.log) + MassEraseSpec(sem, |old(t.log)|, t.halted, id).acc
    ensures r == MassEraseSpec(sem, |old(t.log)|, t.halted, id).code
  {
    ghost var log0 := t.log;
    ghost var pre := PrologueRun(sem, |log0|, t.halted);
    r := Prologue(t, base, sem);
    if r != ERROR_OK {
      return;
    }
    ghost var m := ExecFrom(sem, |t.log|, MassOps(id), 0);
    r := ExecOps(t, base, MassOps(id), sem);
    AppendAssoc(log0, pre.acc, m.acc);
  }

  /** The ids xc2xx_handle_mass_erase_command accepts. */
  predicate MassEraseId(id: nat)
  {
    id == 0 || id == 1
  }

  /** xc2xx_handle_mass_erase_command with a parsed id: other ids are a
      syntax error with no access; otherwise mass erase, and all sectors are
      marked erased when it succeeded.  The command reports ERROR_OK either way. */
  method MassEraseCommand(bank: Bank, id: nat, ghost sem: (nat, Op) -> Run) returns (r: int)
    requires Denotes(sem, bank.target.env, bank.base)
    modifies bank.target`log, bank.sectors
    ensures var m := MassEraseSpec(sem, |old(bank.target.log)|, bank.target.halted, id);
            && r == (if MassEraseId(id) then ERROR_OK else ERROR_COMMAND_SYNTAX_ERROR)
            && bank.target.log == old(bank.target.log) + (if MassEraseId(id) then m.acc else [])
            && forall i :: 0 <= i < bank.sectors.Length ==>
                 bank.sectors[i] == if MassEraseId(id) && m.code == ERROR_OK
                                    then old(bank.sectors[i]).(isErased := Erased) else old(bank.sectors[i])
  {
    if !MassEraseId(id) {
      return ERROR_COMMAND_SYNTAX_ERROR;
    }
    var m := MassErase(bank.target, bank.base, id, sem);
    if m == ERROR_OK {
      bank.MarkAllErased();
    }
    r := ERROR_OK;
  }
}
