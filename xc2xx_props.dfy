// Properties of the xc2xx driver model: where get_pfu_instance sends each
// address, the exact handshake sequences, what each operation does on a
// running target, on a refused handshake and on a misaligned request, which
// status register the waits read, and the exact accesses erase, write and
// mass erase make on a target that accepts every write and is always ready.

module Xc2xxProps {
  import opened Flash
  import opened Xc2xx

  // ---------------------------------------------------------------------------
  // get_pfu_instance

  /** Running tests k .. 3 from the instance `inst` ends at the last test
      that matches, or at `inst` when none of them does. */
  lemma {:induction false} TestsFromLastMatch(addr: Word, k: nat, inst: nat)
    requires k <= 4 && inst < 4
    ensures var i := TestsFrom(addr, k, inst);
            || (i == inst && forall j :: k <= j < 4 ==> !InRange(addr, j))
            || (k <= i < 4 && InRange(addr, i) && forall j :: i < j < 4 ==> !InRange(addr, j))
    decreases 4 - k
  {
    if k < 4 {
      TestsFromLastMatch(addr, k + 1, if InRange(addr, k) then k else inst);
    }
  }

  /** get_pfu_instance is last-match-wins: the result is the last of the
      four tests that matches, and 0 when none does. */
  lemma InstanceIsLastMatch(addr: Word)
    ensures forall j :: 0 <= j < 4 && InRange(addr, j) ==> j <= PfuInstance(addr)
    ensures (exists j :: 0 <= j < 4 && InRange(addr, j)) ==> InRange(addr, PfuInstance(addr))
    ensures (forall j :: 0 <= j < 4 ==> !InRange(addr, j)) ==> PfuInstance(addr) == 0
  {
    TestsFromLastMatch(addr, 0, 0);
  }

  /** The resulting map: each 2 MiB block goes to its own controller, the
      gap between the two halves to PFU1 (its test's bound reaches into the
      second half), and any other address to PFU0. */
  lemma InstanceMap(addr: Word)
    ensures PFU0_ADDR <= addr < PFU1_ADDR ==> PfuInstance(addr) == 0
    ensures PFU1_ADDR <= addr < PFU2_ADDR ==> PfuInstance(addr) == 1
    ensures PFU2_ADDR <= addr < PFU3_ADDR ==> PfuInstance(addr) == 2
    ensures PFU3_ADDR <= addr < PFU3_ADDR + BLOCK_SIZE ==> PfuInstance(addr) == 3
    ensures addr < PFU0_ADDR || PFU3_ADDR + BLOCK_SIZE <= addr ==> PfuInstance(addr) == 0
  {
    InstanceIsLastMatch(addr);
    assert InRange(addr, 0) <==> PFU0_ADDR <= addr < PFU1_ADDR + BLOCK_SIZE;
    assert InRange(addr, 1) <==> PFU1_ADDR <= addr < PFU2_ADDR + BLOCK_SIZE;
    assert InRange(addr, 2) <==> PFU2_ADDR <= addr < PFU2_ADDR + BLOCK_SIZE;
    assert InRange(addr, 3) <==> PFU3_ADDR <= addr < PFU3_ADDR + BLOCK_SIZE;
  }

  // ---------------------------------------------------------------------------
  // Which status register the waits read

  /** The two bases the probe assigns. */
  predicate ProbedBase(base: Word)
  {
    base == PFU0_ADDR || base == PFU2_ADDR
  }

  /** PFU0's flash status register. */
  const PFU0_FSR: Word := 0x40070020

  /** xc2xx_erase passes sectors[i].offset + base to the wait, which adds
      the base again: on either probed bank the erase of every sector
      therefore polls PFU0's status register, whichever controller the
      sector belongs to. */
  lemma EraseWaitReadsPfu0(base: Word, offset: nat)
    requires ProbedBase(base) && offset < PROBE_SIZE
    ensures StatusReg(base, Add32(offset, base)) == PFU0_FSR
  {
    var a := Add32(Add32(offset, base), base);
    assert a == offset + 2 * base;
    InstanceMap(a);
  }

  /** The erase writes go to the sector's own controller: the block of the
      sector's offset within the probed half. */
  lemma EraseWritesOwnController(base: Word, offset: nat)
    requires ProbedBase(base) && offset < PROBE_SIZE
    ensures CtrlReg(Add32(offset, base), WMR_OFFSET)
              == Add32(PFU_CTRL_BASE[(if base == PFU0_ADDR then 0 else 2) + (if offset < BLOCK_SIZE then 0 else 1)], WMR_OFFSET)
  {
    InstanceMap(Add32(offset, base));
  }

  /** The mass-erase waits also add the base to a block address: on either
      probed bank each of them polls PFU0's status register. */
  lemma MassEraseWaitsReadPfu0(base: Word)
    requires ProbedBase(base)
    ensures StatusReg(base, PFU0_ADDR) == PFU0_FSR && StatusReg(base, PFU1_ADDR) == PFU0_FSR
    ensures StatusReg(base, PFU2_ADDR) == PFU0_FSR && StatusReg(base, PFU3_ADDR) == PFU0_FSR
  {
    InstanceMap(Add32(PFU0_ADDR, base));
    InstanceMap(Add32(PFU1_ADDR, base));
    InstanceMap(Add32(PFU2_ADDR, base));
    InstanceMap(Add32(PFU3_ADDR, base));
  }

  /** The write loop's wait passes `addr` without the base, so the status
      register it polls belongs to the controller the group's mode write went
      to, unlike the erase waits above. */
  lemma WriteWaitReadsOwnController(base: Word, addr: Word, data: seq<Byte>)
    requires |data| == 16
    ensures var i := PfuInstance(Add32(addr, base));
            var ops := GroupOps(base, addr, data);
            && ops[0] == Put(Add32(PFU_CTRL_BASE[i], WMR_OFFSET), SINGLE_PROGRAM_MODE)
            && ops[7] == Await(addr)
            && StatusReg(base, ops[7].addr) == Add32(PFU_CTRL_BASE[i], FSR_OFFSET)
  {
  }

  // ---------------------------------------------------------------------------
  // The handshakes

  /** xc2xx_write_protection_enable writes KEY1 then KEY2 to the WMPR of
      PFU0, PFU1, PFU2 and PFU3, in that order. */
  lemma UnlockSequence()
    ensures UNLOCK == [(0x40070004, KEY1), (0x40070004, KEY2), (0x40070404, KEY1), (0x40070404, KEY2),
                       (0x40070804, KEY1), (0x40070804, KEY2), (0x40070C04, KEY1), (0x40070C04, KEY2)]
  {
  }

  /** xc2xx_sector_write_protection_enable sets SWER0 .. SWER3 of each
      controller to all ones. */
  lemma SectorEnableSequence()
    ensures SWER == [(0x40070080, 0xFFFFFFFF), (0x40070084, 0xFFFFFFFF), (0x4007008C, 0xFFFFFFFF), (0x40070090, 0xFFFFFFFF),
                     (0x40070480, 0xFFFFFFFF), (0x40070484, 0xFFFFFFFF), (0x4007048C, 0xFFFFFFFF), (0x40070490, 0xFFFFFFFF),
                     (0x40070880, 0xFFFFFFFF), (0x40070884, 0xFFFFFFFF), (0x4007088C, 0xFFFFFFFF), (0x40070890, 0xFFFFFFFF),
                     (0x40070C80, 0xFFFFFFFF), (0x40070C84, 0xFFFFFFFF), (0x40070C8C, 0xFFFFFFFF), (0x40070C90, 0xFFFFFFFF)]
  {
  }

  /** The number of writes the two handshakes issue between them. */
  const HANDSHAKE_WRITES: nat := 24

  /** The target accepts the n writes issued from log position pos on. */
  ghost predicate Accepts(env: Env, pos: nat, n: nat)
  {
    forall p :: pos <= p < pos + n ==> env.ack(p) == ERROR_OK
  }

  lemma HandshakeSteps(sem: (nat, Op) -> Run, env: Env, base: Word, pos: nat)
    requires Denotes(sem, env, base)
    ensures sem(pos, HANDSHAKES[0]) == Issue(env, pos, UNLOCK)
    ensures sem(pos + |UNLOCK|, HANDSHAKES[1]) == Issue(env, pos + |UNLOCK|, SWER)
  {
    assert sem(pos, Writes(UNLOCK)) == OpRun(env, pos, base, Writes(UNLOCK));
    assert sem(pos + |UNLOCK|, Writes(SWER)) == OpRun(env, pos + |UNLOCK|, base, Writes(SWER));
  }

  /** On a halted target that accepts the handshakes' writes, the prologue
      succeeds having issued exactly the unlock keys and then the sector enables. */
  lemma PrologueAccepted(sem: (nat, Op) -> Run, env: Env, base: Word, pos: nat)
    requires Denotes(sem, env, base)
    requires Accepts(env, pos, HANDSHAKE_WRITES)
    ensures PrologueRun(sem, pos, true) == Run(ERROR_OK, AsWrites(UNLOCK) + AsWrites(SWER))
  {
    UnlockSequence();
    SectorEnableSequence();
    HandshakeSteps(sem, env, base, pos);
    IssueAllAccepted(env, pos, UNLOCK);
    IssueAllAccepted(env, pos + 8, SWER);
    assert ExecFrom(sem, pos + 24, HANDSHAKES, 2) == Run(ERROR_OK, []);
    assert ExecFrom(sem, pos + 8, HANDSHAKES, 1) == Run(ERROR_OK, AsWrites(SWER) + []);
    assert AsWrites(SWER) + [] == AsWrites(SWER);
  }

  /** A refused unlock write ends the prologue with its code, after the
      writes up to and including it; no sector is enabled. */
  lemma PrologueUnlockRefused(sem: (nat, Op) -> Run, env: Env, base: Word, pos: nat)
    requires Denotes(sem, env, base)
    requires FirstNack(env, pos, |UNLOCK|) < |UNLOCK|
    ensures var k := FirstNack(env, pos, |UNLOCK|);
            PrologueRun(sem, pos, true) == Run(env.ack(pos + k), AsWrites(UNLOCK)[..k + 1])
  {
    var k := FirstNack(env, pos, |UNLOCK|);
    HandshakeSteps(sem, env, base, pos);
    IssueStopsAtFirstFailure(env, pos, UNLOCK);
    FirstNackIsFirst(env, pos, |UNLOCK|);
    assert env.ack(pos + k) != ERROR_OK;
  }

  /** When the unlock is accepted but a sector enable is refused, the
      prologue stops at that write with its code. */
  lemma PrologueEnableRefused(sem: (nat, Op) -> Run, env: Env, base: Word, pos: nat)
    requires Denotes(sem, env, base)
    requires Accepts(env, pos, |UNLOCK|)
    requires FirstNack(env, pos + |UNLOCK|, |SWER|) < |SWER|
    ensures var k := FirstNack(env, pos + |UNLOCK|, |SWER|);
            PrologueRun(sem, pos, true)
              == Run(env.ack(pos + |UNLOCK| + k), AsWrites(UNLOCK) + AsWrites(SWER)[..k + 1])
  {
    var k := FirstNack(env, pos + |UNLOCK|, |SWER|);
    HandshakeSteps(sem, env, base, pos);
    IssueAllAccepted(env, pos, UNLOCK);
    IssueStopsAtFirstFailure(env, pos + |UNLOCK|, SWER);
    FirstNackIsFirst(env, pos + |UNLOCK|, |SWER|);
    assert |AsWrites(UNLOCK)| == |UNLOCK|;
    assert ExecFrom(sem, pos + |UNLOCK|, HANDSHAKES, 1) == Run(env.ack(pos + |UNLOCK| + k), AsWrites(SWER)[..k + 1]);
  }

  // ---------------------------------------------------------------------------
  // A running target, a misaligned write, an unknown mass-erase id

  /** On a target that is not halted, erase, write and mass erase return
      ERROR_TARGET_NOT_HALTED without any access and mark no sector. */
  lemma NotHalted(sem: (nat, Op) -> Run, pos: nat, base: Word, offs: seq<nat>, first: nat, last: nat,
                  buf: seq<Byte>, offset: Word, count: Word, id: nat)
    requires first <= last ==> last < |offs|
    ensures EraseSpec(sem, pos, false, base, offs, first, last) == Progress(Run(ERROR_TARGET_NOT_HALTED, []), 0)
    ensures WriteSpec(sem, pos, false, base, buf, offset, count) == Run(ERROR_TARGET_NOT_HALTED, [])
    ensures MassEraseSpec(sem, pos, false, id) == Run(ERROR_TARGET_NOT_HALTED, [])
  {
  }

  /** A misaligned offset or count is refused only after both handshakes
      have been issued, and nothing is programmed. */
  lemma WriteMisaligned(sem: (nat, Op) -> Run, env: Env, base: Word, pos: nat, buf: seq<Byte>, offset: Word, count: Word)
    requires Denotes(sem, env, base)
    requires Accepts(env, pos, HANDSHAKE_WRITES)
    requires offset % 4 != 0 || count % 4 != 0
    ensures WriteSpec(sem, pos, true, base, buf, offset, count)
              == Run(ERROR_FLASH_DST_BREAKS_ALIGNMENT, AsWrites(UNLOCK) + AsWrites(SWER))
  {
    PrologueAccepted(sem, env, base, pos);
  }

  /** The statements each id runs: 0 is PFU0 then PFU1, 1 is PFU2 then
      PFU3, each with its own block address; any other id runs nothing. */
  lemma MassEraseTargets(id: nat)
    ensures id == 0 ==> (MassOps(id) ==
      [Put(0x4007000C, 2), Put(0x40070030, 0x10000000), Put(0x40070010, 1), Await(0x10000000),
       Put(0x4007040C, 2), Put(0x40070430, 0x10200000), Put(0x40070410, 1), Await(0x10200000)])
    ensures id == 1 ==> (MassOps(id) ==
      [Put(0x4007080C, 2), Put(0x40070830, 0x14000000), Put(0x40070810, 1), Await(0x14000000),
       Put(0x40070C0C, 2), Put(0x40070C30, 0x14200000), Put(0x40070C10, 1), Await(0x14200000)])
    ensures !MassEraseId(id) ==> MassOps(id) == []
  {
  }

  /** An id other than 0 and 1 makes xc2xx_mass_erase do only its prologue. */
  lemma MassEraseOtherId(sem: (nat, Op) -> Run, pos: nat, halted: bool, id: nat)
    requires !MassEraseId(id)
    ensures MassEraseSpec(sem, pos, halted, id) == PrologueRun(sem, pos, halted)
  {
    var pre := PrologueRun(sem, pos, halted);
    assert ExecFrom(sem, pos + |pre.acc|, MassOps(id), 0) == Run(ERROR_OK, []);
    assert pre.acc + [] == pre.acc;
  }

  // ---------------------------------------------------------------------------
  // The probe

  /** The bases `n` successive probes assign, starting with the flag `probed`. */
  function ProbeBases(probed: bool, n: nat): (s: seq<Word>)
    ensures |s| == n
    decreases n
  {
    if n == 0 then [] else [ProbeBase(probed)] + ProbeBases(!probed, n - 1)
  }

  /** From the driver's initial state, successive probes alternate between
      the first half (0x10000000) and the second half (0x14000000), starting
      with the first. */
  lemma {:induction false} ProbesAlternate(probed: bool, n: nat, k: nat)
    requires k < n
    ensures ProbeBases(probed, n)[k] == if (k % 2 == 0) != probed then PFU0_ADDR else PFU2_ADDR
    decreases k
  {
    if k > 0 {
      ProbesAlternate(!probed, n - 1, k - 1);
    }
  }

  // ---------------------------------------------------------------------------
  // A cooperative target

  /** A target that accepts every write and whose every read shows RDY. */
  ghost predicate Cooperative(env: Env)
  {
    && (forall p: nat :: env.ack(p) == ERROR_OK)
    && (forall p: nat, a: Word :: env.reply(p, a) == Value(FSR_RDY))
  }

  /** The accesses a statement makes on a cooperative target. */
  function OpTrace(base: Word, op: Op): seq<Access>
  {
    match op
    case Put(reg, v) => [Write(reg, v)]
    case Writes(ws) => AsWrites(ws)
    case Await(a) => [Read(StatusReg(base, a))]
  }

  /** The accesses statements i .. of `ops` make on a cooperative target. */
  function TraceFrom(base: Word, ops: seq<Op>, i: nat): seq<Access>
    decreases |ops| - i
  {
    if i >= |ops| then [] else OpTrace(base, ops[i]) + TraceFrom(base, ops, i + 1)
  }

  /** On a cooperative target every statement succeeds; every wait reads its register once. */
  lemma OpCooperative(sem: (nat, Op) -> Run, env: Env, base: Word, pos: nat, op: Op)
    requires Denotes(sem, env, base) && Cooperative(env)
    ensures sem(pos, op) == Run(ERROR_OK, OpTrace(base, op))
  {
    assert sem(pos, op) == OpRun(env, pos, base, op);
    match op {
      case Put(_, _) =>
      case Writes(ws) => IssueAllAccepted(env, pos, ws);
      case Await(a) =>
        var reg := StatusReg(base, a);
        assert env.reply(pos, reg) == Value(FSR_RDY);
        PollReadyAt(env, pos, reg, FSR_RDY, ERASE_TIMEOUT, 0);
        assert Reads(reg, 1) == [Read(reg)];
    }
  }

  /** On a cooperative target a statement list runs to its end. */
  lemma {:induction false} ExecCooperative(sem: (nat, Op) -> Run, env: Env, base: Word, pos: nat, ops: seq<Op>, i: nat)
    requires Denotes(sem, env, base) && Cooperative(env)
    ensures ExecFrom(sem, pos, ops, i) == Run(ERROR_OK, TraceFrom(base, ops, i))
    decreases |ops| - i
  {
    if i < |ops| {
      OpCooperative(sem, env, base, pos, ops[i]);
      ExecCooperative(sem, env, base, pos + |OpTrace(base, ops[i])|, ops, i + 1);
    }
  }

  /** The handshakes on a cooperative target. */
  lemma HandshakeTrace(base: Word)
    ensures TraceFrom(base, HANDSHAKES, 0) == AsWrites(UNLOCK) + AsWrites(SWER)
  {
    assert TraceFrom(base, HANDSHAKES, 2) == [];
    assert AsWrites(SWER) + [] == AsWrites(SWER);
  }

  /** One sector of xc2xx_erase on a cooperative target. */
  lemma SectorTrace(base: Word, at: Word)
    ensures TraceFrom(base, SectorOps(at), 0)
              == [Write(CtrlReg(at, WMR_OFFSET), SECTOR_ERASE_MODE), Write(CtrlReg(at, OAR_OFFSET), at),
                  Write(CtrlReg(at, OSR_OFFSET), OSR_OPST), Read(StatusReg(base, at))]
  {
    var s := SectorOps(at);
    assert TraceFrom(base, s, 4) == [];
    assert TraceFrom(base, s, 3) == [Read(StatusReg(base, at))];
    assert TraceFrom(base, s, 2) == [Write(CtrlReg(at, OSR_OFFSET), OSR_OPST), Read(StatusReg(base, at))];
    assert TraceFrom(base, s, 1) == [Write(CtrlReg(at, OAR_OFFSET), at), Write(CtrlReg(at, OSR_OFFSET), OSR_OPST),
                                     Read(StatusReg(base, at))];
  }

  /** The accesses of the erase loop over sectors k .. end-1 on a cooperative target. */
  function EraseAccesses(base: Word, offs: seq<nat>, k: nat, end: nat): seq<Access>
    requires k <= end && (k < end ==> end <= |offs|)
    decreases end - k
  {
    if k == end then [] else TraceFrom(base, SectorOps(Add32(offs[k], base)), 0) + EraseAccesses(base, offs, k + 1, end)
  }

  lemma {:induction false} EraseLoopCooperative(sem: (nat, Op) -> Run, env: Env, base: Word, pos: nat,
                                                offs: seq<nat>, k: nat, end: nat)
    requires Denotes(sem, env, base) && Cooperative(env)
    requires k <= end && (k < end ==> end <= |offs|)
    ensures Iterate(SectorRun(sem, base), pos, offs, k, end) == Progress(Run(ERROR_OK, EraseAccesses(base, offs, k, end)), end - k)
    decreases end - k
  {
    if k < end {
      var ops := SectorOps(Add32(offs[k], base));
      var tr := TraceFrom(base, ops, 0);
      assert SectorRun(sem, base)(pos, offs[k]) == Run(ERROR_OK, tr) by {
        ExecCooperative(sem, env, base, pos, ops, 0);
      }
      EraseLoopCooperative(sem, env, base, pos + |tr|, offs, k + 1, end);
    }
  }

  /** xc2xx_erase on a cooperative halted target: the handshakes, then for
      each sector first .. last in order its three writes and one status
      read; every sector of the range is marked erased. */
  lemma EraseCooperative(sem: (nat, Op) -> Run, env: Env, base: Word, pos: nat, offs: seq<nat>, first: nat, last: nat)
    requires Denotes(sem, env, base) && Cooperative(env)
    requires first <= last ==> last < |offs|
    ensures EraseSpec(sem, pos, true, base, offs, first, last)
              == Progress(Run(ERROR_OK, AsWrites(UNLOCK) + AsWrites(SWER) + EraseAccesses(base, offs, first, SectorEnd(first, last))),
                          SectorEnd(first, last) - first)
  {
    ExecCooperative(sem, env, base, pos, HANDSHAKES, 0);
    HandshakeTrace(base);
    var pre := AsWrites(UNLOCK) + AsWrites(SWER);
    EraseLoopCooperative(sem, env, base, pos + |pre|, offs, first, SectorEnd(first, last));
  }

  /** One group of xc2xx_write on a cooperative target: mode, address,
      the four little-endian data words, start, one status read. */
  lemma GroupTrace(base: Word, addr: Word, data: seq<Byte>)
    requires |data| == 16
    ensures var at := Add32(addr, base);
            TraceFrom(base, GroupOps(base, addr, data), 0)
              == [Write(CtrlReg(at, WMR_OFFSET), SINGLE_PROGRAM_MODE), Write(CtrlReg(at, OAR_OFFSET), addr),
                  Write(CtrlReg(at, 0x40), Word4(data[0..4])), Write(CtrlReg(at, 0x44), Word4(data[4..8])),
                  Write(CtrlReg(at, 0x48), Word4(data[8..12])), Write(CtrlReg(at, 0x4C), Word4(data[12..16])),
                  Write(CtrlReg(at, OSR_OFFSET), OSR_OPST), Read(StatusReg(base, addr))]
  {
    var at := Add32(addr, base);
    var s := GroupOps(base, addr, data);
    var tail := [Write(CtrlReg(at, 0x40), Word4(data[0..4])), Write(CtrlReg(at, 0x44), Word4(data[4..8])),
                 Write(CtrlReg(at, 0x48), Word4(data[8..12])), Write(CtrlReg(at, 0x4C), Word4(data[12..16])),
                 Write(CtrlReg(at, OSR_OFFSET), OSR_OPST), Read(StatusReg(base, addr))];
    assert TraceFrom(base, s, 8) == [];
    assert TraceFrom(base, s, 7) == tail[5..];
    assert TraceFrom(base, s, 6) == tail[4..];
    assert TraceFrom(base, s, 5) == tail[3..];
    assert TraceFrom(base, s, 4) == tail[2..];
    assert TraceFrom(base, s, 3) == tail[1..];
    assert TraceFrom(base, s, 2) == tail;
  }

  /** The accesses of write-loop iterations g .. n-1 on a cooperative target. */
  function WriteAccesses(base: Word, buf: seq<Byte>, offset: Word, g: nat, n: nat): seq<Access>
    requires 16 * n <= |buf|
    decreases n - g
  {
    if g >= n then [] else TraceFrom(base, GroupAt(base, buf, offset, g), 0) + WriteAccesses(base, buf, offset, g + 1, n)
  }

  lemma {:induction false} WriteLoopCooperative(sem: (nat, Op) -> Run, env: Env, base: Word, pos: nat,
                                                buf: seq<Byte>, offset: Word, g: nat, n: nat)
    requires Denotes(sem, env, base) && Cooperative(env)
    requires 16 * n <= |buf|
    ensures Repeat(GroupRun(sem, base, buf, offset), pos, g, n)
              == Progress(Run(ERROR_OK, WriteAccesses(base, buf, offset, g, n)), if g < n then n - g else 0)
    decreases n - g
  {
    if g < n {
      var ops := GroupAt(base, buf, offset, g);
      var tr := TraceFrom(base, ops, 0);
      assert GroupRun(sem, base, buf, offset)(pos, g) == Run(ERROR_OK, tr) by {
        ExecCooperative(sem, env, base, pos, ops, 0);
      }
      WriteLoopCooperative(sem, env, base, pos + |tr|, buf, offset, g + 1, n);
    }
  }

  /** xc2xx_write of an aligned range on a cooperative halted target: the
      handshakes, then for each 16-byte group in order its seven writes and
      one status read. */
  lemma WriteCooperative(sem: (nat, Op) -> Run, env: Env, base: Word, pos: nat, buf: seq<Byte>, offset: Word, count: Word)
    requires Denotes(sem, env, base) && Cooperative(env)
    requires offset % 4 == 0 && count % 4 == 0 && GroupsFit(buf, count)
    ensures WriteSpec(sem, pos, true, base, buf, offset, count)
              == Run(ERROR_OK, AsWrites(UNLOCK) + AsWrites(SWER) + WriteAccesses(base, buf, offset, 0, Groups(count)))
  {
    ExecCooperative(sem, env, base, pos, HANDSHAKES, 0);
    HandshakeTrace(base);
    var pre := AsWrites(UNLOCK) + AsWrites(SWER);
    WriteLoopCooperative(sem, env, base, pos + |pre|, buf, offset, 0, Groups(count));
  }

  /** xc2xx_mass_erase on a cooperative halted target: the handshakes, then
      the id's controllers in order, each with its three writes and one read
      of the status register the wait picks. */
  lemma MassEraseCooperative(sem: (nat, Op) -> Run, env: Env, base: Word, pos: nat, id: nat)
    requires Denotes(sem, env, base) && Cooperative(env)
    ensures MassEraseSpec(sem, pos, true, id)
              == Run(ERROR_OK, AsWrites(UNLOCK) + AsWrites(SWER) + TraceFrom(base, MassOps(id), 0))
  {
    ExecCooperative(sem, env, base, pos, HANDSHAKES, 0);
    HandshakeTrace(base);
    var pre := AsWrites(UNLOCK) + AsWrites(SWER);
    ExecCooperative(sem, env, base, pos + |pre|, MassOps(id), 0);
  }

  /** One controller's mass erase on a cooperative target. */
  lemma MassGroupTrace(base: Word, ctrl: Word, oar: Word)
    ensures TraceFrom(base, MassGroup(ctrl, oar), 0)
              == [Write(Add32(ctrl, WMR_OFFSET), MASS_ERASE_CMD), Write(Add32(ctrl, OAR_OFFSET), oar),
                  Write(Add32(ctrl, OSR_OFFSET), OSR_OPST), Read(StatusReg(base, oar))]
  {
    var s := MassGroup(ctrl, oar);
    assert TraceFrom(base, s, 4) == [];
    assert TraceFrom(base, s, 3) == [Read(StatusReg(base, oar))];
    assert TraceFrom(base, s, 2) == [Write(Add32(ctrl, OSR_OFFSET), OSR_OPST), Read(StatusReg(base, oar))];
  }
}
