// Properties of the ry driver model: the exact handshake sequences, what
// each operation does on a running target, on a refused handshake and on a
// misaligned request, the layout of a P-flash chunk, and the accesses each
// loop body makes on a target that accepts every write and is always ready.

module RyProps {
  import opened Flash
  import opened RyMap
  import opened Ry

  // ---------------------------------------------------------------------------
  // The handshakes

  /** ry_write_protection_enable writes KEY1 then KEY2 to the WMPR of DFU0,
      DFU1, PFU0, PFU1, PFU2 and PFU3, in that order. */
  lemma UnlockSequence()
    ensures UNLOCK == [(0x40078004, KEY1), (0x40078004, KEY2), (0x40078404, KEY1), (0x40078404, KEY2),
                       (0x40070004, KEY1), (0x40070004, KEY2), (0x40070404, KEY1), (0x40070404, KEY2),
                       (0x40070804, KEY1), (0x40070804, KEY2), (0x40070C04, KEY1), (0x40070C04, KEY2)]
  {
  }

  /** ry_sector_write_protection_enable sets SWER0 .. SWER3 of each P-flash
      controller and SWER0 of each D-flash controller to all ones. */
  lemma SectorEnableSequence()
    ensures SWER == [(0x40070080, 0xFFFFFFFF), (0x40070084, 0xFFFFFFFF), (0x4007008C, 0xFFFFFFFF), (0x40070090, 0xFFFFFFFF),
                     (0x40070480, 0xFFFFFFFF), (0x40070484, 0xFFFFFFFF), (0x4007048C, 0xFFFFFFFF), (0x40070490, 0xFFFFFFFF),
                     (0x40070880, 0xFFFFFFFF), (0x40070884, 0xFFFFFFFF), (0x4007088C, 0xFFFFFFFF), (0x40070890, 0xFFFFFFFF),
                     (0x40070C80, 0xFFFFFFFF), (0x40070C84, 0xFFFFFFFF), (0x40070C8C, 0xFFFFFFFF), (0x40070C90, 0xFFFFFFFF),
                     (0x40078080, 0xFFFFFFFF), (0x40078480, 0xFFFFFFFF)]
  {
  }

  /** The number of writes the two handshakes issue between them. */
  const HANDSHAKE_WRITES: nat := 30

  /** The target accepts the n writes issued from log position pos on. */
  ghost predicate Accepts(env: Env, pos: nat, n: nat)
  {
    forall p :: pos <= p < pos + n ==> env.ack(p) == ERROR_OK
  }

  /** The handshake statements mean their chains of writes. */
  lemma HandshakeSteps(sem: (nat, Step) -> Run, env: Env, base: Word, pos: nat)
    requires Denotes(sem, env, base)
    ensures sem(pos, HANDSHAKES[0]) == Issue(env, pos, UNLOCK)
    ensures sem(pos + |UNLOCK|, HANDSHAKES[1]) == Issue(env, pos + |UNLOCK|, SWER)
  {
    assert sem(pos, Writes(UNLOCK)) == StepRun(env, pos, base, Writes(UNLOCK));
    assert sem(pos + |UNLOCK|, Writes(SWER)) == StepRun(env, pos + |UNLOCK|, base, Writes(SWER));
  }

  /** On a halted target that accepts the handshakes' writes, the prologue
      succeeds having issued exactly the unlock keys and then the sector enables. */
  lemma PrologueAccepted(sem: (nat, Step) -> Run, env: Env, base: Word, pos: nat)
    requires Denotes(sem, env, base)
    requires Accepts(env, pos, HANDSHAKE_WRITES)
    ensures PrologueRun(sem, pos, true) == Run(ERROR_OK, AsWrites(UNLOCK) + AsWrites(SWER))
  {
    UnlockSequence();
    SectorEnableSequence();
    HandshakeSteps(sem, env, base, pos);
    IssueAllAccepted(env, pos, UNLOCK);
    IssueAllAccepted(env, pos + 12, SWER);
    assert ExecFrom(sem, pos + 30, HANDSHAKES, 2) == Run(ERROR_OK, []);
    assert ExecFrom(sem, pos + 12, HANDSHAKES, 1) == Run(ERROR_OK, AsWrites(SWER) + []);
    assert AsWrites(SWER) + [] == AsWrites(SWER);
  }

  /** When the target refuses one of the unlock writes, the prologue stops
      there with the refusal's code: the writes up to and including the
      refused one are issued, and no sector is enabled. */
  lemma PrologueUnlockRefused(sem: (nat, Step) -> Run, env: Env, base: Word, pos: nat)
    requires Denotes(sem, env, base)
    requires FirstNack(env, pos, |UNLOCK|) < |UNLOCK|
    ensures var k := FirstNack(env, pos, |UNLOCK|);
            PrologueRun(sem, pos, true) == Run(env.ack(pos + k), AsWrites(UNLOCK)[..k + 1])
  {
    var k := FirstNack(env, pos, |UNLOCK|);
    HandshakeSteps(sem, env, base, pos);
    IssueStopsAtFirstFailure(env, pos, UNLOCK);
    FirstNackIsFirst(env, pos, |UNLOCK|);
    assert env.ack(pos + k) != ERROR_OK;
  }

  /** When the unlock is accepted but a sector enable is refused, the
      prologue stops at that write with its code. */
  lemma PrologueEnableRefused(sem: (nat, Step) -> Run, env: Env, base: Word, pos: nat)
    requires Denotes(sem, env, base)
    requires Accepts(env, pos, |UNLOCK|)
    requires FirstNack(env, pos + |UNLOCK|, |SWER|) < |SWER|
    ensures var k := FirstNack(env, pos + |UNLOCK|, |SWER|);
            PrologueRun(sem, pos, true)
              == Run(env.ack(pos + |UNLOCK| + k), AsWrites(UNLOCK) + AsWrites(SWER)[..k + 1])
  {
    var k := FirstNack(env, pos + |UNLOCK|, |SWER|);
    HandshakeSteps(sem, env, base, pos);
    IssueAllAccepted(env, pos, UNLOCK);
    IssueStopsAtFirstFailure(env, pos + |UNLOCK|, SWER);
    FirstNackIsFirst(env, pos + |UNLOCK|, |SWER|);
    assert |AsWrites(UNLOCK)| == |UNLOCK|;
    assert ExecFrom(sem, pos + |UNLOCK|, HANDSHAKES, 1) == Run(env.ack(pos + |UNLOCK| + k), AsWrites(SWER)[..k + 1]);
  }

  // ---------------------------------------------------------------------------
  // A running target

  /** On a target that is not halted, erase, write and mass erase return
      ERROR_TARGET_NOT_HALTED without any access and mark no sector. */
  lemma NotHalted(sem: (nat, Step) -> Run, pos: nat, base: Word, offs: seq<nat>, first: nat, last: nat,
                  buf: seq<Byte>, offset: Word, count: Word, id: nat)
    requires first <= last ==> last < |offs|
    ensures EraseSpec(sem, pos, false, base, offs, first, last) == Erasure(Run(ERROR_TARGET_NOT_HALTED, []), 0, 0)
    ensures WriteSpec(sem, pos, false, base, buf, offset, count) == Run(ERROR_TARGET_NOT_HALTED, [])
    ensures MassEraseSpec(sem, pos, false, id) == Run(ERROR_TARGET_NOT_HALTED, [])
  {
  }

  // ---------------------------------------------------------------------------
  // ry_write's alignment check

  /** A misaligned offset or count is refused with
      ERROR_FLASH_DST_BREAKS_ALIGNMENT only after both handshakes have been
      issued, and nothing is programmed. */
  lemma WriteMisaligned(sem: (nat, Step) -> Run, env: Env, base: Word, pos: nat, buf: seq<Byte>, offset: Word, count: Word)
    requires Denotes(sem, env, base)
    requires Accepts(env, pos, HANDSHAKE_WRITES)
    requires offset % 4 != 0 || count % 4 != 0
    ensures WriteSpec(sem, pos, true, base, buf, offset, count)
              == Run(ERROR_FLASH_DST_BREAKS_ALIGNMENT, AsWrites(UNLOCK) + AsWrites(SWER))
  {
    PrologueAccepted(sem, env, base, pos);
  }

  // ---------------------------------------------------------------------------
  // ry_mass_erase

  /** The controllers each id erases: 0 is PFU0 and PFU1, 1 is PFU2 and
      PFU3, both with the P-flash address 0x10000000; 2 is DFU0 and 3 is
      DFU1 with their own map-A addresses; any other id erases nothing. */
  lemma MassEraseTargets(id: nat)
    ensures id == 0 ==> (MassSteps(id) ==
      [Put(0x4007000C, 2), Put(0x40070030, 0x10000000), Put(0x40070010, 1), Wait(Fixed(0), false),
       Put(0x4007040C, 2), Put(0x40070430, 0x10000000), Put(0x40070410, 1), Wait(Fixed(1), false)])
    ensures id == 1 ==> (MassSteps(id) ==
      [Put(0x4007080C, 2), Put(0x40070830, 0x10000000), Put(0x40070810, 1), Wait(Fixed(2), false),
       Put(0x40070C0C, 2), Put(0x40070C30, 0x10000000), Put(0x40070C10, 1), Wait(Fixed(3), false)])
    ensures id == 2 ==> (MassSteps(id) ==
      [Put(0x4007800C, 2), Put(0x40078030, 0x40400000), Put(0x40078010, 1), Wait(Fixed(0), false)])
    ensures id == 3 ==> (MassSteps(id) ==
      [Put(0x4007840C, 2), Put(0x40078430, 0x40800000), Put(0x40078410, 1), Wait(Fixed(1), false)])
    ensures !MassEraseId(id) ==> MassSteps(id) == []
  {
  }

  /** An id outside 0 .. 3 makes ry_mass_erase do only its prologue. */
  lemma MassEraseOtherId(sem: (nat, Step) -> Run, pos: nat, halted: bool, id: nat)
    requires !MassEraseId(id)
    ensures MassEraseSpec(sem, pos, halted, id) == PrologueRun(sem, pos, halted)
  {
    var pre := PrologueRun(sem, pos, halted);
    assert ExecFrom(sem, pos + |pre.acc|, MassSteps(id), 0) == Run(ERROR_OK, []);
    assert pre.acc + [] == pre.acc;
  }

  // ---------------------------------------------------------------------------
  // The layout of a P-flash chunk

  /** Position of the first statement of group g in a chunk's statement list. */
  function GroupStart(g: nat): nat
  {
    2 + 6 * g
  }

  /** Position of the write of program-data register k of group g in a chunk's statement list. */
  function DataStep(g: nat, k: nat): nat
  {
    GroupStart(g) + 1 + k
  }

  lemma IndexLeft<T>(a: seq<T>, b: seq<T>, m: nat)
    requires m < |a|
    ensures (a + b)[m] == a[m]
  {
  }

  lemma IndexRight<T>(a: seq<T>, b: seq<T>, x: nat)
    requires x < |b|
    ensures (a + b)[|a| + x] == b[x]
  {
  }

  lemma SliceOfSlice<T>(s: seq<T>, i: nat, j: nat, a: nat, b: nat)
    requires i <= j <= |s| && a <= b <= j - i
    ensures s[i..j][a..b] == s[i + a..i + b]
  {
    forall t | 0 <= t < b - a
      ensures s[i..j][a..b][t] == s[i + a..i + b][t]
    {
      assert s[i..j][a..b][t] == s[i..j][a + t] == s[i + a + t];
    }
  }

  /** The six statements of a group; statement k + 1 loads PDRk with the group's word k. */
  lemma GroupStepsAt(at: Word, data: seq<Byte>, k: nat)
    requires |data| == 16 && k < 4
    ensures |GroupSteps(at, data)| == 6
    ensures GroupSteps(at, data)[k + 1] == PutAt(Pfu, at, PDR0_OFFSET + 4 * k, Word4(data[4 * k..4 * k + 4]))
  {
  }

  /** Group g's six statements come before groups g+1 .. 7. */
  lemma GroupsFromNext(at: Word, chunk: seq<Byte>, g: nat, x: nat)
    requires |chunk| == 128 && g < 8 && x < 6 * (7 - g)
    ensures GroupsFrom(at, chunk, g)[6 + x] == GroupsFrom(at, chunk, g + 1)[x]
  {
    var head := GroupSteps(at, chunk[16 * g..16 * g + 16]);
    assert GroupsFrom(at, chunk, g) == head + GroupsFrom(at, chunk, g + 1);
    GroupStepsAt(at, chunk[16 * g..16 * g + 16], 0);
    IndexRight(head, GroupsFrom(at, chunk, g + 1), x);
  }

  /** Statement 6d + m of groups g .. 7 is statement m of group g + d. */
  lemma {:induction false} GroupsFromIndex(at: Word, chunk: seq<Byte>, g: nat, d: nat, m: nat)
    requires |chunk| == 128 && g + d < 8 && m < 6
    ensures GroupsFrom(at, chunk, g)[6 * d + m] == GroupsFrom(at, chunk, g + d)[m]
    decreases d
  {
    if d > 0 {
      var x := 6 * (d - 1) + m;
      GroupsFromIndex(at, chunk, g + 1, d - 1, m);
      assert g + 1 + (d - 1) == g + d;
      GroupsFromNext(at, chunk, g, x);
      assert 6 * d + m == 6 + x;
    } else {
      assert g + d == g && 6 * d + m == m;
    }
  }

  /** Statement 2 + n of a chunk is statement n of its groups. */
  lemma ChunkGroupsIndex(at: Word, chunk: seq<Byte>, n: nat)
    requires |chunk| == 128 && n < 48
    ensures ChunkSteps(at, chunk)[2 + n] == GroupsFrom(at, chunk, 0)[n]
  {
    var groups := GroupsFrom(at, chunk, 0);
    var prefix := [PutAt(Pfu, at, WMR_OFFSET, SERIES_PROGRAM_MODE), PutAt(Pfu, at, OAR_OFFSET, at)];
    assert ChunkSteps(at, chunk) == (prefix + groups) + [Wait(At(at), false)];
    IndexLeft(prefix + groups, [Wait(At(at), false)], 2 + n);
    IndexRight(prefix, groups, n);
  }

  /** The first six statements of groups j .. 7 are group j's. */
  lemma GroupsFromHead(at: Word, chunk: seq<Byte>, j: nat, m: nat)
    requires |chunk| == 128 && j < 8 && m < 6
    ensures GroupsFrom(at, chunk, j)[m] == GroupSteps(at, chunk[16 * j..16 * j + 16])[m]
  {
    var head := GroupSteps(at, chunk[16 * j..16 * j + 16]);
    assert GroupsFrom(at, chunk, j) == head + GroupsFrom(at, chunk, j + 1);
    GroupStepsAt(at, chunk[16 * j..16 * j + 16], 0);
    IndexLeft(head, GroupsFrom(at, chunk, j + 1), m);
  }

  /** Statement m of group j of a chunk. */
  lemma GroupAt(at: Word, chunk: seq<Byte>, j: nat, m: nat)
    requires |chunk| == 128 && j < 8 && m < 6
    ensures ChunkSteps(at, chunk)[GroupStart(j) + m] == GroupSteps(at, chunk[16 * j..16 * j + 16])[m]
  {
    ChunkGroupsIndex(at, chunk, 6 * j + m);
    GroupsFromIndex(at, chunk, 0, j, m);
    assert 0 + j == j;
    GroupsFromHead(at, chunk, j, m);
  }

  /** The write of program-data register k of group g: the chunk's word at byte 16g + 4k. */
  lemma GroupData(at: Word, chunk: seq<Byte>, g: nat, k: nat)
    requires |chunk| == 128 && g < 8 && k < 4
    ensures GroupSteps(at, chunk[16 * g..16 * g + 16])[k + 1]
              == PutAt(Pfu, at, PDR0_OFFSET + 4 * k, Word4(chunk[16 * g + 4 * k..16 * g + 4 * k + 4]))
  {
    var data := chunk[16 * g..16 * g + 16];
    GroupStepsAt(at, data, k);
    SliceOfSlice(chunk, 16 * g, 16 * g + 16, 4 * k, 4 * k + 4);
  }

  /** The statements of a P-flash chunk: series-program mode and the target
      address, then eight groups, each a write-permission wait, the four
      program-data registers PDR0 .. PDR3 and a start, then the final busy
      wait.  Program-data register k of group g receives the four bytes
      from 16g + 4k, packed little-endian: the 128 bytes reach the controller whole and in order. */
  lemma ChunkLayout(at: Word, chunk: seq<Byte>)
    requires |chunk| == 128
    ensures var s := ChunkSteps(at, chunk);
            && |s| == 51
            && s[0] == PutAt(Pfu, at, WMR_OFFSET, SERIES_PROGRAM_MODE)
            && s[1] == PutAt(Pfu, at, OAR_OFFSET, at)
            && s[50] == Wait(At(at), false)
    ensures forall g :: 0 <= g < 8 ==>
              && ChunkSteps(at, chunk)[GroupStart(g)] == Wait(At(at), true)
              && ChunkSteps(at, chunk)[GroupStart(g) + 5] == PutAt(Pfu, at, OSR_OFFSET, OSR_OPST)
    ensures forall g, k :: 0 <= g < 8 && 0 <= k < 4 ==>
              ChunkSteps(at, chunk)[DataStep(g, k)]
                == PutAt(Pfu, at, PDR0_OFFSET + 4 * k, Word4(chunk[16 * g + 4 * k..16 * g + 4 * k + 4]))
  {
    var s := ChunkSteps(at, chunk);
    var prefix := [PutAt(Pfu, at, WMR_OFFSET, SERIES_PROGRAM_MODE), PutAt(Pfu, at, OAR_OFFSET, at)];
    var groups := GroupsFrom(at, chunk, 0);
    assert s == (prefix + groups) + [Wait(At(at), false)];
    IndexRight(prefix + groups, [Wait(At(at), false)], 0);
    IndexLeft(prefix + groups, [Wait(At(at), false)], 0);
    IndexLeft(prefix + groups, [Wait(At(at), false)], 1);
    IndexLeft(prefix, groups, 0);
    IndexLeft(prefix, groups, 1);
    forall g | 0 <= g < 8
      ensures s[GroupStart(g)] == Wait(At(at), true)
      ensures s[GroupStart(g) + 5] == PutAt(Pfu, at, OSR_OFFSET, OSR_OPST)
    {
      GroupAt(at, chunk, g, 0);
      GroupAt(at, chunk, g, 5);
    }
    forall g, k | 0 <= g < 8 && 0 <= k < 4
      ensures s[DataStep(g, k)] == PutAt(Pfu, at, PDR0_OFFSET + 4 * k, Word4(chunk[16 * g + 4 * k..16 * g + 4 * k + 4]))
    {
      GroupAt(at, chunk, g, k + 1);
      GroupData(at, chunk, g, k);
    }
  }

  // ---------------------------------------------------------------------------
  // A cooperative target

  /** FSR with both RDY (0x100) and SPWP (0x200) set. */
  const READY_STATUS: Word := 0x300

  /** A target that accepts every write, answers the mode register with
      `mode` and every other register with READY_STATUS. */
  ghost predicate Cooperative(env: Env, mode: Word)
  {
    && (forall p: nat :: env.ack(p) == ERROR_OK)
    && (forall p: nat, a: Word :: env.reply(p, a) == if a == MODE_REG then Value(mode) else Value(READY_STATUS))
  }

  /** The controller get_pdfu_instance finds for `at` when the mode register reads `mode`. */
  function Owner(mode: Word, at: Word): Option<nat>
  {
    match Classify(at)
    case None => None
    case Some(kind) => Resolve(kind, MapMode(kind, mode), at)
  }

  /** `at` has an owner in the controller table `u`, and the bank's status
      register for that controller exists. */
  predicate Serves(mode: Word, base: Word, u: Unit, at: Word)
  {
    Owner(mode, at).Some? && Owner(mode, at).value < |Ctrl(u)| && StatusReg(base, Owner(mode, at).value).Some?
  }

  /** A status register is never the mode register. */
  lemma StatusNotMode(base: Word, i: nat)
    ensures StatusReg(base, i) != Some(MODE_REG)
  {
  }

  lemma LookupCooperative(env: Env, mode: Word, pos: nat, at: Word)
    requires Cooperative(env, mode) && Owner(mode, at).Some?
    ensures InstanceAt(env, pos, at) == Lookup(ERROR_OK, [Read(MODE_REG)], Owner(mode, at).value)
  {
    assert env.reply(pos, MODE_REG) == Value(mode);
  }

  /** A register write through get_pdfu_instance: one mode read, then the write. */
  lemma PutAtCooperative(env: Env, mode: Word, pos: nat, u: Unit, at: Word, off: nat, v: Word)
    requires Cooperative(env, mode) && Owner(mode, at).Some? && Owner(mode, at).value < |Ctrl(u)|
    ensures PutAtRun(env, pos, u, at, off, v)
              == Run(ERROR_OK, [Read(MODE_REG), Write(Add32(Ctrl(u)[Owner(mode, at).value], off), v)])
  {
    LookupCooperative(env, mode, pos, at);
    assert env.ack(pos + 1) == ERROR_OK;
  }

  /** On a ready controller the poll reads its status register once. */
  lemma StatusWaitCooperative(env: Env, mode: Word, pos: nat, base: Word, i: nat, permit: bool)
    requires Cooperative(env, mode) && StatusReg(base, i).Some?
    ensures StatusWait(env, pos, base, i, permit) == Run(ERROR_OK, [Read(StatusReg(base, i).value)])
  {
    var reg := StatusReg(base, i).value;
    StatusNotMode(base, i);
    assert env.reply(pos, reg) == Value(READY_STATUS);
    assert Ready(env.reply(pos, reg), WaitBit(permit));
    PollReadyAt(env, pos, reg, WaitBit(permit), ERASE_TIMEOUT, 0);
    assert Reads(reg, 1) == [Read(reg)];
  }

  /** A wait on the controller of `at`: one mode read, then one status read. */
  lemma WaitCooperative(env: Env, mode: Word, pos: nat, base: Word, at: Word, permit: bool)
    requires Cooperative(env, mode) && Owner(mode, at).Some? && StatusReg(base, Owner(mode, at).value).Some?
    ensures WaitRun(env, pos, base, At(at), permit)
              == Run(ERROR_OK, [Read(MODE_REG), Read(StatusReg(base, Owner(mode, at).value).value)])
  {
    LookupCooperative(env, mode, pos, at);
    StatusWaitCooperative(env, mode, pos + 1, base, Owner(mode, at).value, permit);
  }

  /** The meaning of a PutAt statement on a cooperative target. */
  lemma PutAtStep(sem: (nat, Step) -> Run, env: Env, mode: Word, pos: nat, base: Word, u: Unit, at: Word, off: nat, v: Word)
    requires Denotes(sem, env, base)
    requires Cooperative(env, mode) && Owner(mode, at).Some? && Owner(mode, at).value < |Ctrl(u)|
    ensures sem(pos, PutAt(u, at, off, v))
              == Run(ERROR_OK, [Read(MODE_REG), Write(Add32(Ctrl(u)[Owner(mode, at).value], off), v)])
  {
    PutAtCooperative(env, mode, pos, u, at, off, v);
    assert sem(pos, PutAt(u, at, off, v)) == StepRun(env, pos, base, PutAt(u, at, off, v));
  }

  /** The meaning of a wait on the controller of `at` on a cooperative target. */
  lemma WaitStep(sem: (nat, Step) -> Run, env: Env, mode: Word, pos: nat, base: Word, at: Word, permit: bool)
    requires Denotes(sem, env, base)
    requires Cooperative(env, mode) && Owner(mode, at).Some? && StatusReg(base, Owner(mode, at).value).Some?
    ensures sem(pos, Wait(At(at), permit))
              == Run(ERROR_OK, [Read(MODE_REG), Read(StatusReg(base, Owner(mode, at).value).value)])
  {
    WaitCooperative(env, mode, pos, base, at, permit);
    assert sem(pos, Wait(At(at), permit)) == StepRun(env, pos, base, Wait(At(at), permit));
  }

  /** One statement that succeeded, followed by the rest of the list. */
  lemma ExecCons(sem: (nat, Step) -> Run, pos: nat, steps: seq<Step>, i: nat, acc: seq<Access>, rest: Run)
    requires i < |steps| && sem(pos, steps[i]) == Run(ERROR_OK, acc)
    requires ExecFrom(sem, pos + |acc|, steps, i + 1) == rest
    ensures ExecFrom(sem, pos, steps, i) == Run(rest.code, acc + rest.acc)
  {
  }

  /** ry_erase's loop body for one sector on a cooperative target: every
      statement looks the controller up again (a mode-register read), then
      WMR := sector-erase mode, OAR := the sector address, OSR := start, and
      one status read. */
  lemma SectorTrace(sem: (nat, Step) -> Run, env: Env, mode: Word, pos: nat, base: Word, u: Unit, at: Word)
    requires Denotes(sem, env, base) && Cooperative(env, mode) && Serves(mode, base, u, at)
    ensures var c := Ctrl(u)[Owner(mode, at).value];
            var reg := StatusReg(base, Owner(mode, at).value).value;
            ExecFrom(sem, pos, SectorSteps(u, at), 0)
              == Run(ERROR_OK, [Read(MODE_REG), Write(Add32(c, WMR_OFFSET), SECTOR_ERASE_MODE),
                                Read(MODE_REG), Write(Add32(c, OAR_OFFSET), at),
                                Read(MODE_REG), Write(Add32(c, OSR_OFFSET), OSR_OPST),
                                Read(MODE_REG), Read(reg)])
  {
    var s := SectorSteps(u, at);
    var c := Ctrl(u)[Owner(mode, at).value];
    var reg := StatusReg(base, Owner(mode, at).value).value;
    var a0 := [Read(MODE_REG), Write(Add32(c, WMR_OFFSET), SECTOR_ERASE_MODE)];
    var a1 := [Read(MODE_REG), Write(Add32(c, OAR_OFFSET), at)];
    var a2 := [Read(MODE_REG), Write(Add32(c, OSR_OFFSET), OSR_OPST)];
    var a3 := [Read(MODE_REG), Read(reg)];
    assert sem(pos + 6, s[3]) == Run(ERROR_OK, a3) by { WaitStep(sem, env, mode, pos + 6, base, at, false); }
    assert sem(pos + 4, s[2]) == Run(ERROR_OK, a2) by { PutAtStep(sem, env, mode, pos + 4, base, u, at, OSR_OFFSET, OSR_OPST); }
    assert sem(pos + 2, s[1]) == Run(ERROR_OK, a1) by { PutAtStep(sem, env, mode, pos + 2, base, u, at, OAR_OFFSET, at); }
    assert sem(pos, s[0]) == Run(ERROR_OK, a0) by { PutAtStep(sem, env, mode, pos, base, u, at, WMR_OFFSET, SECTOR_ERASE_MODE); }
    assert ExecFrom(sem, pos + 8, s, 4) == Run(ERROR_OK, []);
    ExecCons(sem, pos + 6, s, 3, a3, Run(ERROR_OK, []));
    ExecCons(sem, pos + 4, s, 2, a2, Run(ERROR_OK, a3 + []));
    ExecCons(sem, pos + 2, s, 1, a1, Run(ERROR_OK, a2 + (a3 + [])));
    ExecCons(sem, pos, s, 0, a0, Run(ERROR_OK, a1 + (a2 + (a3 + []))));
  }

  /** ry_write's D-flash loop body for one word on a cooperative target:
      WMR := single-program mode, OAR := the address, PDR0 := the word,
      OSR := start, each after a mode-register read, then one status read. */
  lemma WordTrace(sem: (nat, Step) -> Run, env: Env, mode: Word, pos: nat, base: Word, at: Word, w: Word)
    requires Denotes(sem, env, base) && Cooperative(env, mode) && Serves(mode, base, Dfu, at)
    ensures var c := DFU_CTRL_BASE[Owner(mode, at).value];
            var reg := StatusReg(base, Owner(mode, at).value).value;
            ExecFrom(sem, pos, WordSteps(at, w), 0)
              == Run(ERROR_OK, [Read(MODE_REG), Write(Add32(c, WMR_OFFSET), SINGLE_PROGRAM_MODE),
                                Read(MODE_REG), Write(Add32(c, OAR_OFFSET), at),
                                Read(MODE_REG), Write(Add32(c, PDR0_OFFSET), w),
                                Read(MODE_REG), Write(Add32(c, OSR_OFFSET), OSR_OPST),
                                Read(MODE_REG), Read(reg)])
  {
    var s := WordSteps(at, w);
    var c := DFU_CTRL_BASE[Owner(mode, at).value];
    var reg := StatusReg(base, Owner(mode, at).value).value;
    var a0 := [Read(MODE_REG), Write(Add32(c, WMR_OFFSET), SINGLE_PROGRAM_MODE)];
    var a1 := [Read(MODE_REG), Write(Add32(c, OAR_OFFSET), at)];
    var a2 := [Read(MODE_REG), Write(Add32(c, PDR0_OFFSET), w)];
    var a3 := [Read(MODE_REG), Write(Add32(c, OSR_OFFSET), OSR_OPST)];
    var a4 := [Read(MODE_REG), Read(reg)];
    assert sem(pos + 8, s[4]) == Run(ERROR_OK, a4) by { WaitStep(sem, env, mode, pos + 8, base, at, false); }
    assert sem(pos + 6, s[3]) == Run(ERROR_OK, a3) by { PutAtStep(sem, env, mode, pos + 6, base, Dfu, at, OSR_OFFSET, OSR_OPST); }
    assert sem(pos + 4, s[2]) == Run(ERROR_OK, a2) by { PutAtStep(sem, env, mode, pos + 4, base, Dfu, at, PDR0_OFFSET, w); }
    assert sem(pos + 2, s[1]) == Run(ERROR_OK, a1) by { PutAtStep(sem, env, mode, pos + 2, base, Dfu, at, OAR_OFFSET, at); }
    assert sem(pos, s[0]) == Run(ERROR_OK, a0) by { PutAtStep(sem, env, mode, pos, base, Dfu, at, WMR_OFFSET, SINGLE_PROGRAM_MODE); }
    assert ExecFrom(sem, pos + 10, s, 5) == Run(ERROR_OK, []);
    ExecCons(sem, pos + 8, s, 4, a4, Run(ERROR_OK, []));
    ExecCons(sem, pos + 6, s, 3, a3, Run(ERROR_OK, a4 + []));
    ExecCons(sem, pos + 4, s, 2, a2, Run(ERROR_OK, a3 + (a4 + [])));
    ExecCons(sem, pos + 2, s, 1, a1, Run(ERROR_OK, a2 + (a3 + (a4 + []))));
    ExecCons(sem, pos, s, 0, a0, Run(ERROR_OK, a1 + (a2 + (a3 + (a4 + [])))));
  }

  /** The meaning of a plain register write on a cooperative target. */
  lemma PutStep(sem: (nat, Step) -> Run, env: Env, mode: Word, pos: nat, base: Word, reg: Word, v: Word)
    requires Denotes(sem, env, base) && Cooperative(env, mode)
    ensures sem(pos, Put(reg, v)) == Run(ERROR_OK, [Write(reg, v)])
  {
    assert sem(pos, Put(reg, v)) == StepRun(env, pos, base, Put(reg, v));
  }

  /** The meaning of a wait on controller `inst` on a cooperative target. */
  lemma FixedWaitStep(sem: (nat, Step) -> Run, env: Env, mode: Word, pos: nat, base: Word, inst: nat)
    requires Denotes(sem, env, base) && Cooperative(env, mode) && StatusReg(base, inst).Some?
    ensures sem(pos, Wait(Fixed(inst), false)) == Run(ERROR_OK, [Read(StatusReg(base, inst).value)])
  {
    assert sem(pos, Wait(Fixed(inst), false)) == StepRun(env, pos, base, Wait(Fixed(inst), false));
    StatusWaitCooperative(env, mode, pos, base, inst, false);
    assert [] + [Read(StatusReg(base, inst).value)] == [Read(StatusReg(base, inst).value)];
  }

  /** The accesses of one group of a P-flash chunk on a cooperative target,
      the controller being `c` and its status register `reg`. */
  function GroupAccesses(c: Word, reg: Word, data: seq<Byte>): (acc: seq<Access>)
    requires |data| == 16
    ensures |acc| == 12
  {
    [Read(MODE_REG), Read(reg),
     Read(MODE_REG), Write(Add32(c, PDR0_OFFSET), Word4(data[0..4])),
     Read(MODE_REG), Write(Add32(c, PDR0_OFFSET + 4), Word4(data[4..8])),
     Read(MODE_REG), Write(Add32(c, PDR0_OFFSET + 8), Word4(data[8..12])),
     Read(MODE_REG), Write(Add32(c, PDR0_OFFSET + 12), Word4(data[12..16])),
     Read(MODE_REG), Write(Add32(c, OSR_OFFSET), OSR_OPST)]
  }

  /** The accesses of groups g .. 7 of a chunk on a cooperative target. */
  function GroupsAccesses(c: Word, reg: Word, chunk: seq<Byte>, g: nat): (acc: seq<Access>)
    requires |chunk| == 128 && g <= 8
    ensures |acc| == 12 * (8 - g)
    decreases 8 - g
  {
    if g == 8 then [] else GroupAccesses(c, reg, chunk[16 * g..16 * g + 16]) + GroupsAccesses(c, reg, chunk, g + 1)
  }

  /** The accesses of one P-flash chunk on a cooperative target. */
  function ChunkAccesses(c: Word, reg: Word, at: Word, chunk: seq<Byte>): (acc: seq<Access>)
    requires |chunk| == 128
    ensures |acc| == 102
  {
    [Read(MODE_REG), Write(Add32(c, WMR_OFFSET), SERIES_PROGRAM_MODE), Read(MODE_REG), Write(Add32(c, OAR_OFFSET), at)]
    + GroupsAccesses(c, reg, chunk, 0) + [Read(MODE_REG), Read(reg)]
  }

  /** One group of a P-flash chunk on a cooperative target: a status read
      for write permission, the four data words written to PDR0 .. PDR3,
      start; each statement after a mode-register read. */
  lemma GroupTrace(sem: (nat, Step) -> Run, env: Env, mode: Word, pos: nat, base: Word, at: Word, data: seq<Byte>)
    requires |data| == 16
    requires Denotes(sem, env, base) && Cooperative(env, mode) && Serves(mode, base, Pfu, at)
    ensures ExecFrom(sem, pos, GroupSteps(at, data), 0)
              == Run(ERROR_OK, GroupAccesses(PFU_CTRL_BASE[Owner(mode, at).value], StatusReg(base, Owner(mode, at).value).value, data))
  {
    var s := GroupSteps(at, data);
    var c := PFU_CTRL_BASE[Owner(mode, at).value];
    var reg := StatusReg(base, Owner(mode, at).value).value;
    var a0 := [Read(MODE_REG), Read(reg)];
    var a1 := [Read(MODE_REG), Write(Add32(c, PDR0_OFFSET), Word4(data[0..4]))];
    var a2 := [Read(MODE_REG), Write(Add32(c, PDR0_OFFSET + 4), Word4(data[4..8]))];
    var a3 := [Read(MODE_REG), Write(Add32(c, PDR0_OFFSET + 8), Word4(data[8..12]))];
    var a4 := [Read(MODE_REG), Write(Add32(c, PDR0_OFFSET + 12), Word4(data[12..16]))];
    var a5 := [Read(MODE_REG), Write(Add32(c, OSR_OFFSET), OSR_OPST)];
    assert sem(pos + 10, s[5]) == Run(ERROR_OK, a5) by { PutAtStep(sem, env, mode, pos + 10, base, Pfu, at, OSR_OFFSET, OSR_OPST); }
    assert sem(pos + 8, s[4]) == Run(ERROR_OK, a4) by { PutAtStep(sem, env, mode, pos + 8, base, Pfu, at, PDR0_OFFSET + 12, Word4(data[12..16])); }
    assert sem(pos + 6, s[3]) == Run(ERROR_OK, a3) by { PutAtStep(sem, env, mode, pos + 6, base, Pfu, at, PDR0_OFFSET + 8, Word4(data[8..12])); }
    assert sem(pos + 4, s[2]) == Run(ERROR_OK, a2) by { PutAtStep(sem, env, mode, pos + 4, base, Pfu, at, PDR0_OFFSET + 4, Word4(data[4..8])); }
    assert sem(pos + 2, s[1]) == Run(ERROR_OK, a1) by { PutAtStep(sem, env, mode, pos + 2, base, Pfu, at, PDR0_OFFSET, Word4(data[0..4])); }
    assert sem(pos, s[0]) == Run(ERROR_OK, a0) by { WaitStep(sem, env, mode, pos, base, at, true); }
    assert ExecFrom(sem, pos + 12, s, 6) == Run(ERROR_OK, []);
    ExecCons(sem, pos + 10, s, 5, a5, Run(ERROR_OK, []));
    ExecCons(sem, pos + 8, s, 4, a4, Run(ERROR_OK, a5 + []));
    ExecCons(sem, pos + 6, s, 3, a3, Run(ERROR_OK, a4 + (a5 + [])));
    ExecCons(sem, pos + 4, s, 2, a2, Run(ERROR_OK, a3 + (a4 + (a5 + []))));
    ExecCons(sem, pos + 2, s, 1, a1, Run(ERROR_OK, a2 + (a3 + (a4 + (a5 + [])))));
    ExecCons(sem, pos, s, 0, a0, Run(ERROR_OK, a1 + (a2 + (a3 + (a4 + (a5 + []))))));
  }

  lemma {:induction false} GroupsTrace(sem: (nat, Step) -> Run, env: Env, mode: Word, pos: nat, base: Word, at: Word,
                                       chunk: seq<Byte>, g: nat)
    requires |chunk| == 128 && g <= 8
    requires Denotes(sem, env, base) && Cooperative(env, mode) && Serves(mode, base, Pfu, at)
    ensures ExecFrom(sem, pos, GroupsFrom(at, chunk, g), 0)
              == Run(ERROR_OK, GroupsAccesses(PFU_CTRL_BASE[Owner(mode, at).value], StatusReg(base, Owner(mode, at).value).value, chunk, g))
    decreases 8 - g
  {
    var c := PFU_CTRL_BASE[Owner(mode, at).value];
    var reg := StatusReg(base, Owner(mode, at).value).value;
    if g < 8 {
      var data := chunk[16 * g..16 * g + 16];
      var head := GroupSteps(at, data);
      var rest := GroupsFrom(at, chunk, g + 1);
      assert GroupsFrom(at, chunk, g) == head + rest;
      assert ExecFrom(sem, pos, head, 0) == Run(ERROR_OK, GroupAccesses(c, reg, data)) by {
        GroupTrace(sem, env, mode, pos, base, at, data);
      }
      assert ExecFrom(sem, pos + 12, rest, 0) == Run(ERROR_OK, GroupsAccesses(c, reg, chunk, g + 1)) by {
        GroupsTrace(sem, env, mode, pos + 12, base, at, chunk, g + 1);
      }
      ExecAppend(sem, pos, head, rest);
      assert GroupsAccesses(c, reg, chunk, g) == GroupAccesses(c, reg, data) + GroupsAccesses(c, reg, chunk, g + 1);
    }
  }

  /** The first two statements of a chunk on a cooperative target. */
  lemma ChunkModeTrace(sem: (nat, Step) -> Run, env: Env, mode: Word, pos: nat, base: Word, at: Word)
    requires Denotes(sem, env, base) && Cooperative(env, mode) && Serves(mode, base, Pfu, at)
    ensures var c := PFU_CTRL_BASE[Owner(mode, at).value];
            ExecFrom(sem, pos, [PutAt(Pfu, at, WMR_OFFSET, SERIES_PROGRAM_MODE), PutAt(Pfu, at, OAR_OFFSET, at)], 0)
              == Run(ERROR_OK, [Read(MODE_REG), Write(Add32(c, WMR_OFFSET), SERIES_PROGRAM_MODE),
                                Read(MODE_REG), Write(Add32(c, OAR_OFFSET), at)])
  {
    var c := PFU_CTRL_BASE[Owner(mode, at).value];
    var prefix := [PutAt(Pfu, at, WMR_OFFSET, SERIES_PROGRAM_MODE), PutAt(Pfu, at, OAR_OFFSET, at)];
    var p0 := [Read(MODE_REG), Write(Add32(c, WMR_OFFSET), SERIES_PROGRAM_MODE)];
    var p1 := [Read(MODE_REG), Write(Add32(c, OAR_OFFSET), at)];
    assert sem(pos + 2, prefix[1]) == Run(ERROR_OK, p1) by { PutAtStep(sem, env, mode, pos + 2, base, Pfu, at, OAR_OFFSET, at); }
    assert sem(pos, prefix[0]) == Run(ERROR_OK, p0) by { PutAtStep(sem, env, mode, pos, base, Pfu, at, WMR_OFFSET, SERIES_PROGRAM_MODE); }
    assert ExecFrom(sem, pos + 4, prefix, 2) == Run(ERROR_OK, []);
    ExecCons(sem, pos + 2, prefix, 1, p1, Run(ERROR_OK, []));
    ExecCons(sem, pos, prefix, 0, p0, Run(ERROR_OK, p1 + []));
  }

  /** The last statement of a chunk on a cooperative target. */
  lemma ChunkWaitTrace(sem: (nat, Step) -> Run, env: Env, mode: Word, pos: nat, base: Word, at: Word)
    requires Denotes(sem, env, base) && Cooperative(env, mode) && Serves(mode, base, Pfu, at)
    ensures ExecFrom(sem, pos, [Wait(At(at), false)], 0)
              == Run(ERROR_OK, [Read(MODE_REG), Read(StatusReg(base, Owner(mode, at).value).value)])
  {
    var ta := [Read(MODE_REG), Read(StatusReg(base, Owner(mode, at).value).value)];
    WaitStep(sem, env, mode, pos, base, at, false);
    ExecCons(sem, pos, [Wait(At(at), false)], 0, ta, Run(ERROR_OK, []));
    assert ta + [] == ta;
  }

  /** One P-flash chunk on a cooperative target: WMR := series-program
      mode, OAR := the chunk address, the eight groups, and a final status
      read; 102 accesses in all. */
  lemma ChunkTrace(sem: (nat, Step) -> Run, env: Env, mode: Word, pos: nat, base: Word, at: Word, chunk: seq<Byte>)
    requires |chunk| == 128
    requires Denotes(sem, env, base) && Cooperative(env, mode) && Serves(mode, base, Pfu, at)
    ensures ExecFrom(sem, pos, ChunkSteps(at, chunk), 0)
              == Run(ERROR_OK, ChunkAccesses(PFU_CTRL_BASE[Owner(mode, at).value], StatusReg(base, Owner(mode, at).value).value, at, chunk))
  {
    var c := PFU_CTRL_BASE[Owner(mode, at).value];
    var reg := StatusReg(base, Owner(mode, at).value).value;
    var prefix := [PutAt(Pfu, at, WMR_OFFSET, SERIES_PROGRAM_MODE), PutAt(Pfu, at, OAR_OFFSET, at)];
    var groups := GroupsFrom(at, chunk, 0);
    var tail := [Wait(At(at), false)];
    var pa := [Read(MODE_REG), Write(Add32(c, WMR_OFFSET), SERIES_PROGRAM_MODE), Read(MODE_REG), Write(Add32(c, OAR_OFFSET), at)];
    var ga := GroupsAccesses(c, reg, chunk, 0);
    var ta := [Read(MODE_REG), Read(reg)];
    assert ChunkSteps(at, chunk) == (prefix + groups) + tail;
    assert ExecFrom(sem, pos, prefix, 0) == Run(ERROR_OK, pa) by { ChunkModeTrace(sem, env, mode, pos, base, at); }
    assert ExecFrom(sem, pos + 4, groups, 0) == Run(ERROR_OK, ga) by { GroupsTrace(sem, env, mode, pos + 4, base, at, chunk, 0); }
    assert ExecFrom(sem, pos + 100, tail, 0) == Run(ERROR_OK, ta) by { ChunkWaitTrace(sem, env, mode, pos + 100, base, at); }
    assert ExecFrom(sem, pos, prefix + groups, 0) == Run(ERROR_OK, pa + ga) by { ExecAppend(sem, pos, prefix, groups); }
    ExecAppend(sem, pos, prefix + groups, tail);
  }

  // ---------------------------------------------------------------------------
  // End to end on a cooperative target

  /** The statements of a mass-erase group on a cooperative target: the three writes and one status read. */
  function MassGroupAccesses(ctrl: Word, oar: Word, reg: Word): seq<Access>
  {
    [Write(Add32(ctrl, WMR_OFFSET), MASS_ERASE_CMD), Write(Add32(ctrl, OAR_OFFSET), oar),
     Write(Add32(ctrl, OSR_OFFSET), OSR_OPST), Read(reg)]
  }

  lemma MassGroupTrace(sem: (nat, Step) -> Run, env: Env, mode: Word, pos: nat, base: Word, ctrl: Word, oar: Word, inst: nat)
    requires Denotes(sem, env, base) && Cooperative(env, mode) && StatusReg(base, inst).Some?
    ensures ExecFrom(sem, pos, MassGroup(ctrl, oar, inst), 0)
              == Run(ERROR_OK, MassGroupAccesses(ctrl, oar, StatusReg(base, inst).value))
  {
    var s := MassGroup(ctrl, oar, inst);
    var reg := StatusReg(base, inst).value;
    PutStep(sem, env, mode, pos, base, Add32(ctrl, WMR_OFFSET), MASS_ERASE_CMD);
    PutStep(sem, env, mode, pos + 1, base, Add32(ctrl, OAR_OFFSET), oar);
    PutStep(sem, env, mode, pos + 2, base, Add32(ctrl, OSR_OFFSET), OSR_OPST);
    FixedWaitStep(sem, env, mode, pos + 3, base, inst);
    assert ExecFrom(sem, pos + 4, s, 4) == Run(ERROR_OK, []);
    ExecCons(sem, pos + 3, s, 3, [Read(reg)], Run(ERROR_OK, []));
    ExecCons(sem, pos + 2, s, 2, [Write(Add32(ctrl, OSR_OFFSET), OSR_OPST)], Run(ERROR_OK, [Read(reg)] + []));
    ExecCons(sem, pos + 1, s, 1, [Write(Add32(ctrl, OAR_OFFSET), oar)],
             Run(ERROR_OK, [Write(Add32(ctrl, OSR_OFFSET), OSR_OPST)] + ([Read(reg)] + [])));
    ExecCons(sem, pos, s, 0, [Write(Add32(ctrl, WMR_OFFSET), MASS_ERASE_CMD)],
             Run(ERROR_OK, [Write(Add32(ctrl, OAR_OFFSET), oar)] + ([Write(Add32(ctrl, OSR_OFFSET), OSR_OPST)] + ([Read(reg)] + []))));
  }

  /** The id's controller groups on a cooperative target: all succeed,
      three writes and one status read per controller. */
  lemma MassStepsCooperative(sem: (nat, Step) -> Run, env: Env, mode: Word, p: nat, base: Word, id: nat)
    requires Denotes(sem, env, base) && Cooperative(env, mode) && Typed(base) && MassEraseId(id)
    requires BitSet(base, PFLASH_TYPE_BIT) || id != 1
    ensures ExecFrom(sem, p, MassSteps(id), 0).code == ERROR_OK
    ensures |ExecFrom(sem, p, MassSteps(id), 0).acc| == (if id <= 1 then 8 else 4)
  {
    if id == 0 {
      MassGroupTrace(sem, env, mode, p, base, PFU_CTRL_BASE[0], P_MASS_ADDR, 0);
      MassGroupTrace(sem, env, mode, p + 4, base, PFU_CTRL_BASE[1], P_MASS_ADDR, 1);
      ExecAppend(sem, p, MassGroup(PFU_CTRL_BASE[0], P_MASS_ADDR, 0), MassGroup(PFU_CTRL_BASE[1], P_MASS_ADDR, 1));
    } else if id == 1 {
      MassGroupTrace(sem, env, mode, p, base, PFU_CTRL_BASE[2], P_MASS_ADDR, 2);
      MassGroupTrace(sem, env, mode, p + 4, base, PFU_CTRL_BASE[3], P_MASS_ADDR, 3);
      ExecAppend(sem, p, MassGroup(PFU_CTRL_BASE[2], P_MASS_ADDR, 2), MassGroup(PFU_CTRL_BASE[3], P_MASS_ADDR, 3));
    } else if id == 2 {
      MassGroupTrace(sem, env, mode, p, base, DFU_CTRL_BASE[0], D0_MASS_ADDR, 0);
    } else {
      MassGroupTrace(sem, env, mode, p, base, DFU_CTRL_BASE[1], D1_MASS_ADDR, 1);
    }
  }

  /** ry_mass_erase on a cooperative halted target, for a bank whose base
      has a type bit: both handshakes, then each of the id's controllers
      erased in turn, and success.  (A D-flash bank asked for id 1 is
      excluded here: its waits would index the D-flash table with 2 and 3.) */
  lemma MassEraseCooperative(sem: (nat, Step) -> Run, env: Env, mode: Word, pos: nat, base: Word, id: nat)
    requires Denotes(sem, env, base) && Cooperative(env, mode) && Typed(base) && MassEraseId(id)
    requires BitSet(base, PFLASH_TYPE_BIT) || id != 1
    ensures MassEraseSpec(sem, pos, true, id).code == ERROR_OK
    ensures |MassEraseSpec(sem, pos, true, id).acc| == HANDSHAKE_WRITES + (if id <= 1 then 8 else 4)
    ensures MassEraseSpec(sem, pos, true, id).acc[..HANDSHAKE_WRITES] == AsWrites(UNLOCK) + AsWrites(SWER)
  {
    var pre := PrologueRun(sem, pos, true);
    assert pre == Run(ERROR_OK, AsWrites(UNLOCK) + AsWrites(SWER)) by {
      PrologueAccepted(sem, env, base, pos);
    }
    assert |pre.acc| == HANDSHAKE_WRITES by {
      UnlockSequence();
      SectorEnableSequence();
    }
    var m := ExecFrom(sem, pos + HANDSHAKE_WRITES, MassSteps(id), 0);
    MassStepsCooperative(sem, env, mode, pos + HANDSHAKE_WRITES, base, id);
    assert (pre.acc + m.acc)[..HANDSHAKE_WRITES] == pre.acc;
  }

  /** Every sector first .. last of the block `u`, when the bank base has
      u's type bit, sits in u's controller table on a cooperative target. */
  predicate BlockServed(mode: Word, base: Word, u: Unit, offs: seq<nat>, first: nat, last: nat)
    requires first <= last ==> last < |offs|
  {
    BitSet(base, TypeBit(u)) ==> forall k :: first <= k <= last ==> Serves(mode, base, u, Add32(offs[k], base))
  }

  /** One block of ry_erase on a cooperative target erases every sector of
      the range; a block whose type bit the base lacks does nothing. */
  lemma EraseBlockCooperative(sem: (nat, Step) -> Run, env: Env, mode: Word, pos: nat, base: Word, u: Unit,
                              offs: seq<nat>, first: nat, last: nat)
    requires Denotes(sem, env, base) && Cooperative(env, mode)
    requires first <= last ==> last < |offs|
    requires BlockServed(mode, base, u, offs, first, last)
    ensures EraseBlock(sem, pos, base, u, offs, first, last).run.code == ERROR_OK
    ensures EraseBlock(sem, pos, base, u, offs, first, last).done
              == if BitSet(base, TypeBit(u)) then SectorEnd(first, last) - first else 0
  {
    if BitSet(base, TypeBit(u)) {
      var body := SectorRun(sem, base, u);
      var e := SectorEnd(first, last);
      forall p: nat, k | first <= k < e
        ensures body(p, offs[k]).code == ERROR_OK
      {
        SectorTrace(sem, env, mode, p, base, u, Add32(offs[k], base));
      }
      if first <= last {
        IterateAllSucceed(body, pos, offs, first, e);
      }
    }
  }

  /** ry_erase on a cooperative halted target whose sectors its controllers
      serve: success, both handshakes first, and every sector of the range
      erased by each block whose type bit the base has. */
  lemma EraseCooperative(sem: (nat, Step) -> Run, env: Env, mode: Word, pos: nat, base: Word,
                         offs: seq<nat>, first: nat, last: nat)
    requires Denotes(sem, env, base) && Cooperative(env, mode)
    requires first <= last ==> last < |offs|
    requires BlockServed(mode, base, Pfu, offs, first, last) && BlockServed(mode, base, Dfu, offs, first, last)
    ensures EraseSpec(sem, pos, true, base, offs, first, last).run.code == ERROR_OK
    ensures EraseSpec(sem, pos, true, base, offs, first, last).pDone
              == if BitSet(base, PFLASH_TYPE_BIT) then SectorEnd(first, last) - first else 0
    ensures EraseSpec(sem, pos, true, base, offs, first, last).dDone
              == if BitSet(base, DFLASH_TYPE_BIT) then SectorEnd(first, last) - first else 0
    ensures |EraseSpec(sem, pos, true, base, offs, first, last).run.acc| >= HANDSHAKE_WRITES
    ensures EraseSpec(sem, pos, true, base, offs, first, last).run.acc[..HANDSHAKE_WRITES]
              == AsWrites(UNLOCK) + AsWrites(SWER)
  {
    var pre := PrologueRun(sem, pos, true);
    assert pre == Run(ERROR_OK, AsWrites(UNLOCK) + AsWrites(SWER)) by {
      PrologueAccepted(sem, env, base, pos);
    }
    assert |pre.acc| == HANDSHAKE_WRITES by {
      UnlockSequence();
      SectorEnableSequence();
    }
    var q := pos + |pre.acc|;
    var pb := EraseBlock(sem, q, base, Pfu, offs, first, last);
    EraseBlockCooperative(sem, env, mode, q, base, Pfu, offs, first, last);
    EraseBlockCooperative(sem, env, mode, q + |pb.run.acc|, base, Dfu, offs, first, last);
    EraseSpecCases(sem, pos, true, base, offs, first, last);
    var b := EraseBlocks(sem, q, base, offs, first, last);
    assert (pre.acc + b.run.acc)[..HANDSHAKE_WRITES] == pre.acc;
  }

  /** The address ry_write's P-flash loop programs in iteration c. */
  function ChunkAddr(base: Word, offset: Word, c: nat): Word
  {
    Add32(Add32(offset, 128 * c), base)
  }

  /** The bank offset ry_write's D-flash loop starts from: where the P-flash
      loop left it, or `offset` when the base has no P-flash type bit. */
  function DStart(base: Word, offset: Word, count: nat): Word
  {
    if BitSet(base, PFLASH_TYPE_BIT) then Add32(offset, 128 * Chunks(count)) else offset
  }

  /** The address ry_write's D-flash loop programs in iteration w. */
  function WordAddr(base: Word, start: Word, w: nat): Word
  {
    Add32(Add32(start, 4 * w), base)
  }

  /** ry_write's P-flash loop on a cooperative target whose controllers
      serve every chunk address completes all chunks. */
  lemma PFlashCooperative(sem: (nat, Step) -> Run, env: Env, mode: Word, pos: nat, base: Word,
                          buf: seq<Byte>, offset: Word, count: nat)
    requires Denotes(sem, env, base) && Cooperative(env, mode) && PChunksFit(buf, count)
    requires forall c :: 0 <= c < Chunks(count) ==> Serves(mode, base, Pfu, ChunkAddr(base, offset, c))
    ensures Repeat(PChunkRun(sem, base, buf, offset), pos, 0, Chunks(count)).run.code == ERROR_OK
  {
    var body := PChunkRun(sem, base, buf, offset);
    forall p: nat, c | 0 <= c < Chunks(count)
      ensures body(p, c).code == ERROR_OK
    {
      assert 128 * c + 128 <= |buf|;
      ChunkTrace(sem, env, mode, p, base, ChunkAddr(base, offset, c), buf[128 * c..128 * c + 128]);
    }
    RepeatAllSucceed(body, pos, 0, Chunks(count));
  }

  /** ry_write's D-flash loop on a cooperative target whose controllers
      serve every word address programs all count / 4 words. */
  lemma DFlashCooperative(sem: (nat, Step) -> Run, env: Env, mode: Word, pos: nat, base: Word,
                          buf: seq<Byte>, start: Word, count: nat)
    requires Denotes(sem, env, base) && Cooperative(env, mode) && count <= |buf|
    requires forall w :: 0 <= w < count / 4 ==> Serves(mode, base, Dfu, WordAddr(base, start, w))
    ensures Repeat(DWordRun(sem, base, buf, start), pos, 0, count / 4).run.code == ERROR_OK
  {
    var body := DWordRun(sem, base, buf, start);
    forall p: nat, w | 0 <= w < count / 4
      ensures body(p, w).code == ERROR_OK
    {
      assert 4 * w + 4 <= |buf|;
      WordTrace(sem, env, mode, p, base, WordAddr(base, start, w), Word4(buf[4 * w..4 * w + 4]));
    }
    RepeatAllSucceed(body, pos, 0, count / 4);
  }

  /** Both loops of ry_write succeed on a cooperative target whose
      controllers serve every address they program.  */
  predicate WriteServed(mode: Word, base: Word, buf: seq<Byte>, offset: Word, count: Word)
  {
    && (BitSet(base, PFLASH_TYPE_BIT) ==>
          PChunksFit(buf, count) && forall c :: 0 <= c < Chunks(count) ==> Serves(mode, base, Pfu, ChunkAddr(base, offset, c)))
    && (BitSet(base, DFLASH_TYPE_BIT) ==>
          forall w :: 0 <= w < count / 4 ==> Serves(mode, base, Dfu, WordAddr(base, DStart(base, offset, count), w)))
  }

  /** WriteBlocks succeeds when the loop of each type bit the base has
      succeeds; the D-flash loop wherever in the log it starts. */
  lemma WriteBlocksSucceed(sem: (nat, Step) -> Run, pos: nat, base: Word, buf: seq<Byte>, offset: Word, count: Word)
    requires BitSet(base, PFLASH_TYPE_BIT) ==> Repeat(PChunkRun(sem, base, buf, offset), pos, 0, Chunks(count)).run.code == ERROR_OK
    requires BitSet(base, DFLASH_TYPE_BIT) ==>
               forall q: nat :: Repeat(DWordRun(sem, base, buf, DStart(base, offset, count)), q, 0, count / 4).run.code == ERROR_OK
    ensures WriteBlocks(sem, pos, base, buf, offset, count).code == ERROR_OK
  {
    var pf := BitSet(base, PFLASH_TYPE_BIT);
    var df := BitSet(base, DFLASH_TYPE_BIT);
    var start := DStart(base, offset, count);
    if pf {
      var p := Repeat(PChunkRun(sem, base, buf, offset), pos, 0, Chunks(count));
      if df {
        assert Repeat(DWordRun(sem, base, buf, start), pos + |p.run.acc|, 0, count / 4).run.code == ERROR_OK;
      }
    } else if df {
      assert Repeat(DWordRun(sem, base, buf, offset), pos, 0, count / 4).run.code == ERROR_OK;
    }
  }

  lemma WriteBlocksCooperative(sem: (nat, Step) -> Run, env: Env, mode: Word, pos: nat, base: Word,
                               buf: seq<Byte>, offset: Word, count: Word)
    requires Denotes(sem, env, base) && Cooperative(env, mode) && count <= |buf|
    requires WriteServed(mode, base, buf, offset, count)
    ensures WriteBlocks(sem, pos, base, buf, offset, count).code == ERROR_OK
  {
    if BitSet(base, PFLASH_TYPE_BIT) {
      PFlashCooperative(sem, env, mode, pos, base, buf, offset, count);
    }
    if BitSet(base, DFLASH_TYPE_BIT) {
      forall q: nat
        ensures Repeat(DWordRun(sem, base, buf, DStart(base, offset, count)), q, 0, count / 4).run.code == ERROR_OK
      {
        DFlashCooperative(sem, env, mode, q, base, buf, DStart(base, offset, count), count);
      }
    }
    WriteBlocksSucceed(sem, pos, base, buf, offset, count);
  }

  /** ry_write of an aligned range on a cooperative halted target whose
      controllers serve every address it programs: success, the handshakes
      first. */
  lemma WriteCooperative(sem: (nat, Step) -> Run, env: Env, mode: Word, pos: nat, base: Word,
                         buf: seq<Byte>, offset: Word, count: Word)
    requires Denotes(sem, env, base) && Cooperative(env, mode)
    requires offset % 4 == 0 && count % 4 == 0 && count <= |buf|
    requires WriteServed(mode, base, buf, offset, count)
    ensures WriteSpec(sem, pos, true, base, buf, offset, count).code == ERROR_OK
    ensures |WriteSpec(sem, pos, true, base, buf, offset, count).acc| >= HANDSHAKE_WRITES
    ensures WriteSpec(sem, pos, true, base, buf, offset, count).acc[..HANDSHAKE_WRITES]
              == AsWrites(UNLOCK) + AsWrites(SWER)
  {
    var pre := PrologueRun(sem, pos, true);
    assert pre == Run(ERROR_OK, AsWrites(UNLOCK) + AsWrites(SWER)) by {
      PrologueAccepted(sem, env, base, pos);
    }
    assert |pre.acc| == HANDSHAKE_WRITES by {
      UnlockSequence();
      SectorEnableSequence();
    }
    var b := WriteBlocks(sem, pos + |pre.acc|, base, buf, offset, count);
    WriteBlocksCooperative(sem, env, mode, pos + |pre.acc|, base, buf, offset, count);
    assert (pre.acc + b.acc)[..HANDSHAKE_WRITES] == pre.acc;
  }
}
