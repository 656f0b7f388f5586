# XHSC NOR-flash drivers: ry and xc2xx

This project models the two OpenOCD NOR-flash drivers for XHSC parts,
`src/flash/nor/ry.c` and `src/flash/nor/xc2xx.c`, and proves properties of
the model. Each driver turns erase, program and mass-erase requests into
ordered 32-bit register writes to flash-controller register blocks. Between
steps it waits on a status bit with a countdown.

The debug target is a `Flash.Target` object with three parts:

- a `halted` flag;
- a `log` of every register access, in issue order;
- an environment `Env`. `Env.reply(p, addr)` is the answer to the read at log
  position `p`: a value, or a failure code. `Env.ack(p)` is the return code of
  the write at log position `p`.

A `Flash.Bank` holds the bank base, size, number and sector table. The table
is an `array<Sector>` whose `isErased` field is a tristate.

Every operation has two forms:

- a pure specification function giving its return code and its access list
  (`Run(code, acc)`). A loop's specification also counts how many of its
  iterations completed (`Progress`);
- an imperative method with the driver's own loops. Its `ensures` says the
  log grew by exactly that access list, the method returned that code, and
  exactly the completed sectors were marked erased.

Lemmas then state what those functions mean:

- the exact handshake sequences;
- which controller an address reaches;
- what happens on a refused write, a running target or a misaligned request;
- the full access trace on a target that accepts everything and is always ready.

Modules:

- `Flash` (flash.dfy) holds what both drivers share:
  - error codes and 32-bit wrap-around addition;
  - little-endian packing;
  - write lists that stop at the first refusal;
  - the bounded status poll;
  - statement-list and loop semantics;
  - the target and bank classes.
- `RyMap` (ry_map.dfy): the ry address map. This covers the mode-register
  decode, the per-mode controller tables, address resolution and the probe
  geometry table.
- `Ry` (ry.dfy) and `RyProps` (ry_props.dfy): the ry driver and its properties.
- `Xc2xx` (xc2xx.dfy) and `Xc2xxProps` (xc2xx_props.dfy): the xc2xx driver and
  its properties.

The source has four places that behave in ways worth knowing, and the model
keeps all four as written:

- **xc2xx adds the bank base twice before a wait.** The erase passes
  `sectors[i].offset + base` to the wait, and the mass erase passes a block
  address. `xc2xx_get_flash_status` then adds the base again. On both probed
  bases every such wait therefore polls PFU0's status register, whichever
  controller was started. `Xc2xxProps.EraseWaitReadsPfu0` and
  `Xc2xxProps.MassEraseWaitsReadPfu0` prove this.
- **xc2xx write sends the bank offset to OAR.** It writes `addr` (the offset)
  without the base, while the controller is chosen from `addr + base`. Its wait
  also passes `addr`, so it polls the controller it programmed
  (`Xc2xxProps.WriteWaitReadsOwnController`).
- **get_pfu_instance's first two range tests cover more than their own block.**
  The first covers [0x10000000, 0x10400000), PFU0's and PFU1's blocks. The
  second covers [0x10200000, 0x14200000), from PFU1 to the end of PFU2's block.
  The model follows these bounds. Because the last matching test wins, each
  2 MiB block still maps to its own controller. The gap between the halves goes
  to PFU1, and any other address goes to PFU0 (`Xc2xxProps.InstanceMap`).
- **Both mass-erase commands return ERROR_OK for every accepted id,** even when
  the mass erase itself failed.

## Model

| member | source | states |
|---|---|---|
| Flash.Word4RoundTrip | src/flash/nor/ry.c:795-798 | the word packed from four buffer bytes unpacks to those bytes, and every word is the packing of its own four bytes |
| Flash.Word4IsPackLE | src/flash/nor/xc2xx.c:380-398 | the drivers' shift-and-or of four bytes is little-endian packing |
| Flash.FirstNackIsFirst | src/flash/nor/xc2xx.c:104-150 | the first refused write of a list is refused, and every write before it was accepted |
| Flash.IssueAllAccepted | src/flash/nor/xc2xx.c:104-150 | a write list whose writes are all accepted issues every write in order and returns ERROR_OK |
| Flash.IssueStopsAtFirstFailure | src/flash/nor/ry.c:364-433 | a write list stops at its first refused write: it issues the writes up to and including that one and returns its code |
| Flash.IssueWrites | src/flash/nor/xc2xx.c:186-261 | the loop issuing a write list appends exactly the accesses and returns the code of the list's specification |
| Flash.PollShape | src/flash/nor/ry.c:578-598 | a poll makes 1 to timeout+1 reads and every read but the last is idle. It succeeds exactly when the last read shows the bit, passes a failed read's code on, and fails with ERROR_FAIL only after timeout+1 idle reads |
| Flash.PollReadyAt | src/flash/nor/xc2xx.c:263-284 | if the bit first shows on read k, with k at most the timeout, the poll returns ERROR_OK after exactly k+1 reads |
| Flash.PollTimesOut | src/flash/nor/ry.c:600-620 | if the bit never shows, the poll returns ERROR_FAIL after exactly timeout+1 reads |
| Flash.WaitFor | src/flash/nor/ry.c:578-620 | the countdown loop appends exactly the poll's reads and returns the poll's code |
| Flash.Iterate | src/flash/nor/xc2xx.c:309-335 | a sector loop completes at most its range, and it succeeds exactly when every iteration completed |
| Flash.IterateAllSucceed | src/flash/nor/ry.c:653-681 | a sector loop whose every iteration succeeds completes the whole range |
| Flash.Repeat | src/flash/nor/xc2xx.c:378-450 | a counted loop completes at most n iterations, and it succeeds exactly when all n completed |
| Flash.RepeatAllSucceed | src/flash/nor/ry.c:827-869 | a counted loop whose every iteration succeeds completes all of them |
| Flash.Target.WriteU32 | src/flash/nor/xc2xx.c:312 | a register write appends one write access and returns the target's code for it |
| Flash.Target.ReadU32 | src/flash/nor/xc2xx.c:183 | a register read appends one read access and returns the value, or the failure code |
| Flash.Bank.ResetSectors | src/flash/nor/ry.c:933-941 | the sector table is replaced by a fresh one of `count` sectors; sector i has offset i times the sector size, unknown erase state and no protection |
| Flash.Bank.MarkAllErased | src/flash/nor/ry.c:1189-1190 | every sector is marked erased, and nothing else in the table changes |
| RyMap.MapModeDecodesScsValue | src/flash/nor/ry.c:128-181 | decoding the register value that encodes P-flash mode p and D-flash mode d gives back p for P-flash and d for D-flash, for all nine pairs |
| RyMap.MapModeOwnBits | src/flash/nor/ry.c:140-177 | for every register value, P-flash's decoded mode is decided by bits 0 and 2 alone and D-flash's by bits 1 and 3 alone |
| RyMap.MapModeLowNibble | src/flash/nor/ry.c:140-177 | the decoded mode depends only on bits 0 to 3 of the register |
| RyMap.TablesDisjoint | src/flash/nor/ry.c:68-96 | in every mode, the controller blocks of each flash's base table do not overlap |
| RyMap.FirstHit | src/flash/nor/ry.c:220-291 | the else-if chain of range tests finds the first table entry whose block holds the address, or reports that no block holds it |
| RyMap.Resolve | src/flash/nor/ry.c:217-355 | a D-flash address in the SCS window resolves to controller 0 in every mode. Any other address resolves to i exactly when block i of the mode's table holds it, and fails when no block does |
| RyMap.DoubleBSwapsHalves | src/flash/nor/ry.c:68-96 | the instance in mode DoubleB is the DoubleA instance with the two halves of the table exchanged |
| RyMap.ProbedBankResolves | src/flash/nor/ry.c:193-363 | every byte of each probed bank classifies as that bank's flash and resolves to the controller the memory map gives it in each mode |
| Ry.GetMapMode | src/flash/nor/ry.c:128-181 | one read of 0x4002703C; a failed read gives ERROR_FAIL; otherwise the flash's decoded mode |
| Ry.GetPdfuInstance | src/flash/nor/ry.c:193-363 | appends exactly the accesses of `InstanceAt` and returns its code and instance. `InstanceAt` fails with no access for an address with neither type bit. Otherwise it reads the mode register once: a failed read fails, and otherwise the result is `RyMap.Resolve` in the decoded mode, with no match an error |
| Ry.WaitStatus | src/flash/nor/ry.c:470-620 | the busy and write-permit waits append exactly the accesses of `StatusWait` and return its code. That is the poll (`Flash.PollShape`) of the FSR of controller `inst` in the table the base's type bit picks, for bit 0x100 or 0x200. An untyped base, or an index past the table, gives ERROR_FAIL with no access |
| Ry.PutResolved | src/flash/nor/ry.c:657 | a register write addressed through get_pdfu_instance appends exactly the accesses of `PutAtRun`: the lookup's accesses, then the one write to the found controller. A failed lookup ends with its code and writes nothing |
| Ry.ExecSteps | src/flash/nor/ry.c:636-645 | a chain of `retval = statement; if (retval != ERROR_OK) return retval;` appends exactly the accesses of `ExecFrom` and returns its code: each statement in order, stopping at the first failure |
| Ry.Prologue | src/flash/nor/ry.c:629-645 | appends exactly the accesses of `PrologueRun` and returns its code. `PrologueRun` gives ERROR_TARGET_NOT_HALTED and no access on a running target; otherwise it is the unlock, then the sector enable (`RyProps.PrologueAccepted`) |
| Ry.SectorLoop | src/flash/nor/ry.c:653-681 | the sector loop appends the loop specification's accesses and marks exactly the sectors it completed as erased |
| Ry.Erase | src/flash/nor/ry.c:623-718 | ry_erase appends exactly its specification's accesses and returns its code. Exactly the sectors each block completed are marked erased, and no other sector changes |
| Ry.ChunksCover | src/flash/nor/ry.c:763 | the P-flash loop runs exactly the chunks c with 128c < count |
| Ry.ProgramPFlash | src/flash/nor/ry.c:759-821 | the P-flash loop appends exactly the accesses of `Repeat` over its chunks and returns its code, so it stops at the first failed chunk. On success `addr` has advanced by 128 per chunk, wrapping at 2^32 |
| Ry.ProgramDFlash | src/flash/nor/ry.c:823-870 | the D-flash loop appends exactly the accesses of `Repeat` over count/4 word iterations and returns its code, so it stops at the first failure |
| Ry.WriteFlash | src/flash/nor/ry.c:725-875 | ry_write appends exactly the accesses of `WriteSpec` and returns its code. `WriteSpec` is the prologue, the alignment check, the P-flash loop when the base has the P-flash bit, then the D-flash loop when it has the D-flash bit. Its cases are proved in `RyProps.NotHalted`, `RyProps.WriteMisaligned` and `RyProps.WriteCooperative` |
| Ry.Probe | src/flash/nor/ry.c:877-946 | the base, size and sector table become the probe geometry of the bank number, with every sector unknown and unprotected |
| Ry.ProbeTable | src/flash/nor/ry.c:890-931 | the geometry of banks 0 to 4 (bases, sector sizes, sizes and sector counts). Any other number gives size 0 and no sectors and keeps the base; sector count times sector size is the size |
| Ry.MassErase | src/flash/nor/ry.c:965-1166 | ry_mass_erase appends exactly the accesses of `MassEraseSpec` and returns its code. `MassEraseSpec` is the prologue, then the statements `RyProps.MassEraseTargets` lists for the id |
| Ry.MassEraseCommand | src/flash/nor/ry.c:1168-1198 | ids other than 0 to 3 give ERROR_COMMAND_SYNTAX_ERROR with no access. Otherwise mass erase runs, all sectors are marked erased only if it succeeded, and the command returns ERROR_OK |
| RyProps.UnlockSequence | src/flash/nor/ry.c:364-433 | the unlock is exactly 12 writes: KEY1 then KEY2 to WMPR of DFU0, DFU1, PFU0, PFU1, PFU2 and PFU3, in that order |
| RyProps.SectorEnableSequence | src/flash/nor/ry.c:487-576 | the sector enable is exactly 18 writes of all ones: SWER0-3 of PFU0 to PFU3, then SWER0 of DFU0 and DFU1 |
| RyProps.PrologueAccepted | src/flash/nor/ry.c:636-645 | on a halted target that accepts the 30 writes, the prologue succeeds having issued the unlock, then the sector enable |
| RyProps.PrologueUnlockRefused | src/flash/nor/ry.c:364-433 | a refused unlock write ends the prologue with its code, after the writes up to that one; no sector enable is written |
| RyProps.PrologueEnableRefused | src/flash/nor/ry.c:487-576 | after an accepted unlock, a refused sector-enable write ends the prologue with its code |
| RyProps.NotHalted | src/flash/nor/ry.c:629-631 | on a running target, erase, write and mass erase return ERROR_TARGET_NOT_HALTED with no access and no sector marked |
| RyProps.WriteMisaligned | src/flash/nor/ry.c:736-755 | a misaligned offset or count is refused with ERROR_FLASH_DST_BREAKS_ALIGNMENT after exactly the 30 handshake writes |
| RyProps.MassEraseTargets | src/flash/nor/ry.c:989-1160 | id 0 erases PFU0 and PFU1 and id 1 erases PFU2 and PFU3, all with OAR 0x10000000. Id 2 erases DFU0 (0x40400000), id 3 erases DFU1 (0x40800000), and any other id erases nothing |
| RyProps.MassEraseOtherId | src/flash/nor/ry.c:965-1166 | an id outside 0 to 3 makes mass erase do only its prologue |
| RyProps.ChunkLayout | src/flash/nor/ry.c:772-818 | a P-flash chunk is 51 statements. It starts with WMR = series-program mode and OAR = the chunk address, and ends with a busy wait. Each of the eight groups starts with a write-permit wait and ends with OSR = start. PDRk of group g receives the little-endian word of bytes 16g+4k to 16g+4k+3 of the chunk |
| RyProps.SectorTrace | src/flash/nor/ry.c:655-680 | an erase iteration on a cooperative target succeeds with exactly 8 accesses. The owning controller's WMR = 3, OAR = the sector address and OSR = 1 are each preceded by a mode-register read, and a mode read and one status read form the wait |
| RyProps.WordTrace | src/flash/nor/ry.c:835-868 | a D-flash write iteration on a cooperative target succeeds with exactly 10 accesses. WMR = 6, OAR = the address, PDR0 = the word and OSR = 1 are each preceded by a mode read, then come a mode read and one status read |
| RyProps.ChunkTrace | src/flash/nor/ry.c:772-818 | a P-flash chunk on a cooperative target succeeds with exactly the accesses of `ChunkAccesses`, 102 in all. Each group's 12 accesses (`GroupAccesses`) are in order |
| RyProps.MassEraseCooperative | src/flash/nor/ry.c:965-1166 | on a cooperative target, mass erase of an accepted id succeeds. It issues the 30 handshake writes first, then four accesses per erased controller (8 for ids 0 and 1, 4 for ids 2 and 3) |
| RyProps.EraseCooperative | src/flash/nor/ry.c:623-718 | on a cooperative target whose controllers serve the range, erase succeeds with the handshakes first. Each block completes every sector from first to last when the base has its type bit, and none otherwise |
| RyProps.WriteCooperative | src/flash/nor/ry.c:725-875 | on a cooperative target whose controllers serve every programmed address, an aligned write succeeds with the handshakes first |
| Xc2xx.PfuInstance | src/flash/nor/xc2xx.c:82-103 | the instance is always below 4, so every PFU_CTRL_BASE index is in bounds |
| Xc2xx.GetFlashStatus | src/flash/nor/xc2xx.c:177-184 | one read of FSR of the controller of addr + base, returning its value or its failure code |
| Xc2xx.WaitStatusBusy | src/flash/nor/xc2xx.c:263-284 | the countdown loop appends exactly the poll's status reads for bit 0x100 and returns the poll's code |
| Xc2xx.ExecOps | src/flash/nor/xc2xx.c:298-307 | a statement chain appends exactly the accesses of `ExecFrom` and returns its code: each statement in order, stopping at the first failure |
| Xc2xx.Prologue | src/flash/nor/xc2xx.c:292-307 | appends exactly the accesses of `PrologueRun` and returns its code. That is ERROR_TARGET_NOT_HALTED with no access on a running target, and otherwise the unlock, then the sector enable (`Xc2xxProps.PrologueAccepted`) |
| Xc2xx.SectorLoop | src/flash/nor/xc2xx.c:309-335 | the loop appends the loop's accesses and marks exactly the sectors it completed as erased |
| Xc2xx.Erase | src/flash/nor/xc2xx.c:286-338 | xc2xx_erase appends exactly its specification's accesses and returns its code. Exactly the completed sectors from `first` on are marked erased, and no other sector changes |
| Xc2xx.GroupsCover | src/flash/nor/xc2xx.c:378 | the loop runs exactly the groups g with 16g < count |
| Xc2xx.ProgramGroups | src/flash/nor/xc2xx.c:377-450 | the group loop, with i and addr advancing by 16, appends exactly the accesses of `Repeat` over its groups and returns its code, so it stops at the first failed group |
| Xc2xx.WriteFlash | src/flash/nor/xc2xx.c:345-454 | xc2xx_write appends exactly the accesses of `WriteSpec` and returns its code. `WriteSpec` is the prologue, the alignment check, then the group loop; see `Xc2xxProps.NotHalted`, `Xc2xxProps.WriteMisaligned` and `Xc2xxProps.WriteCooperative` |
| Xc2xx.Driver.constructor | src/flash/nor/xc2xx.c:72 | dual_bank_probed starts out clear |
| Xc2xx.Probe | src/flash/nor/xc2xx.c:456-492 | the base is 0x10000000 when the flag was clear and 0x14000000 when it was set, and the flag flips. The size is 0x400000 with 256 fresh sectors of 0x4000, each at offset i*0x4000, unknown and unprotected |
| Xc2xx.MassErase | src/flash/nor/xc2xx.c:511-649 | xc2xx_mass_erase appends exactly the accesses of `MassEraseSpec` and returns its code. That is the prologue, then the statements `Xc2xxProps.MassEraseTargets` lists for the id |
| Xc2xx.MassEraseCommand | src/flash/nor/xc2xx.c:651-681 | ids other than 0 and 1 give ERROR_COMMAND_SYNTAX_ERROR with no access. Otherwise mass erase runs, all sectors are marked erased only if it succeeded, and the command returns ERROR_OK |
| Xc2xxProps.TestsFromLastMatch | src/flash/nor/xc2xx.c:84-99 | running the tests from k on gives the last matching test, or the incoming instance when none matches |
| Xc2xxProps.InstanceIsLastMatch | src/flash/nor/xc2xx.c:82-103 | get_pfu_instance returns a matching test no earlier than any other match, and 0 when no test matches |
| Xc2xxProps.InstanceMap | src/flash/nor/xc2xx.c:82-103 | [0x10000000,0x10200000) gives 0 and [0x10200000,0x14000000) gives 1. [0x14000000,0x14200000) gives 2, [0x14200000,0x14400000) gives 3, and every other address gives 0 |
| Xc2xxProps.EraseWaitReadsPfu0 | src/flash/nor/xc2xx.c:328 | on either probed base, the erase wait for any sector of the bank reads PFU0's FSR (0x40070020), because the base is added twice |
| Xc2xxProps.EraseWritesOwnController | src/flash/nor/xc2xx.c:312-322 | the erase writes of a sector go to the controller of its own 2 MiB block within the probed half |
| Xc2xxProps.MassEraseWaitsReadPfu0 | src/flash/nor/xc2xx.c:555-639 | on either probed base, all four mass-erase waits read PFU0's FSR |
| Xc2xxProps.WriteWaitReadsOwnController | src/flash/nor/xc2xx.c:408-446 | in a write group, the wait is on `addr` without the base, and the status register it polls is the FSR of the same controller the group's mode write goes to |
| Xc2xxProps.UnlockSequence | src/flash/nor/xc2xx.c:104-150 | the unlock is exactly 8 writes: KEY1 then KEY2 to WMPR of PFU0, PFU1, PFU2 and PFU3 |
| Xc2xxProps.SectorEnableSequence | src/flash/nor/xc2xx.c:186-261 | the sector enable is exactly 16 writes of all ones to SWER0-3 of PFU0 to PFU3 |
| Xc2xxProps.PrologueAccepted | src/flash/nor/xc2xx.c:298-307 | on a halted target that accepts the 24 writes, the prologue succeeds having issued the unlock, then the sector enable |
| Xc2xxProps.PrologueUnlockRefused | src/flash/nor/xc2xx.c:104-150 | a refused unlock write ends the prologue with its code, after the writes up to that one |
| Xc2xxProps.PrologueEnableRefused | src/flash/nor/xc2xx.c:186-261 | after an accepted unlock, a refused sector-enable write ends the prologue with its code |
| Xc2xxProps.NotHalted | src/flash/nor/xc2xx.c:292-295 | on a running target, erase, write and mass erase return ERROR_TARGET_NOT_HALTED with no access and no sector marked |
| Xc2xxProps.WriteMisaligned | src/flash/nor/xc2xx.c:356-375 | a misaligned offset or count is refused with ERROR_FLASH_DST_BREAKS_ALIGNMENT after exactly the handshake writes |
| Xc2xxProps.MassEraseTargets | src/flash/nor/xc2xx.c:534-645 | the exact statements per id: id 0 does PFU0 with OAR 0x10000000, then PFU1 with 0x10200000; id 1 does PFU2 with 0x14000000, then PFU3 with 0x14200000; other ids do nothing |
| Xc2xxProps.MassEraseOtherId | src/flash/nor/xc2xx.c:511-649 | an id other than 0 and 1 makes mass erase do only its prologue |
| Xc2xxProps.ProbesAlternate | src/flash/nor/xc2xx.c:469-478 | successive probes alternate their base between 0x10000000 and 0x14000000, starting from the initial flag |
| Xc2xxProps.ExecCooperative | src/flash/nor/xc2xx.c:298-307 | on a target that accepts every write and is always ready, a statement chain succeeds with its statements' accesses, one status read per wait |
| Xc2xxProps.SectorTrace | src/flash/nor/xc2xx.c:312-331 | one erase iteration at address `at` = offset + base, on a cooperative target: WMR = 3, OAR = `at` and OSR = 1 to the controller of `at`. Then one read of the status register that `at` names once the base is added again |
| Xc2xxProps.EraseCooperative | src/flash/nor/xc2xx.c:286-338 | on a cooperative target, erase succeeds and every sector of the range is completed. The accesses are the handshakes, then each sector's four accesses in order |
| Xc2xxProps.GroupTrace | src/flash/nor/xc2xx.c:378-449 | one write group on a cooperative target, to the controller of addr + base: WMR = 6, OAR = addr (without the base), PDR0-3 = the four little-endian words of the 16 bytes and OSR = 1. Then one read of the status register for addr |
| Xc2xxProps.WriteCooperative | src/flash/nor/xc2xx.c:345-454 | an aligned write on a cooperative target succeeds with exactly the handshakes, then each group's eight accesses in order |
| Xc2xxProps.MassEraseCooperative | src/flash/nor/xc2xx.c:511-649 | mass erase on a cooperative target succeeds for every id. It issues exactly the handshakes, then the trace of the id's statements: four accesses per controller (`Xc2xxProps.MassGroupTrace`) |
| Xc2xxProps.MassGroupTrace | src/flash/nor/xc2xx.c:537-557 | one controller's mass erase on a cooperative target: WMR=2, OAR=block address, OSR=1, then one status read |

## Left out

- Logging, the printf/fflush progress spinner of ry_write and the `alive_sleep(10)` delay between polls. One poll iteration is one read, with no clock.
- The register transport itself (target_read_u32 and target_write_u32). It is represented by the access log and the `Env` replies and acknowledgements, which are parameters.
- The driver glue: flash_bank_command, auto_probe, info, protect, protect_check, default read and blank check, command registration, and the CMD_ARGC check, the number parse and flash_command_get_bank of the mass-erase commands. The commands take an already parsed id and an already found bank.
- The write-protection disable helpers of both drivers. They are never called.
- malloc and free in the probes: the sector table is replaced by a fresh array.
- Ry.WriteFlash: for an aligned request to a P-flash bank, requires `PChunksFit`, i.e. the buffer holds whole 128-byte chunks and the loop counter does not wrap. On such a request the driver reads past the buffer otherwise. A misaligned request needs only `count <= |buffer|`.
- Xc2xx.WriteFlash: for an aligned request, requires `GroupsFit`, i.e. the buffer holds whole 16-byte groups and the loop counter does not wrap. On such a request the driver reads past the buffer otherwise. A misaligned request is unconstrained.
- Ry.MassErase, Ry.MassEraseCommand: for ids 0 to 3, require `Typed(base)`, i.e. the bank base has a type bit; other ids never reach a wait and are unconstrained. With neither bit the driver's status read returns ERROR_OK without reading, and the wait then tests an uninitialised status.
- Ry.GetPdfuInstance: a failed resolution is an error (ERROR_FAIL) with no further access. The driver returns ERROR_FAIL as if it were an instance, and uses it as an array index.
- Ry.PutResolved, Ry.WaitStatus: an instance outside the controller table is modelled as ERROR_FAIL with no access. The driver indexes past the table. This arises when a D-flash bank runs the mass-erase waits of id 1, which name controllers 2 and 3 of the two-entry D-flash table.
- Ry.WaitStatus: on a bank base with neither type bit, the wait is modelled as ERROR_FAIL with no access. ry_get_flash_status returns ERROR_OK without reading there, and the wait then tests an uninitialised status. No modelled operation reaches this case: erase and write look the address up first and fail, and mass erase requires a typed base.
- RyProps.MassEraseCooperative: states the access count and the handshake prefix, not each controller's addresses. It excludes a D-flash bank asked for id 1, whose waits index the D-flash table with 2 and 3.
- RyProps.EraseCooperative, RyProps.WriteCooperative: state success, the completed counts and the handshake prefix, not the whole access list. The list of each iteration is in RyProps.SectorTrace, RyProps.ChunkTrace and RyProps.WordTrace.
- Xc2xx.GetFlashStatus: the driver's function uses `bank` without having it as a parameter. It is modelled with the bank base as a parameter, reading `PFU_CTRL_BASE[get_pfu_instance(addr + base)] + 0x20`.
- Xc2xx.Probe: the driver's loop assigns to `offset + base`, which is not assignable. It is modelled as setting the offset to `i * sector_size`.
- The static `dual_bank_probed` is a field of an `Xc2xx.Driver` object passed to the probe, not a global.
