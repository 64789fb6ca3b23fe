# An 8051 emulator and its switch firmware

This project models the emulator in `8051emu` (its core, the instruction bodies, the Lua hooks of the RTL8367S and
RTL8372 boards, the start-up and UART code of `main.c`, and the image unpacker) and the routines of
`rtl8367/asm/hello.s` that run on it, and proves what they do for every input, every list and every run.

Run `dafny verify dfyconfig.toml` to check it.

| file | what it models |
|---|---|
| `Bits.dfy` | bytes, words, bit-wise operations and the arithmetic facts about them |
| `Alu.dfy` | ADDC, SUBB, DA, RLC and RRC, and chains of them over numbers of any length |
| `Ramsfr.dfy` | the one internal memory array, and its bit space |
| `CallStack.dfy` | SP and IRAM as a stack of bytes |
| `Interrupts.dfy` | watch lists, cached pending masks, acceptance and nesting |
| `Core.dfy` | the emulator core as a class that updates those in place |
| `Uart.dfy` | the receive mailbox between the listener thread and the CPU |
| `Pages.dfy` | code and data page tables, bank switching, the external stack |
| `FlashImage.dfy` | the packed image, its unpacking, and the three views of it |
| `SocRegs.dfy` | the RTL8367S register file and its PHY window |
| `Soc8372.dfy` | the RTL8372 register file behind its byte-wide port |
| `Cpu.dfy` | the instructions and SFR hooks the firmware routines use |
| `Mirror.dfy` | how the registers and stack of `Cpu.dfy` lie in the core's memory |
| `InitList.dfy`, `PhyAddr.dfy`, `Hexdump.dfy` | the firmware routines |

## How it is built

Code that updates state is a class or a method on arrays and fields, and each method's contract gives its whole new
state through a specification function (`Ramsfr.ExecBit`, `CallStack.Exec`, `Interrupts.Exec`, `Pages.Exec`,
`InitList.ApplyList`, `Hexdump.Dump`, ...). What the system promises over whole runs is proved about those functions.
The UART handshake is a state machine over single mutex-protected accesses, taken by either thread in any order.

Width is explicit: `U8`, `U16` and `Inc16` wrap as `uint8_t` and `uint16_t` do, signed bytes are read by `Signed`,
and the page number in the mapping loops wraps. SSP is a Lua integer and is unbounded until it is used as an address.
A Lua hook may change the cell of its SFR, so the core's accesses take parameters: `got` is what a read hook leaves
there and `left` what a write hook leaves. PCON's hook, which only the RTL8372 board has, is modelled whole.
Read hooks of the four watched SFRs leave the cell alone (`sfr_ie` and `sfr_t2con` return their argument, IP and SCON
have none), which `Interrupts.Exec` states by its test on reads. Code and external memory are functions during one
firmware routine. The register tables of both chips are arbitrary maps; for the RTL8367S the OCP prefix register
0x1d15 is present, as in its table.

## Where the code departs from its intent

The model follows the code. Where a property would be false, the exact condition is proved.

- Every RETI ends at level mask 0, because no case of `irqlevel_reti` breaks (8051emu/core.c:776-795). Over any run the
  mask shows the unfinished handlers throughout exactly when no RETI is executed at level mask 3
  (`Interrupts.RetiExact`). The nesting bound holds between RETIs (`Interrupts.NestingBounded`), and across them
  unfinished handlers can grow without bound (`Interrupts.NestingAcrossReti`).
- `map_irq` does not compute the new interrupt's pending bit: the cache stays right exactly when the interrupt is not
  pending at that moment (`Interrupts.MappingKeeps`).
- The listener stores RI past the notifiers. Under main.c's mapping the cache is then right exactly when RI or TI was
  set or ES is clear (`Interrupts.ListenerCoherence`; `Interrupts.ListenerRunCoherence` over runs; with a run that breaks it in
  `Interrupts.ListenerCanBreakCoherence`), and the next notified SCON store, such as an access to PCON, repairs it even
  when the listener acts inside it (`Interrupts.PconRestoresCoherence`, `Interrupts.SplitPokeRestoresCoherence`).
- An update of SCON reads and writes it in two accesses: CLR TI, the PCON hook's poke, the TI poke of a send. Stored
  over an RI the listener set in between, it loses that byte for good. Such an update is safe against the listener
  exactly when RI is set as it starts (`Uart.UpdateSafeExactly`). A send also puts its byte in the one SBUF cell there
  is, and is safe exactly when moreover the byte there was read or is the same (`Uart.SendSafeExactly`).
- SUBB's AC is the borrow of the low nibbles exactly when op2 does not end in 0xf or C is clear (`Alu.SubbAcExact`).
- `PUSH 0x81` reads and moves SP in an order C leaves open (8051emu/core.c:50, 8051emu/ops.txt:289). Both orders are
  modelled, by the parameter `late` of `CallStack.Pushed`.
- `MOV C,0xd7` clears C before reading it (`Ramsfr.MovCarryExact`).
- The SPI hook translates only addresses above 0x4000. Its result is right for every image exactly there
  (`FlashImage.TranslationExact`), and a read that crosses a bank end gets zeros (`FlashImage.SpiByteBeyondBank`). A
  four-byte read is right for every image exactly above 0x4000 and inside a bank (`FlashImage.SpiReadExact`).
- Lua counts every number as true, so each write to CACHE_CTRL runs the SPI command and each write to PCON sets TF2,
  whatever bit the hook meant to test (8051emu/rtl8367s.lua:12336, 8051emu/rtl8372.lua:1686).
- MUL AB overwrites PSW (8051emu/ops.txt:456); `Cpu.Cpu.MulAB` says with what, and `PhyAddr.PhyocpRegAddr` holds with it.
- PSW is untrapped, so a write to it does not move the register window (8051emu/main.c:218).

## Model

| member | source | states |
|---|---|---|
| Alu.AddcExact | 8051emu/core.c:882-892 | ADDC's result and carry together are the exact sum; OV is signed overflow, AC the carry out of the low nibble |
| Alu.SubbExact | 8051emu/core.c:900-910 | SUBB's result and borrow together are the exact difference; OV is signed overflow |
| Alu.SubbAcExact | 8051emu/core.c:907 | AC is the borrow of the low nibbles exactly when op2 does not end in 0xf or C is clear |
| Alu.AddcChainAdds | 8051emu/core.c:882-892 | ADDC folded over two n-byte numbers gives the sum mod 256^n for every n, and the last C is exactly the unsigned carry |
| Alu.SubbChainSubtracts | 8051emu/core.c:900-910 | SUBB folded over two n-byte numbers gives the difference mod 256^n, and the last C is exactly the unsigned borrow |
| Alu.AddcChainOverflow | 8051emu/core.c:886-890 | OV after the last ADDC is set exactly when the n-byte signed sum leaves the n-byte two's-complement range |
| Alu.SubbChainOverflow | 8051emu/core.c:904-908 | OV after the last SUBB is set exactly when the n-byte signed difference leaves that range |
| Alu.SignedValIsTwosComplement | 8051emu/core.c:886 | the signed reading used by the overflow theorems is the unsigned one less 256^n when the top bit is set |
| Alu.BcdByteExact | 8051emu/ops.txt:345-357 | ADDC then DA A of two packed decimals with a carry is packed decimal, and with C the exact decimal sum |
| Alu.RotatesKeepFlags | 8051emu/ops.txt:139-155 | RLC, RRC and DA A leave every flag but C, and DA A never clears C |
| Alu.AddsKeepFlags | 8051emu/core.c:887-908 | ADDC and SUBB leave every flag but C, AC and OV |
| Alu.BcdChainAdds | 8051emu/ops.txt:345-357 | ADDC and DA A over n packed-decimal bytes give packed decimals, the sum mod 100^n, and C exactly as the decimal carry |
| Alu.RlcChainDoubles | 8051emu/ops.txt:150-155 | RLC from low to high byte doubles an n-byte number plus C, with C the bit shifted out |
| Alu.RrcChainHalves | 8051emu/ops.txt:139-144 | RRC from high to low byte halves an n-byte number with C coming in on top, and C the bit shifted out |
| Alu.RrcUndoesRlc | 8051emu/ops.txt:139-155 | the RRC chain restores the bytes and the whole PSW an RLC chain changed |
| Alu.RlcUndoesRrc | 8051emu/ops.txt:139-155 | the RLC chain restores the bytes and the whole PSW an RRC chain changed |
| Ramsfr.CellInjective | 8051emu/core.c:270-279 | different indirect addresses reach different cells |
| Ramsfr.BitPositionsDistinct | 8051emu/core.c:103-108 | the 256 bit addresses name pairwise different (byte, digit) positions |
| Ramsfr.WriteBView | 8051emu/core.c:281-294 | writing one bit changes that entry of the 256-entry table and no other, and no cell outside the bit space |
| Ramsfr.BitStepRefines | 8051emu/ops.txt:207-216 | each bit instruction (SETB, CLR, CPL, MOV, JBC, ANL C, ORL C) is the same update of a table of 256 booleans |
| Ramsfr.BitRunRefines | 8051emu/ops.txt:34-43 | any sequence of bit instructions is the same sequence on that table, and no other cell changes |
| Ramsfr.BitEffects | 8051emu/ops.txt:468-498 | where C and the addressed bit end up, for each bit instruction |
| Ramsfr.MovCarryExact | 8051emu/ops.txt:211-216 | MOV C,bit copies the bit exactly when the bit is not C itself or C is clear |
| Ramsfr.BytesAgreeWithBits | 8051emu/core.c:281-285 | a bit-addressable byte is the one byte whose eight digits are the table's |
| CallStack.PushRefines | 8051emu/core.c:50-51 | a push onto fewer than 256 live bytes keeps them all, with SP wrapping and the SFR area skipped |
| CallStack.PushKeepsSfrs | 8051emu/core.c:275-279 | a push changes no SFR but SP |
| CallStack.StepRefines | 8051emu/ops.txt:93-102 | within 256 bytes every call, return, push, pop and interrupt entry is one step on a sequence of bytes and ends at its target, vector or next instruction; a return resumes at the address the two top bytes spell, whatever pushed them, a pop stores the top byte |
| CallStack.CallSaves | 8051emu/core.c:822-823 | a call or interrupt entry moves SP up by two, wrapping, and saves the low byte of the resume address below the high byte |
| CallStack.PushSaves | 8051emu/ops.txt:287-289 | PUSH saves the addressed byte, after its read hook |
| CallStack.RunRefines | 8051emu/ops.txt:20-32 | every run within 256 bytes that writes SP and live bytes by stack operations only keeps SP and IRAM representing the bytes |
| CallStack.FloorUntouched | 8051emu/core.c:50-51 | a run that never goes below a depth leaves the bytes below it unchanged |
| CallStack.ReturnMatchesCall | 8051emu/core.c:812-825 | after a call or interrupt entry and any run that ends at that depth without popping the saved address, RET or RETI resumes where the call left off, SP is restored and all live bytes are unchanged |
| CallStack.FrameStep | 8051emu/ops.txt:93-102 | where returns meet saved addresses and pops meet pushed bytes, the live bytes are whole frames, and a return resumes at its frame's address |
| CallStack.FrameRunRefines | 8051emu/ops.txt:20-32 | such runs are runs of the byte theorem, and their live bytes are their frames laid end to end |
| Interrupts.RefreshAllEffect | 8051emu/core.c:233-246 | notifying an SFR makes the cache right for every interrupt on its list and leaves the others' bits alone |
| Interrupts.MappingKeeps | 8051emu/core.c:753-774 | mapping an interrupt keeps the watch lists complete; the cache stays right exactly when the interrupt is not pending yet |
| Interrupts.MainInterrupts | 8051emu/main.c:682-696 | the masks mean: UART on ES with RI or TI, timer 2 on ET2 with TF2, level by the IP bit |
| Interrupts.HoldsExactly | 8051emu/core.c:712-717 | the test holds exactly when some bit the mask selects differs from its inverted sense |
| Interrupts.MainMapping | 8051emu/main.c:682-696 | the two mappings on a cleared core succeed and establish every hypothesis of the coherence theorems |
| Interrupts.CpuStepFresh | 8051emu/core.c:248-268 | every CPU-side step keeps the cached bits of an interrupt right |
| Interrupts.CpuRunKeepsCoherence | 8051emu/core.c:719-738 | over any run of CPU-side steps both masks equal enable, source and priority recomputed from the SFR bytes |
| Interrupts.CoherentMasksDisjoint | 8051emu/core.c:729-737 | no interrupt is in both masks |
| Interrupts.RunKeepsCoherenceButUart | 8051emu/main.c:615-627 | with listener stores interleaved, every interrupt that reads neither SCON nor SBUF still has right cached bits |
| Interrupts.PconRestoresCoherence | 8051emu/rtl8372.lua:1685-1692 | after any such run one read or write of PCON makes both masks right for all interrupts |
| Interrupts.SplitPokeRestoresCoherence | 8051emu/rtl8372.lua:1690 | a notified SCON store makes both masks right whatever value it stores and whatever the listener stores between its accesses |
| Interrupts.ListenerCoherence | 8051emu/main.c:621-625 | under main.c's mapping the listener's store leaves the masks right exactly when RI or TI was set or ES is clear |
| Interrupts.ListenerRunCoherence | 8051emu/main.c:615-627 | over any run of both threads the masks are right throughout exactly when each listener store meets RI or TI set or ES clear |
| Interrupts.ListenerCanBreakCoherence | 8051emu/main.c:621-625 | with ES set and RI and TI clear, the received byte is pending and in neither mask |
| Interrupts.HooksKeepBit | 8051emu/core.c:287-294 | a bit write changes that digit only, when the byte's hooks keep what is read and stored |
| Interrupts.PconReadMemory | 8051emu/rtl8372.lua:1690 | the poke of SCON by a PCON read changes no cell |
| Interrupts.PconStoreMemory | 8051emu/rtl8372.lua:1685-1692 | a write to a hooked PCON stores its byte, sets TF2 and changes no other cell |
| Interrupts.PconStores | 8051emu/rtl8372.lua:1685-1692 | a write to a hooked PCON, cell by cell: its byte, TF2, and nothing else |
| Interrupts.SbufStores | 8051emu/main.c:185-195 | a write to SBUF, cell by cell: its byte, TI, and nothing else |
| Interrupts.ListenerStores | 8051emu/main.c:621-625 | the listener's store, cell by cell: with RI clear the byte is in SBUF and RI is set, with RI set nothing changes, and no mask moves |
| Interrupts.PlainStores | 8051emu/core.c:261-279 | a plain store changes its one cell |
| Interrupts.HighestBit | 8051emu/core.c:806 | the number found from the leading zeros is a set bit above which no bit is set |
| Interrupts.AcceptedIsHighest | 8051emu/core.c:797-818 | an acceptance takes the highest-numbered pending interrupt of the highest pending level, and only above the level in service |
| Interrupts.AcceptsExactly | 8051emu/core.c:797-818 | an interrupt is accepted exactly when one is pending at level 1 and level 1 is not in service, or none is at level 1, one is at level 0 and nothing is in service |
| Interrupts.MainMasks | 8051emu/core.c:719-738 | under main.c's mapping the masks are exactly the UART's and timer 2's pending bits read off the SFRs |
| Interrupts.MainAccepted | 8051emu/core.c:797-818 | under main.c's mapping, which of the two is accepted for every combination of pending bits, priorities and level mask |
| Interrupts.AcceptedIsPending | 8051emu/core.c:797-818 | after any CPU-side run the accepted interrupt is, by the SFR bytes, enabled, with its source set and of the accepted level; none of that level has a higher number, and none of level 1 is pending when level 0 is accepted |
| Interrupts.NestStepOk | 8051emu/core.c:797-818 | each fetch or RETI keeps the level mask equal to what was accepted since the last RETI |
| Interrupts.NestingBounded | 8051emu/core.c:776-825 | in every run the level mask stays in 0..3, at most two interrupts (level 0 then level 1) are accepted between RETIs, and their frames take at most four bytes |
| Interrupts.RetiExact | 8051emu/core.c:776-795 | over any run the level mask holds exactly the levels of the handlers entered and not returned from, throughout, if and only if no RETI is executed at level mask 3 |
| Interrupts.NestingAcrossReti | 8051emu/core.c:776-795 | for every d there is a run that leaves d more handlers unfinished, so the bound does not hold across RETIs |
| Core.Core.constructor | 8051emu/core.c:70-80 | a cleared core: no interrupt mapped, nothing watched, nothing pending, level mask 0 |
| Core.Core.SfrBitval | 8051emu/core.c:712-717 | whether any selected bit differs from its inverted sense; a missing bit never holds |
| Core.Core.SfrNotifyIrq | 8051emu/core.c:719-738 | both masks get this interrupt's bit recomputed from memory, and no other bit changes |
| Core.Core.SfrNotify | 8051emu/core.c:233-246 | the loop refreshes every interrupt on the SFR's list, in order |
| Core.Core.WatchSfr | 8051emu/core.c:740-751 | appends to the SFR's list, or refuses when its eight slots are taken |
| Core.Core.WatchBit | 8051emu/core.c:765-773 | a missing bit needs no watch, a present one a free slot |
| Core.Core.MapIrq | 8051emu/core.c:753-774 | succeeds exactly when the entry is free and every list has a slot, and then registers the interrupt and its watches |
| Core.Core.MapMainIrqs | 8051emu/main.c:682-696 | the start-up mapping succeeds and leaves complete watch lists and right masks |
| Core.Core.SfrInit | 8051emu/main.c:212-222 | the trap words say exactly which addresses are trapped, and SP starts at 7 |
| Core.Core.ReadPlain | 8051emu/core.c:225-231 | a direct read of an untrapped cell returns it; a trapped one returns what its hook leaves |
| Core.Core.ReadD | 8051emu/core.c:225-231 | the same for every address: reading a hooked PCON also pokes SCON, notified |
| Core.Core.DefaultRamdPut | 8051emu/core.c:248-259 | a trapped store leaves the hook's value and refreshes the SFR's watchers |
| Core.Core.PutSbuf | 8051emu/main.c:185-195 | a write to SBUF stores the byte, sets TI through a notified SCON write, then notifies SBUF |
| Core.Core.WritePlain | 8051emu/core.c:261-268 | untrapped stores notify nobody, trapped ones do, and SBUF pokes SCON |
| Core.Core.WriteD | 8051emu/core.c:261-268 | the same for every address: a write to a hooked PCON also pokes T2CON and SCON |
| Core.Core.SfrPcon | 8051emu/rtl8372.lua:1685-1692 | the hook sets TF2 on writes and rewrites SCON with its own value, both notified |
| Core.Core.WritePcon | 8051emu/rtl8372.lua:1685-1692 | a write to PCON is the step the coherence theorems speak of |
| Core.Core.ListenerStore | 8051emu/main.c:618-626 | stores the byte in SBUF and sets RI, past the notifiers, exactly when RI is clear; no other cell and no other bit of SCON changes |
| Core.Core.Readi | 8051emu/core.c:270-273 | an indirect read skips the SFR area |
| Core.Core.Writei | 8051emu/core.c:275-279 | an indirect write skips the SFR area |
| Core.Core.Push | 8051emu/core.c:50 | SP moves first, wrapping, and the byte goes to the cell it then names |
| Core.Core.Pop | 8051emu/core.c:51 | the byte SP names is returned and SP moves back, wrapping |
| Core.Core.PushPc | 8051emu/core.c:822-823 | the low byte of pc is pushed before the high byte |
| Core.Core.Lcall | 8051emu/ops.txt:20-25 | the call step of the stack theorems |
| Core.Core.Acall | 8051emu/ops.txt:27-32 | the same with the target inside the page of the next instruction |
| Core.Core.Ret | 8051emu/ops.txt:93-96 | the return step of the stack theorems |
| Core.Core.Reti | 8051emu/ops.txt:98-102 | the same return step, and the level mask becomes 0 |
| Core.Core.PushDirect | 8051emu/ops.txt:287-289 | the push step for any direct address, and the masks its read hook leaves, PCON's pokes included |
| Core.Core.PopDirect | 8051emu/ops.txt:330-332 | the pop step for any direct address, its write hook included, PCON's and SBUF's pokes too, and its store notifies as any other |
| Core.Core.IrqlevelReti | 8051emu/core.c:776-795 | whatever the level mask was, it ends at 0 |
| Core.Core.IrqVec | 8051emu/core.c:797-810 | accepts the highest set bit and marks its level exactly when a bit is set and the level mask is below that level's bit |
| Core.Core.ChooseIrq | 8051emu/core.c:812-818 | only the highest pending level is tried |
| Core.Core.HandleIrq | 8051emu/core.c:812-825 | an accepted interrupt marks its level and, unless its vector is 0, is one interrupt-entry step on the stack that ends at the vector |
| Core.Core.PollIrq | 8051emu/core.c:862-865 | before a fetch that happens exactly when something is pending and EA is set |
| Core.Core.PollMainIrqs | 8051emu/core.c:862-865 | under main.c's mapping, with EA set and a level mask that allows it, a pending UART interrupt ends at 0x23 and a pending timer 2 interrupt at 0x2b, the higher level first |
| Core.Core.Readb | 8051emu/core.c:281-285 | the digit a bit address names, after the byte's read hook |
| Core.Core.Writeb | 8051emu/core.c:287-294 | reads the byte and stores it with that digit changed, hooks and notification included; only that digit changes where the hooks keep the value |
| Core.Core.ModifyBit | 8051emu/ops.txt:336-339 | the same for the bodies that do not go through writeb |
| Core.Core.SetbBit | 8051emu/ops.txt:334-339 | SETB bit is one such bit write, and its step on the bit table where the hooks keep the value |
| Core.Core.ClrBit | 8051emu/ops.txt:291-293 | CLR bit is one such bit write, and its step on the bit table where the hooks keep the value |
| Core.Core.CplBit | 8051emu/ops.txt:249-251 | CPL bit is one such bit write, and its step on the bit table where the hooks keep the value |
| Core.Core.MovBitCarry | 8051emu/ops.txt:207-209 | MOV bit,C is one such bit write, and its step on the bit table where the hooks keep the value |
| Core.Core.MovCarryBit | 8051emu/ops.txt:211-216 | MOV C,bit is its step on the bit table after the read hook |
| Core.Core.LogicCarryBit | 8051emu/ops.txt:468-498 | ANL C and ORL C are their steps on the bit table; C decides whether the read hook runs |
| Core.Core.JbcBit | 8051emu/ops.txt:34-43 | clears a set bit by one such bit write and branches, forward for offsets below 0x80 and backward from there on, or does neither |
| Core.BranchToSelf | 8051emu/ops.txt:42 | a taken three-byte branch with offset 0xfd loops on itself |
| Core.BranchBack | 8051emu/ops.txt:42 | a branch and one by the two's complement of its offset lead back |
| Uart.StepKeepsExactly | 8051emu/main.c:600-631 | one access of either thread keeps each byte in exactly one place, in order, exactly when it neither sends over an unread byte nor stores an RI the listener has changed |
| Uart.StepLoses | 8051emu/main.c:194 | no access brings a lost byte back, and each unsafe SCON store loses one more |
| Uart.KeptExactly | 8051emu/main.c:134-150 | in every interleaving all bytes are kept throughout exactly when every access is safe |
| Uart.RunDeliversExactly | 8051emu/main.c:134-150 | in every interleaving whose sends overwrite no unread byte, all bytes are kept at the end exactly when no SCON store crossed the listener's; a loss is final |
| Uart.MailboxDelivers | 8051emu/main.c:134-150 | in every interleaving where the CPU writes SCON only to clear RI after reading SBUF and does not send, it reads the arrived bytes once each and in order, with at most two on the way |
| Uart.UpdateKeepsExactly | 8051emu/core.c:287-294 | an update of SCON's other bits keeps the bytes exactly when the listener stores none between its load and its store |
| Uart.UpdateSafeExactly | 8051emu/rtl8372.lua:1690 | it does so whatever the listener does exactly when RI is set as it starts |
| Uart.SendKeepsBytesExactly | 8051emu/main.c:185-195 | a whole send, with the listener before and inside its TI poke, keeps the received bytes exactly when it overwrites no unread byte by another and the listener stores none inside the poke |
| Uart.SendSafeExactly | 8051emu/main.c:185-195 | it does so whatever the listener does exactly when RI is set and its byte was read or is the one sent |
| Uart.SendCanLoseAByte | 8051emu/main.c:194 | with RI clear a byte that arrives inside the poke is lost |
| Uart.RunOnCore | 8051emu/main.c:600-631 | every interleaving of the handshake is one on the core's SCON and SBUF cells, the listener's store being the core's own |
| Uart.SendOnCore | 8051emu/main.c:185-195 | the core's write to SBUF leaves both cells as an undisturbed send does |
| Uart.AckOnCore | 8051emu/core.c:287-294 | the core's CLR RI leaves both cells as an undisturbed acknowledgement does |
| Uart.ServiceTakes | 8051emu/main.c:134-150 | one look at SCON, read of SBUF and CLR RI take the unread byte and empty the mailbox |
| Uart.DeliversAll | 8051emu/main.c:600-631 | bytes stored and serviced one after the other are all read, in order |
| Pages.PageNumber | 8051emu/core.c:138 | the wrapping page number of a mapping loop names exactly one page |
| Pages.MappedPage | 8051emu/core.c:133-163 | the page i after start points at buffer page ofs + i for each i below len, and no other page moves |
| Pages.DataBankKeepsInv | 8051emu/rtl8367s.lua:12393-12404 | any DATA_BANK write keeps the low quarter on SRAM, every ROM page read-only, and both memories unchanged |
| Pages.InvWrite | 8051emu/core.c:186-199 | a write lands in SRAM at its own address exactly when the address is SRAM-mapped, else nothing changes |
| Pages.BankSwitchingIsSafe | 8051emu/rtl8367s.lua:12393-12404 | under any interleaving of bank switches and writes no ROM byte changes, and an SRAM-mapped address reads the last value written while it was mapped |
| Pages.ReadBanked | 8051emu/core.c:165-178 | in bank b addresses from 0x4000 read bank b of the rom buffer |
| Pages.CodeBankKeepsOk | 8051emu/rtl8367s.lua:12384-12392 | any CODE_BANK write keeps the low quarter of code and moves the rest to that bank |
| Pages.FetchBanked | 8051emu/core.c:296-305 | a fetch reads the low quarter of bank 0 and the rest of the current bank |
| Pages.StackStepRefines | 8051emu/rtl8367s.lua:12483-12494 | each SSIO write or read is a push or pop of a plain stack, and bank switches and outside writes do not disturb it |
| Pages.StackRunRefines | 8051emu/rtl8367s.lua:12483-12494 | over any run SSIO returns what a plain stack returns, and SSP tells its height |
| Pages.BalancedRestoresSsp | 8051emu/rtl8367s.lua:12483-12494 | equally many pushes and pops, however interleaved, restore SSP |
| Pages.PushesThenPops | 8051emu/rtl8367s.lua:12483-12494 | pushing bytes there is room for and popping as many returns them in reverse order and restores SSP |
| Pages.PushesAllowed | 8051emu/rtl8367s.lua:12483-12494 | all those accesses meet SRAM exactly when SSP is at least the number of pushes and, in any bank but 0, at most 0x4000 |
| Pages.Memory.constructor | 8051emu/rtl8367s.lua:12640-12643 | the start-up mapping satisfies both bank-switch invariants |
| Pages.Memory.MapRom | 8051emu/core.c:133-141 | the loop maps exactly len pages from start, wrapping, and no other |
| Pages.Memory.MapXram | 8051emu/core.c:143-163 | the same for external memory, with or without the read-only handler |
| Pages.Memory.SfrDataBank | 8051emu/rtl8367s.lua:12393-12404 | a DATA_BANK write is the bank-switch step of the theorems |
| Pages.Memory.SfrCodeBank | 8051emu/rtl8367s.lua:12384-12392 | a CODE_BANK write maps the upper three quarters of code to that bank and keeps the code invariant |
| Pages.Memory.Readx | 8051emu/core.c:165-178 | reads through the page table; an unmapped page reads 0xff |
| Pages.Memory.Writex | 8051emu/core.c:186-199 | writes through the page table; read-only and unmapped pages take nothing |
| Pages.Memory.Readc | 8051emu/core.c:296-305 | whatever CODE_BANK writes came before, an address below 0x4000 reads its own ROM byte and any other that of the current bank; an unmapped page reads 0xff |
| Pages.Memory.SfrSspl | 8051emu/rtl8367s.lua:12463-12472 | the low byte of SSP is replaced, the rest kept |
| Pages.Memory.SfrSsph | 8051emu/rtl8367s.lua:12473-12482 | the rest of SSP is replaced, the low byte kept |
| Pages.Memory.SsioWrite | 8051emu/rtl8367s.lua:12483-12489 | the push step of the external stack |
| Pages.Memory.SsioRead | 8051emu/rtl8367s.lua:12490-12494 | the pop step of the external stack |
| FlashImage.Unpack | 8051emu/unpackrtl.py:15-22 | the loop terminates for every image and writes the specified layout |
| FlashImage.UnpackedByte | 8051emu/unpackrtl.py:18-22 | every packed byte from 0x4000 on is at its unpacked address |
| FlashImage.UnpackedRest | 8051emu/unpackrtl.py:16-20 | the low bytes move down by two, and the rest of bank 0 and the low quarter of each later bank are zero |
| FlashImage.UnpackedOnto | 8051emu/unpackrtl.py:19-22 | every other output byte is a packed byte: the address map is onto |
| FlashImage.UnpackedAddrIncreasing | 8051emu/unpackrtl.py:18-22 | the address map is strictly increasing, hence injective |
| FlashImage.UnpackedSize | 8051emu/unpackrtl.py:15-22 | the output ends with bank 0, or right after the last packed byte |
| FlashImage.UnpackedShort | 8051emu/unpackrtl.py:16-18 | an image too short for bank 0 loses two bytes and gains 0xc002 zeros |
| FlashImage.TranslatedLow | 8051emu/rtl8367s.lua:12339-12344 | up to 0x4000 the SPI address is used as it is, and finds packed byte adr + 2 or a zero |
| FlashImage.PackInvertsUnpack | 8051emu/unpackrtl.py:15-22 | packing back recovers every byte but the first two |
| FlashImage.FlashViewsAgree | 8051emu/rtl8367s.lua:12384-12404 | code fetch under CODE_BANK, data read under DATA_BANK and the packed image show the same byte |
| FlashImage.TranslatedIsUnpackedAddr | 8051emu/rtl8367s.lua:12340-12344 | above 0x4000 the SPI hook computes the unpacker's address map |
| FlashImage.SpiByte | 8051emu/rtl8367s.lua:12334-12358 | reading on from a translated address gives consecutive packed bytes up to the bank end |
| FlashImage.SpiByteBeyondBank | 8051emu/rtl8367s.lua:12347-12351 | past the bank end it gives zeros, whatever the image holds |
| FlashImage.TranslationExact | 8051emu/rtl8367s.lua:12340 | the translated address holds the right byte of every image exactly for addresses above 0x4000 |
| FlashImage.AddressValue | 8051emu/rtl8367s.lua:12338 | the three or-ed address bytes are the address they spell |
| FlashImage.SpiReadsPackedBytes | 8051emu/rtl8367s.lua:12347-12351 | a four-byte read short of a bank end returns four consecutive packed bytes |
| FlashImage.SpiReadExact | 8051emu/rtl8367s.lua:12340-12351 | a four-byte read is right for every image exactly above 0x4000 and short of a bank end |
| FlashImage.Spi.SfrCacheCtrl | 8051emu/rtl8367s.lua:12334-12358 | command 5 reads a not-busy status, 0xbb the four bytes at the translated address, others nothing |
| SocRegs.PhyAddressValue | 8051emu/rtl8367s.lua:12312-12316 | the PHY decode puts register and prefix fields side by side, bit 0 clear |
| Cpu.Cpu.AluAddc | 8051emu/core.c:882-892 | the masked and or-ed PSW is the specified flags, no other bit touched |
| Cpu.Cpu.AluAdd | 8051emu/core.c:894-898 | ADD is ADDC with C clear |
| Cpu.Cpu.AluSubb | 8051emu/core.c:900-910 | the same for SUBB |
| Cpu.MaskedFlags | 8051emu/core.c:887-890 | masking with the complement of three flags and or-ing them in sets exactly those flags |
| Cpu.Cpu.CjneA | 8051emu/core.c:875-880 | branches on a difference and sets C exactly when A is smaller |
| Cpu.Cpu.RrcA | 8051emu/ops.txt:139-144 | RRC A is the step the shift theorems fold |
| Cpu.Cpu.RlcA | 8051emu/ops.txt:150-155 | RLC A is the step the shift theorems fold |
| Cpu.Cpu.DaA | 8051emu/ops.txt:345-357 | DA A is the step the decimal theorem folds |
| Cpu.Cpu.MulAB | 8051emu/ops.txt:452-456 | A and B hold the 16-bit product, and PSW is OV alone when B or any old flag but C and OV is set, else 0 |
| Cpu.Cpu.PushByte | 8051emu/core.c:50 | the byte goes on top of the live stack and no register changes |
| Cpu.Cpu.PopByte | 8051emu/core.c:51 | the top byte leaves the live stack and no register changes |
| Mirror.PushMirrored | 8051emu/core.c:70-71 | in the core's one array a push leaves the registers in their cells exactly when SP's next cell is none of them or holds the byte already |
| Mirror.PushAboveBank | 8051emu/main.c:221 | with the stack based above the register bank, every push short of SP's wrap does |
| Mirror.PopMirrored | 8051emu/core.c:51 | a pop on the core is a pop on the live stack, and no register changes |
| Mirror.StoreMirrored | 8051emu/core.c:40-49 | storing a register's cell changes that register only, unless the cell is a live stack byte |
| Mirror.CellsNamed | 8051emu/core.c:40-49 | which register is which cell of the core's memory |
| Mirror.RunMirrored | 8051emu/core.c:70-71 | a routine of any length that keeps its stack between the register bank and SP's wrap does on the core's one array what it does on named registers and a separate stack |
| Cpu.Cpu.IncDptr | 8051emu/ops.txt:239-243 | DPTR advances by one, wrapping at 64 KiB |
| Cpu.Cpu.MovcADptr | 8051emu/ops.txt:227-229 | A becomes the code byte at A plus DPTR, wrapping |
| Cpu.Cpu.WriteSbuf | 8051emu/main.c:185-195 | the byte is sent and TI is set before the instruction ends |
| Cpu.Cpu.SocregRead | 8051emu/rtl8367s.lua:12310-12328 | PHY addresses read 0xdead after one decoded PHY read; others read the table, and only 0x1a04 is reset |
| Cpu.Cpu.SfrIndaccCmd | 8051emu/rtl8367s.lua:12405-12420 | command 1 reads the addressed register, 3 stores to it, others change nothing |
| Cpu.Cpu.RegStatusLoop | rtl8367/asm/hello.s:237-240 | the wait ends at once, with A and C clear |
| Cpu.Cpu.RegRead | rtl8367/asm/hello.s:233-240 | the register DPTR names is read, with its side effects and no others |
| Cpu.Cpu.RegWrite | rtl8367/asm/hello.s:242-246 | the register DPTR names gets the data word and no other changes |
| InitList.NormalForm | rtl8367/asm/hello.s:248-303 | the effect of every list is one mask-and-set pair per register it names, and nothing else |
| InitList.ApplyTwice | rtl8367/asm/hello.s:248-303 | applying a list twice equals applying it once |
| InitList.ApplyConcat | rtl8367/asm/hello.s:248-303 | concatenated lists compose, as effects and as normal forms |
| InitList.PlainMeans | rtl8367/asm/hello.s:266-276 | a plain entry's four bytes store its second word in the register its first names |
| InitList.RmwMeans | rtl8367/asm/hello.s:279-303 | a marked entry's six bytes keep, bit by bit, what the mask has of its register and add the bits of the third word; no other register changes |
| InitList.EndMeans | rtl8367/asm/hello.s:263-264 | a zero word ends a list and does nothing |
| InitList.MaskSetBit | rtl8367/asm/hello.s:283-302 | mask-and-set, bit by bit |
| InitList.ApplyIsPair | rtl8367/asm/hello.s:279-303 | one entry is its pair on its register, PHY registers included |
| InitList.ComposeExact | rtl8367/asm/hello.s:283-302 | two pairs on a register are one pair |
| InitList.WordMaskSet | rtl8367/asm/hello.s:283-302 | masking and setting the two bytes is masking and setting the word |
| InitList.ReadThenWrite | rtl8367/asm/hello.s:279-281 | the write-back hides the side effect of the read, so 0x1a04 is no exception |
| InitList.ListInCode | rtl8367/asm/hello.s:248-303 | an encoded list in code, wrapping at 64 KiB, offers the interpreter its words in order |
| InitList.ListEndExact | rtl8367/asm/hello.s:248-303 | the interpreter's stops add up to the length of the encoding |
| InitList.LoadAddress | rtl8367/asm/hello.s:252-261 | the address registers get the first word without its mark, and B keeps the mark |
| InitList.RmwEntry | rtl8367/asm/hello.s:279-303 | a marked entry masks and sets its register, and DPTR passes its two words |
| InitList.PlainOrDone | rtl8367/asm/hello.s:263-277 | a zero word ends the list; any other unmarked entry stores its word |
| InitList.OneEntry | rtl8367/asm/hello.s:251-303 | one round stops at the end mark or carries out exactly the next entry |
| InitList.RegFromInitlist | rtl8367/asm/hello.s:248-303 | for every well-formed list the routine terminates just past the zero word, with the register file the list means |
| PhyAddr.RoundTrip | 8051emu/rtl8367s.lua:12310-12317 | for ports 0..7 the register read decodes the packed pair to the OCP address with bit 0 clear |
| PhyAddr.StorePrefix | rtl8367/asm/hello.s:329-346 | OCP bits 15-10 replace the low six bits of register 0x1d15, the others kept |
| PhyAddr.PortBase | rtl8367/asm/hello.s:349-361 | DPTR becomes the PHY base plus 0x20 per port, through MUL, PUSH B, POP B and ADDC, and its trace of stack steps leads to its final registers |
| PhyAddr.AddLowBits | rtl8367/asm/hello.s:364-372 | OCP bits 5-1 are added, whatever C was before RRC |
| PhyAddr.HighNibble | rtl8367/asm/hello.s:375-387 | A holds OCP bits 9-6, whatever C was before RRC |
| PhyAddr.PhyocpRegAddr | rtl8367/asm/hello.s:328-390 | for every OCP address and port DPTR gets the packed address and 0x1d15 the prefix; no other register and no stack byte changes, and its trace carries this to the core's memory with one stack byte of room |
| PhyAddr.AddOcpBits | rtl8367/asm/hello.s:364-390 | OCP bits 5-1 and 9-6 are added to the port's base |
| PhyAddr.ReadPhy | rtl8367/asm/hello.s:394-396 | a PHY access through the routine reads exactly the OCP address asked for, with bit 0 clear |
| Hexdump.ParseDump | rtl8367/asm/hello.s:186-213 | parsing a dump gives back its addresses, bytes and line ends, an address before every 16th field and CR LF after every 16th |
| Hexdump.TokenBytes | rtl8367/asm/hello.s:186-213 | the byte fields are the memory read, in address order |
| Hexdump.DumpReadsBack | rtl8367/asm/hello.s:186-213 | a dump of n bytes parses to exactly the n bytes of memory from its start, wrapping at 64 KiB |
| Hexdump.DumpsReadBack | rtl8367/asm/hello.s:155-213 | the bytes parsed from a dump are code bytes for R7 = 0 and external bytes for R7 = 1, at start + i for each i |
| Hexdump.FieldText | rtl8367/asm/hello.s:112-202 | every character of field i: its address and colon, space, two digits, CR LF |
| Hexdump.DumpText | rtl8367/asm/hello.s:186-213 | field i of a dump is at its place |
| Hexdump.FieldStartCounts | rtl8367/asm/hello.s:186-213 | that place counts three characters a byte, five a line begun and two a line full |
| Hexdump.SerialWrite | rtl8367/asm/hello.s:131-136 | sends A once, and the wait for TI ends |
| Hexdump.SerialHexNibble | rtl8367/asm/hello.s:122-136 | sends the lower-case digit of a nibble |
| Hexdump.SerialHex | rtl8367/asm/hello.s:112-136 | sends the two digits of A, high nibble first |
| Hexdump.SerialNewline | rtl8367/asm/hello.s:148-153 | sends CR LF |
| Hexdump.HexAddr | rtl8367/asm/hello.s:177-184 | sends DPTR as four digits and a colon |
| Hexdump.ReadStackByte | rtl8367/asm/hello.s:160-168 | reads external memory one address above DPTR |
| Hexdump.ReadByte | rtl8367/asm/hello.s:155-175 | A is the code byte at DPTR for R7 = 0, the external byte at DPTR for R7 = 1, and the external byte one address further up otherwise |
| Hexdump.PrintField | rtl8367/asm/hello.s:190-202 | sends field k: address before every 16th, CR LF after every 16th |
| Hexdump.CountDown | rtl8367/asm/hello.s:204-212 | the SUBB chain takes one from R0:R1 mod 65536, and the branch is taken until it is zero |
| Hexdump.PrintFields | rtl8367/asm/hello.s:189-213 | the loop ends after exactly as many fields as R0:R1 says |
| Hexdump.Hexdump | rtl8367/asm/hello.s:186-213 | for every start, count (0 meaning 65536) and R7 the routine terminates having sent exactly that many fields, each character of each at its place, of the code or external bytes R7 selects; parsing what it sent gives those bytes |
| Soc8372.StepRefines | 8051emu/rtl8372.lua:1739-1795 | every access through the byte-wide port is one step on a total table of 65536 words |
| Soc8372.RegisterHistory | 8051emu/rtl8372.lua:1639-1659 | over any run a register holds the last word stored to it, less what it clears, else what it held before |
| Soc8372.ReadLoads | 8051emu/rtl8372.lua:1742-1749 | the three writes of a read load the register's four bytes and change no register |
| Soc8372.ReadAfterWrite | 8051emu/rtl8372.lua:1630-1659 | a read after a write and any run without another store there returns what the store kept |
| Soc8372.ReadsBackBytes | 8051emu/rtl8372.lua:1639-1659 | those are the four bytes stored for every register but 0x0024 and 0x53d4, which read 0, and 0x5cac and 0x0f60, which lose two bits and one bit of the lowest byte |
| Soc8372.ReadsBackBits | 8051emu/rtl8372.lua:1639-1659 | the same bit by bit |
| Soc8372.ReadsInitial | 8051emu/rtl8372.lua:1630-1638 | a register nothing was stored to reads as it was, or as 0xdeadbeef |
| Soc8372.Soc.SocregRead | 8051emu/rtl8372.lua:1630-1638 | the stored word, or 0xdeadbeef |
| Soc8372.Soc.SocregWrite | 8051emu/rtl8372.lua:1639-1659 | stores the word with the listed bits cleared, no other register touched |
| Soc8372.Soc.SfrWrite | 8051emu/rtl8372.lua:1760-1795 | each SFR write is the step the theorems fold |
| Soc8372.Soc.SfrIndaccCmd | 8051emu/rtl8372.lua:1739-1756 | commands 1 and 3 are the steps the theorems fold, others change nothing |

## Left out

- Alu.SubbExact: says nothing about AC; `Alu.SubbAcExact` does.
- Cpu.Cpu.WriteSbuf: says that the byte is sent and TI set; the SBUF cell and the notifications are in
  `Core.Core.PutSbuf`.
- What a Lua hook does beyond its own cell, other than the PCON and SBUF writes, the bank, stack, SPI and register hooks.
- Pages.Memory.Readx: asks that the page point inside its buffer; past the end of the rom buffer C reads other memory.
- Pages.Memory.Readc: the same for code fetches.
- Pages.Memory.Writex: the same, except on read-only pages.
- FlashImage.Spi.SfrCacheCtrl: the same for the four bytes of command 0xbb.
- The firmware routines run without interrupts (they leave EA clear), and their calls are method calls: that ACALL and
  RET match on the real stack is `CallStack.ReturnMatchesCall`. Class `Cpu` names the registers they use as fields, and
  its `stack` is the live bytes; `Mirror.RunMirrored` ties both to the core's memory for any routine's trace, and
  `PhyAddr.PhyocpRegAddr` gives its own; the return addresses of the calls inside it are not in that trace.
- Instruction fetch and dispatch, and the instructions not listed above: logic, DIV, the other jumps and moves, DEC @Ri
  and AJMP, which depart from their intent.
- Pages 0xc0-0xff after a switch back to bank 0, which keep pointing at the old bank.
- The parity flag and moves of the register window, the second DPTR, timers, the NIC and packet-engine hooks.
- The RTL8372 copies of the bank, SPI and SSIO hooks, which repeat those of the RTL8367S; the register tables as data.
- Sockets, files, the Lua binding, tracing and breakpoints.
