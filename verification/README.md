# A verified model of the MIPS emulator

This project models a 32-bit MIPS emulator written in C and proves properties of the model in
Dafny 4.11. `dafny verify dfyconfig.toml` checks everything.

## What is modelled

The emulator has five connected parts.

* **The execution engine** (src/asm.c). `execute_asm` runs one instruction over 35 registers (32
  general ones, PC = 32, HI = 33, LO = 34) and a segmented big-endian memory. Branches and jumps run
  their delay slot through `NextInstruction`, which calls `execute_asm` again. `Engine` gives one call
  as a function on states, `Machine` and `VirtualMem` are the same code updating register and byte
  arrays in place, each method proved equal to its function. `Chains` follows a call down its chain of
  delay slots and then over every run of the fetch loop; `Outcomes` states every return code and when a run
  stops. `Programs` proves overflow detection exact
  and a six-instruction program correct. `Mips32` is an independent reference machine written from
  "MIPS32 Architecture for Programmers, Volume II", with a (pc, npc) pair and a flat memory;
  `Refinement` proves that conforming runs of the emulator are runs of that machine, and `Idle` gives a
  program that conforms for ever. `Deviations` states, instruction by instruction, exactly when an
  instruction outside that set still does what the manual says, and `ZeroRegister` which words keep register 0
  at zero.
* **The decoder and disassembler** (src/lib.c): `Decode`, `Disasm`, and `Faithful`, which proves that
  two words printed alike behave alike. `Reading` reads a printed line by position, with tables of its own
  (the register names as `convert` reads them, src/registre.c), and gets the decoded instruction back.
* **The segment table builder** (src/mem.c): `Segments` on values, `VirtualMem` in the heap.
* **The ELF32 byte-order layer** (src/bits.c, src/elf.c): `Bits`, `Elf`, `ElfOrder`, `StringTable`.
  Field layouts are those of chapter 4 (Object Files) of the System V ABI.
* **The command line** (src/emulMips.c.BAK, whose functions are also in src/emulMips.c): `Shell` has
  the line normaliser and the tokeniser, `NumberText` has `itoa` and `is_hexa`; `Numerals` holds what
  the printed forms of numbers have in common.

`Words` holds the C integer types and operators.

## Modelling choices

* Words are mathematical integers in range; every truncation and sign conversion is written out. Where
  C leaves a signed overflow undefined (the wrapping additions, the PC arithmetic), the model wraps, so
  the theorems about addresses hold over the whole 32-bit space. INT_MIN / -1, which traps on common
  hosts, wraps in the model and is excluded from the theorems about DIV. A negative left shift
  (`im << 16`, `offset << 2`) is the product.
* The test that picks a segment accepts the address just past its end, and a word access there reads
  four more bytes. Every buffer is therefore modelled with four bytes beyond its size (`SLACK`), and a
  valid segment ends at least four bytes below 2^32. The theorems about the engine hold whatever these
  bytes are; the builder's model leaves them zero, which no theorem about reading back uses.
* A segment that was never filled has a null buffer, modelled by empty content. It starts at 0 with size 0,
  so only address 0 can reach it. Such an access ends the C program. The model marks it
  (`Memory.Place.Fault`) and goes on, reading 0, or storing nothing with the code 139. A store through it
  does not return 0, an image does not read back through it, and conforming runs never make one. The theorems
  on chains, footprints and straight-line code hold past such an access too, where the C program has stopped.
* The fetch step is an assumption of the theorems about steps and runs. It is the one `stepinto` takes
  (declared at include/commande.h:45, body in src/commande.c:865-873): load the word at PC, execute it,
  add 4 to PC; an exit system call instead returns PC to the first segment (src/commande.c:931-946).
  The corrections by -4 at src/asm.c:68 and src/asm.c:152 presume such a step.
* The byte order of the host is a parameter of everything that reads a file; a file is an immutable
  byte sequence and a short read is a failure.
* Mnemonic strings are an enumeration; widths given as strings are "WORD", "BYTE" or anything else.

Where the code and the architecture disagree, the model follows the code: function code 0x2a (SLT)
decodes to OR and SLTU is decoded at 0x2c; SEB is recognised by opcode and sa alone, whatever the function
code; the decoder says "JALR" where the executor tests for "JARL",
so JALR is refused with code 2; SLL keeps only sa + 1 bits; SRA and SRL read rd; SB stores from rs; LB
and SEB do not sign-extend; SLTIU and SLTU compare signed; ANDI and ORI sign-extend; J and JAL lose the
region of the PC; MULT multiplies in 32 bits; register 0 can be written. `RunRefines` is about runs whose
fetched words, destinations and accesses avoid these cases (`Refinement.GoodRun`).

Some properties one would expect are false of the code, and the exact condition is proved instead.
J and JAL land where the architecture says if and only if the delay slot lies below 2^28
(`Refinement.JumpExact`). A loaded image reads back if and only if the table is full or no section holds
address 0 (`Segments.ImageReadsBack`): a segment left free passes the inclusive address test for 0, is found
last, and has no buffer. `itoa` prints zero as the empty string, so `"0x"` followed by it is hexadecimal if
and only if the number is not zero.

## Model

| member | source | states |
|---|---|---|
| Decode.GetBits | src/lib.c:3-14 | mask and shift extract exactly the field: the quotient by 2^start, modulo 2^(length), for every field of the word |
| Decode.MaskShape | src/lib.c:3-14 | the two shifts of all ones leave ones at start..stop and nowhere else |
| Decode.AdjacentFields | src/lib.c:3-14 | two adjacent fields concatenate to the field that spans them |
| Decode.FieldsReassemble | src/lib.c:20-53 | opcode, rs, rt, rd, sa, funct give the word back; so do opcode, rs, rt, immediate, and opcode, target |
| Decode.NeverDecoded | src/lib.c:56-306 | no word decodes to JARL or SLT; JALR is decoded for exactly opcode 0 with function code 9 |
| Memory.LoadAfterStore | src/asm.c:387-467 | a word just stored is read back from the same address whichever segment answers; a store returns -1 exactly when no segment answers, 0 exactly when one with a buffer does, and changes nothing otherwise |
| Memory.StoreByteCodes | src/asm.c:429-467 | a byte store returns -1 exactly when no segment passes the address test, 0 exactly when one with a buffer is found; with any code but 0 nothing changes |
| Memory.HitExactly | src/asm.c:394-404 | a segment passes the test for its addresses and the one just past its end, and for no other |
| Memory.UnmappedReadsZero | src/asm.c:405-409 | where no segment answers, words and bytes read as 0 |
| Memory.LoadByteExactly | src/asm.c:387-425 | a byte load is the byte at the address's distance from the start of the last segment that answers |
| Memory.StoreWordBytes | src/asm.c:429-467 | a word store changes the four byte addresses of its segment to the big-endian bytes of the value and leaves every other address alone |
| Memory.StoreByteBytes | src/asm.c:429-467 | a byte store changes that address only |
| Memory.LocateInside | src/asm.c:387-403 | with ascending disjoint segments the last-match scan resolves an address inside a segment to that segment |
| Memory.LoadWordFlat | src/asm.c:387-425 | a word load inside a segment is the big-endian value of four bytes of the flat map |
| Memory.StoreWordFlat | src/asm.c:429-467 | a word store inside a segment succeeds and updates exactly those four bytes of the flat map |
| Memory.TopIsUnmapped | src/asm.c:405-409 | a fetch from the last four addresses gives 0 |
| VirtualMem.VirtualMemory.constructor | src/mem.c:32-65 | the new table equals the initial table of free segments, every content null |
| VirtualMem.VirtualMemory.AttachScn | src/mem.c:73-93 | the loop over segment records takes the first free one; the table afterwards is the attached table, no buffer changes |
| VirtualMem.VirtualMemory.FillScn | src/mem.c:105-158 | the loop, the allocation and the copy leave exactly the filled table, in a buffer of its own |
| VirtualMem.VirtualMemory.LoadMem | src/asm.c:387-425 | on the heap, a load returns what the value model's load returns, for each width |
| VirtualMem.VirtualMemory.StoreMem | src/asm.c:429-467 | on the heap, a store returns the same code and leaves the same table as the value model's, touching buffers only |
| VirtualMem.VirtualMemory.Scan | src/asm.c:394-404 | the loop ends on the last segment that passes the test |
| VirtualMem.Combine | src/asm.c:412-417 | shifting and or-ing four bytes gives the big-endian word |
| VirtualMem.MaskByte | src/asm.c:453-460 | masking and shifting gives the k-th byte of the value |
| Segments.AttrWidth | include/mem.h:69-71 | attributes made with rights up to 0xff always select the 32- or the 64-bit branch |
| Segments.LowerExactly | src/mem.c:105-116 | two characters compare equal exactly when they are the same or one letter in two cases |
| Segments.PrefixExactly | src/mem.c:105-116 | a name matches exactly when, both written in lower case, it is a prefix of the segment's |
| Segments.AttachPrefix | src/mem.c:73-93 | over any sequence of attach calls the attached segments are a prefix of the table in call order, and every call past the last free segment returns 1 and changes nothing |
| Segments.FillIsLocal | src/mem.c:105-158 | a fill changes only the first segment whose name starts with the one given, ignoring case, never a name or an attribute; it succeeds exactly when there is one of width 32 or 64, and otherwise changes nothing |
| Segments.FillStage | src/mem.c:105-158 | the k-th fill reaches the k-th section when its name is no case-insensitive prefix of an earlier one |
| Segments.LoadStages | src/mem.c:73-158 | attaching and filling section after section succeeds and leaves every earlier one intact, as long as that holds |
| Segments.LoadsExactly | src/mem.c:73-158 | every section ends up in its own segment if and only if no name is a case-insensitive prefix of an earlier one |
| Segments.LoaderNamesApart | include/commande.h:29-32 | any of the loader's section names and .stack, each at most once and in any order, meet the condition of LoadsExactly |
| Segments.ImageReadsBack | src/asm.c:387-425 | end to end: every byte of every section reads back from a buffer, and 0 for null content, if and only if the table is full or no section holds address 0 |
| Segments.ByteAtZeroIsLost | src/asm.c:387-425 | a concrete image that does not read back: one byte, of any value, at address 0, one segment left free; the access goes through its null content |
| Segments.FaultsExactly | src/asm.c:387-425 | in a loaded image an access goes through null content exactly at address 0 of a table with a segment left free |
| Engine.AddOverflows | src/asm.c:11-39 | comparing bits 32 and 31 of the 64-bit sum detects overflow of the true sum, both ways |
| Engine.SubOverflows | src/asm.c:314-327 | comparing bits 32 and 31 of the 64-bit difference detects overflow of the true difference, both ways |
| Engine.Misaligned | src/asm.c:198-208 | the two-bit test is divisibility by four |
| Engine.DepthDecreases | src/asm.c:376-383 | the delay slot of a branch is strictly nearer to the top of the address space: the recursion ends for every memory |
| Engine.Execute | src/asm.c:8-374 | every call ends, in a state with 35 registers and a valid image |
| Engine.NextInstruction | src/asm.c:376-383 | the mutual recursion with execute_asm is well-founded and keeps the state valid |
| Machine.Registers.constructor | src/registre.c:10-23 | a new register file is fresh and zero |
| Machine.ExecuteAsm | src/asm.c:8-374 | the imperative execute_asm, recursing through its delay slot, returns the code and leaves the registers and memory given by the state function |
| Machine.NextInstructionAsm | src/asm.c:376-383 | advancing PC, loading and executing in place is the state function's delay slot |
| Machine.WriteLink | src/asm.c:156-170 | the link register written before the delay slot |
| Machine.TakeBranch | src/asm.c:61-178 | after the slot PC is redirected according to operands read before the slot, relative to the PC the slot left |
| Machine.ExecuteLoad | src/asm.c:180-208 | loads in place, with their alignment code |
| Machine.ExecuteStore | src/asm.c:240-342 | stores in place, with their alignment and unmapped codes |
| Machine.ExecuteChecked | src/asm.c:11-362 | instructions with a code of their own in place: overflow leaves everything unchanged |
| Machine.ExecuteWriting | src/asm.c:41-367 | instructions that write one register, in place |
| Machine.StepInto | include/commande.h:45 | the whole command (body at src/commande.c:819-875): outside the first segment it only sends PC back to that segment's start, with its error code; inside, it is the fetch step |
| Machine.FetchStep | src/asm.c:376-383 | the fetch step in place (src/commande.c:865-873) is the step the theorems about runs are about |
| Chains.SimpleRegisters | src/asm.c:8-374 | an instruction without a slot leaves PC and all but one register alone; only DIV and MULT write HI and LO |
| Chains.SimpleMemory | src/asm.c:240-342 | only SB and SW change memory, and at most four bytes of one buffer |
| Chains.OneWordExecuted | src/asm.c:149-178 | however deep the chain of delay slots, a call's outcome is that of its one non-control word, but for PC |
| Chains.ChainEntry | src/asm.c:376-383 | before that word runs, the chain has changed no memory, moved PC by four per slot, and written only PC and the link register |
| Chains.ChainIsShort | src/asm.c:376-383 | a chain cannot be longer than the distance from PC to the top of the address space |
| Chains.CallFootprint | src/asm.c:8-383 | one call changes at most four bytes of memory and nothing of the segment table |
| Chains.CallRegisters | src/asm.c:8-383 | one call writes PC, the link register, and what its last word writes; without a chain PC stays |
| Chains.BranchChainPC | src/asm.c:61-132 | k consecutive branches leave PC = P + 4k + the sum of the taken displacements, modulo 2^32, every condition read from the entry registers |
| Chains.RunKeepsShape | src/asm.c:8-383 | over every run: 35 registers, and a table whose names, attributes, addresses, sizes and buffer lengths never change |
| Outcomes.SyscallOutcome | src/asm.c:344-362 | a system call changes nothing and returns 10 exactly for $v0 = 10, 0 exactly for 1 and 4, 1 otherwise |
| Outcomes.BreakOutcome | src/asm.c:134-136 | BREAK returns 3 and changes nothing |
| Outcomes.CodeExactly | src/asm.c:8-374 | the return code of every instruction without a delay slot, from operands and memory; with any code but 0 the state is unchanged |
| Outcomes.StopsExactly | src/asm.c:344-383 | a step ends the program if and only if the fetched word is a system call with $v0 = 10; then PC alone changes, to the first segment's start, and otherwise PC is four past where the call left it (src/commande.c:865-873) |
| Outcomes.RunEnds | src/asm.c:344-383 | a run stops at its first exit, however many steps are asked for, and until then is one step after another |
| Outcomes.InTextExactly | include/commande.h:45 | stepinto executes exactly when the scan found a segment and PC lies in the first one; otherwise PC alone changes, to that segment's start (src/commande.c:851-863) |
| Outcomes.JarlOutcome | src/asm.c:163-170 | the executor's JARL links the address behind its slot and goes where rs pointed before |
| Programs.OverflowExact | src/asm.c:11-39 | ADD, ADDI and SUB return 1 with the state unchanged if and only if the true result does not fit; otherwise they store it and equal ADDU, ADDIU, SUBU |
| Programs.StraightLine | src/asm.c:8-374 | running n fetch steps over register-only code is executing it in order, PC advancing by 4n |
| Programs.QuotientTimesDivisor | src/asm.c:138-147 | quotient times divisor never overflows, the remainder is smaller than the divisor, and together they give the dividend |
| Programs.DivideMultiplyRoundTrip | src/asm.c:209-224 | any six words decoding to DIV, MFLO, MFHI, MULT, MFLO, ADDU with these registers, run by the fetch loop, rebuild the dividend for every divisor but 0 (and INT_MIN / -1) |
| Programs.DistinctRegistersNeeded | src/asm.c:138-224 | the distinctness asked for is needed: already for 7 divided by 2 the program works if and only if the four pairs of registers differ |
| Programs.RebuildInMemory | src/asm.c:138-224 | a concrete program in memory, whose words decode to such instructions, rebuilds every dividend |
| Mips32.BitwiseAgree | src/asm.c:51-54 | the reference's bit-by-bit AND, OR and XOR are C's operators |
| Mips32.ZeroStays | src/asm.c:8-374 | the reference machine never changes register 0 |
| Refinement.DecodersAgree | src/lib.c:56-306 | every word is decoded as the architecture's tables have it, mnemonic and operands, those the refinement does not perform included; the exceptions are function codes 0x2a, 0x2b and 0x2c and the SEB pattern with a function code other than 0x20, for which both readings are given |
| Refinement.PerformRefines | src/asm.c:11-342 | each supported instruction without a slot computes the reference's registers, HI, LO and memory |
| Refinement.TrapsAgree | src/asm.c:11-342 | for ADD, ADDI, SUB, DIV, LBU, LW and SW, returning a code and the reference's trap coincide if and only if: the quotient fits; LBU reads a mapped byte; LW is misaligned or reads mapped memory, since an unmapped load returns 0 here with code 0; SW is misaligned, writes mapped memory, or reaches no buffer |
| Refinement.SimpleStepRefines | src/asm.c:8-374 | one fetch step is one reference step |
| Refinement.BranchLands | src/asm.c:61-132 | for all six branches and JR the PC written after the slot is where the architecture goes |
| Refinement.StepLands | src/asm.c:61-178 | a step over any branch or jump, with a slot that is none, ends at the PC written after the slot, plus the fetch step's 4 |
| Refinement.JumpExact | src/asm.c:149-161 | a step over J or JAL and its slot ends where the architecture says if and only if the slot is below 2^28 |
| Refinement.JumpResult | src/asm.c:149-161 | a step over J or JAL ends at the target times four, or-ed with the top four bits of the slot's address moved to the bottom |
| Refinement.JumpLeavesItsRegion | src/asm.c:149-154 | the word of J 0 at address 2^28 ends elsewhere than at the start of its region |
| Refinement.BranchStepRefines | src/asm.c:61-178 | a branch with its slot, one fetch step here, is two steps of the reference |
| Refinement.RunRefines | src/asm.c:8-383 | every conforming run is a run of the reference machine, and register 0 stays zero throughout |
| Idle.IdlesForEver | src/asm.c:8-383 | a branch to itself with a NOP in its slot conforms for every number of steps and leaves the state as it was |
| Idle.IdleInMemory | src/asm.c:8-383 | such a state, concretely |
| Deviations.AndiExact | src/asm.c:56-59 | ANDI is the architecture's if and only if the immediate is not negative or the register's upper half is clear |
| Deviations.OriExact | src/asm.c:235-238 | ORI is the architecture's if and only if the immediate is not negative or the register's upper half is all ones |
| Deviations.SltiuExact | src/asm.c:280-290 | SLTIU compares unsigned if and only if both operands have the same sign |
| Deviations.SltuExact | src/asm.c:292-302 | SLTU compares unsigned if and only if both operands have the same sign |
| Deviations.LbExact | src/asm.c:180-185 | LB sign-extends if and only if the byte is below 0x80 |
| Deviations.SebExact | src/asm.c:246-249 | SEB sign-extends if and only if the low byte is below 0x80 |
| Deviations.SbExact | src/asm.c:240-244 | SB stores what the architecture says if and only if rs and rt have the same low byte, or nothing is stored |
| Deviations.MultExact | src/asm.c:219-224 | LO is always the low half of the product; HI is the high half if and only if the product fits 32 bits |
| Deviations.ImmediateResults | src/asm.c:56-59 | ANDI and ORI (src/asm.c:235-238) combine rs with the sign-extended immediate |
| Deviations.ComparisonResults | src/asm.c:280-302 | SLTIU, SLTU and the executor's SLT leave 1 or 0 by the signed comparison |
| Deviations.ByteResults | src/asm.c:180-185 | LB and SEB (src/asm.c:246-249) leave the byte as a number from 0 to 255 |
| Deviations.SbResult | src/asm.c:240-244 | SB stores the low byte of rs |
| Deviations.MultResult | src/asm.c:219-224 | MULT leaves in HI only the sign of LO, and changes nothing else |
| Deviations.ShiftResults | src/asm.c:251-254 | what the shifts leave in every case: SLL the low sa + 1 bits of rt shifted, SRL rd halved sa times, SRA (src/asm.c:304-312) the same for rd read unsigned |
| Deviations.SllExact | src/asm.c:251-254 | SLL is a left shift of rt if and only if no bit it should keep lies above position sa |
| Deviations.SrlExact | src/asm.c:309-312 | SRL is the architecture's logical shift of rt if and only if rd and rt agree above the bits shifted out and rd is not negative or sa is 0 |
| Deviations.SraExact | src/asm.c:304-307 | SRA is the architecture's arithmetic shift of rt if and only if rd and rt agree above the bits shifted out and rt is not negative or sa is 0 |
| Deviations.SltWordExact | src/lib.c:103-190 | the word the architecture calls SLT, executed as OR, does what SLT does if and only if rs is 0 and rt is 0 or 1 |
| Deviations.RefusedWords | src/lib.c:103-190 | the words the architecture calls JALR and SLTU are refused with code 2 in every state, which stays unchanged |
| Deviations.ZeroIsWritable | src/asm.c:41-44 | every word that decodes to ADDIU $0,$0,v leaves v in register 0 |
| Deviations.ZeroWriterExists | src/lib.c:56-306 | there is such a word for every 16-bit v |
| ZeroRegister.WordsKeepZero | src/asm.c:8-374 | a word without a delay slot keeps register 0 at zero in every state if and only if its fields meet a stated condition |
| Disasm.Cut | src/lib.c:356-488 | a printed line has only one reading as an item and what follows it |
| Disasm.RegNames | src/lib.c:312-350 | the 32 register names are distinct: each gives its number back |
| Disasm.HeadReads | src/lib.c:356-488 | the first word of a line identifies the mnemonic up to the forms that share it |
| Disasm.OperandsInjective | src/lib.c:356-488 | equal operand texts of the same form show equal fields |
| Disasm.LineInjective | src/lib.c:356-488 | equal lines show the same mnemonic and the same printed fields |
| Reading.ConvertReads | src/registre.c:47-135 | convert gives each register back from the name the disassembler prints for it |
| Reading.MnemonicReads | src/lib.c:356-488 | each mnemonic is spelled as the assembler spells it |
| Reading.LineReads | src/lib.c:356-488 | a line, read by position in the assembler's operand order with names and numerals looked up independently, gives back the mnemonic and every field it shows |
| Reading.DisassemblyReads | src/lib.c:356-488 | the same for the line of every word |
| Reading.FirstOperandIsDest | src/lib.c:356-488 | the first operand of an instruction that writes a register names the register the executor writes |
| Reading.PrintedDisplacement | src/asm.c:61-132 | the number printed for a branch is what a taken branch adds to PC, plus the 4 of the fetch step |
| Reading.LineLayout | src/lib.c:356-488 | the whole text is the items with one space, commas and parentheses between them, per mnemonic |
| Reading.SampleListing | test/disasm/05_test_disasm.out:1-5 | the five words of the sample object file print as the expected listing has them |
| Faithful.ShownSuffices | src/asm.c:8-374 | fields a line does not print are never read by the executor |
| Faithful.SameLineSameBehaviour | src/lib.c:356-488 | words disassembled to the same line have the same code, registers and memory after execution from every state |
| Faithful.UnknownExactly | src/lib.c:356-488 | "Instruction inconnue" is printed exactly for the words the executor refuses with code 2 |
| Bits.FlipEndianness | src/bits.c:36-47 | swapping in place reverses the block, for every length, and touches nothing outside it |
| Bits.FlipTwice | src/bits.c:36-47 | a second flip restores the block |
| Bits.ReadReversed | src/bits.c:36-47 | reading a reversed block in one order is reading the block in the other |
| Bits.FlipFieldsBytes | src/elf.c:31-180 | each listed field is reversed and no other byte of the record moves |
| Bits.FlipFieldsTwice | src/elf.c:31-180 | flipping every listed field twice restores the record |
| Bits.FlipRecordInPlace | src/elf.c:96-111 | the in-place flip, done only when target and host differ, gives the flipped record |
| Elf.RecordsFlip | src/elf.c:31-180 | for Ehdr (32- and 64-bit), Shdr, Sym and Rel: a double flip restores the record, and every flipped field then reads in host order as it did in target order |
| Elf.AbiEhdr | src/elf.c:31-94 | the flipped fields of both file headers are all the ABI's members behind e_ident, at their offsets, and fill the header |
| Elf.AbiOthers | src/elf.c:96-180 | those of section header, symbol and relocation are the ABI's members in order but sh_link, st_info and st_other, and the members fill the record |
| Elf.RecordsKeep | src/elf.c:62-159 | sh_link, st_info, st_other and e_ident keep their bytes |
| Elf.GetEhdr | src/elf.c:189-232 | a header is returned exactly for files of class 32 or 64 long enough for it, converted to host order |
| Elf.ExtractSectionNames | src/elf.c:240-365 | for a 32-bit file the names table returned is, for either host, the bytes the header number e_shstrndx points at, given as positions in the file; none for another byte-order mark |
| Elf.ExtractScnByName | src/elf.c:378-433 | for a 32-bit file, whatever the host's order, the answer is size, offset and bytes of the first section below e_shnum whose name matches, all headers up to it being readable, and nothing if there is no such section; nothing for another byte-order mark |
| Elf.SelectAnswers | src/elf.c:378-433 | the lookup on parsed headers is the one described by byte positions in the file: header i at e_shoff + i * e_shentsize, bytes at the section's offset, none for SHT_NOBITS, nothing on a short read |
| Elf.SelectsFirst | src/elf.c:378-433 | the section delivered is the first whose name matches, provided every header before it could be read |
| Elf.SelectsNone | src/elf.c:378-433 | no match, no section |
| Elf.NameIsPrefix | src/elf.c:378-433 | the comparison asks whether the requested name is a prefix of the section's |
| ElfOrder.OrderIndependent | src/elf.c:240-433 | a file and its transcription into the other byte order have the same names table, the same headers, and the same bytes behind every section that has bytes in the file, so every name gives the same section, size and bytes, or nothing in both |
| ElfOrder.SameHeadersSameSection | src/elf.c:240-433 | whatever two files look like otherwise, if their headers say the same, each read in its own order, every name gives the same section in both |
| ElfOrder.BssIsRegular | src/elf.c:424-432 | the theorem covers a section without bytes in the file whose nominal extent runs over the headers |
| ElfOrder.TranscodedEntry | src/elf.c:96-128 | each section header of the transcribed file says what the original's says |
| StringTable.PrintStringTable | src/elf.c:503-512 | the loop ends for every table and its rows are the walk |
| StringTable.WalkVisits | src/elf.c:503-512 | the offsets printed are exactly those preceded by a NUL, each once and in order, with their string |
| StringTable.WalkCovers | src/elf.c:503-512 | the printed strings, each with its NUL, are the table from byte 1 on |
| Shell.StringStandardise | src/emulMips.c.BAK:366-395 | the loop over the buffer writes exactly the normal form, needs no more room than it, and leaves the rest of the buffer alone (no NUL is written) |
| Shell.StandardiseLength | src/emulMips.c.BAK:366-395 | the normal form is at most three times as long |
| Shell.KeepsNonBlanks | src/emulMips.c.BAK:366-395 | the non-blank characters come out unchanged and in order |
| Shell.StandardiseStable | src/emulMips.c.BAK:366-395 | normalising a normalised line changes none of its tokens |
| Shell.LineTokens | src/emulMips.c.BAK:366-395 | the tokens of a normalised line are all its non-delimiter characters in order, with ':', '+' and '~' each a token of its own and '-' and '#' only at the start of one |
| Shell.MinusAttaches | src/emulMips.c.BAK:381-385 | any blanks between a '-' and what it negates make no difference |
| Shell.PlainWord | src/emulMips.c.BAK:366-395 | a word without blanks or special characters is kept and is one token |
| Shell.SplitsAtSpecial | src/emulMips.c.BAK:366-395 | ':', '+' and '~' between two words are set apart by one blank on each side: three tokens |
| Shell.SplitsBeforeMark | src/emulMips.c.BAK:366-395 | '-' and '#' between two words get one blank before them and start the second token |
| Shell.SplitsAtBlank | src/emulMips.c.BAK:366-395 | a blank between two words stays one, a tab becomes one, a newline stays: two tokens |
| Shell.StandardiseAppend | src/emulMips.c.BAK:366-395 | normalising is piecewise: cut before anything but a blank, the parts are normalised on their own |
| Shell.Interpreter.constructor | src/emulMips.c.BAK:27-34 | a new interpreter holds an empty line |
| Shell.Interpreter.GetNextToken | src/emulMips.c.BAK:51-69 | each call returns the next word and leaves the rest pending, or resets when there is none; the line itself is cut after its first token and never changes again |
| Shell.Interpreter.ReadTokens | src/emulMips.c.BAK:209-222 | calling until nothing is left gives exactly the tokens of the line; starting again gives the first token only |
| Shell.Interpreter.AcquireLine | src/emulMips.c.BAK:406-448 | the acquired line is the normal form of what was typed, whatever the buffer held, as long as it leaves room for a NUL |
| Shell.Interpreter.ReadCommand | src/emulMips.c.BAK:406-448 | the tokens a command then reads are those of the normal form |
| Shell.TokensSplit | src/emulMips.c.BAK:51-69 | the tokens of a text are its first word and the tokens of what follows it |
| NumberText.Itoa | src/emulMips.c.BAK:114-126 | filling the shared buffer backwards leaves the text as a C string, whatever earlier calls wrote |
| NumberText.ItoaReads | src/emulMips.c.BAK:114-126 | reading the k digits back gives the value modulo base^k, and the full numeral when it fits |
| NumberText.IsHexa | src/emulMips.c.BAK:89-110 | accepts exactly "0x" followed by at least one hexadecimal digit and nothing else |
| NumberText.XDigits | src/emulMips.c.BAK:89-110 | the hexadecimal digits are the 22 characters 0-9, a-f and A-F |
| NumberText.ItoaIsHexa | src/emulMips.c.BAK:89-126 | "0x" followed by itoa in base 16 is accepted if and only if the number is not zero |

## Left out

* The run, break, load and memory-map commands, the main loop, readline, scripts, and every printed
  message: input, output and user interface. `dispAssem` and `print_string_table` are modelled by the
  text and the rows they print.
* The input and output of system calls.
* Machine.StepInto: the address scan it starts with (numero_segment, src/commande.c:1221-1236) compares with the
  start of the segment behind the last one, outside the table, so its result is a parameter. A run of the
  command is a run of the fetch step only while PC stays in the first segment.
* Allocation failure, null memory handles and freeing.
* Access rights: `storemem` does not consult them.
* 64-bit ELF sections and segments of 2^32 bytes or more; symbol tables, relocation, section and symbol
  lists (src/elf.c:522-900, src/section.c, src/syms.c).
* The executor's case for an empty mnemonic (src/asm.c:368), which no word decodes to.
* VirtualMem.VirtualMemory.FillScn: calls where the scan meets a segment without a name before a match are
  excluded, because the source hands the null name to strncasecmp.
* Elf.ExtractSectionNames: 64-bit files, whose path in the source reads the header behind the file header
  whatever e_shstrndx says.
* Elf.ExtractScnByName: 64-bit files; the buffer of a section without file content (SHT_NOBITS) is left
  unspecified, as malloc leaves it; a name comparison that would run past the names table counts as different.
* ElfOrder.OrderIndependent: for files with no section headers, or whose header table lies behind the file
  header, inside the file and the 32-bit range, and apart from the bytes a lookup reads through it, with
  entries of at least 40 bytes and a names index below the number of entries. Other files cannot be rewritten
  field by field; for them `ElfOrder.SameHeadersSameSection` still says what their headers decide.
* Shell.Interpreter.AcquireLine: reading the characters (readline, fgets) and stripping the line end; lines
  whose normal form does not fit the buffer, which the source would overrun.
* NumberText.Itoa: negative numbers, for which the source indexes its digit string with a negative remainder.
* StringTable.WalkVisits: only tables that start and end with NUL, as the System V ABI requires of a string table.
