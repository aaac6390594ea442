# M-CRAFT instruction set, modelled in Dafny

M-CRAFT is a Minecraft-themed, MIPS-like 32-bit instruction set that plugs
into the MARS simulator as a custom language. It has 25 instructions. Each
one pairs a 32-bit bit-pattern template with a handler. A handler reads
registers (J reads the pc instead, and HOTBAR only its immediate) and
then updates the machine:

- most write one register;
- CHAT writes two ($a0 and $v0);
- SW, PLACE and INVST write one memory word;
- BEQ, BNE and J may write the pc;
- SPRINT writes its register and may write the pc.

The instructions are:

- the MIPS-style ADD, SUB, AND, OR, XOR, SLT, ADDI, ANDI, ORI, LW, SW, BEQ,
  BNE and J;
- the themed MINE, PLACE, CRAFT, BREW, SMELT, HOTBAR, INVLD, INVST, CHAT,
  SPRINT and IFMOB.

This project models the handlers, the templates and the two memory regions
(WORLD at 0x10010000 and INVENTORY at 0x10020000). It proves what each
handler computes and what it leaves alone.

Files:

- `word32.dfy` (module `Word32`): Java `int` as `bv32`. This covers wrapping
  arithmetic, the signed comparison behind `<`, and sign extension of a
  16-bit field.
- `semantics.dfy` (module `Semantics`): the pure value computations. These
  are region addresses, branch and jump targets, SLT, ANDI and ORI, the
  CRAFT packing, the BREW formula, the SMELT clamp, the HOTBAR slot, the
  IFMOB flag and the SPRINT countdown.
- `encoding.dfy` (module `Encoding`): the 25 templates. It defines their
  opcode/funct table, decoding a word into a statement (mnemonic plus
  operand array) and encoding it back.
- `machine.dfy` (module `Simulator`): the machine.
  - Class `Machine` holds the register file as an array of 32 words, the
    pc, and the memory as a map from word addresses to words.
  - It has one method per instruction, each with a `modifies` clause and a
    postcondition giving its whole new state.
  - `Execute` dispatches one decoded statement; `Step` decodes a fetched
    word, advances the pc, and executes it.

Host conventions the model adopts explicitly:

- A handler sees the pc already advanced by 4.
- A taken branch sets `pc := pc + offset * 4`, and a jump sets `pc := target`.
- Register 0 ignores writes.
- An unaligned or unmapped word access faults before the handler writes
  anything. The model turns that fault into an `AddressError` status.
- Which addresses are mapped is the set `Machine.mapped`, fixed at
  construction.

Java `int` arithmetic wraps and never traps; `bv32` models it exactly.

## Model

| member | source | states |
|---|---|---|
| Word32.SignedLessBiased | mars/mips/instructions/customlangs/MCraftLanguage.java:140 | Java's signed `a < b` on words is unsigned order after flipping the sign bit |
| Word32.SignExtendUpper | mars/mips/instructions/customlangs/MCraftLanguage.java:157 | a sign-extended 16-bit field has sixteen copies of bit 15 in its upper half |
| Word32.SignExtendIsImm16 | mars/mips/instructions/customlangs/MCraftLanguage.java:157 | every sign-extended field is an int in [-32768, 32767] |
| Word32.SignExtendFixesImm16 | mars/mips/instructions/customlangs/MCraftLanguage.java:157 | sign extension gives such an int back unchanged |
| Semantics.ScaledOffset | mars/mips/instructions/customlangs/MCraftLanguage.java:331 | `base + index*4` keeps the alignment of `base` for every index |
| Semantics.WorldAddress | mars/mips/instructions/customlangs/MCraftLanguage.java:330-331 | every WORLD address (MINE, PLACE, IFMOB) is word-aligned |
| Semantics.InventoryAddress | mars/mips/instructions/customlangs/MCraftLanguage.java:470-471 | every INVENTORY address (INVLD, INVST) is word-aligned |
| Semantics.WorldOverlapsInventory | mars/mips/instructions/customlangs/MCraftLanguage.java:22-23 | the regions are not disjoint: WORLD index i+0x4000 is INVENTORY slot i |
| Semantics.WorldIndexMinusOne | mars/mips/instructions/customlangs/MCraftLanguage.java:330-331 | a negative index is not refused: WORLD index -1 is address 0x1000FFFC |
| Semantics.BranchTarget | mars/mips/instructions/customlangs/MCraftLanguage.java:263-265 | a branch keeps the pc's alignment, and displacement 0 lands on the next instruction |
| Semantics.BranchFromNextInstruction | mars/mips/instructions/customlangs/MCraftLanguage.java:263-265 | a taken branch at 100 with displacement 2 lands on 112, and with -1 on itself |
| Semantics.JumpTarget | mars/mips/instructions/customlangs/MCraftLanguage.java:300-303 | J's destination has its low 2 bits zero and, for a 26-bit target, the pc's top 4 bits |
| Semantics.JumpTargetField | mars/mips/instructions/customlangs/MCraftLanguage.java:300-303 | bits 27..2 of J's destination are the 26-bit target field |
| Semantics.SetLessThan | mars/mips/instructions/customlangs/MCraftLanguage.java:137-140 | SLT's result is 0 or 1, and 1 exactly when rs < rt as signed ints |
| Semantics.AndImmediate | mars/mips/instructions/customlangs/MCraftLanguage.java:176-177 | ANDI's result has a zero upper half and is the AND of the low halves |
| Semantics.OrImmediate | mars/mips/instructions/customlangs/MCraftLanguage.java:195-196 | ORI keeps rs's upper half even for a negative immediate, and ORs the low halves |
| Semantics.Craft | mars/mips/instructions/customlangs/MCraftLanguage.java:384-388 | the packed word's upper half is rs's low half, and its lower half is rt's low half |
| Semantics.CraftOfHalves | mars/mips/instructions/customlangs/MCraftLanguage.java:387 | every word is the CRAFT of its own two halves |
| Semantics.CraftInjective | mars/mips/instructions/customlangs/MCraftLanguage.java:387 | equal CRAFT results come from equal low halves |
| Semantics.Brew | mars/mips/instructions/customlangs/MCraftLanguage.java:407-410 | BREW's low 3 bits are those of `a + (b >>> 2)`, since `b << 3` contributes none there |
| Semantics.BrewZero | mars/mips/instructions/customlangs/MCraftLanguage.java:410 | BREW with a zero second operand returns the first |
| Semantics.BrewShiftIsLogical | mars/mips/instructions/customlangs/MCraftLanguage.java:410 | the shift is logical: BREW(0, 0x80000000) is 0x20000000, and BREW(0, -1) is 0x3FFFFFF7 |
| Semantics.Smelt | mars/mips/instructions/customlangs/MCraftLanguage.java:429-433 | SMELT's result is at most 255; 0..255 is kept, negatives give 0, above 255 gives 255 |
| Semantics.SmeltBoundaries | mars/mips/instructions/customlangs/MCraftLanguage.java:429-433 | -1 gives 0, 255 stays, 256 gives 255, and SMELT is idempotent |
| Semantics.HotbarSlot | mars/mips/instructions/customlangs/MCraftLanguage.java:449-450 | the HOTBAR slot is in [0, 7] and congruent to the immediate modulo 8 |
| Semantics.HotbarMinus100 | mars/mips/instructions/customlangs/MCraftLanguage.java:443-451 | `HOTBAR -100` (field 0xFF9C) selects slot 4 |
| Semantics.MobFlag | mars/mips/instructions/customlangs/MCraftLanguage.java:570-571 | IFMOB writes 0 or 1, and 1 exactly when the WORLD word is negative |
| Semantics.RunSprintEndsAtZero | mars/mips/instructions/customlangs/MCraftLanguage.java:541-546 | a re-executed SPRINT that falls through leaves its register at 0 |
| Semantics.SprintFromThree | mars/mips/instructions/customlangs/MCraftLanguage.java:541-546 | seeded with 3, SPRINT branches exactly twice and falls through at 0 on the third execution |
| Encoding.Opcode | mars/mips/instructions/customlangs/MCraftLanguage.java:44-558 | each template's opcode is a 6-bit value |
| Encoding.Funct | mars/mips/instructions/customlangs/MCraftLanguage.java:44-422 | each opcode-0 template's funct is a 6-bit value |
| Encoding.FixedMask | mars/mips/instructions/customlangs/MCraftLanguage.java:44-558 | every template fixes the opcode bits, and the opcode-0 ones fix the funct bits |
| Encoding.LookupFindsEach | mars/mips/instructions/customlangs/MCraftLanguage.java:44-558 | looking up each template's own opcode/funct key finds that template |
| Encoding.KeysDistinct | mars/mips/instructions/customlangs/MCraftLanguage.java:44-558 | the 16 opcodes and the 9 opcode-0 functs are pairwise distinct |
| Encoding.OpcodeZeroIsRegister | mars/mips/instructions/customlangs/MCraftLanguage.java:44-422 | exactly the register-register templates have opcode 0 |
| Encoding.MatchesKey | mars/mips/instructions/customlangs/MCraftLanguage.java:44-558 | a word matching a template carries its opcode, and under opcode 0 its funct |
| Encoding.TemplatesExclusive | mars/mips/instructions/customlangs/MCraftLanguage.java:44-558 | at most one template matches any word |
| Encoding.Operands | mars/mips/instructions/customlangs/MCraftLanguage.java:44-558 | the statement extracted from a word carries the template's own mnemonic |
| Encoding.DecodeIsOperands | mars/mips/instructions/customlangs/MCraftLanguage.java:44-558 | a decoded statement holds the operands its own template extracts |
| Encoding.DecodeIffMatches | mars/mips/instructions/customlangs/MCraftLanguage.java:44-558 | a word decodes to a statement of m exactly when it matches m's template |
| Encoding.DecodeEncode | mars/mips/instructions/customlangs/MCraftLanguage.java:44-558 | decoding the encoding of any well-formed statement gives the statement back |
| Encoding.EncodeDecode | mars/mips/instructions/customlangs/MCraftLanguage.java:44-558 | every decoded statement is well-formed, and encoding it gives back the word |
| Simulator.WriteReg | mars/mips/instructions/customlangs/MCraftLanguage.java:52 | updateRegister changes register r alone, and register 0 not at all |
| Simulator.AddWraps | mars/mips/instructions/customlangs/MCraftLanguage.java:49-52 | with rs the largest int and rt 1, ADD leaves the smallest int in rd, below rs as a signed value: it wraps with no trap |
| Simulator.Load | mars/mips/instructions/customlangs/MCraftLanguage.java:217 | a word never written reads as 0 |
| Simulator.LoadAfterStore | mars/mips/instructions/customlangs/MCraftLanguage.java:242 | a store is seen by a load of the same address and by no other address |
| Simulator.RegionStoreThenLoad | mars/mips/instructions/customlangs/MCraftLanguage.java:357-362 | PLACE then MINE, or INVST then INVLD, at the same index reads the stored word |
| Simulator.PlaceSeenByInventory | mars/mips/instructions/customlangs/MCraftLanguage.java:22-23 | PLACE at WORLD index i+0x4000 is seen by INVLD at slot i |
| Simulator.Machine.SetReg | mars/mips/instructions/customlangs/MCraftLanguage.java:52 | the register file becomes WriteReg of the old one |
| Simulator.Machine.Add | mars/mips/instructions/customlangs/MCraftLanguage.java:47-52 | only rd changes, to rs + rt wrapped; pc and memory are untouched |
| Simulator.Machine.Sub | mars/mips/instructions/customlangs/MCraftLanguage.java:66-71 | only rd changes, to rs - rt wrapped |
| Simulator.Machine.And | mars/mips/instructions/customlangs/MCraftLanguage.java:85-88 | only rd changes, to rs & rt |
| Simulator.Machine.Or | mars/mips/instructions/customlangs/MCraftLanguage.java:102-105 | only rd changes, to rs \| rt |
| Simulator.Machine.Xor | mars/mips/instructions/customlangs/MCraftLanguage.java:119-122 | only rd changes, to rs ^ rt |
| Simulator.Machine.Slt | mars/mips/instructions/customlangs/MCraftLanguage.java:136-140 | only rd changes, to SetLessThan(rs, rt) |
| Simulator.Machine.Addi | mars/mips/instructions/customlangs/MCraftLanguage.java:154-159 | only rt changes, to rs + imm wrapped |
| Simulator.Machine.Andi | mars/mips/instructions/customlangs/MCraftLanguage.java:173-178 | only rt changes, to AndImmediate(rs, imm) |
| Simulator.Machine.Ori | mars/mips/instructions/customlangs/MCraftLanguage.java:192-197 | only rt changes, to OrImmediate(rs, imm) |
| Simulator.Machine.LoadInto | mars/mips/instructions/customlangs/MCraftLanguage.java:216-221 | an accessible load writes only the destination; a fault writes nothing and reports the address |
| Simulator.Machine.StoreAt | mars/mips/instructions/customlangs/MCraftLanguage.java:241-245 | an accessible store writes exactly one word; a fault writes nothing |
| Simulator.Machine.Lw | mars/mips/instructions/customlangs/MCraftLanguage.java:211-221 | rt := MEM[rs + imm], or a fault with the registers unchanged |
| Simulator.Machine.Sw | mars/mips/instructions/customlangs/MCraftLanguage.java:235-245 | MEM[rs + imm] := rt, or a fault with memory unchanged; registers and pc are untouched |
| Simulator.Machine.Beq | mars/mips/instructions/customlangs/MCraftLanguage.java:259-265 | pc moves to BranchTarget exactly when rs == rt, and is otherwise untouched |
| Simulator.Machine.Bne | mars/mips/instructions/customlangs/MCraftLanguage.java:279-285 | pc moves to BranchTarget exactly when rs != rt, and is otherwise untouched |
| Simulator.Machine.Jump | mars/mips/instructions/customlangs/MCraftLanguage.java:299-303 | pc := JumpTarget(pc, target); nothing else changes |
| Simulator.Machine.Mine | mars/mips/instructions/customlangs/MCraftLanguage.java:325-338 | rt := the word at WorldAddress(rs + imm), or a fault with the registers unchanged |
| Simulator.Machine.Place | mars/mips/instructions/customlangs/MCraftLanguage.java:352-365 | the word at WorldAddress(rs + imm) := rt, or a fault with memory unchanged |
| Simulator.Machine.Craft | mars/mips/instructions/customlangs/MCraftLanguage.java:379-388 | only rd changes, to Craft(rs, rt) |
| Simulator.Machine.Brew | mars/mips/instructions/customlangs/MCraftLanguage.java:402-411 | only rd changes, to Brew(rs, rt) |
| Simulator.Machine.Smelt | mars/mips/instructions/customlangs/MCraftLanguage.java:425-435 | only rd changes, to Smelt(rs) |
| Simulator.Machine.Hotbar | mars/mips/instructions/customlangs/MCraftLanguage.java:449-451 | only $k0 (register 26) changes, to HotbarSlot(imm); pc and memory are untouched |
| Simulator.Machine.Invld | mars/mips/instructions/customlangs/MCraftLanguage.java:465-478 | rt := the word at InventoryAddress(rs + imm), or a fault with the registers unchanged |
| Simulator.Machine.Invst | mars/mips/instructions/customlangs/MCraftLanguage.java:492-505 | the word at InventoryAddress(rs + imm) := rt, or a fault with memory unchanged |
| Simulator.Machine.Chat | mars/mips/instructions/customlangs/MCraftLanguage.java:519-523 | only $a0 := rs, then $v0 := 1; pc and memory are untouched |
| Simulator.Machine.Sprint | mars/mips/instructions/customlangs/MCraftLanguage.java:541-546 | rs := rs - 1 wrapped, and pc branches exactly when that new value is nonzero |
| Simulator.Machine.Ifmob | mars/mips/instructions/customlangs/MCraftLanguage.java:561-574 | rt := MobFlag(the WORLD word), or a fault with the registers unchanged |
| Simulator.Machine.Execute | mars/mips/instructions/customlangs/MCraftLanguage.java:44-577 | a handler faults or completes; a fault changes nothing; only SW, PLACE and INVST write memory; only BEQ, BNE, J and SPRINT write the pc; a SPRINT moves the pc by its label operand (SprintOffset) exactly when its decremented register is nonzero |
| Simulator.Machine.ExecuteBranch | mars/mips/instructions/customlangs/MCraftLanguage.java:259-285 | a decoded BEQ (BNE) moves the pc to BranchTarget of its third operand exactly when its two registers are equal (differ) |
| Simulator.Machine.ExecuteSprint | mars/mips/instructions/customlangs/MCraftLanguage.java:537-546 | a decoded SPRINT decrements its register and branches by its label operand exactly when the new value is nonzero |
| Simulator.Machine.Step | mars/mips/instructions/customlangs/MCraftLanguage.java:44-577 | an undecodable word changes nothing; otherwise pc advances by 4 before the handler, stays there unless the instruction is BEQ, BNE, J or SPRINT, memory changes only for SW, PLACE and INVST, and a fault leaves only the advance |
| Simulator.SprintLabelIgnored | mars/mips/instructions/customlangs/MCraftLanguage.java:534-539 | for every SPRINT word, the displacement the handler reads is 0, while the label operand holds the displacement field |
| Simulator.SprintSelfLoopAsWritten | mars/mips/instructions/customlangs/MCraftLanguage.java:534-545 | `L: SPRINT $t0, L` at 100 decodes to label -1; as written a taken branch lands on 104, where the label is 100 |
| Simulator.SprintOffsetRoundTrip | mars/mips/instructions/customlangs/MCraftLanguage.java:534 | the corrected displacement of an assembled SPRINT is the label displacement it was assembled with |

## Left out

- The rules of the MARS memory about which addresses are mapped are not
  part of this model. They become the fixed set `Machine.mapped`. Any
  access outside it, or unaligned, faults.
- The exception wrapping (`AddressErrorException` into
  `ProcessingException`) is left out. It becomes the `AddressError`
  status.
- `processBranch` and `processJump` are not part of this model. Only their
  effect on the pc is modelled, and delayed branching is not.
- The printing that CHAT prepares through $a0 and $v0 is left out. The
  print-integer service runs elsewhere in the simulator.
- The simulator's fetch loop is left out, so `Step` takes the fetched word
  as a parameter. The GUI and threading are left out too.
- The host's decoder is not part of this model. `Encoding.Decode` models
  template matching on the fixed bits, plus the operand extraction that
  the handlers assume.
- Also left out: the assembler (mnemonic example strings and operand
  parsing), `getName`, `getDescription`, and the `instructionList`
  registration.
- Simulator.Machine.Execute: its contract states the fault rule and the
  frames, not each instruction's result. The per-instruction methods it
  calls state those results, and ExecuteBranch and ExecuteSprint state the
  control results of a decoded statement.
- Simulator.Machine.Step: for a step that completes, it states the pc
  advance and the memory frame. It does not state the handler's register
  results, the pc set by a taken BEQ, BNE, J or SPRINT, or the word written
  by SW, PLACE or INVST.
- Semantics.SprintFromThree: the branch count is proved for the seed 3.
  The general statement for any seed is left out; `RunSprintEndsAtZero`
  proves the final value for every seed.

Behaviour of the code worth stating plainly:

- A taken branch is relative to the already advanced pc. At 100 with
  displacement 2 it lands on 112.
- A negative WORLD index is not refused: index -1 is address 0x1000FFFC.
- CHAT prints nothing; it only sets $a0 and $v0.

## Findings

| source | as written | input that shows it | evidently intended | confidence | as-written member | corrected member |
|---|---|---|---|---|---|---|
| mars/mips/instructions/customlangs/MCraftLanguage.java:534-539 | SPRINT's handler takes its branch displacement from the third operand, but its template `111010 fffff 00000 ssssssssssssssss` puts the label in the second. The third slot is never filled and reads as 0, so a taken SPRINT always continues with the next instruction. | `L: SPRINT $t0, L` at address 100, i.e. word 0xE900FFFF with $t0 = 3. As written it goes on at 104, where the label is 100. | the displacement is the label operand, as in the template and the mnemonic `SPRINT $t1,label` | not executed | Simulator.SprintOffsetAsWritten, Simulator.SprintLabelIgnored, Simulator.SprintSelfLoopAsWritten | Simulator.SprintOffset, Simulator.SprintOffsetRoundTrip (used by Simulator.Machine.Execute) |
