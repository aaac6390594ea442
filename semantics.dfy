/**
 * The pure value computations inside the M-CRAFT instruction handlers:
 * everything a handler computes from register values and operands before
 * it writes a register, a memory word or the program counter.
 */
module Semantics {
  import opened Word32

  /** Base address of the WORLD region (MINE, PLACE, IFMOB). */
  const WORLD_BASE: Word := 0x1001_0000
  /** Base address of the INVENTORY region (INVLD, INVST). */
  const INVENTORY_BASE: Word := 0x1002_0000

  /**
   * `base + index * 4` in Java int arithmetic: the address of word `index`
   * of a region, and also the host's branch rule, which adds a displacement
   * counted in instructions to the already advanced program counter.
   * The result keeps the alignment of `base`.
   */
  function ScaledOffset(base: Word, index: Word): (r: Word)
    ensures r & 3 == base & 3
  {
    base + index * 4
  }

  /** Address of WORLD word `index`, where `index` is the register value plus the offset. */
  function WorldAddress(index: Word): (r: Word)
    ensures r & 3 == 0
  {
    ScaledOffset(WORLD_BASE, index)
  }

  /** Address of INVENTORY slot `index`. */
  function InventoryAddress(index: Word): (r: Word)
    ensures r & 3 == 0
  {
    ScaledOffset(INVENTORY_BASE, index)
  }

  /**
   * Nothing keeps the two regions apart: WORLD index `i + 0x4000` is
   * INVENTORY slot `i`, so WORLD index 16384 is INVENTORY slot 0.
   */
  lemma WorldOverlapsInventory(i: Word)
    ensures WorldAddress(i + 0x4000) == InventoryAddress(i)
  {
    assert WorldAddress(i + 0x4000) == WORLD_BASE + (i + 0x4000) * 4;
  }

  /** Nor is a negative index refused: WORLD index -1 is the word just below WORLD_BASE. */
  lemma WorldIndexMinusOne()
    ensures WorldAddress(0xFFFF_FFFF) == 0x1000_FFFC
  {
    assert WorldAddress(0xFFFF_FFFF) == WORLD_BASE + 0xFFFF_FFFF * 4;
  }

  /** The host's branch: the new pc is the next sequential pc plus `offset` instructions. */
  function BranchTarget(pcNext: Word, offset: Word): (r: Word)
    ensures r & 3 == pcNext & 3
    ensures offset == 0 ==> r == pcNext
  {
    ScaledOffset(pcNext, offset)
  }

  /**
   * A branch is relative to the instruction after it: a taken branch at 100
   * with displacement 2 lands on 112, and displacement -1 lands on the
   * branch itself.
   */
  lemma BranchFromNextInstruction()
    ensures BranchTarget(100 + 4, 2) == 112
    ensures BranchTarget(100 + 4, 0xFFFF_FFFF) == 100
  {
    assert BranchTarget(104, 2) == 104 + 2 * 4;
    assert BranchTarget(104, 0xFFFF_FFFF) == 104 + 0xFFFF_FFFF * 4;
  }

  /**
   * J: `(pc & 0xF0000000) | (target << 2)`.  The low two bits are zero, bits
   * 27..2 are the target field, and for a 26-bit target the top four bits
   * are those of the (already advanced) pc.
   */
  function JumpTarget(pc: Word, target: Word): (r: Word)
    ensures r & 3 == 0
    ensures target < 0x400_0000 ==> r & 0xF000_0000 == pc & 0xF000_0000
  {
    (pc & 0xF000_0000) | (target << 2)
  }

  /** Bits 27..2 of a jump's destination are the 26-bit target field, whatever the pc. */
  lemma JumpTargetField(pc: Word, target: Word)
    ensures (JumpTarget(pc, target) >> 2) & 0x3FF_FFFF == target & 0x3FF_FFFF
  {
    ShiftRightOr(pc & 0xF000_0000, target << 2);
    ShiftLeftRight(target);
    assert ((pc & 0xF000_0000) >> 2) & 0x3FF_FFFF == 0;
  }

  /** SLT: 1 when `a < b` as Java ints, else 0. */
  function SetLessThan(a: Word, b: Word): (r: Word)
    ensures r == 0 || r == 1
    ensures r == 1 <==> (a ^ 0x8000_0000) < (b ^ 0x8000_0000)
  {
    SignedLessBiased(a, b);
    if SignedLess(a, b) then 1 else 0
  }

  /**
   * ANDI: the immediate is masked to 16 bits, so the upper half of the
   * result is zero and the lower half is the AND of the two lower halves.
   */
  function AndImmediate(x: Word, imm: Word): (r: Word)
    ensures r >> 16 == 0
    ensures r == (x & imm) & 0xFFFF
  {
    x & (imm & 0xFFFF)
  }

  /**
   * ORI: the immediate is masked to 16 bits, so the upper half of `x` passes
   * through unchanged (even for a negative immediate) and only the lower
   * half is ORed.
   */
  function OrImmediate(x: Word, imm: Word): (r: Word)
    ensures r >> 16 == x >> 16
    ensures r & 0xFFFF == (x & 0xFFFF) | (imm & 0xFFFF)
  {
    x | (imm & 0xFFFF)
  }

  /** CRAFT: pack the low halves of `a` and `b` into one word, `a` on top. */
  function Craft(a: Word, b: Word): (r: Word)
    ensures r >> 16 == a & 0xFFFF
    ensures r & 0xFFFF == b & 0xFFFF
  {
    ((a & 0xFFFF) << 16) | (b & 0xFFFF)
  }

  /** Every word is the CRAFT of its own two halves. */
  lemma CraftOfHalves(w: Word)
    ensures Craft(w >> 16, w) == w
  {
  }

  /** Unpacking a CRAFT result recovers both low halves, so CRAFT loses nothing else. */
  lemma CraftInjective(a: Word, b: Word, c: Word, d: Word)
    requires Craft(a, b) == Craft(c, d)
    ensures a & 0xFFFF == c & 0xFFFF && b & 0xFFFF == d & 0xFFFF
  {
  }

  /**
   * BREW: `(a ^ (b << 3)) + (b >>> 2)` with a logical shift and a wrapping
   * add.  The shifted-in zeros of `b << 3` leave the low three bits to the
   * sum of `a` and the shifted `b`.
   */
  function Brew(a: Word, b: Word): (r: Word)
    ensures r & 7 == (a + (b >> 2)) & 7
  {
    (a ^ (b << 3)) + (b >> 2)
  }

  /** BREW with a zero second operand gives back the first. */
  lemma BrewZero(a: Word)
    ensures Brew(a, 0) == a
  {
  }

  /**
   * The shift in BREW is logical: with the sign bit alone set in `b`, the
   * shifted term is 0x20000000, where an arithmetic shift would have given
   * 0xE0000000; and BREW of 0 and -1 is the positive 0x3FFFFFF7 (-8 plus
   * 0x3FFFFFFF), where an arithmetic shift would have given -9.
   */
  lemma BrewShiftIsLogical()
    ensures Brew(0, 0x8000_0000) == 0x2000_0000
    ensures Brew(0, 0xFFFF_FFFF) == 0x3FFF_FFF7
  {
  }

  /**
   * SMELT: clamp the Java int `v` into [0, 255].  Negative words give 0,
   * words from 0 to 255 are kept, and the rest give 255.
   */
  function Smelt(v: Word): (r: Word)
    ensures r <= 255
    ensures v <= 255 ==> r == v
    ensures Neg(v) ==> r == 0
    ensures !Neg(v) && v > 255 ==> r == 255
  {
    if SignedLess(v, 0) then 0 else if SignedLess(255, v) then 255 else v
  }

  /** The boundary cases of SMELT: -1 gives 0, 255 stays, 256 gives 255; and it is idempotent. */
  lemma SmeltBoundaries(v: Word)
    ensures Smelt(0xFFFF_FFFF) == 0
    ensures Smelt(255) == 255
    ensures Smelt(256) == 255
    ensures Smelt(Smelt(v)) == Smelt(v)
  {
  }

  /**
   * HOTBAR: `imm & 7`, the slot in [0, 7] congruent to `imm` modulo 8,
   * whatever the immediate's sign or size.
   */
  function HotbarSlot(imm: Word): (r: Word)
    ensures r < 8
    ensures (imm - r) & 7 == 0
  {
    imm & 7
  }

  /** HOTBAR -100 (the immediate 0xFF9C sign-extended) selects slot 4. */
  lemma HotbarMinus100()
    ensures SignExtend16(0xFF9C) == 0 - 100
    ensures HotbarSlot(SignExtend16(0xFF9C)) == 4
  {
  }

  /** IFMOB: 1 when the WORLD word is negative as a Java int, else 0. */
  function MobFlag(block: Word): (r: Word)
    ensures r == 0 || r == 1
    ensures r == 1 <==> block >> 31 == 1
  {
    if SignedLess(block, 0) then 1 else 0
  }

  /** SPRINT first writes `rs - 1` back ... */
  function SprintDecrement(v: Word): Word {
    v - 1
  }

  /** ... then branches when that new value is not zero. */
  predicate SprintBranches(v: Word) {
    SprintDecrement(v) != 0
  }

  /**
   * The outcome of re-executing a SPRINT whose label is itself (or a loop
   * body that does not write its register), for at most `fuel` executions:
   * the number of branches taken, the final register value, and whether an
   * execution fell through.
   */
  datatype SprintRun = SprintRun(branches: Word, final: Word, fellThrough: bool)

  function RunSprint(v: Word, fuel: nat): SprintRun
    decreases fuel
  {
    if fuel == 0 then SprintRun(0, v, false)
    else if SprintBranches(v) then
      var rest := RunSprint(SprintDecrement(v), fuel - 1);
      rest.(branches := rest.branches + 1)
    else SprintRun(0, SprintDecrement(v), true)
  }

  /**
   * A run that falls through ends with the register at zero: the execution
   * that does not branch is exactly the one whose decrement reaches zero.
   */
  lemma {:induction false} RunSprintEndsAtZero(v: Word, fuel: nat)
    decreases fuel
    ensures RunSprint(v, fuel).fellThrough ==> RunSprint(v, fuel).final == 0
  {
    if fuel > 0 && SprintBranches(v) {
      RunSprintEndsAtZero(SprintDecrement(v), fuel - 1);
    }
  }

  /**
   * Seeded with 3, the loop branches on 3 -> 2 and 2 -> 1 and falls through
   * on 1 -> 0: exactly two branches, ending at 0, and not before the third
   * execution.
   */
  lemma SprintFromThree()
    ensures RunSprint(3, 3) == SprintRun(2, 0, true)
    ensures !RunSprint(3, 2).fellThrough
  {
    assert SprintBranches(3) && SprintBranches(2) && !SprintBranches(1);
  }
}
