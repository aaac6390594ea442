/**
 * The M-CRAFT instruction handlers as state transitions of one machine: the
 * 32-entry register file, the program counter and the word memory.
 *
 * Host conventions the handlers rely on:
 *  - a handler sees the program counter already advanced past its own
 *    instruction (Step does that before Execute);
 *  - a taken branch adds its displacement, counted in instructions, to that
 *    program counter, and a jump replaces it;
 *  - a write to register 0 is ignored;
 *  - a memory access the host refuses (an unaligned or unmapped address)
 *    aborts the handler before it writes anything.
 */
module Simulator {
  import opened Word32
  import Semantics
  import opened Encoding

  /** A register number. */
  type Reg = r: nat | r < 32

  /** $v0, $a0 and $k0: the registers CHAT and HOTBAR write by number. */
  const V0: Reg := 2
  const A0: Reg := 4
  const K0: Reg := 26

  /**
   * The register file after writing `v` to register `r`: only register `r`
   * changes, and register 0 does not change at all.
   */
  function WriteReg(regs: seq<Word>, r: Reg, v: Word): (out: seq<Word>)
    requires |regs| == 32
    ensures |out| == 32
    ensures out[r] == (if r == 0 then regs[0] else v)
    ensures forall i :: 0 <= i < 32 && i != r ==> out[i] == regs[i]
  {
    if r == 0 then regs else regs[r := v]
  }

  /** A memory key: the byte address of a word. */
  datatype Address = At(bits: Word)

  /** The memory: the words written so far, by address. */
  type Memory = map<Address, Word>

  /**
   * ADD wraps with no trap: when rs holds the largest int and rt holds 1, the
   * register file Machine.Add produces has the smallest int in rd, which is
   * below rs as a signed value.
   */
  lemma AddWraps(regs: seq<Word>, rd: Reg, rs: Reg, rt: Reg)
    requires |regs| == 32 && rd != 0
    requires regs[rs] == 0x7FFF_FFFF && regs[rt] == 1
    ensures WriteReg(regs, rd, regs[rs] + regs[rt])[rd] == 0x8000_0000
    ensures SignedLess(WriteReg(regs, rd, regs[rs] + regs[rt])[rd], regs[rs])
  {
  }

  /** The word at `addr`: a word never written reads as 0. */
  function Load(mem: Memory, addr: Word): (v: Word)
    ensures At(addr) !in mem ==> v == 0
  {
    if At(addr) in mem then mem[At(addr)] else 0
  }

  /** The memory after the host's setWord(addr, v). */
  function Store(mem: Memory, addr: Word, v: Word): Memory {
    mem[At(addr) := v]
  }

  /** A store is seen by a load of the same address and by no other. */
  lemma LoadAfterStore(mem: Memory, addr: Word, v: Word, other: Word)
    ensures Load(Store(mem, addr, v), addr) == v
    ensures other != addr ==> Load(Store(mem, addr, v), other) == Load(mem, other)
  {
  }

  /**
   * PLACE then MINE at the same WORLD index reads the placed word back, and
   * INVST then INVLD at the same slot likewise.
   */
  lemma RegionStoreThenLoad(mem: Memory, index: Word, v: Word)
    ensures Load(Store(mem, Semantics.WorldAddress(index), v), Semantics.WorldAddress(index)) == v
    ensures Load(Store(mem, Semantics.InventoryAddress(index), v), Semantics.InventoryAddress(index)) == v
  {
  }

  /** Since the regions are unchecked, PLACE at WORLD index `i + 0x4000` is seen by INVLD at slot `i`. */
  lemma PlaceSeenByInventory(mem: Memory, i: Word, v: Word)
    ensures Load(Store(mem, Semantics.WorldAddress(i + 0x4000), v), Semantics.InventoryAddress(i)) == v
  {
    Semantics.WorldOverlapsInventory(i);
  }

  /** What a step came to. */
  datatype Status = Done | AddressError(addr: Word) | DecodeMiss(word: Word)

  class Machine {
    /** The register file. */
    const regs: array<Word>
    /** The program counter. */
    var pc: Word
    /** The words written so far, by address. */
    var mem: Memory
    /** The addresses the host's memory accepts; its segment rules are not modelled. */
    const mapped: set<Word>

    predicate Valid()
      reads this, regs
    {
      regs.Length == 32 && regs[0] == 0 && pc & 3 == 0
    }

    /** The host accepts a word access at an aligned, mapped address. */
    predicate Accessible(addr: Word) {
      addr & 3 == 0 && addr in mapped
    }

    constructor (entry: Word, mapped: set<Word>)
      requires entry & 3 == 0
      ensures Valid() && fresh(regs)
      ensures regs[..] == seq(32, _ => 0) && pc == entry && mem == map[] && this.mapped == mapped
    {
      regs := new Word[32](_ => 0);
      pc := entry;
      mem := map[];
      this.mapped := mapped;
    }

    /** RegisterFile.updateRegister. */
    method SetReg(r: Reg, v: Word)
      requires Valid()
      modifies regs
      ensures Valid()
      ensures regs[..] == WriteReg(old(regs[..]), r, v)
    {
      if r != 0 {
        regs[r] := v;
      }
    }

    /** ADD: rd := rs + rt, wrapping, with no overflow trap. */
    method Add(rd: Reg, rs: Reg, rt: Reg)
      requires Valid()
      modifies regs
      ensures Valid()
      ensures regs[..] == WriteReg(old(regs[..]), rd, old(regs[rs]) + old(regs[rt]))
    {
      SetReg(rd, regs[rs] + regs[rt]);
    }

    /** SUB: rd := rs - rt, wrapping, with no overflow trap. */
    method Sub(rd: Reg, rs: Reg, rt: Reg)
      requires Valid()
      modifies regs
      ensures Valid()
      ensures regs[..] == WriteReg(old(regs[..]), rd, old(regs[rs]) - old(regs[rt]))
    {
      SetReg(rd, regs[rs] - regs[rt]);
    }

    /** AND: rd := rs & rt. */
    method And(rd: Reg, rs: Reg, rt: Reg)
      requires Valid()
      modifies regs
      ensures Valid()
      ensures regs[..] == WriteReg(old(regs[..]), rd, old(regs[rs]) & old(regs[rt]))
    {
      SetReg(rd, regs[rs] & regs[rt]);
    }

    /** OR: rd := rs | rt. */
    method Or(rd: Reg, rs: Reg, rt: Reg)
      requires Valid()
      modifies regs
      ensures Valid()
      ensures regs[..] == WriteReg(old(regs[..]), rd, old(regs[rs]) | old(regs[rt]))
    {
      SetReg(rd, regs[rs] | regs[rt]);
    }

    /** XOR: rd := rs ^ rt. */
    method Xor(rd: Reg, rs: Reg, rt: Reg)
      requires Valid()
      modifies regs
      ensures Valid()
      ensures regs[..] == WriteReg(old(regs[..]), rd, old(regs[rs]) ^ old(regs[rt]))
    {
      SetReg(rd, regs[rs] ^ regs[rt]);
    }

    /** SLT: rd := 1 when rs < rt as signed ints, else 0. */
    method Slt(rd: Reg, rs: Reg, rt: Reg)
      requires Valid()
      modifies regs
      ensures Valid()
      ensures regs[..] == WriteReg(old(regs[..]), rd, Semantics.SetLessThan(old(regs[rs]), old(regs[rt])))
    {
      SetReg(rd, if SignedLess(regs[rs], regs[rt]) then 1 else 0);
    }

    /** ADDI: rt := rs + imm, the immediate already sign-extended. */
    method Addi(rt: Reg, rs: Reg, imm: Word)
      requires Valid()
      modifies regs
      ensures Valid()
      ensures regs[..] == WriteReg(old(regs[..]), rt, old(regs[rs]) + imm)
    {
      SetReg(rt, regs[rs] + imm);
    }

    /** ANDI: rt := rs & (imm & 0xFFFF). */
    method Andi(rt: Reg, rs: Reg, imm: Word)
      requires Valid()
      modifies regs
      ensures Valid()
      ensures regs[..] == WriteReg(old(regs[..]), rt, Semantics.AndImmediate(old(regs[rs]), imm))
    {
      SetReg(rt, regs[rs] & (imm & 0xFFFF));
    }

    /** ORI: rt := rs | (imm & 0xFFFF). */
    method Ori(rt: Reg, rs: Reg, imm: Word)
      requires Valid()
      modifies regs
      ensures Valid()
      ensures regs[..] == WriteReg(old(regs[..]), rt, Semantics.OrImmediate(old(regs[rs]), imm))
    {
      SetReg(rt, regs[rs] | (imm & 0xFFFF));
    }

    /** Loads the word at `addr` into `rt`, or faults with nothing written. */
    method LoadInto(rt: Reg, addr: Word, flag: bool) returns (s: Status)
      requires Valid()
      modifies regs
      ensures Valid()
      ensures Accessible(addr) ==> s == Done
      ensures Accessible(addr) && !flag ==> regs[..] == WriteReg(old(regs[..]), rt, Load(mem, addr))
      ensures Accessible(addr) && flag ==> regs[..] == WriteReg(old(regs[..]), rt, Semantics.MobFlag(Load(mem, addr)))
      ensures !Accessible(addr) ==> s == AddressError(addr) && regs[..] == old(regs[..])
    {
      if !Accessible(addr) {
        return AddressError(addr);
      }
      var v := Load(mem, addr);
      SetReg(rt, if flag then Semantics.MobFlag(v) else v);
      return Done;
    }

    /** Stores `v` at `addr`, or faults with nothing written. */
    method StoreAt(addr: Word, v: Word) returns (s: Status)
      requires Valid()
      modifies this`mem
      ensures Valid()
      ensures Accessible(addr) ==> s == Done && mem == Store(old(mem), addr, v)
      ensures !Accessible(addr) ==> s == AddressError(addr) && mem == old(mem)
    {
      if !Accessible(addr) {
        return AddressError(addr);
      }
      mem := Store(mem, addr, v);
      return Done;
    }

    /** LW: rt := the word at rs + imm. */
    method Lw(rt: Reg, rs: Reg, imm: Word) returns (s: Status)
      requires Valid()
      modifies regs
      ensures Valid()
      ensures var addr := old(regs[rs]) + imm;
        if Accessible(addr) then s == Done && regs[..] == WriteReg(old(regs[..]), rt, Load(mem, addr))
        else s == AddressError(addr) && regs[..] == old(regs[..])
    {
      s := LoadInto(rt, regs[rs] + imm, false);
    }

    /** SW: the word at rs + imm := rt. */
    method Sw(rt: Reg, rs: Reg, imm: Word) returns (s: Status)
      requires Valid()
      modifies this`mem
      ensures Valid()
      ensures var addr := old(regs[rs]) + imm;
        if Accessible(addr) then s == Done && mem == Store(old(mem), addr, old(regs[rt]))
        else s == AddressError(addr) && mem == old(mem)
    {
      s := StoreAt(regs[rs] + imm, regs[rt]);
    }

    /** BEQ: branch when rs == rt. */
    method Beq(rs: Reg, rt: Reg, offset: Word)
      requires Valid()
      modifies this`pc
      ensures Valid()
      ensures pc == if regs[rs] == regs[rt] then Semantics.BranchTarget(old(pc), offset) else old(pc)
    {
      if regs[rs] == regs[rt] {
        pc := Semantics.BranchTarget(pc, offset);
      }
    }

    /** BNE: branch when rs != rt. */
    method Bne(rs: Reg, rt: Reg, offset: Word)
      requires Valid()
      modifies this`pc
      ensures Valid()
      ensures pc == if regs[rs] != regs[rt] then Semantics.BranchTarget(old(pc), offset) else old(pc)
    {
      if regs[rs] != regs[rt] {
        pc := Semantics.BranchTarget(pc, offset);
      }
    }

    /** J: jump within the current 256 MB region. */
    method Jump(target: Word)
      requires Valid()
      modifies this`pc
      ensures Valid()
      ensures pc == Semantics.JumpTarget(old(pc), target)
    {
      pc := Semantics.JumpTarget(pc, target);
    }

    /** MINE: rt := WORLD[rs + imm]. */
    method Mine(rt: Reg, rs: Reg, imm: Word) returns (s: Status)
      requires Valid()
      modifies regs
      ensures Valid()
      ensures var addr := Semantics.WorldAddress(old(regs[rs]) + imm);
        if Accessible(addr) then s == Done && regs[..] == WriteReg(old(regs[..]), rt, Load(mem, addr))
        else s == AddressError(addr) && regs[..] == old(regs[..])
    {
      s := LoadInto(rt, Semantics.WorldAddress(regs[rs] + imm), false);
    }

    /** PLACE: WORLD[rs + imm] := rt. */
    method Place(rt: Reg, rs: Reg, imm: Word) returns (s: Status)
      requires Valid()
      modifies this`mem
      ensures Valid()
      ensures var addr := Semantics.WorldAddress(old(regs[rs]) + imm);
        if Accessible(addr) then s == Done && mem == Store(old(mem), addr, old(regs[rt]))
        else s == AddressError(addr) && mem == old(mem)
    {
      s := StoreAt(Semantics.WorldAddress(regs[rs] + imm), regs[rt]);
    }

    /** CRAFT: rd := the low halves of rs and rt packed, rs on top. */
    method Craft(rd: Reg, rs: Reg, rt: Reg)
      requires Valid()
      modifies regs
      ensures Valid()
      ensures regs[..] == WriteReg(old(regs[..]), rd, Semantics.Craft(old(regs[rs]), old(regs[rt])))
    {
      SetReg(rd, ((regs[rs] & 0xFFFF) << 16) | (regs[rt] & 0xFFFF));
    }

    /** BREW: rd := (rs ^ (rt << 3)) + (rt >>> 2). */
    method Brew(rd: Reg, rs: Reg, rt: Reg)
      requires Valid()
      modifies regs
      ensures Valid()
      ensures regs[..] == WriteReg(old(regs[..]), rd, Semantics.Brew(old(regs[rs]), old(regs[rt])))
    {
      var a, b := regs[rs], regs[rt];
      SetReg(rd, Semantics.Brew(a, b));
    }

    /** SMELT: rd := rs clamped into [0, 255]. */
    method Smelt(rd: Reg, rs: Reg)
      requires Valid()
      modifies regs
      ensures Valid()
      ensures regs[..] == WriteReg(old(regs[..]), rd, Semantics.Smelt(old(regs[rs])))
    {
      var v := regs[rs];
      var r;
      if SignedLess(v, 0) {
        r := 0;
      } else if SignedLess(255, v) {
        r := 255;
      } else {
        r := v;
      }
      SetReg(rd, r);
    }

    /** HOTBAR: $k0 := imm & 7. */
    method Hotbar(imm: Word)
      requires Valid()
      modifies regs
      ensures Valid()
      ensures regs[..] == WriteReg(old(regs[..]), K0, Semantics.HotbarSlot(imm))
    {
      SetReg(K0, imm & 7);
    }

    /** INVLD: rt := INVENTORY[rs + imm]. */
    method Invld(rt: Reg, rs: Reg, imm: Word) returns (s: Status)
      requires Valid()
      modifies regs
      ensures Valid()
      ensures var addr := Semantics.InventoryAddress(old(regs[rs]) + imm);
        if Accessible(addr) then s == Done && regs[..] == WriteReg(old(regs[..]), rt, Load(mem, addr))
        else s == AddressError(addr) && regs[..] == old(regs[..])
    {
      s := LoadInto(rt, Semantics.InventoryAddress(regs[rs] + imm), false);
    }

    /** INVST: INVENTORY[rs + imm] := rt. */
    method Invst(rt: Reg, rs: Reg, imm: Word) returns (s: Status)
      requires Valid()
      modifies this`mem
      ensures Valid()
      ensures var addr := Semantics.InventoryAddress(old(regs[rs]) + imm);
        if Accessible(addr) then s == Done && mem == Store(old(mem), addr, old(regs[rt]))
        else s == AddressError(addr) && mem == old(mem)
    {
      s := StoreAt(Semantics.InventoryAddress(regs[rs] + imm), regs[rt]);
    }

    /** CHAT: prepare the print-integer call, $a0 := rs and then $v0 := 1. */
    method Chat(rs: Reg)
      requires Valid()
      modifies regs
      ensures Valid()
      ensures regs[..] == WriteReg(WriteReg(old(regs[..]), A0, old(regs[rs])), V0, 1)
    {
      var v := regs[rs];
      SetReg(A0, v);
      SetReg(V0, 1);
    }

    /**
     * SPRINT: rs := rs - 1, then branch when the new value is not zero.  The
     * branch test uses the computed value, so with rs = $zero (which ignores
     * the write) the value is -1 and the branch is always taken.
     */
    method Sprint(rs: Reg, offset: Word)
      requires Valid()
      modifies regs, this`pc
      ensures Valid()
      ensures regs[..] == WriteReg(old(regs[..]), rs, Semantics.SprintDecrement(old(regs[rs])))
      ensures pc == if Semantics.SprintBranches(old(regs[rs])) then Semantics.BranchTarget(old(pc), offset) else old(pc)
    {
      var v := regs[rs] - 1;
      SetReg(rs, v);
      if v != 0 {
        pc := Semantics.BranchTarget(pc, offset);
      }
    }

    /** IFMOB: rt := 1 when WORLD[rs + imm] is negative, else 0. */
    method Ifmob(rt: Reg, rs: Reg, imm: Word) returns (s: Status)
      requires Valid()
      modifies regs
      ensures Valid()
      ensures var addr := Semantics.WorldAddress(old(regs[rs]) + imm);
        if Accessible(addr) then s == Done && regs[..] == WriteReg(old(regs[..]), rt, Semantics.MobFlag(Load(mem, addr)))
        else s == AddressError(addr) && regs[..] == old(regs[..])
    {
      s := LoadInto(rt, Semantics.WorldAddress(regs[rs] + imm), true);
    }

    /**
     * Runs the handler of one decoded statement, the program counter already
     * advanced.  A fault leaves the machine as it was; only SW, PLACE and
     * INVST write memory, and only BEQ, BNE, J and SPRINT write the pc.
     * SPRINT runs with SprintOffset, its label operand, and not with the
     * unfilled third operand its handler reads (see SprintLabelIgnored);
     * ExecuteBranch, Jump and ExecuteSprint state the pc each control
     * instruction produces.
     */
    method Execute(st: Statement) returns (s: Status)
      requires Valid() && WellFormed(st)
      modifies this, regs
      ensures Valid()
      ensures s == Done || s.AddressError?
      ensures s.AddressError? ==> regs[..] == old(regs[..]) && pc == old(pc) && mem == old(mem)
      ensures !IsStore(st.m) ==> mem == old(mem)
      ensures !IsControl(st.m) ==> pc == old(pc)
      ensures st.m == SPRINT ==>
        pc == if Semantics.SprintBranches(old(regs[RegOf(st.op0)])) then Semantics.BranchTarget(old(pc), SprintOffset(st)) else old(pc)
    {
      match FormatOf(st.m)
      case RegRegReg =>
        ExecuteRegister(st);
        s := Done;
      case RegReg =>
        ExecuteRegister(st);
        s := Done;
      case RegRegImm =>
        s := ExecuteImmediate(st);
      case ImmOnly =>
        ExecuteFixedRegister(st);
        s := Done;
      case RegOnly =>
        ExecuteFixedRegister(st);
        s := Done;
      case Branch =>
        ExecuteBranch(st);
        s := Done;
      case Jump =>
        Jump(st.op0);
        s := Done;
      case RegLabel =>
        ExecuteSprint(st);
        s := Done;
    }

    /** The three-register templates: ADD, SUB, AND, OR, XOR, SLT, CRAFT, BREW and SMELT. */
    method ExecuteRegister(st: Statement)
      requires Valid() && WellFormed(st)
      requires FormatOf(st.m) == RegRegReg || FormatOf(st.m) == RegReg
      modifies regs
      ensures Valid()
    {
      match st.m
      case ADD => Add(RegOf(st.op0), RegOf(st.op1), RegOf(st.op2));
      case SUB => Sub(RegOf(st.op0), RegOf(st.op1), RegOf(st.op2));
      case AND => And(RegOf(st.op0), RegOf(st.op1), RegOf(st.op2));
      case OR => Or(RegOf(st.op0), RegOf(st.op1), RegOf(st.op2));
      case XOR => Xor(RegOf(st.op0), RegOf(st.op1), RegOf(st.op2));
      case SLT => Slt(RegOf(st.op0), RegOf(st.op1), RegOf(st.op2));
      case CRAFT => Craft(RegOf(st.op0), RegOf(st.op1), RegOf(st.op2));
      case BREW => Brew(RegOf(st.op0), RegOf(st.op1), RegOf(st.op2));
      case SMELT => Smelt(RegOf(st.op0), RegOf(st.op1));
    }

    /** The register-and-immediate templates: ADDI, ANDI, ORI and the eight memory accesses. */
    method ExecuteImmediate(st: Statement) returns (s: Status)
      requires Valid() && WellFormed(st) && FormatOf(st.m) == RegRegImm
      modifies regs, this`mem
      ensures Valid()
      ensures s == Done || s.AddressError?
      ensures s.AddressError? ==> regs[..] == old(regs[..]) && mem == old(mem)
      ensures !IsStore(st.m) ==> mem == old(mem)
    {
      s := Done;
      match st.m
      case ADDI => Addi(RegOf(st.op0), RegOf(st.op1), st.op2);
      case ANDI => Andi(RegOf(st.op0), RegOf(st.op1), st.op2);
      case ORI => Ori(RegOf(st.op0), RegOf(st.op1), st.op2);
      case LW => s := Lw(RegOf(st.op0), RegOf(st.op1), st.op2);
      case SW => s := Sw(RegOf(st.op0), RegOf(st.op1), st.op2);
      case MINE => s := Mine(RegOf(st.op0), RegOf(st.op1), st.op2);
      case PLACE => s := Place(RegOf(st.op0), RegOf(st.op1), st.op2);
      case INVLD => s := Invld(RegOf(st.op0), RegOf(st.op1), st.op2);
      case INVST => s := Invst(RegOf(st.op0), RegOf(st.op1), st.op2);
      case IFMOB => s := Ifmob(RegOf(st.op0), RegOf(st.op1), st.op2);
    }

    /** HOTBAR and CHAT, which write registers fixed by number. */
    method ExecuteFixedRegister(st: Statement)
      requires Valid() && WellFormed(st)
      requires FormatOf(st.m) == ImmOnly || FormatOf(st.m) == RegOnly
      modifies regs
      ensures Valid()
    {
      match st.m
      case HOTBAR => Hotbar(st.op0);
      case CHAT => Chat(RegOf(st.op0));
    }

    /** BEQ and BNE, which write only the pc. */
    method ExecuteBranch(st: Statement)
      requires Valid() && WellFormed(st) && FormatOf(st.m) == Branch
      modifies this`pc
      ensures Valid()
      ensures st.m == BEQ ==>
        pc == if regs[RegOf(st.op0)] == regs[RegOf(st.op1)] then Semantics.BranchTarget(old(pc), st.op2) else old(pc)
      ensures st.m == BNE ==>
        pc == if regs[RegOf(st.op0)] != regs[RegOf(st.op1)] then Semantics.BranchTarget(old(pc), st.op2) else old(pc)
    {
      match st.m
      case BEQ => Beq(RegOf(st.op0), RegOf(st.op1), st.op2);
      case BNE => Bne(RegOf(st.op0), RegOf(st.op1), st.op2);
    }

    /**
     * SPRINT, run with its label operand as the displacement: its register
     * counts down and the pc branches while the new value is not zero.
     */
    method ExecuteSprint(st: Statement)
      requires Valid() && WellFormed(st) && st.m == SPRINT
      modifies regs, this`pc
      ensures Valid()
      ensures regs[..] == WriteReg(old(regs[..]), RegOf(st.op0), Semantics.SprintDecrement(old(regs[RegOf(st.op0)])))
      ensures pc == if Semantics.SprintBranches(old(regs[RegOf(st.op0)])) then Semantics.BranchTarget(old(pc), SprintOffset(st)) else old(pc)
    {
      Sprint(RegOf(st.op0), SprintOffset(st));
    }

    /**
     * One simulator step on the fetched word `w`: a word no template matches
     * changes nothing; otherwise the pc advances past it and its handler runs.
     */
    method Step(w: Word) returns (s: Status)
      requires Valid()
      modifies this, regs
      ensures Valid()
      ensures Decode(w).None? ==> s == DecodeMiss(w) && regs[..] == old(regs[..]) && pc == old(pc) && mem == old(mem)
      ensures Decode(w).Some? ==> s == Done || s.AddressError?
      ensures s.AddressError? ==> regs[..] == old(regs[..]) && pc == old(pc) + 4 && mem == old(mem)
      ensures Decode(w).Some? && !IsControl(Decode(w).value.m) ==> pc == old(pc) + 4
      ensures Decode(w).Some? && !IsStore(Decode(w).value.m) ==> mem == old(mem)
    {
      match Decode(w)
      case None =>
        s := DecodeMiss(w);
      case Some(st) =>
        EncodeDecode(w);
        pc := pc + 4;
        s := Execute(st);
    }
  }

  /** A register operand of a well-formed statement as a register number. */
  function RegOf(x: Word): Reg
    requires x < 32
  {
    x as int
  }

  /** The instructions that write memory. */
  predicate IsStore(m: Mnemonic) {
    m == SW || m == PLACE || m == INVST
  }

  /** The instructions that may write the pc. */
  predicate IsControl(m: Mnemonic) {
    m == BEQ || m == BNE || m == J || m == SPRINT
  }

  /**
   * SPRINT's branch displacement as its handler reads it: the third operand.
   * SPRINT's template has only two operand fields, the label being the
   * second, so the third is never filled and reads as 0.
   */
  function SprintOffsetAsWritten(st: Statement): Word {
    st.op2
  }

  /** SPRINT's branch displacement as its template lays it out: the label operand. */
  function SprintOffset(st: Statement): Word {
    st.op1
  }

  /** What SPRINT's template extracts: the label as the second operand, nothing as the third. */
  lemma LabelOperands(w: Word)
    ensures Operands(SPRINT, w).op1 == SignExtend16(w) && Operands(SPRINT, w).op2 == 0
  {
  }

  /**
   * For every SPRINT word, the displacement as written is 0 whatever the
   * label, so a taken SPRINT falls through to the next instruction; the
   * label operand holds the word's sign-extended displacement field.
   */
  lemma SprintLabelIgnored(w: Word)
    ensures Decode(w).Some? && Decode(w).value.m == SPRINT ==>
      SprintOffsetAsWritten(Decode(w).value) == 0 &&
      SprintOffset(Decode(w).value) == SignExtend16(w)
  {
    if Decode(w).Some? && Decode(w).value.m == SPRINT {
      DecodeIsOperands(w);
      LabelOperands(w);
    }
  }

  /**
   * The loop SPRINT is meant for, `L: SPRINT $t0, L` at address 100: the
   * word 0xE900FFFF decodes to SPRINT $t0 with label displacement -1.  A
   * taken branch as written lands on 104, the next instruction; the label
   * is 100.
   */
  lemma SprintSelfLoopAsWritten()
    ensures Decode(0xE900_FFFF) == Some(Statement(SPRINT, 8, 0xFFFF_FFFF, 0))
    ensures Semantics.BranchTarget(104, SprintOffsetAsWritten(Decode(0xE900_FFFF).value)) == 104
    ensures Semantics.BranchTarget(104, SprintOffset(Decode(0xE900_FFFF).value)) == 100
  {
    Semantics.BranchFromNextInstruction();
  }

  /**
   * The corrected displacement round-trips: assembling a SPRINT with any
   * 16-bit label displacement and decoding it gives that displacement back.
   */
  lemma SprintOffsetRoundTrip(st: Statement)
    requires st.m == SPRINT && WellFormed(st)
    ensures Decode(Encode(st)).Some?
    ensures SprintOffset(Decode(Encode(st)).value) == st.op1
  {
    DecodeEncode(st);
  }
}
