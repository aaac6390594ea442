/**
 * The bit layouts of the M-CRAFT templates: a 6-bit opcode in bits 31..26,
 * 5-bit register fields, a 16-bit immediate or displacement or a 26-bit jump
 * target, and, under opcode 0, a 6-bit funct in bits 5..0.  Every template
 * bit that is written as 0 or 1 is fixed; the letters f, s and t mark the
 * fields the simulator delivers as the first, second and third operand.
 */
module Encoding {
  import opened Word32

  datatype Option<T> = None | Some(value: T)

  /** The 25 M-CRAFT instructions. */
  datatype Mnemonic =
    | ADD | SUB | AND | OR | XOR | SLT
    | ADDI | ANDI | ORI | LW | SW
    | BEQ | BNE | J
    | MINE | PLACE | CRAFT | BREW | SMELT
    | HOTBAR | INVLD | INVST | CHAT | SPRINT | IFMOB

  /**
   * The eight template shapes, named after their operands.  RegRegReg is
   * `000000 sssss ttttt fffff 00000 funct`; RegReg is SMELT's, whose second
   * source field is fixed to zero; RegRegImm is `opcode sssss fffff t*16`;
   * Branch is `opcode fffff sssss t*16`; Jump is `opcode f*26`; ImmOnly is
   * HOTBAR's `110101 00000 00000 f*16`; RegOnly is CHAT's
   * `111000 fffff 00000 0*16`; RegLabel is SPRINT's `111010 fffff 00000 s*16`.
   */
  datatype Format = RegRegReg | RegReg | RegRegImm | Branch | Jump | ImmOnly | RegOnly | RegLabel

  function FormatOf(m: Mnemonic): Format {
    match m
    case ADD | SUB | AND | OR | XOR | SLT | CRAFT | BREW => RegRegReg
    case SMELT => RegReg
    case ADDI | ANDI | ORI | LW | SW | MINE | PLACE | INVLD | INVST | IFMOB => RegRegImm
    case BEQ | BNE => Branch
    case SPRINT => RegLabel
    case J => Jump
    case HOTBAR => ImmOnly
    case CHAT => RegOnly
  }

  /** The 6-bit opcode of each template. */
  function Opcode(m: Mnemonic): (r: Word)
    ensures r < 64
  {
    match m
    case ADD | SUB | AND | OR | XOR | SLT | CRAFT | BREW | SMELT => 0x00
    case ADDI => 0x08
    case ANDI => 0x0C
    case ORI => 0x0D
    case LW => 0x23
    case SW => 0x2B
    case BEQ => 0x04
    case BNE => 0x05
    case J => 0x02
    case MINE => 0x30
    case PLACE => 0x31
    case HOTBAR => 0x35
    case INVLD => 0x36
    case INVST => 0x37
    case CHAT => 0x38
    case SPRINT => 0x3A
    case IFMOB => 0x3B
  }

  /** The 6-bit funct of an opcode-0 template; the other templates have none and get 0. */
  function Funct(m: Mnemonic): (r: Word)
    ensures r < 64
  {
    match m
    case ADD => 0x20
    case SUB => 0x22
    case AND => 0x24
    case OR => 0x25
    case XOR => 0x26
    case SLT => 0x2A
    case CRAFT => 0x30
    case BREW => 0x31
    case SMELT => 0x32
    case _ => 0x00
  }

  /** The fixed bits of each template shape: everything but its operand fields. */
  function FixedMask(f: Format): (r: Word)
    ensures r & 0xFC00_0000 == 0xFC00_0000
    ensures f == RegRegReg || f == RegReg ==> r & 0x3F == 0x3F
  {
    match f
    case RegRegReg => 0xFC00_07FF
    case RegReg => 0xFC1F_07FF
    case RegRegImm => 0xFC00_0000
    case Branch => 0xFC00_0000
    case Jump => 0xFC00_0000
    case ImmOnly => 0xFFFF_0000
    case RegOnly => 0xFC1F_FFFF
    case RegLabel => 0xFC1F_0000
  }

  /** The value of the fixed bits: the opcode on top, the funct at the bottom, zeros between. */
  function FixedBits(m: Mnemonic): Word {
    (Opcode(m) << 26) | Funct(m)
  }

  /** A word matches a template when its fixed bits are the template's. */
  predicate Matches(w: Word, m: Mnemonic) {
    w & FixedMask(FormatOf(m)) == FixedBits(m)
  }

  /** The table the simulator keys its templates by: opcode, then funct under opcode 0. */
  function Lookup(opcode: Word, funct: Word): Option<Mnemonic> {
    if opcode == 0 then LookupFunct(funct) else LookupOpcode(opcode)
  }

  /** The opcode-0 templates by funct. */
  function LookupFunct(funct: Word): Option<Mnemonic> {
    match funct
    case 0x20 => Some(ADD)
    case 0x22 => Some(SUB)
    case 0x24 => Some(AND)
    case 0x25 => Some(OR)
    case 0x26 => Some(XOR)
    case 0x2A => Some(SLT)
    case 0x30 => Some(CRAFT)
    case 0x31 => Some(BREW)
    case 0x32 => Some(SMELT)
    case _ => None
  }

  /** The other templates by opcode. */
  function LookupOpcode(opcode: Word): Option<Mnemonic> {
    match opcode
    case 0x08 => Some(ADDI)
    case 0x0C => Some(ANDI)
    case 0x0D => Some(ORI)
    case 0x23 => Some(LW)
    case 0x2B => Some(SW)
    case 0x04 => Some(BEQ)
    case 0x05 => Some(BNE)
    case 0x02 => Some(J)
    case 0x30 => Some(MINE)
    case 0x31 => Some(PLACE)
    case 0x35 => Some(HOTBAR)
    case 0x36 => Some(INVLD)
    case 0x37 => Some(INVST)
    case 0x38 => Some(CHAT)
    case 0x3A => Some(SPRINT)
    case 0x3B => Some(IFMOB)
    case _ => None
  }

  /**
   * Every template is found under its own key, so no two templates share an
   * opcode (or, under opcode 0, a funct).
   */
  lemma LookupFindsEach(m: Mnemonic)
    ensures Lookup(Opcode(m), Funct(m)) == Some(m)
  {
  }

  /** The opcodes and the opcode-0 functs are pairwise distinct. */
  lemma KeysDistinct(m1: Mnemonic, m2: Mnemonic)
    requires Opcode(m1) == Opcode(m2)
    requires Opcode(m1) == 0 ==> Funct(m1) == Funct(m2)
    ensures m1 == m2
  {
    LookupFindsEach(m1);
    LookupFindsEach(m2);
    assert Funct(m1) == Funct(m2) by {
      if Opcode(m1) != 0 {
        assert m1 !in {ADD, SUB, AND, OR, XOR, SLT, CRAFT, BREW, SMELT};
        assert m2 !in {ADD, SUB, AND, OR, XOR, SLT, CRAFT, BREW, SMELT};
      }
    }
  }

  /** Only the register-register templates sit under opcode 0. */
  lemma OpcodeZeroIsRegister(m: Mnemonic)
    ensures Opcode(m) == 0 <==> FormatOf(m) == RegRegReg || FormatOf(m) == RegReg
  {
  }

  /**
   * The bit step of MatchesKey: a mask that fixes the opcode bits fixes the
   * opcode, and one that also fixes bits 5..0 fixes the funct.
   */
  lemma MaskedKey(w: Word, mask: Word, opcode: Word, funct: Word)
    requires opcode < 64 && funct < 64
    requires mask & 0xFC00_0000 == 0xFC00_0000
    requires w & mask == (opcode << 26) | funct
    ensures w >> 26 == opcode
    ensures mask & 0x3F == 0x3F ==> w & 0x3F == funct
  {
  }

  /** A matching word carries the template's opcode, and under opcode 0 its funct. */
  lemma MatchesKey(w: Word, m: Mnemonic)
    requires Matches(w, m)
    ensures w >> 26 == Opcode(m)
    ensures Opcode(m) == 0 ==> w & 0x3F == Funct(m)
  {
    OpcodeZeroIsRegister(m);
    MaskedKey(w, FixedMask(FormatOf(m)), Opcode(m), Funct(m));
  }

  /** At most one template matches any word. */
  lemma TemplatesExclusive(w: Word, m1: Mnemonic, m2: Mnemonic)
    requires Matches(w, m1) && Matches(w, m2)
    ensures m1 == m2
  {
    MatchesKey(w, m1);
    MatchesKey(w, m2);
    KeysDistinct(m1, m2);
  }

  /**
   * A statement in the model's normalised form: the mnemonic and the operand
   * array, register numbers as 0..31, every 16-bit field sign-extended, the
   * jump field as its 26-bit value, and an operand slot the template does
   * not fill holding 0.  The host may hand ANDI and ORI their immediate
   * unsigned (0xFFFF rather than -1); both handlers mask it to 16 bits
   * first, so the two forms give the same result.
   */
  datatype Statement = Statement(m: Mnemonic, op0: Word, op1: Word, op2: Word)

  /** Register field in bits 25..21. */
  function Field25(w: Word): (r: Word)
    ensures r < 32
  {
    (w >> 21) & 0x1F
  }

  /** Register field in bits 20..16. */
  function Field20(w: Word): (r: Word)
    ensures r < 32
  {
    (w >> 16) & 0x1F
  }

  /** Register field in bits 15..11. */
  function Field15(w: Word): (r: Word)
    ensures r < 32
  {
    (w >> 11) & 0x1F
  }

  /** The operands the template of `m` extracts from `w`, in f, s, t order. */
  function Operands(m: Mnemonic, w: Word): (r: Statement)
    ensures r.m == m
  {
    match FormatOf(m)
    case RegRegReg => Statement(m, Field15(w), Field25(w), Field20(w))
    case RegReg => Statement(m, Field15(w), Field25(w), 0)
    case RegRegImm => Statement(m, Field20(w), Field25(w), SignExtend16(w))
    case Branch => Statement(m, Field25(w), Field20(w), SignExtend16(w))
    case Jump => Statement(m, w & 0x3FF_FFFF, 0, 0)
    case ImmOnly => Statement(m, SignExtend16(w), 0, 0)
    case RegOnly => Statement(m, Field25(w), 0, 0)
    case RegLabel => Statement(m, Field25(w), SignExtend16(w), 0)
  }

  /** Decoding: look the word's key up, then check the rest of the template's fixed bits. */
  function Decode(w: Word): Option<Statement> {
    match Lookup(w >> 26, w & 0x3F)
    case None => None
    case Some(m) => if Matches(w, m) then Some(Operands(m, w)) else None
  }

  /** A decoded statement holds the operands its own template extracts from the word. */
  lemma DecodeIsOperands(w: Word)
    ensures Decode(w).Some? ==> Decode(w).value == Operands(Decode(w).value.m, w)
  {
    match Lookup(w >> 26, w & 0x3F)
    case None =>
    case Some(m) =>
  }

  /** A word decodes to a statement of `m` exactly when it matches the template of `m`. */
  lemma DecodeIffMatches(w: Word, m: Mnemonic)
    ensures Decode(w).Some? && Decode(w).value.m == m <==> Matches(w, m)
  {
    if Matches(w, m) {
      MatchesKey(w, m);
      LookupFindsEach(m);
    }
  }

  /** The operands an encodable statement of its shape may hold. */
  predicate WellFormed(st: Statement) {
    match FormatOf(st.m)
    case RegRegReg => st.op0 < 32 && st.op1 < 32 && st.op2 < 32
    case RegReg => st.op0 < 32 && st.op1 < 32 && st.op2 == 0
    case RegRegImm => st.op0 < 32 && st.op1 < 32 && IsImm16(st.op2)
    case Branch => st.op0 < 32 && st.op1 < 32 && IsImm16(st.op2)
    case Jump => st.op0 < 0x400_0000 && st.op1 == 0 && st.op2 == 0
    case ImmOnly => IsImm16(st.op0) && st.op1 == 0 && st.op2 == 0
    case RegOnly => st.op0 < 32 && st.op1 == 0 && st.op2 == 0
    case RegLabel => st.op0 < 32 && IsImm16(st.op1) && st.op2 == 0
  }

  /** Encoding: the fixed bits with each operand in its field. */
  function Encode(st: Statement): Word {
    var b := FixedBits(st.m);
    match FormatOf(st.m)
    case RegRegReg => b | (st.op1 << 21) | (st.op2 << 16) | (st.op0 << 11)
    case RegReg => b | (st.op1 << 21) | (st.op0 << 11)
    case RegRegImm => b | (st.op1 << 21) | (st.op0 << 16) | (st.op2 & 0xFFFF)
    case Branch => b | (st.op0 << 21) | (st.op1 << 16) | (st.op2 & 0xFFFF)
    case Jump => b | st.op0
    case ImmOnly => b | (st.op0 & 0xFFFF)
    case RegOnly => b | (st.op0 << 21)
    case RegLabel => b | (st.op0 << 21) | (st.op1 & 0xFFFF)
  }

  /** Bit steps of the round trips, one per template shape, on plain words. */
  lemma FieldsRegRegReg(b: Word, rd: Word, rs: Word, rt: Word)
    ensures (b & 0xFC00_07FF == b) && (rd < 32 && rs < 32 && rt < 32) ==>
      var w := b | (rs << 21) | (rt << 16) | (rd << 11);
      w & 0xFC00_07FF == b && Field15(w) == rd && Field25(w) == rs && Field20(w) == rt
  {
  }

  lemma FieldsRegReg(b: Word, rd: Word, rs: Word)
    ensures (b & 0xFC1F_07FF == b) && (rd < 32 && rs < 32) ==>
      var w := b | (rs << 21) | (rd << 11);
      w & 0xFC1F_07FF == b && Field15(w) == rd && Field25(w) == rs
  {
  }

  lemma FieldsTwoRegImm(b: Word, hi: Word, lo: Word, imm: Word)
    ensures (b & 0xFC00_0000 == b) && (hi < 32 && lo < 32 && IsImm16(imm)) ==>
      var w := b | (hi << 21) | (lo << 16) | (imm & 0xFFFF);
      w & 0xFC00_0000 == b && Field25(w) == hi && Field20(w) == lo && SignExtend16(w) == imm
  {
  }

  lemma FieldsJump(b: Word, target: Word)
    ensures (b & 0xFC00_0000 == b) && target < 0x400_0000 ==>
      (b | target) & 0xFC00_0000 == b && (b | target) & 0x3FF_FFFF == target
  {
  }

  lemma FieldsImmOnly(b: Word, imm: Word)
    ensures (b & 0xFFFF_0000 == b) && IsImm16(imm) ==>
      var w := b | (imm & 0xFFFF);
      w & 0xFFFF_0000 == b && SignExtend16(w) == imm
  {
  }

  lemma FieldsRegOnly(b: Word, r: Word)
    ensures (b & 0xFC1F_FFFF == b) && r < 32 ==>
      var w := b | (r << 21);
      w & 0xFC1F_FFFF == b && Field25(w) == r
  {
  }

  lemma FieldsRegLabel(b: Word, r: Word, imm: Word)
    ensures (b & 0xFC1F_0000 == b) && (r < 32 && IsImm16(imm)) ==>
      var w := b | (r << 21) | (imm & 0xFFFF);
      w & 0xFC1F_0000 == b && Field25(w) == r && SignExtend16(w) == imm
  {
  }

  /** The fixed bits of a template lie inside its mask. */
  lemma FixedBitsInMask(m: Mnemonic)
    ensures FixedBits(m) & FixedMask(FormatOf(m)) == FixedBits(m)
  {
  }

  /** The template of an encoded well-formed statement matches, and its operands read back. */
  lemma EncodeFields(st: Statement)
    requires WellFormed(st)
    ensures Matches(Encode(st), st.m) && Operands(st.m, Encode(st)) == st
  {
    match FormatOf(st.m)
    case RegRegReg => EncodeFieldsRegRegReg(st);
    case RegReg => EncodeFieldsRegReg(st);
    case RegRegImm => EncodeFieldsRegRegImm(st);
    case Branch => EncodeFieldsBranch(st);
    case Jump => EncodeFieldsJump(st);
    case ImmOnly => EncodeFieldsImmOnly(st);
    case RegOnly => EncodeFieldsRegOnly(st);
    case RegLabel => EncodeFieldsRegLabel(st);
  }

  lemma EncodeFieldsRegRegReg(st: Statement)
    requires FormatOf(st.m) == RegRegReg && WellFormed(st)
    ensures Matches(Encode(st), st.m) && Operands(st.m, Encode(st)) == st
  {
    var b := FixedBits(st.m);
    FixedBitsInMask(st.m);
    FieldsRegRegReg(b, st.op0, st.op1, st.op2);
  }

  lemma EncodeFieldsRegReg(st: Statement)
    requires FormatOf(st.m) == RegReg && WellFormed(st)
    ensures Matches(Encode(st), st.m) && Operands(st.m, Encode(st)) == st
  {
    var b := FixedBits(st.m);
    FixedBitsInMask(st.m);
    FieldsRegReg(b, st.op0, st.op1);
  }

  lemma EncodeFieldsRegRegImm(st: Statement)
    requires FormatOf(st.m) == RegRegImm && WellFormed(st)
    ensures Matches(Encode(st), st.m) && Operands(st.m, Encode(st)) == st
  {
    var b := FixedBits(st.m);
    FixedBitsInMask(st.m);
    FieldsTwoRegImm(b, st.op1, st.op0, st.op2);
  }

  lemma EncodeFieldsBranch(st: Statement)
    requires FormatOf(st.m) == Branch && WellFormed(st)
    ensures Matches(Encode(st), st.m) && Operands(st.m, Encode(st)) == st
  {
    var b := FixedBits(st.m);
    FixedBitsInMask(st.m);
    FieldsTwoRegImm(b, st.op0, st.op1, st.op2);
  }

  lemma EncodeFieldsJump(st: Statement)
    requires FormatOf(st.m) == Jump && WellFormed(st)
    ensures Matches(Encode(st), st.m) && Operands(st.m, Encode(st)) == st
  {
    var b := FixedBits(st.m);
    FixedBitsInMask(st.m);
    FieldsJump(b, st.op0);
  }

  lemma EncodeFieldsImmOnly(st: Statement)
    requires FormatOf(st.m) == ImmOnly && WellFormed(st)
    ensures Matches(Encode(st), st.m) && Operands(st.m, Encode(st)) == st
  {
    var b := FixedBits(st.m);
    FixedBitsInMask(st.m);
    FieldsImmOnly(b, st.op0);
  }

  lemma EncodeFieldsRegOnly(st: Statement)
    requires FormatOf(st.m) == RegOnly && WellFormed(st)
    ensures Matches(Encode(st), st.m) && Operands(st.m, Encode(st)) == st
  {
    var b := FixedBits(st.m);
    FixedBitsInMask(st.m);
    FieldsRegOnly(b, st.op0);
  }

  lemma EncodeFieldsRegLabel(st: Statement)
    requires FormatOf(st.m) == RegLabel && WellFormed(st)
    ensures Matches(Encode(st), st.m) && Operands(st.m, Encode(st)) == st
  {
    var b := FixedBits(st.m);
    FixedBitsInMask(st.m);
    FieldsRegLabel(b, st.op0, st.op1);
  }

  /** Decoding an encoded well-formed statement gives the statement back. */
  lemma DecodeEncode(st: Statement)
    requires WellFormed(st)
    ensures Decode(Encode(st)) == Some(st)
  {
    EncodeFields(st);
    DecodeIffMatches(Encode(st), st.m);
  }

  /** Bit steps of the other round trip: a word is its fixed bits with its own fields put back. */
  lemma ReassembleRegRegReg(w: Word, b: Word)
    ensures w & 0xFC00_07FF == b ==> b | (Field25(w) << 21) | (Field20(w) << 16) | (Field15(w) << 11) == w
  {
  }

  lemma ReassembleRegReg(w: Word, b: Word)
    ensures w & 0xFC1F_07FF == b ==> b | (Field25(w) << 21) | (Field15(w) << 11) == w
  {
  }

  lemma ReassembleTwoRegImm(w: Word, b: Word)
    ensures w & 0xFC00_0000 == b ==> b | (Field25(w) << 21) | (Field20(w) << 16) | (SignExtend16(w) & 0xFFFF) == w
  {
  }

  lemma ReassembleJump(w: Word, b: Word)
    ensures w & 0xFC00_0000 == b ==> b | (w & 0x3FF_FFFF) == w
  {
  }

  lemma ReassembleImmOnly(w: Word, b: Word)
    ensures w & 0xFFFF_0000 == b ==> b | (SignExtend16(w) & 0xFFFF) == w
  {
  }

  lemma ReassembleRegOnly(w: Word, b: Word)
    ensures w & 0xFC1F_FFFF == b ==> b | (Field25(w) << 21) == w
  {
  }

  lemma ReassembleRegLabel(w: Word, b: Word)
    ensures w & 0xFC1F_0000 == b ==> b | (Field25(w) << 21) | (SignExtend16(w) & 0xFFFF) == w
  {
  }

  /** Re-encoding the operands of a matching word gives the word back, and they are well formed. */
  lemma EncodeOperands(w: Word, m: Mnemonic)
    requires Matches(w, m)
    ensures WellFormed(Operands(m, w)) && Encode(Operands(m, w)) == w
  {
    match FormatOf(m)
    case RegRegReg => EncodeOperandsRegRegReg(w, m);
    case RegReg => EncodeOperandsRegReg(w, m);
    case RegRegImm => EncodeOperandsRegRegImm(w, m);
    case Branch => EncodeOperandsBranch(w, m);
    case Jump => EncodeOperandsJump(w, m);
    case ImmOnly => EncodeOperandsImmOnly(w, m);
    case RegOnly => EncodeOperandsRegOnly(w, m);
    case RegLabel => EncodeOperandsRegLabel(w, m);
  }

  lemma EncodeOperandsRegRegReg(w: Word, m: Mnemonic)
    requires FormatOf(m) == RegRegReg && Matches(w, m)
    ensures WellFormed(Operands(m, w)) && Encode(Operands(m, w)) == w
  {
    ReassembleRegRegReg(w, FixedBits(m));
  }

  lemma EncodeOperandsRegReg(w: Word, m: Mnemonic)
    requires FormatOf(m) == RegReg && Matches(w, m)
    ensures WellFormed(Operands(m, w)) && Encode(Operands(m, w)) == w
  {
    ReassembleRegReg(w, FixedBits(m));
  }

  lemma EncodeOperandsRegRegImm(w: Word, m: Mnemonic)
    requires FormatOf(m) == RegRegImm && Matches(w, m)
    ensures WellFormed(Operands(m, w)) && Encode(Operands(m, w)) == w
  {
    ReassembleTwoRegImm(w, FixedBits(m));
    SignExtendIsImm16(w);
  }

  lemma EncodeOperandsBranch(w: Word, m: Mnemonic)
    requires FormatOf(m) == Branch && Matches(w, m)
    ensures WellFormed(Operands(m, w)) && Encode(Operands(m, w)) == w
  {
    ReassembleTwoRegImm(w, FixedBits(m));
    SignExtendIsImm16(w);
  }

  lemma EncodeOperandsJump(w: Word, m: Mnemonic)
    requires FormatOf(m) == Jump && Matches(w, m)
    ensures WellFormed(Operands(m, w)) && Encode(Operands(m, w)) == w
  {
    ReassembleJump(w, FixedBits(m));
  }

  lemma EncodeOperandsImmOnly(w: Word, m: Mnemonic)
    requires FormatOf(m) == ImmOnly && Matches(w, m)
    ensures WellFormed(Operands(m, w)) && Encode(Operands(m, w)) == w
  {
    ReassembleImmOnly(w, FixedBits(m));
    SignExtendIsImm16(w);
  }

  lemma EncodeOperandsRegOnly(w: Word, m: Mnemonic)
    requires FormatOf(m) == RegOnly && Matches(w, m)
    ensures WellFormed(Operands(m, w)) && Encode(Operands(m, w)) == w
  {
    ReassembleRegOnly(w, FixedBits(m));
  }

  lemma EncodeOperandsRegLabel(w: Word, m: Mnemonic)
    requires FormatOf(m) == RegLabel && Matches(w, m)
    ensures WellFormed(Operands(m, w)) && Encode(Operands(m, w)) == w
  {
    ReassembleRegLabel(w, FixedBits(m));
    SignExtendIsImm16(w);
  }

  /** Encoding a decoded word gives the word back: the decoder loses nothing. */
  lemma EncodeDecode(w: Word)
    ensures Decode(w).Some? ==> WellFormed(Decode(w).value) && Encode(Decode(w).value) == w
  {
    if Decode(w).Some? {
      EncodeOperands(w, Decode(w).value.m);
    }
  }
}
