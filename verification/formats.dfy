/** The opcode and function-code tables of Public/simple-mips-emu/Formats.hh,
    as closed sets of operations with their numeric codes and the decoders
    that map a 6-bit field back to an operation. */
module Formats {
  import opened Wrappers

  /** `RFormatFn`: the three-register arithmetic and logic functions. */
  datatype AluFn = ADDU | SUBU | AND | OR | NOR | SLTU

  /** `SRFormatFn`: the shift functions. */
  datatype ShiftFn = SLL | SRL

  /** `JFormatOp`: the jump opcodes. */
  datatype JumpOp = J | JAL

  /** The opcodes of `IFormatOp`, `BIFormatOp`, `IIFormatOp` and
      `OIFormatOp`, which the emulator declares but does not execute. */
  datatype IOp = ADDIU | ANDI | ORI | SLTIU | BEQ | BNE | LUI | LB | LW | SB | SW

  /** `JRFormatFn::JR`. */
  const JrFunct: nat := 0x08

  function AluFnCode(f: AluFn): (c: nat)
    ensures c < 64
    ensures DecodeAluFn(c) == Some(f)
  {
    match f
    case ADDU => 0x21
    case SUBU => 0x23
    case AND => 0x24
    case OR => 0x25
    case NOR => 0x27
    case SLTU => 0x2B
  }

  /** The function a function field names, if it is an `RFormatFn` code. */
  function DecodeAluFn(c: nat): (r: Option<AluFn>)
    ensures r.Some? ==> c == 0x21 || c == 0x23 || c == 0x24 || c == 0x25 || c == 0x27 || c == 0x2B
  {
    if c == 0x21 then Some(ADDU)
    else if c == 0x23 then Some(SUBU)
    else if c == 0x24 then Some(AND)
    else if c == 0x25 then Some(OR)
    else if c == 0x27 then Some(NOR)
    else if c == 0x2B then Some(SLTU)
    else None
  }

  function ShiftFnCode(f: ShiftFn): (c: nat)
    ensures c < 64
    ensures DecodeShiftFn(c) == Some(f)
  {
    match f
    case SLL => 0x00
    case SRL => 0x02
  }

  /** The shift a function field names, if it is an `SRFormatFn` code. */
  function DecodeShiftFn(c: nat): (r: Option<ShiftFn>)
    ensures r.Some? ==> c == 0x00 || c == 0x02
  {
    if c == 0x00 then Some(SLL) else if c == 0x02 then Some(SRL) else None
  }

  function JumpOpcode(op: JumpOp): (c: nat)
    ensures c < 64 && c != 0
    ensures DecodeJumpOp(c) == Some(op)
  {
    match op
    case J => 0x02
    case JAL => 0x03
  }

  /** The jump an opcode names, if it is a `JFormatOp` code. */
  function DecodeJumpOp(c: nat): (r: Option<JumpOp>)
    ensures r.Some? ==> c == 0x02 || c == 0x03
  {
    if c == 0x02 then Some(J) else if c == 0x03 then Some(JAL) else None
  }

  function IOpcode(op: IOp): (c: nat)
    ensures c < 64
  {
    match op
    case ADDIU => 0x09
    case ANDI => 0x0C
    case ORI => 0x0D
    case SLTIU => 0x0B
    case BEQ => 0x04
    case BNE => 0x05
    case LUI => 0x0F
    case LB => 0x20
    case LW => 0x23
    case SB => 0x28
    case SW => 0x2B
  }

  /** Each table is injective: distinct operations have distinct codes, so at
      most one branch of a decoder can match a field. */
  lemma CodesInjective()
    ensures forall f, g :: AluFnCode(f) == AluFnCode(g) ==> f == g
    ensures forall f, g :: ShiftFnCode(f) == ShiftFnCode(g) ==> f == g
    ensures forall p, q :: JumpOpcode(p) == JumpOpcode(q) ==> p == q
    ensures forall p, q :: IOpcode(p) == IOpcode(q) ==> p == q
  {
    forall p: IOp, q: IOp | IOpcode(p) == IOpcode(q) ensures p == q {
    }
  }

  /** The R-format function families are disjoint: no function code is both
      an arithmetic function and `JR`, or both and a shift. */
  lemma FunctionFamiliesDisjoint(f: AluFn, s: ShiftFn)
    ensures AluFnCode(f) != JrFunct && AluFnCode(f) != ShiftFnCode(s)
    ensures ShiftFnCode(s) != JrFunct
  {
  }

  /** No declared I-format opcode is the R-format opcode 0 or a jump opcode,
      so an I-format word is never taken for an R- or J-format one. */
  lemma IOpcodesAreNotROrJ(op: IOp)
    ensures IOpcode(op) != 0
    ensures DecodeJumpOp(IOpcode(op)) == None
  {
  }
}
