/** A reference reading of the step: the fetched word is decoded once into a
    structured instruction, which is then executed by a pure state
    transformer. The lemmas here show that the source's handler chain
    (R, then I, then J, each rejecting by returning `InvalidInstruction`)
    computes exactly this, and that decoding inverts encoding. */
module Decoding {
  import opened Wrappers
  import opened Words
  import opened Addresses
  import opened AddressSpace
  import opened Formats
  import opened Emulation

  /** A general register number, a 5-bit field. */
  type RegIndex = r: nat | r < 32

  /** A shift amount, a 5-bit field. */
  type ShiftAmount = s: nat | s < 32

  /** A jump target, a 26-bit field. */
  type JumpTarget = t: nat | t < 0x400_0000

  /** The instructions the emulator executes. */
  datatype Instruction =
    | Alu(fn: AluFn, rs: RegIndex, rt: RegIndex, rd: RegIndex)
    | JumpRegister(rs: RegIndex)
    | Shift(sfn: ShiftFn, rt: RegIndex, rd: RegIndex, shamt: ShiftAmount)
    | Jump(op: JumpOp, target: JumpTarget)

  /** The instruction a word denotes, if any. */
  function Decode(w: U32): (r: Option<Instruction>)
    ensures r.Some? && r.value.Jump? <==> Opcode(w) != 0 && DecodeJumpOp(Opcode(w)).Some?
    ensures r.Some? && !r.value.Jump? ==> Opcode(w) == 0
  {
    if Opcode(w) == 0 then
      match DecodeAluFn(Funct(w))
      case Some(f) => Some(Alu(f, Rs(w), Rt(w), Rd(w)))
      case None =>
        if Funct(w) == JrFunct then Some(JumpRegister(Rs(w)))
        else
          match DecodeShiftFn(Funct(w))
          case Some(f) => Some(Shift(f, Rt(w), Rd(w), Shamt(w)))
          case None => None
    else
      match DecodeJumpOp(Opcode(w))
      case Some(op) => Some(Jump(op, Target(w)))
      case None => None
  }

  /** The canonical word of an instruction, with every field it does not use
      set to zero. */
  function Encode(i: Instruction): U32
  {
    match i
    case Alu(f, s, t, d) => Compose(0, s, t, d, 0, AluFnCode(f))
    case JumpRegister(s) => Compose(0, s, 0, 0, 0, JrFunct)
    case Shift(f, t, d, sh) => Compose(0, 0, t, d, sh, ShiftFnCode(f))
    case Jump(op, tg) => JumpOpcode(op) * 0x400_0000 + tg
  }

  /** The word holding the six fields of an R-format layout. */
  function Compose(o: nat, s: nat, t: nat, d: nat, sh: nat, f: nat): (w: U32)
    requires o < 64 && s < 32 && t < 32 && d < 32 && sh < 32 && f < 64
  {
    o * 0x400_0000 + s * 0x20_0000 + t * 0x1_0000 + d * 0x800 + sh * 0x40 + f
  }

  /** The field extractors recover each field of a word built from six
      in-range fields. */
  lemma {:induction false} FieldsOfComposed(o: nat, s: nat, t: nat, d: nat, sh: nat, f: nat)
    requires o < 64 && s < 32 && t < 32 && d < 32 && sh < 32 && f < 64
    ensures var w := Compose(o, s, t, d, sh, f);
      Opcode(w) == o && Rs(w) == s && Rt(w) == t && Rd(w) == d && Shamt(w) == sh && Funct(w) == f
  {
    OpcodeOfComposed(o, s, t, d, sh, f);
    FunctOfComposed(o, s, t, d, sh, f);
    RsOfComposed(o, s, t, d, sh, f);
    RtOfComposed(o, s, t, d, sh, f);
    RdOfComposed(o, s, t, d, sh, f);
    ShamtOfComposed(o, s, t, d, sh, f);
  }

  lemma OpcodeOfComposed(o: nat, s: nat, t: nat, d: nat, sh: nat, f: nat)
    requires o < 64 && s < 32 && t < 32 && d < 32 && sh < 32 && f < 64
    ensures Opcode(Compose(o, s, t, d, sh, f)) == o
  {
    var w := Compose(o, s, t, d, sh, f);
    assert w == o * 0x400_0000 + (s * 0x20_0000 + t * 0x1_0000 + d * 0x800 + sh * 0x40 + f);
    assert w / 0x400_0000 == o;
  }

  lemma FunctOfComposed(o: nat, s: nat, t: nat, d: nat, sh: nat, f: nat)
    requires o < 64 && s < 32 && t < 32 && d < 32 && sh < 32 && f < 64
    ensures Funct(Compose(o, s, t, d, sh, f)) == f
  {
    var w := Compose(o, s, t, d, sh, f);
    assert w == (o * 0x10_0000 + s * 0x8000 + t * 0x400 + d * 0x20 + sh) * 0x40 + f;
  }

  lemma RsOfComposed(o: nat, s: nat, t: nat, d: nat, sh: nat, f: nat)
    requires o < 64 && s < 32 && t < 32 && d < 32 && sh < 32 && f < 64
    ensures Rs(Compose(o, s, t, d, sh, f)) == s
  {
    var w := Compose(o, s, t, d, sh, f);
    assert w == (o * 0x20 + s) * 0x20_0000 + (t * 0x1_0000 + d * 0x800 + sh * 0x40 + f);
    assert w / 0x20_0000 == o * 0x20 + s;
  }

  lemma RtOfComposed(o: nat, s: nat, t: nat, d: nat, sh: nat, f: nat)
    requires o < 64 && s < 32 && t < 32 && d < 32 && sh < 32 && f < 64
    ensures Rt(Compose(o, s, t, d, sh, f)) == t
  {
    var w := Compose(o, s, t, d, sh, f);
    assert w == ((o * 0x20 + s) * 0x20 + t) * 0x1_0000 + (d * 0x800 + sh * 0x40 + f);
    assert w / 0x1_0000 == (o * 0x20 + s) * 0x20 + t;
  }

  lemma RdOfComposed(o: nat, s: nat, t: nat, d: nat, sh: nat, f: nat)
    requires o < 64 && s < 32 && t < 32 && d < 32 && sh < 32 && f < 64
    ensures Rd(Compose(o, s, t, d, sh, f)) == d
  {
    var w := Compose(o, s, t, d, sh, f);
    assert w == (((o * 0x20 + s) * 0x20 + t) * 0x20 + d) * 0x800 + (sh * 0x40 + f);
    assert w / 0x800 == ((o * 0x20 + s) * 0x20 + t) * 0x20 + d;
  }

  lemma ShamtOfComposed(o: nat, s: nat, t: nat, d: nat, sh: nat, f: nat)
    requires o < 64 && s < 32 && t < 32 && d < 32 && sh < 32 && f < 64
    ensures Shamt(Compose(o, s, t, d, sh, f)) == sh
  {
    var w := Compose(o, s, t, d, sh, f);
    assert w == ((((o * 0x20 + s) * 0x20 + t) * 0x20 + d) * 0x20 + sh) * 0x40 + f;
    assert w / 0x40 == (((o * 0x20 + s) * 0x20 + t) * 0x20 + d) * 0x20 + sh;
  }

  /** Decoding the encoding of an instruction gives the instruction back. */
  lemma {:induction false} DecodeEncode(i: Instruction)
    ensures Decode(Encode(i)) == Some(i)
  {
    match i
    case Alu(f, s, t, d) =>
      FieldsOfComposed(0, s, t, d, 0, AluFnCode(f));
    case JumpRegister(s) =>
      FieldsOfComposed(0, s, 0, 0, 0, JrFunct);
      assert DecodeAluFn(JrFunct).None?;
    case Shift(f, t, d, sh) =>
      FieldsOfComposed(0, 0, t, d, sh, ShiftFnCode(f));
      assert DecodeAluFn(ShiftFnCode(f)).None?;
    case Jump(op, tg) =>
      var w := JumpOpcode(op) * 0x400_0000 + tg;
      assert w / 0x400_0000 == JumpOpcode(op);
  }

  /** The general register an instruction writes, 0 when it writes none
      (writes to register 0 are discarded anyway). */
  function Destination(i: Instruction): (r: nat)
    ensures r < 32
  {
    match i
    case Alu(_, _, _, d) => d
    case Shift(_, _, d, _) => d
    case JumpRegister(_) => 0
    case Jump(op, _) => if op == JAL then RA else 0
  }

  /** The state after executing an instruction: the destination register
      receives the result and the program counter moves on. Jumps replace
      the program counter by the target times four with no advance; `JR`
      moves it to the register's value plus four. */
  function Execute(m: Memory, i: Instruction): (m': Memory)
    requires m.Valid()
    ensures m'.Valid()
    ensures m'.text == m.text && m'.data == m.data
    ensures m'.registers[0] == m.registers[0]
    ensures forall q :: 0 <= q < PC && q != Destination(i) ==> m'.registers[q] == m.registers[q]
    ensures i.Alu? && i.rd != 0 ==>
              m'.registers[i.rd] == AluResult(i.fn, m.registers[i.rs], m.registers[i.rt])
    ensures i.Shift? && i.rd != 0 ==>
              m'.registers[i.rd] == ShiftResult(i.sfn, m.registers[i.rt], i.shamt)
    ensures i.Jump? && i.op == JAL ==> m'.registers[RA] == AddU32(m.registers[PC], 4)
    ensures (i.Alu? || i.Shift?) ==> m'.registers[PC] == AddU32(m.registers[PC], 4)
    ensures i.JumpRegister? ==> m'.registers[PC] == AddU32(m.registers[i.rs], 4)
    ensures i.Jump? ==> m'.registers[PC] == i.target * 4 && m'.registers[PC] < DataBase
  {
    match i
    case Alu(f, s, t, d) =>
      AdvancePC(WriteRegister(m, d, AluResult(f, Register(m, s), Register(m, t))))
    case JumpRegister(s) =>
      AdvancePC(WriteRegister(m, PC, Register(m, s)))
    case Shift(f, t, d, sh) =>
      AdvancePC(WriteRegister(m, d, ShiftResult(f, Register(m, t), sh)))
    case Jump(J, tg) =>
      WriteRegister(m, PC, tg * 4)
    case Jump(JAL, tg) =>
      WriteRegister(WriteRegister(m, RA, AddU32(Register(m, PC), 4)), PC, tg * 4)
  }

  /** The outcome the reference reading gives for a fetched word. */
  function Step(m: Memory, w: U32): Outcome
    requires m.Valid()
  {
    match Decode(w)
    case Some(i) => Outcome(Success, Execute(m, i))
    case None => Outcome(InvalidInstruction, m)
  }

  /** The handler chain R, I, J computes exactly the reference step: the
      word is executed when it decodes, and rejected with the state
      untouched when it does not. */
  lemma HandlersAgreeWithDecode(m: Memory, w: U32)
    requires m.Valid()
    ensures RunHandlers(Handlers, m, w) == Step(m, w)
  {
    var r := HandleR(m, w);
    assert RunHandlers(Handlers, m, w) ==
      if r.result != InvalidInstruction then r
      else RunHandlers(Handlers[1..], m, w);
    assert Handlers[1..][1..] == [JFormat];
    if Opcode(w) != 0 {
      assert RunHandlers(Handlers, m, w) == HandleJ(m, w);
    }
  }

  /** `Tick` on a running machine whose next word can be fetched is the
      reference step on that word. */
  lemma TickAgreesWithDecode(m: Memory)
    requires m.Valid() && !IsTerminated(m)
    requires GetWord(m, FetchAddress(m)).Ok?
    ensures Tick(m) == Step(m, GetWord(m, FetchAddress(m)).value)
  {
    HandlersAgreeWithDecode(m, GetWord(m, FetchAddress(m)).value);
  }
}
