/** One fetch-decode-execute step, `Tick` of Source/Emulation.cc and
    Public/simple-mips-emu/Emulation.hh. The source mutates a `Memory` in
    place; here every handler is a pure function from the state before to
    the state after, and the handler chain hands each handler's resulting
    state to the next one, just as the in-place mutation would. */
module Emulation {
  import opened Wrappers
  import opened Words
  import opened Addresses
  import opened AddressSpace
  import opened Formats

  /** `TickResult`: the five outcomes of a step. */
  datatype TickResult = Success | AlreadyTerminated | InvalidInstruction | MemoryOutOfRange | OffsetIsTooSmall

  /** What a step returns: its result and the machine state after it. */
  datatype Outcome = Outcome(result: TickResult, memory: Memory)

  // Instruction fields. Each is the source's `(current >> k) & mask`,
  // written as division and remainder on the unsigned word.

  /** Bits 31-26. */
  function Opcode(w: U32): (c: nat)
    ensures c < 64
  {
    w / 0x400_0000
  }

  /** Bits 5-0. */
  function Funct(w: U32): (c: nat)
    ensures c < 64
  {
    w % 0x40
  }

  /** Bits 25-21. */
  function Rs(w: U32): (r: nat)
    ensures r < 32
  {
    (w / 0x20_0000) % 0x20
  }

  /** Bits 20-16. */
  function Rt(w: U32): (r: nat)
    ensures r < 32
  {
    (w / 0x1_0000) % 0x20
  }

  /** Bits 15-11. */
  function Rd(w: U32): (r: nat)
    ensures r < 32
  {
    (w / 0x800) % 0x20
  }

  /** Bits 10-6. */
  function Shamt(w: U32): (s: nat)
    ensures s < 32
  {
    (w / 0x40) % 0x20
  }

  /** Bits 25-0, `current & 0x03FFFFFF`. */
  function Target(w: U32): (t: nat)
    ensures t < 0x400_0000
  {
    w % 0x400_0000
  }

  /** The value an arithmetic or logic function computes from its two
      source registers: wrapping add and subtract, bitwise AND, OR and
      NOT-OR, and unsigned less-than as 1 or 0. */
  function AluResult(f: AluFn, a: U32, b: U32): (r: U32)
    ensures f == ADDU ==> SubU32(r, b) == a
    ensures f == SUBU ==> AddU32(r, b) == a
    ensures f == AND ==> forall i :: 0 <= i < 32 ==> (Bit(r, i) == 1 <==> Bit(a, i) == 1 && Bit(b, i) == 1)
    ensures f == OR ==> forall i :: 0 <= i < 32 ==> (Bit(r, i) == 1 <==> Bit(a, i) == 1 || Bit(b, i) == 1)
    ensures f == NOR ==> forall i :: 0 <= i < 32 ==> (Bit(r, i) == 1 <==> Bit(a, i) == 0 && Bit(b, i) == 0)
    ensures f == SLTU ==> (r == 1 <==> a < b) && (r == 0 <==> a >= b)
  {
    match f
    case ADDU => AddU32(a, b)
    case SUBU => SubU32(a, b)
    case AND => AndWord(a, b)
    case OR => OrWord(a, b)
    case NOR => NorWord(a, b)
    case SLTU => if a < b then 1 else 0
  }

  /** The bitwise results are the only words with their bits: any word
      whose 32 bits follow the rule for AND, OR or NOR is that result. */
  lemma AluBitsDetermine(f: AluFn, a: U32, b: U32, w: U32)
    requires f == AND || f == OR || f == NOR
    requires forall i :: 0 <= i < 32 ==> Bit(w, i) == Bit(AluResult(f, a, b), i)
    ensures w == AluResult(f, a, b)
  {
    Pow2Word();
    BitsDetermine(w, AluResult(f, a, b), 32);
  }

  /** AND and OR of the same operands add up to their sum. */
  lemma AndOrSum(a: U32, b: U32)
    ensures AluResult(AND, a, b) + AluResult(OR, a, b) == a + b
  {
    AndOrWordSum(a, b);
  }

  /** NOR is the complement of OR: each bit is set in exactly one of them,
      so the two add up to the all-ones word. */
  lemma NorComplementsOr(a: U32, b: U32)
    ensures AluResult(NOR, a, b) + AluResult(OR, a, b) == 0xFFFF_FFFF
  {
  }

  /** `a << s` on a `uint32_t`: each place doubles the value, and the bit
      that leaves the word is lost. */
  function ShiftLeft(a: U32, s: nat): (r: U32)
    ensures s == 0 ==> r == a
    ensures s > 0 ==> r % 2 == 0
    decreases s
  {
    if s == 0 then a else ShiftLeft((2 * a) % WordModulus, s - 1)
  }

  /** `a >> s` on a `uint32_t`: each place halves the value, rounding down,
      and a zero comes in at the top. */
  function ShiftRight(a: U32, s: nat): (r: U32)
    ensures r <= a
    ensures s == 0 ==> r == a
    ensures s > 0 ==> r < 0x8000_0000
    decreases s
  {
    if s == 0 then a else ShiftRight(a / 2, s - 1)
  }

  /** A left shift by `s` places multiplies by 2^s modulo 2^32. */
  lemma {:induction false} ShiftLeftValue(a: U32, s: nat)
    ensures ShiftLeft(a, s) == (a * Pow2(s)) % WordModulus
    decreases s
  {
    if s > 0 {
      var p := Pow2(s - 1);
      ShiftLeftValue((2 * a) % WordModulus, s - 1);
      MulModLeft(2 * a, p);
      assert Pow2(s) == 2 * p;
      MulRegroup(a, p);
    }
  }

  /** Moving the factor 2 from one side of a product to the other. */
  lemma MulRegroup(a: nat, p: nat)
    ensures a * (2 * p) == (2 * a) * p
  {
  }

  /** A logical right shift by `s` places divides by 2^s, rounding down. */
  lemma {:induction false} ShiftRightValue(a: U32, s: nat)
    ensures ShiftRight(a, s) == a / Pow2(s)
    decreases s
  {
    if s > 0 {
      ShiftRightValue(a / 2, s - 1);
      DivTwice(a, Pow2(s - 1));
    }
  }

  /** Shifting left by one place and back drops exactly the top bit. */
  lemma ShiftLeftThenRight(a: U32)
    ensures ShiftRight(ShiftLeft(a, 1), 1) == a % 0x8000_0000
  {
    assert ShiftLeft(a, 1) == (2 * a) % WordModulus;
  }

  /** The logical shifts of `SRFormatFn`, by fewer than 32 places: `sll`
      multiplies by 2^s modulo 2^32 and `srl` divides by 2^s. */
  function ShiftResult(f: ShiftFn, a: U32, s: nat): (r: U32)
    requires s < 32
    ensures f == SLL ==> r == (a * Pow2(s)) % WordModulus
    ensures f == SRL ==> r == a / Pow2(s)
  {
    ShiftLeftValue(a, s);
    ShiftRightValue(a, s);
    match f
    case SLL => ShiftLeft(a, s)
    case SRL => ShiftRight(a, s)
  }

  /** `TickHandleR` (Source/Emulation.cc:16-88): opcode 0 with an
      arithmetic, `JR` or shift function code. Every write follows the last
      check that can reject the word, so a rejected word leaves the state
      unchanged. `JR` sets the program counter and then advances it like
      every other R-format instruction. */
  function HandleR(m: Memory, w: U32): (out: Outcome)
    requires m.Valid()
    ensures out.memory.Valid()
    ensures out.result == Success || out.result == InvalidInstruction
    ensures out.memory.text == m.text && out.memory.data == m.data
    ensures out.memory.registers[0] == m.registers[0]
    ensures out.result == InvalidInstruction ==> out.memory == m
    ensures out.result == Success <==>
              Opcode(w) == 0 &&
              (DecodeAluFn(Funct(w)).Some? || Funct(w) == JrFunct || DecodeShiftFn(Funct(w)).Some?)
  {
    if Opcode(w) != 0 then Outcome(InvalidInstruction, m)
    else
      var fn := Funct(w);
      match DecodeAluFn(fn)
      case Some(f) =>
        var value := AluResult(f, Register(m, Rs(w)), Register(m, Rt(w)));
        Outcome(Success, AdvancePC(WriteRegister(m, Rd(w), value)))
      case None =>
        if fn == JrFunct then
          Outcome(Success, AdvancePC(WriteRegister(m, PC, Register(m, Rs(w)))))
        else
          match DecodeShiftFn(fn)
          case Some(f) =>
            var value := ShiftResult(f, Register(m, Rt(w)), Shamt(w));
            Outcome(Success, AdvancePC(WriteRegister(m, Rd(w), value)))
          case None => Outcome(InvalidInstruction, m)
  }

  /** `TickHandleI` (Source/Emulation.cc:90-94): not implemented in the
      source; it rejects every word. */
  function HandleI(m: Memory, w: U32): (out: Outcome)
    requires m.Valid()
    ensures out.result == InvalidInstruction && out.memory == m
  {
    Outcome(InvalidInstruction, m)
  }

  /** `TickHandleJ` (Source/Emulation.cc:96-113): `J` and `JAL` set the
      program counter to the 26-bit target times four, dropping the top bits
      of the old program counter and with no further advance; `JAL` first
      stores the address of the next instruction in the link register. */
  function HandleJ(m: Memory, w: U32): (out: Outcome)
    requires m.Valid()
    ensures out.memory.Valid()
    ensures out.result == Success || out.result == InvalidInstruction
    ensures out.memory.text == m.text && out.memory.data == m.data
    ensures out.memory.registers[0] == m.registers[0]
    ensures out.result == InvalidInstruction ==> out.memory == m
    ensures out.result == Success <==> DecodeJumpOp(Opcode(w)).Some?
  {
    match DecodeJumpOp(Opcode(w))
    case Some(J) => Outcome(Success, WriteRegister(m, PC, Target(w) * 4))
    case Some(JAL) =>
      var linked := WriteRegister(m, RA, AddU32(Register(m, PC), 4));
      Outcome(Success, WriteRegister(linked, PC, Target(w) * 4))
    case None => Outcome(InvalidInstruction, m)
  }

  /** The entries of the handler table `_handlers`. */
  datatype Handler = RFormat | IFormat | JFormat

  /** `_handlers` (Source/Emulation.cc:117-121), in the order they are tried. */
  const Handlers: seq<Handler> := [RFormat, IFormat, JFormat]

  function RunHandler(h: Handler, m: Memory, w: U32): (out: Outcome)
    requires m.Valid()
    ensures out.memory.Valid()
    ensures out.result == Success || out.result == InvalidInstruction
    ensures out.memory.text == m.text && out.memory.data == m.data
    ensures out.memory.registers[0] == m.registers[0]
    ensures out.result == InvalidInstruction ==> out.memory == m
  {
    match h
    case RFormat => HandleR(m, w)
    case IFormat => HandleI(m, w)
    case JFormat => HandleJ(m, w)
  }

  /** The loop over the handler table (Source/Emulation.cc:133-139): the
      first handler whose result is not `InvalidInstruction` decides the
      step; each handler sees the state the previous one left. When every
      handler rejects the word, the state is the one the chain started
      from. */
  function RunHandlers(hs: seq<Handler>, m: Memory, w: U32): (out: Outcome)
    requires m.Valid()
    ensures out.memory.Valid()
    ensures out.result == Success || out.result == InvalidInstruction
    ensures out.memory.text == m.text && out.memory.data == m.data
    ensures out.memory.registers[0] == m.registers[0]
    ensures out.result == InvalidInstruction ==> out.memory == m
    ensures out.result == Success <==> exists i :: 0 <= i < |hs| && RunHandler(hs[i], m, w).result == Success
    decreases |hs|
  {
    if |hs| == 0 then Outcome(InvalidInstruction, m)
    else
      var first := RunHandler(hs[0], m, w);
      if first.result != InvalidInstruction then first
      else
        var rest := RunHandlers(hs[1..], first.memory, w);
        assert forall i :: 1 <= i < |hs| ==> hs[i] == hs[1..][i - 1];
        rest
  }

  /** The address an instruction is fetched from: the program counter,
      split as `MakeFromWord` splits it. */
  function FetchAddress(m: Memory): Address
    requires m.Valid()
  {
    MakeFromWord(Register(m, PC))
  }

  /** `Tick` (Source/Emulation.cc:125-145): on a terminated machine,
      `AlreadyTerminated`; if the word at the program counter cannot be
      read, `MemoryOutOfRange`; otherwise the verdict of the handler chain.
      Every failure is a result, never an exception, and any result other
      than `Success` leaves the machine exactly as it was
      (Public/simple-mips-emu/Emulation.hh:34-38). */
  function Tick(m: Memory): (out: Outcome)
    requires m.Valid()
    ensures out.memory.Valid()
    ensures out.result != Success ==> out.memory == m
    ensures out.result != OffsetIsTooSmall
    ensures out.result == AlreadyTerminated <==> IsTerminated(m)
    ensures out.result == MemoryOutOfRange <==> !IsTerminated(m) && GetWord(m, FetchAddress(m)).Err?
    ensures out.memory.text == m.text && out.memory.data == m.data
    ensures out.memory.registers[0] == m.registers[0]
  {
    if IsTerminated(m) then Outcome(AlreadyTerminated, m)
    else
      match GetWord(m, FetchAddress(m))
      case Err(_) => Outcome(MemoryOutOfRange, m)
      case Ok(w) =>
        RunHandlers(Handlers, m, w)
  }
}
