/** Consequences of the step function for particular instructions, and the
    bounded drive loop that repeats it. */
module Steps {
  import opened Wrappers
  import opened Words
  import opened Addresses
  import opened AddressSpace
  import opened Formats
  import opened Emulation
  import opened Decoding

  /** The word fetched at the program counter is `w`. */
  predicate Fetches(m: Memory, w: U32)
    requires m.Valid()
  {
    GetWord(m, FetchAddress(m)) == Ok(w)
  }

  /** A word is rejected exactly when its opcode is neither 0 nor a jump
      opcode, or its opcode is 0 and its function code names no R-format
      operation, `JR` or a shift. */
  lemma DecodeRejects(w: U32)
    ensures Decode(w).None? <==>
      (Opcode(w) != 0 && DecodeJumpOp(Opcode(w)).None?) ||
      (Opcode(w) == 0 && DecodeAluFn(Funct(w)).None? && Funct(w) != JrFunct
                      && DecodeShiftFn(Funct(w)).None?)
  {
  }

  /** The all-zero word decodes as `sll $0, $0, 0`. */
  lemma DecodeZero()
    ensures Decode(0) == Some(Shift(SLL, 0, 0, 0))
  {
    assert Opcode(0) == 0 && Funct(0) == 0 && Rt(0) == 0 && Rd(0) == 0 && Shamt(0) == 0;
    assert DecodeAluFn(0).None?;
  }

  /** Executing `sll $0, $0, 0` only moves the program counter on. */
  lemma ExecuteNop(m: Memory)
    requires m.Valid()
    ensures Execute(m, Shift(SLL, 0, 0, 0)) == AdvancePC(m)
  {
    var v := ShiftResult(SLL, Register(m, 0), 0);
    assert WriteRegister(m, 0, v) == m;
  }

  /** The all-zero word is `sll $0, $0, 0`: it succeeds and only moves the
      program counter on by four. */
  lemma {:induction false} ZeroWordIsNop(m: Memory)
    requires m.Valid() && !IsTerminated(m) && Fetches(m, 0)
    ensures Tick(m) == Outcome(Success, AdvancePC(m))
  {
    TickAgreesWithDecode(m);
    DecodeZero();
    ExecuteNop(m);
  }

  /** Every word with an I-format opcode is rejected, leaving the machine
      untouched. */
  lemma {:induction false} IFormatIsInvalid(m: Memory, op: IOp, w: U32)
    requires m.Valid() && !IsTerminated(m) && Fetches(m, w)
    requires Opcode(w) == IOpcode(op)
    ensures Tick(m) == Outcome(InvalidInstruction, m)
  {
    TickAgreesWithDecode(m);
    IOpcodesAreNotROrJ(op);
  }

  /** An R-format operation writes its destination and moves the program
      counter on by four. */
  lemma {:induction false} TickAlu(m: Memory, f: AluFn, s: RegIndex, t: RegIndex, d: RegIndex)
    requires m.Valid() && !IsTerminated(m) && Fetches(m, Encode(Alu(f, s, t, d)))
    ensures Tick(m).result == Success
    ensures d != 0 ==> Tick(m).memory.registers[d] == AluResult(f, m.registers[s], m.registers[t])
    ensures Tick(m).memory.registers[PC] == AddU32(m.registers[PC], 4)
    ensures forall q :: 0 <= q < PC && q != d ==> Tick(m).memory.registers[q] == m.registers[q]
  {
    TickAgreesWithDecode(m);
    DecodeEncode(Alu(f, s, t, d));
  }

  /** A shift writes its destination and moves the program counter on by
      four. */
  lemma {:induction false} TickShift(m: Memory, f: ShiftFn, t: RegIndex, d: RegIndex, sh: ShiftAmount)
    requires m.Valid() && !IsTerminated(m) && Fetches(m, Encode(Shift(f, t, d, sh)))
    ensures Tick(m).result == Success
    ensures d != 0 ==> Tick(m).memory.registers[d] == ShiftResult(f, m.registers[t], sh)
    ensures Tick(m).memory.registers[PC] == AddU32(m.registers[PC], 4)
    ensures forall q :: 0 <= q < PC && q != d ==> Tick(m).memory.registers[q] == m.registers[q]
  {
    TickAgreesWithDecode(m);
    DecodeEncode(Shift(f, t, d, sh));
  }

  /** `JR rs` sets the program counter to the register's value plus four and
      writes no general register. */
  lemma {:induction false} TickJumpRegister(m: Memory, s: RegIndex)
    requires m.Valid() && !IsTerminated(m) && Fetches(m, Encode(JumpRegister(s)))
    ensures Tick(m).result == Success
    ensures Tick(m).memory.registers[PC] == AddU32(m.registers[s], 4)
    ensures forall q :: 0 <= q < PC ==> Tick(m).memory.registers[q] == m.registers[q]
  {
    TickAgreesWithDecode(m);
    DecodeEncode(JumpRegister(s));
  }

  /** `J target` sets the program counter to the target times four, which
      always lies below the data segment, and writes no general register. */
  lemma {:induction false} TickJump(m: Memory, tg: JumpTarget)
    requires m.Valid() && !IsTerminated(m) && Fetches(m, Encode(Jump(J, tg)))
    ensures Tick(m).result == Success
    ensures Tick(m).memory.registers[PC] == tg * 4 < DataBase
    ensures forall q :: 0 <= q < PC ==> Tick(m).memory.registers[q] == m.registers[q]
  {
    TickAgreesWithDecode(m);
    DecodeEncode(Jump(J, tg));
  }

  /** `JAL target` saves the address of the next word in `$ra` and sets the
      program counter to the target times four. */
  lemma {:induction false} TickJumpAndLink(m: Memory, tg: JumpTarget)
    requires m.Valid() && !IsTerminated(m) && Fetches(m, Encode(Jump(JAL, tg)))
    ensures Tick(m).result == Success
    ensures Tick(m).memory.registers[RA] == AddU32(m.registers[PC], 4)
    ensures Tick(m).memory.registers[PC] == tg * 4
    ensures forall q :: 0 <= q < RA ==> Tick(m).memory.registers[q] == m.registers[q]
  {
    TickAgreesWithDecode(m);
    DecodeEncode(Jump(JAL, tg));
  }

  /** A call by `JAL` followed, at the callee, by `JR $ra` comes back to the
      word after the one following the call: `JR` adds four to the saved
      address, which already points past the call. */
  lemma {:induction false} CallReturnSkipsOne(m: Memory, tg: JumpTarget)
    requires m.Valid() && !IsTerminated(m) && Fetches(m, Encode(Jump(JAL, tg)))
    requires !IsTerminated(Tick(m).memory)
    requires Fetches(Tick(m).memory, Encode(JumpRegister(RA)))
    ensures Tick(Tick(m).memory).result == Success
    ensures Tick(Tick(m).memory).memory.registers[PC] == AddU32(AddU32(m.registers[PC], 4), 4)
  {
    TickJumpAndLink(m, tg);
    TickJumpRegister(Tick(m).memory, RA);
  }

  /** The drive loop: up to `n` steps, stopping early once the program
      counter reaches the end of the text segment or a step fails. The last
      result is reported, `Success` when no step failed; a failed run stops
      at the state its failing step rejects. */
  function Run(m: Memory, n: nat): (out: Outcome)
    requires m.Valid()
    ensures out.memory.Valid()
    ensures out.memory.text == m.text && out.memory.data == m.data
    ensures out.memory.registers[0] == m.registers[0]
    ensures out.result in {Success, InvalidInstruction, MemoryOutOfRange}
    ensures out.result != Success ==> !IsTerminated(out.memory) && Tick(out.memory) == Outcome(out.result, out.memory)
    decreases n
  {
    if n == 0 || IsTerminated(m) then Outcome(Success, m)
    else
      var o := Tick(m);
      if o.result != Success then o else Run(o.memory, n - 1)
  }
}
