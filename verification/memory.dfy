/** The machine state of Public/simple-mips-emu/Memory.hh and
    Source/Memory.cc: a register file of `NumRegisters + 1` slots (the last
    one is the program counter) and two fixed-size byte segments. Every
    accessor that throws `std::out_of_range` in the source returns `Err` here
    and leaves the state as it was. */
module AddressSpace {
  import opened Wrappers
  import opened Words
  import opened Addresses

  /** Number of registers except for the program counter. */
  const NumRegisters: nat := 32

  /** Register-file slot of the program counter. */
  const PC: nat := 32

  /** The link register written by `jal`. */
  const RA: nat := 31

  /** `std::out_of_range`, the only error the accessors raise. */
  datatype MemoryError = OutOfRange

  /** `Memory`: the register file and the text and data segments. The
      source's `_textSize`/`_dataSize` always equal the segment lengths, so
      they are not stored twice. */
  datatype Memory = Memory(registers: seq<U32>, text: seq<U8>, data: seq<U8>)
  {
    /** The shape every `Memory` has: 33 register slots, and segment sizes
        that were given as `uint32_t`. */
    predicate Valid()
    {
      |registers| == NumRegisters + 1 && |text| < WordModulus && |data| < WordModulus
    }
  }

  /** The segment an address tag selects (`GetSegmentByBase`). */
  function Segment(m: Memory, b: Base): seq<U8>
  {
    match b
    case Text => m.text
    case Data => m.data
  }

  /** `m` with the segment selected by `b` replaced. */
  function WithSegment(m: Memory, b: Base, s: seq<U8>): (m': Memory)
    ensures Segment(m', b) == s
    ensures m'.registers == m.registers
    ensures b == Text ==> m'.data == m.data
    ensures b == Data ==> m'.text == m.text
  {
    match b
    case Text => m.(text := s)
    case Data => m.(data := s)
  }

  /** The constructor `Memory(textSize, dataSize)` (Source/Memory.cc:57-66):
      both segments zero-filled at exactly the given sizes, every register
      zero except the program counter, which holds the flattened start of
      the text segment. */
  function New(textSize: U32, dataSize: U32): (m: Memory)
    ensures m.Valid()
    ensures |m.text| == textSize && |m.data| == dataSize
    ensures forall i :: 0 <= i < |m.text| ==> m.text[i] == 0
    ensures forall i :: 0 <= i < |m.data| ==> m.data[i] == 0
    ensures forall r :: 0 <= r < NumRegisters ==> m.registers[r] == 0
    ensures m.registers[PC] == Flatten(MakeText(0)) == 0x40_0000
  {
    Memory(seq(NumRegisters, _ => 0) + [Flatten(MakeText(0))],
           seq(textSize, _ => 0), seq(dataSize, _ => 0))
  }

  /** `Memory::IsTerminated` (Source/Memory.cc:68-71): the program counter
      equals the flattened end of the text segment. It is an equality test,
      so a program counter beyond the end does not count. */
  predicate IsTerminated(m: Memory)
    requires m.Valid()
    ensures |m.text| < 0x0FC0_0000 ==>
              (IsTerminated(m) <==> MakeFromWord(m.registers[PC]) == MakeText(|m.text|))
  {
    FlattenMakeFromWord(m.registers[PC]);
    m.registers[PC] == Flatten(MakeText(|m.text|))
  }

  /** `Memory::Load` (Source/Memory.cc:73-77): copies the first
      `min(|buffer|, |segment|)` bytes of the buffer over the start of the
      segment; the rest of the segment, its size, the other segment and the
      registers are untouched. */
  function Load(m: Memory, b: Base, buffer: seq<U8>): (m': Memory)
    requires m.Valid()
    ensures m'.Valid()
    ensures m'.registers == m.registers
    ensures |Segment(m', b)| == |Segment(m, b)|
    ensures forall i :: 0 <= i < |Segment(m, b)| && i < |buffer| ==> Segment(m', b)[i] == buffer[i]
    ensures forall i :: |buffer| <= i < |Segment(m, b)| ==> Segment(m', b)[i] == Segment(m, b)[i]
    ensures b == Text ==> m'.data == m.data
    ensures b == Data ==> m'.text == m.text
  {
    var segment := Segment(m, b);
    var n := if |buffer| < |segment| then |buffer| else |segment|;
    WithSegment(m, b, buffer[..n] + segment[n..])
  }

  /** A machine built from two byte buffers, as the tests build it: the
      size constructor followed by a `Load` of each segment. */
  function FromBuffers(text: seq<U8>, data: seq<U8>): (m: Memory)
    requires |text| < WordModulus && |data| < WordModulus
    ensures m.Valid()
    ensures m.text == text && m.data == data
    ensures forall r :: 0 <= r < NumRegisters ==> m.registers[r] == 0
    ensures m.registers[PC] == Flatten(MakeText(0))
  {
    Load(Load(New(|text|, |data|), Text, text), Data, data)
  }

  /** Reading a register slot that exists. */
  function Register(m: Memory, r: nat): U32
    requires m.Valid() && r <= PC
  {
    m.registers[r]
  }

  /** `Memory::GetRegister` (Source/Memory.cc:79-82): slots 0 to 32, the
      last being the program counter; any other index is out of range. */
  function GetRegister(m: Memory, r: nat): (v: Result<U32, MemoryError>)
    requires m.Valid()
    ensures v.Ok? <==> r <= PC
    ensures v.Ok? ==> v.value == m.registers[r]
  {
    if r <= PC then Ok(Register(m, r)) else Err(OutOfRange)
  }

  /** Writing a register slot that exists; register 0 ignores the write. */
  function WriteRegister(m: Memory, r: nat, v: U32): (m': Memory)
    requires m.Valid() && r <= PC
    ensures m'.Valid()
    ensures m'.text == m.text && m'.data == m.data
    ensures r != 0 ==> m'.registers[r] == v
    ensures forall q :: 0 <= q <= PC && q != r ==> m'.registers[q] == m.registers[q]
    ensures r == 0 ==> m' == m
  {
    if r == 0 then m else m.(registers := m.registers[r := v])
  }

  /** `Memory::SetRegister` (Source/Memory.cc:84-88): a write to register 0
      is a no-op, an index past the program counter is out of range. */
  function SetRegister(m: Memory, r: nat, v: U32): (res: Result<Memory, MemoryError>)
    requires m.Valid()
    ensures res.Ok? <==> r <= PC
    ensures res.Ok? ==> res.value.Valid()
  {
    if r <= PC then Ok(WriteRegister(m, r, v)) else Err(OutOfRange)
  }

  /** `AdvancePC`: the program counter moves on by one word, wrapping
      modulo 2^32. */
  function AdvancePC(m: Memory): (m': Memory)
    requires m.Valid()
    ensures m'.Valid()
    ensures m'.registers[PC] == AddU32(m.registers[PC], 4)
    ensures forall q :: 0 <= q < PC ==> m'.registers[q] == m.registers[q]
    ensures m'.text == m.text && m'.data == m.data
  {
    WriteRegister(m, PC, AddU32(m.registers[PC], 4))
  }

  /** `Memory::GetByte` (Source/Memory.cc:90-93): bounds-checked by `at`. */
  function GetByte(m: Memory, a: Address): (r: Result<U8, MemoryError>)
    requires m.Valid()
    ensures r.Ok? <==> a.offset < |Segment(m, a.base)|
    ensures r.Ok? ==> r.value == Segment(m, a.base)[a.offset]
  {
    var segment := Segment(m, a.base);
    if a.offset < |segment| then Ok(segment[a.offset]) else Err(OutOfRange)
  }

  /** `Memory::SetByte` (Source/Memory.cc:95-98): bounds-checked by `at`. */
  function SetByte(m: Memory, a: Address, b: U8): (r: Result<Memory, MemoryError>)
    requires m.Valid()
    ensures r.Ok? <==> a.offset < |Segment(m, a.base)|
    ensures r.Ok? ==> r.value.Valid() && r.value.registers == m.registers
  {
    var segment := Segment(m, a.base);
    if a.offset < |segment| then Ok(WithSegment(m, a.base, segment[a.offset := b]))
    else Err(OutOfRange)
  }

  /** `Memory::GetWord` (Source/Memory.cc:100-115): the four bytes at
      `offset .. offset + 3` composed most significant first; it throws
      when `offset + 3 >= size`, so it succeeds exactly when all four bytes
      lie inside the segment. */
  function GetWord(m: Memory, a: Address): (r: Result<U32, MemoryError>)
    requires m.Valid()
    ensures r.Ok? <==> a.offset + 4 <= |Segment(m, a.base)|
    ensures r.Ok? ==> BigEndianBytes(r.value) == Segment(m, a.base)[a.offset..a.offset + 4]
  {
    var segment := Segment(m, a.base);
    if a.offset + 3 >= |segment| then Err(OutOfRange)
    else
      BigEndianBytesOfWordAt(segment, a.offset);
      Ok(WordAt(segment, a.offset))
  }

  /** The bounds test `Memory::SetWord` performs (Source/Memory.cc:120):
      it throws only when `offset + 3 > size`. */
  predicate SetWordGuardAsWritten(offset: U32, size: nat)
  {
    !(offset + 3 > size)
  }

  /** The guard as written lets through a write whose last byte lies one
      past the end of the segment: in a four-byte segment, a word at offset
      1 is accepted and its fourth byte goes to index 4. In general the
      offset `size - 3` passes the guard in any segment of at least three
      bytes, while the corrected `SetWord` refuses it. */
  lemma SetWordGuardOffByOne(m: Memory, b: Base, w: U32)
    requires m.Valid() && |Segment(m, b)| >= 3
    ensures var a := Address(b, |Segment(m, b)| - 3);
            SetWordGuardAsWritten(a.offset, |Segment(m, b)|) && SetWord(m, a, w) == Err(OutOfRange)
  {
  }

  /** `Memory::SetWord` (Source/Memory.cc:117-129) with the bounds test
      `GetWord` uses: the word is stored big-endian in bytes
      `offset .. offset + 3` when all four lie inside the segment. */
  function SetWord(m: Memory, a: Address, w: U32): (r: Result<Memory, MemoryError>)
    requires m.Valid()
    ensures r.Ok? <==> a.offset + 4 <= |Segment(m, a.base)|
    ensures r.Ok? ==> r.value.Valid() && r.value.registers == m.registers
    ensures r.Ok? ==> |Segment(r.value, a.base)| == |Segment(m, a.base)|
  {
    var segment := Segment(m, a.base);
    var o := a.offset;
    if o + 4 > |segment| then Err(OutOfRange)
    else Ok(WithSegment(m, a.base, segment[..o] + BigEndianBytes(w) + segment[o + 4..]))
  }

  /** The corrected guard admits exactly the writes whose four bytes are
      inside the segment, unlike the guard as written. */
  lemma SetWordGuardCorrected(m: Memory, a: Address, w: U32)
    requires m.Valid()
    ensures SetWord(m, a, w).Ok? ==> SetWordGuardAsWritten(a.offset, |Segment(m, a.base)|)
    ensures SetWord(m, a, w).Ok? ==> a.offset + 3 < |Segment(m, a.base)|
  {
  }

  /** A fresh machine is terminated exactly when its text segment is empty. */
  lemma NewTerminatedIffEmptyText(textSize: U32, dataSize: U32)
    ensures IsTerminated(New(textSize, dataSize)) <==> textSize == 0
  {
  }

  /** A program counter one word past the end of the text segment is not
      "terminated": only the exact end is. */
  lemma PastEndIsNotTerminated(m: Memory)
    requires m.Valid() && |m.text| + 4 < WordModulus
    requires m.registers[PC] == Flatten(MakeText(|m.text| + 4))
    ensures !IsTerminated(m)
  {
  }

  /** Writing register `r` (1 to 32) and reading it back gives the value
      written; no other slot and neither segment changes. */
  lemma SetThenGetRegister(m: Memory, r: nat, v: U32)
    requires m.Valid() && 1 <= r <= PC
    ensures SetRegister(m, r, v).Ok?
    ensures var m' := SetRegister(m, r, v).value;
            && GetRegister(m', r) == Ok(v)
            && (forall q :: 0 <= q <= PC && q != r ==> GetRegister(m', q) == GetRegister(m, q))
            && m'.text == m.text && m'.data == m.data
  {
  }

  /** Writing register 0 changes nothing: it keeps reading what it read. */
  lemma SetRegisterZeroIgnored(m: Memory, v: U32)
    requires m.Valid()
    ensures SetRegister(m, 0, v) == Ok(m)
  {
  }

  /** Writing a byte and reading it back gives the byte; every other
      address reads as before. */
  lemma SetThenGetByte(m: Memory, a: Address, b: U8)
    requires m.Valid() && a.offset < |Segment(m, a.base)|
    ensures SetByte(m, a, b).Ok?
    ensures var m' := SetByte(m, a, b).value;
            && GetByte(m', a) == Ok(b)
            && forall a' :: a' != a ==> GetByte(m', a') == GetByte(m, a')
  {
  }

  /** Writing a word and reading it back at the same address gives the word;
      every byte outside the four written ones, and the other segment, stay
      as they were. */
  lemma SetThenGetWord(m: Memory, a: Address, w: U32)
    requires m.Valid() && a.offset + 4 <= |Segment(m, a.base)|
    ensures SetWord(m, a, w).Ok?
    ensures var m' := SetWord(m, a, w).value;
            && GetWord(m', a) == Ok(w)
            && (forall i :: 0 <= i < |Segment(m, a.base)| && (i < a.offset || i >= a.offset + 4) ==>
                  Segment(m', a.base)[i] == Segment(m, a.base)[i])
            && (a.base == Text ==> m'.data == m.data)
            && (a.base == Data ==> m'.text == m.text)
  {
    var segment := Segment(m, a.base);
    var o := a.offset;
    WordAtBigEndianBytes(segment[..o], w, segment[o + 4..]);
  }
}
