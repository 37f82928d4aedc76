# simple-mips-emu in Dafny

A model of the core of `simple-mips-emu`, a small emulator for a subset of
32-bit MIPS. The model covers five parts:

- the machine state: `Address` and `Memory`, a register file of 32 general
  registers plus the program counter, and two fixed-size byte segments,
  text at `0x400000` and data at `0x10000000`;
- the instruction tables of `Formats.hh`;
- the single-step function `Tick` with its three format handlers;
- the word-literal parser `ParseWord`;
- the object-file reader `ReadFile` on a stream, with `MakeBytesFromWords`.

Everything is pure. A `Memory` is an immutable value. Each operation that
mutates it in place in the source returns the new value here. Each
operation that throws `std::out_of_range` returns `Err` and leaves the state
untouched. `uint32_t` and `uint8_t` are bounded integers (`Words.U32`,
`Words.U8`), and wrap-around is written out modulo 2^32.

On top of the operations the model gives a reference reading of one
step. A word is decoded into a structured `Decoding.Instruction` and then
executed (`Decoding.Execute`). The source's handler chain is proved to
compute exactly that. Decoding is proved to invert encoding, and the
effect of every instruction kind on a running machine is proved as a
lemma.

Modules, in dependency order:

- `Wrappers`: `Option` and `Result`.
- `Words`: `U8`/`U32`, wrapping add and subtract, big-endian bytes.
- `Hex`: `ParseWord`.
- `Addresses`: `Address`, `MakeFromWord`, `Address::Parse`.
- `AddressSpace`: `Memory`.
- `Formats`: the opcode and function-code tables.
- `Emulation`: the handlers and `Tick`.
- `Decoding`: the reference reading of a step.
- `Steps`: per-instruction consequences and the bounded drive loop.
- `ObjectFile`: `ReadFile`.
- `Loading`: reading a file and loading its image into a machine.

Where the source and its accompanying documentation disagree, the model
follows the source:

- `IsTerminated` is an equality test on the program counter, not `>=`.
- `J` and `JAL` set the program counter to the target times four. They
  drop its top four bits and do not advance it afterwards.
- `JR` sets the program counter to the register and then advances it by
  four, so a return through `JR $ra` lands one word after the
  instruction following the `JAL`.
- The I-format handler is a stub that rejects every word.
- The constructor takes segment sizes. A machine "built from buffers" is
  `New(|text|, |data|)` followed by one `Load` per segment
  (`AddressSpace.FromBuffers`).
- The source makes the reader's header check in 32-bit arithmetic, and both
  the sum and the product can wrap around. The model compares the exact
  values (see Findings).
- `Public/simple-mips-emu/File.hh` declares a `CanRead` with sizes and word
  vectors. `Source/File.cc` builds it from two byte buffers, and the model
  follows `File.cc` (`ObjectFile.Image`).

`Memory::PC`, `Memory::RA` and `Memory::AdvancePC` are used by
`Source/Emulation.cc`, but their declarations are not part of this model's
source. The model takes `PC` to be register-file slot 32, `RA` to be
register 31, and `AdvancePC` to add 4 to the program counter modulo 2^32.

## Model

| member | source | states |
|---|---|---|
| Words.AddU32 | Source/Emulation.cc:42 | `uint32_t` addition: the exact sum when it fits, the sum minus 2^32 when it does not |
| Words.SubU32 | Source/Emulation.cc:43 | `uint32_t` subtraction is the inverse of wrapping addition: adding `b` back to `a - b` gives `a` |
| Words.BigEndianBytes | Source/Memory.cc:125-128 | a word splits into exactly four bytes, and composing them most significant first gives the word back |
| Words.BigEndianBytesOfWordAt | Source/Memory.cc:106-114 | the big-endian bytes of the word read at an offset are the four bytes at that offset |
| Words.SplitCompose | Source/Memory.cc:109-112 | composing four bytes big-endian and splitting the word again gives the same four bytes |
| Words.WordAtBigEndianBytes | Source/Memory.cc:106-114 | the word read big-endian at the start of a word's serialisation is that word, whatever surrounds it |
| Words.BitAnd | Source/Emulation.cc:44 | bitwise AND of two `n`-bit values is at most either operand |
| Words.Bit | Source/Emulation.cc:44-46 | a bit of a value is 0 or 1 |
| Words.BitValue | Source/Emulation.cc:44-46 | bit `i` of `x` is the low bit of `x / 2^i` |
| Words.BitsDetermine | Source/Emulation.cc:44-46 | two `n`-bit values with the same `n` bits are the same value |
| Words.BitAndBit | Source/Emulation.cc:44 | bit `i` of an `n`-bit AND is set exactly when bit `i` is set in both operands |
| Words.BitOrBit | Source/Emulation.cc:46 | bit `i` of an `n`-bit OR is set exactly when bit `i` is set in either operand |
| Words.ComplementBit | Source/Emulation.cc:45 | subtracting from the all-ones `n`-bit value flips every bit, which is `~` |
| Words.BitOr | Source/Emulation.cc:46 | bitwise OR of two `n`-bit values is at least either operand and still fits in `n` bits |
| Words.AndPlusOr | Source/Emulation.cc:44-46 | bitwise AND and OR of the same `n`-bit values add up to their sum |
| Words.AndWord | Source/Emulation.cc:44 | `&` on `uint32_t`: each of the 32 bits of the result is set exactly when it is set in both operands, and the result is no larger than either operand |
| Words.OrWord | Source/Emulation.cc:46 | `\|` on `uint32_t`: each of the 32 bits of the result is set exactly when it is set in either operand, and the result is no smaller than either operand |
| Words.NorWord | Source/Emulation.cc:45 | `~(a \| b)` on `uint32_t`: each of the 32 bits of the result is set exactly when it is clear in both operands |
| Words.AndOrWordSum | Source/Emulation.cc:44-46 | on words, `&` plus `\|` equals the sum of the operands |
| Hex.HexChar | Source/Common.cc:12 | each value below 16 has a digit of the pattern's class whose value is that number |
| Hex.DigitValue | Source/Common.cc:20 | a hexadecimal digit is worth less than 16 |
| Hex.HexValue | Source/Common.cc:20 | `stoull` base 16 on `k` digits gives a value below 16^k |
| Hex.HexValueLeadingZero | Source/Common.cc:20 | a leading zero digit does not change the value `stoull` reads |
| Hex.ToHex | Source/Common.cc:12 | every number renders as a non-empty string of digits of the pattern's class |
| Hex.HexValueOfToHex | Source/Common.cc:20 | `stoull` base 16 reads the rendering of any number back as that number |
| Hex.Spaces | Source/Common.cc:12 | the ` *` padding: a run of exactly `k` blanks |
| Hex.TrimLeft | Source/Common.cc:12 | the leading ` *` is removed: the result is a suffix of the line that does not start with a blank |
| Hex.TrimRight | Source/Common.cc:12 | the trailing ` *` is removed: the result is a prefix of the line that does not end with a blank |
| Hex.TrimLeftSplit | Source/Common.cc:12 | what the leading trim removes is a run of blanks only |
| Hex.TrimRightSplit | Source/Common.cc:12 | what the trailing trim removes is a run of blanks only |
| Hex.TrimLeftPadded | Source/Common.cc:12 | blanks put in front of a non-blank-led string are exactly what the leading trim removes |
| Hex.TrimRightPadded | Source/Common.cc:12 | blanks put after a non-blank-ended string are exactly what the trailing trim removes |
| Hex.TrimPadded | Source/Common.cc:12 | a blank-padded word with non-blank ends trims back to the word |
| Hex.TrimSplit | Source/Common.cc:12 | every line is its leading blanks, its trimmed body and its trailing blanks |
| Hex.ParseWord | Source/Common.cc:10-31 | accepts exactly the lines whose trimmed body is `0x` followed by hex digits worth at most 0xFFFFFFFF, and yields the value of those digits |
| Hex.ParseWordComplete | Source/Common.cc:12-25 | every blank-padded `0x` literal is accepted with its value when the value fits in 32 bits, and rejected when it does not |
| Hex.ParseWordSound | Source/Common.cc:12-25 | everything accepted has the shape blanks, `0x`, digits, blanks, and its value is the value of those digits |
| Hex.ParseWordRoundTrip | Source/Common.cc:10-31 | rendering any 32-bit value as a padded `0x` literal and parsing it gives the value back |
| Hex.ParseWordAlphabet | Source/Common.cc:12-16 | every character of an accepted line is a blank, the `x` of the prefix or a hex digit |
| Hex.ParseWordRejectsForeign | Source/Common.cc:12-16 | a line holding any other character, such as a tab, a carriage return or a sign, is rejected |
| Hex.ParseWordNeedsDigits | Source/Common.cc:12 | `0x` without digits is rejected, however it is padded |
| Addresses.MakeText | Public/simple-mips-emu/Memory.hh:29-32 | builds a text-segment address with the given offset |
| Addresses.MakeData | Public/simple-mips-emu/Memory.hh:34-37 | builds a data-segment address with the given offset |
| Addresses.Flatten | Public/simple-mips-emu/Memory.hh:57-60 | the flat 32-bit value of an address is base plus offset, modulo 2^32 |
| Addresses.MakeFromWord | Public/simple-mips-emu/Memory.hh:39-45 | values at or above 0x10000000 are data offsets from that base; all other values are text offsets, which wrap around below 0x400000 |
| Addresses.MoveToNext | Public/simple-mips-emu/Memory.hh:52-55 | the next word stays in the same segment, with the offset advanced by four modulo 2^32 |
| Addresses.FlattenMakeFromWord | Public/simple-mips-emu/Memory.hh:39-45 | flattening undoes `MakeFromWord` for every 32-bit value |
| Addresses.MakeFromWordFlatten | Public/simple-mips-emu/Memory.hh:39-60 | `MakeFromWord` undoes flattening exactly for data offsets up to 0xEFFFFFFF and for text offsets below 0x0FC00000 or from 0xFFC00000 on |
| Addresses.FlattenMoveToNext | Public/simple-mips-emu/Memory.hh:52-60 | moving to the next word moves the flat value by four, modulo 2^32 |
| Addresses.ParseAddress | Source/Memory.cc:9-35 | accepts exactly `0x` followed by digits of `[0-9a-dA-D]` worth at most 0xFFFFFFFF; the flat value of the address is the value of the digits, and the address is in the data segment exactly when that value is at least 0x10000000 |
| Addresses.ParseAddressFixed | Source/Memory.cc:9-35 | the corrected parser accepts exactly the unpadded word literals, with the same flat value, in the data segment exactly when that value is at least 0x10000000 |
| Addresses.ParseAddressRejectsDigitF | Source/Memory.cc:11 | `0x1000000f` is rejected as written, while the corrected parser reads it as data offset 15 |
| Addresses.ParseAddressFixedRoundTrip | Source/Memory.cc:9-35 | the corrected parser reads back every address value rendered as `0x` and lower-case digits |
| Addresses.ParseAddressRefinesFixed | Source/Memory.cc:9-35 | whatever the parser as written accepts, the corrected one accepts with the same address |
| AddressSpace.WithSegment | Source/Memory.cc:37-55 | replacing the segment a base selects changes that segment only and keeps the registers |
| AddressSpace.New | Source/Memory.cc:57-66 | both segments are zero-filled at exactly the given sizes, all 32 registers are zero, and the program counter is 0x400000 |
| AddressSpace.Load | Source/Memory.cc:73-77 | the first `min(|buffer|, size)` bytes of the segment are the buffer's, the rest are kept, the size and the other segment are unchanged |
| AddressSpace.FromBuffers | Source/Memory.cc:57-77 | a machine built from two buffers holds exactly those buffers as segments, with zero registers and the program counter at the text start |
| AddressSpace.GetRegister | Source/Memory.cc:79-82 | succeeds exactly for slots 0 to 32, with the slot's value |
| AddressSpace.WriteRegister | Source/Memory.cc:84-88 | writes slot `r` only, and a write to register 0 leaves the machine unchanged |
| AddressSpace.SetRegister | Source/Memory.cc:84-88 | succeeds exactly for slots 0 to 32 and keeps the machine well-formed |
| AddressSpace.AdvancePC | Source/Emulation.cc:51 | the program counter moves on by four modulo 2^32, and nothing else changes |
| AddressSpace.GetByte | Source/Memory.cc:90-93 | succeeds exactly for offsets inside the segment, with the byte there |
| AddressSpace.SetByte | Source/Memory.cc:95-98 | succeeds exactly for offsets inside the segment and keeps the registers |
| AddressSpace.GetWord | Source/Memory.cc:100-115 | succeeds exactly when all four bytes lie inside the segment, and the word's big-endian bytes are those four bytes |
| AddressSpace.SetWordGuardOffByOne | Source/Memory.cc:117-121 | in any segment of at least three bytes, the guard as written admits offset `size - 3`, whose fourth byte lies one past the end, while the corrected `SetWord` refuses that write with `OutOfRange` |
| AddressSpace.SetWord | Source/Memory.cc:117-129 | with the corrected guard: succeeds exactly when all four bytes fit, and keeps the registers and the segment size |
| AddressSpace.SetWordGuardCorrected | Source/Memory.cc:117-121 | every write the corrected guard admits is also admitted as written, and stays inside the segment |
| AddressSpace.IsTerminated | Source/Memory.cc:68-71 | while the text end is a text address, a machine is terminated exactly when its program counter, read as an address, is the text address at the end of the text |
| AddressSpace.NewTerminatedIffEmptyText | Source/Memory.cc:57-71 | a fresh machine is terminated exactly when its text segment is empty |
| AddressSpace.PastEndIsNotTerminated | Source/Memory.cc:68-71 | a program counter one word past the end of the text is not terminated |
| AddressSpace.SetThenGetRegister | Source/Memory.cc:79-88 | a value written to registers 1 to 32 reads back, and no other slot and neither segment changes |
| AddressSpace.SetRegisterZeroIgnored | Source/Memory.cc:84-88 | writing register 0 leaves the machine exactly as it was |
| AddressSpace.SetThenGetByte | Source/Memory.cc:90-98 | a byte written reads back, and every other address reads as before |
| AddressSpace.SetThenGetWord | Source/Memory.cc:100-129 | a word written reads back at the same address; bytes outside the four written and the other segment are unchanged |
| Formats.AluFnCode | Public/simple-mips-emu/Formats.hh:9-17 | each arithmetic function's code is a 6-bit value that decodes back to the function |
| Formats.DecodeAluFn | Public/simple-mips-emu/Formats.hh:9-17 | only the six `RFormatFn` codes decode to a function |
| Formats.ShiftFnCode | Public/simple-mips-emu/Formats.hh:24-28 | each shift's code is a 6-bit value that decodes back to the shift |
| Formats.DecodeShiftFn | Public/simple-mips-emu/Formats.hh:24-28 | only the codes 0x00 and 0x02 decode to a shift |
| Formats.JumpOpcode | Public/simple-mips-emu/Formats.hh:57-61 | each jump opcode is a non-zero 6-bit value that decodes back to the jump |
| Formats.DecodeJumpOp | Public/simple-mips-emu/Formats.hh:57-61 | only the opcodes 0x02 and 0x03 decode to a jump |
| Formats.IOpcode | Public/simple-mips-emu/Formats.hh:30-55 | every I-format opcode fits in the 6-bit opcode field |
| Formats.CodesInjective | Public/simple-mips-emu/Formats.hh:9-61 | distinct operations of one table have distinct codes |
| Formats.FunctionFamiliesDisjoint | Public/simple-mips-emu/Formats.hh:9-28 | no arithmetic, `JR` or shift function code coincides with another family's |
| Formats.IOpcodesAreNotROrJ | Public/simple-mips-emu/Formats.hh:30-61 | no I-format opcode is 0 or a jump opcode |
| Emulation.Opcode | Source/Emulation.cc:18 | the opcode field is a 6-bit value |
| Emulation.Funct | Source/Emulation.cc:22 | the function field is a 6-bit value |
| Emulation.Rs | Source/Emulation.cc:32 | the first source field is a register number below 32 |
| Emulation.Rt | Source/Emulation.cc:33 | the second source field is a register number below 32 |
| Emulation.Rd | Source/Emulation.cc:34 | the destination field is a register number below 32 |
| Emulation.Shamt | Source/Emulation.cc:70 | the shift amount is below 32 |
| Emulation.Target | Source/Emulation.cc:99 | the jump target is a 26-bit value |
| Emulation.AluResult | Source/Emulation.cc:40-49 | `addu` is undone by subtraction and `subu` by addition, modulo 2^32; each bit of `and` is set exactly when it is set in both operands, of `or` when it is set in either, of `nor` when it is clear in both; `sltu` is 1 exactly when the first operand is below the second and 0 otherwise |
| Emulation.AluBitsDetermine | Source/Emulation.cc:44-46 | a word whose 32 bits follow the rule of `and`, `or` or `nor` is that result, so the bit rules pin the value down |
| Emulation.AndOrSum | Source/Emulation.cc:44-46 | the `and` and `or` of the same operands add up to the operands' sum |
| Emulation.NorComplementsOr | Source/Emulation.cc:45-46 | `nor` and `or` of the same operands add up to the all-ones word, so each bit is set in exactly one of them |
| Emulation.ShiftLeft | Source/Emulation.cc:77 | a left shift by zero is the identity, and a left shift by any other amount leaves the low bit clear |
| Emulation.ShiftRight | Source/Emulation.cc:78 | a logical right shift never increases the value, and by one place or more it clears the top bit |
| Emulation.ShiftLeftValue | Source/Emulation.cc:77 | a left shift by `s` places is multiplication by 2^s modulo 2^32 |
| Emulation.ShiftRightValue | Source/Emulation.cc:78 | a logical right shift by `s` places is division by 2^s, rounding down |
| Emulation.ShiftLeftThenRight | Source/Emulation.cc:77-78 | shifting left by one and back right drops exactly the top bit |
| Emulation.ShiftResult | Source/Emulation.cc:75-80 | `sll` by `s` places is the operand times 2^s modulo 2^32, and `srl` is the operand divided by 2^s, rounded down |
| Emulation.HandleR | Source/Emulation.cc:16-88 | succeeds exactly for opcode 0 with an arithmetic, `JR` or shift function code; a rejected word changes nothing; segments and register 0 are untouched |
| Emulation.HandleI | Source/Emulation.cc:90-94 | rejects every word and changes nothing |
| Emulation.HandleJ | Source/Emulation.cc:96-113 | succeeds exactly for the `J` and `JAL` opcodes; a rejected word changes nothing; segments and register 0 are untouched |
| Emulation.RunHandler | Source/Emulation.cc:117-121 | every handler table entry only succeeds or rejects, and a rejection changes nothing |
| Emulation.RunHandlers | Source/Emulation.cc:133-141 | the chain succeeds exactly when some handler accepts the word, and a word every handler rejects leaves the state as it was |
| Emulation.Tick | Source/Emulation.cc:125-145 | `AlreadyTerminated` exactly on a terminated machine; `MemoryOutOfRange` exactly when the word at the program counter cannot be read; never `OffsetIsTooSmall`; any result but `Success` leaves the machine unchanged; segments and register 0 are never changed |
| Decoding.Decode | Source/Emulation.cc:16-113 | a word decodes to a jump exactly when its opcode is a jump opcode; every other instruction has opcode 0 |
| Decoding.FieldsOfComposed | Source/Emulation.cc:18-34 | the field extractors recover each of six in-range fields packed into a word |
| Decoding.DecodeEncode | Source/Emulation.cc:16-113 | decoding the encoding of any instruction gives the instruction back |
| Decoding.Destination | Source/Emulation.cc:50-108 | an instruction writes at most one general register |
| Decoding.Execute | Source/Emulation.cc:36-110 | the destination gets the arithmetic or shift result and the program counter advances by four; `JR` sets it to the register plus four; jumps set it to the target times four, below the data segment; `JAL` links the next address; no other register changes |
| Decoding.HandlersAgreeWithDecode | Source/Emulation.cc:16-141 | the handler chain executes exactly the decoded instruction, and rejects with the state unchanged exactly the words that do not decode |
| Decoding.TickAgreesWithDecode | Source/Emulation.cc:125-145 | on a running machine whose next word can be read, `Tick` is decode followed by execute |
| Steps.DecodeRejects | Source/Emulation.cc:18-20 | a word is rejected exactly when its opcode is neither 0 nor a jump, or it is 0 with an unknown function code |
| Steps.DecodeZero | Public/simple-mips-emu/Formats.hh:24-28 | the all-zero word is `sll $0, $0, 0` |
| Steps.ExecuteNop | Source/Emulation.cc:65-85 | `sll $0, $0, 0` only advances the program counter |
| Steps.ZeroWordIsNop | Source/Emulation.cc:65-85 | stepping over a zero word succeeds and only advances the program counter |
| Steps.IFormatIsInvalid | Source/Emulation.cc:90-94 | a word with any I-format opcode is rejected and the machine is unchanged |
| Steps.TickAlu | Source/Emulation.cc:30-54 | an arithmetic instruction succeeds, writes its result to `rd` (unless `rd` is 0), advances the program counter by four and changes no other register |
| Steps.TickShift | Source/Emulation.cc:65-85 | a shift succeeds, writes its result to `rd` (unless `rd` is 0), advances the program counter by four and changes no other register |
| Steps.TickJumpRegister | Source/Emulation.cc:55-64 | `jr rs` sets the program counter to the register's value plus four and writes no general register |
| Steps.TickJump | Source/Emulation.cc:100-104 | `j` sets the program counter to the target times four, which is below the data segment, and writes no general register |
| Steps.TickJumpAndLink | Source/Emulation.cc:105-110 | `jal` stores the program counter plus four in `$ra` and sets the program counter to the target times four |
| Steps.CallReturnSkipsOne | Source/Emulation.cc:55-64 | a `jal` followed at the callee by `jr $ra` continues eight bytes after the call |
| Steps.Run | Source/Main.cc:151-156 | a bounded run never changes the segments or register 0; a failed run stops at a running machine whose next step fails the same way |
| ObjectFile.IsSpace | Source/File.cc:58 | `isspace` holds exactly for blank, tab, line feed, vertical tab, form feed and carriage return |
| ObjectFile.FirstNonSpace | Source/File.cc:58-59 | the position `find_if` reaches: every character before it is white space, and the character there, if any, is not |
| ObjectFile.IsBlank | Source/File.cc:58-60 | a line is skipped exactly when the search for a character that is not white space reaches its end |
| ObjectFile.WordLineIsNotBlank | Source/File.cc:58-62 | a line that parses as a word is never skipped as blank |
| ObjectFile.WordLines | Source/File.cc:58-60 | the word-carrying lines are non-blank lines of the input, no more of them than there are lines |
| ObjectFile.WordLinesComplete | Source/File.cc:58-65 | every non-blank line is among the word-carrying lines |
| ObjectFile.WordLinesAppend | Source/File.cc:56-65 | the word-carrying lines of two runs of lines laid end to end are those of the first run followed by those of the second, and a single line is kept exactly when it is not blank, so the lines keep their order |
| ObjectFile.MakeBytesFromWords | Source/File.cc:15-34 | four bytes per word |
| ObjectFile.MakeBytesFromWordsAppend | Source/File.cc:15-34 | serialising a concatenation of word lists concatenates their serialisations |
| ObjectFile.WordAtMakeBytes | Source/File.cc:15-34 | bytes `4i` to `4i+3` of a serialisation are word `i` big-endian, and reading them as a word gives word `i` back |
| ObjectFile.CollectWords | Source/File.cc:56-66 | succeeds exactly when every line is blank or a word literal, and fails only with `InvalidFormat` |
| ObjectFile.CollectWordsStep | Source/File.cc:56-65 | one pass of the line loop: a blank first line is skipped, any other first line puts its word in front of the words of the rest |
| ObjectFile.CollectWordsValues | Source/File.cc:56-66 | the collected words are the values of the non-blank lines, one per line, in order |
| ObjectFile.OtherWhiteSpaceRejected | Source/File.cc:58-63 | a non-blank line holding a tab or a carriage return fails the whole read with `InvalidFormat` |
| ObjectFile.SizeCheckWrapAdmitsOverrun | Source/File.cc:77-81 | the header 0xFFFFFFFC, 0x4 with no further words passes the 32-bit comparison although it announces text words that are not there, while the exact comparison of `ReadFile` refuses it with `SectionSizeDoesNotMatch` |
| ObjectFile.SizeCheckProductWrap | Source/File.cc:77-83 | a zero header followed by 2^30 words passes the 32-bit comparison, because four times 2^30 wraps to 0, while the exact comparison of `ReadFile` refuses it with `SectionSizeDoesNotMatch` |
| ObjectFile.SizeCheckAgreesWithoutWrap | Source/File.cc:77-78 | without wrap-around the 32-bit comparison is the exact one |
| ObjectFile.HeaderSplitsWords | Source/File.cc:71-83 | under a consistent header, the text words end exactly where the data words begin |
| ObjectFile.SerialisationSplits | Source/File.cc:80-83 | the text buffer followed by the data buffer is the serialisation of all words after the header |
| ObjectFile.ReadFile | Source/File.cc:50-84 | a bad line gives `InvalidFormat`; otherwise the read succeeds exactly when there are two header words, both multiples of four, summing to four times the remaining words, and fails with `SectionSizeDoesNotMatch` otherwise; on success the buffers have the announced sizes and together serialise the remaining words |
| Loading.Boot | Source/Main.cc:124-125 | the machine booted from an image holds exactly its buffers, with the program counter at 0x400000 |
| Loading.BuffersHoldWord | Source/File.cc:80-83 | bytes `4i` to `4i+3` of the two buffers laid end to end are the serialisation of word `i` after the header |
| Loading.FirstPartWord | Source/File.cc:81 | when the serialisation of the words is split after `k` words, bytes `4i` to `4i+3` of the first part serialise word `i` |
| Loading.SecondPartWord | Source/File.cc:82 | when the serialisation of the words is split after `k` words, bytes `4j` to `4j+3` of the second part serialise word `k+j` |
| Loading.ImageTextWord | Source/Memory.cc:100-115 | in a machine booted from the buffers made from a consistent header and its words, `GetWord` at text offset `4i` reads text word `i` |
| Loading.ImageDataWord | Source/Memory.cc:100-115 | in a machine booted from the buffers made from a consistent header and its words, `GetWord` at data offset `4j` reads data word `j` |
| Loading.LoadedTextWord | Source/Memory.cc:100-115 | text word `i` of a file is what `GetWord` reads at text offset `4i` of the booted machine |
| Loading.LoadedDataWord | Source/Memory.cc:100-115 | data word `j` of a file is what `GetWord` reads at data offset `4j` of the booted machine |

## Left out

- `ReadFile(path)` (Source/File.cc:38-48): checking for a directory and opening the file are file-system I/O. `GivenPathIsDirectory` and `FileDoesNotExist` are declared, but the stream reader never produces them.
- Splitting a stream into lines (`std::getline`) is I/O. The reader takes the lines.
- `Memory::DumpRegisters` and `Memory::DumpMemory`: output formatting only.
- The command-line driver in Source/Main.cc: option parsing and dumping are left out. Only its bounded step loop is modelled, as `Steps.Run`.
- The `std::invalid_argument` branch of `GetSegmentByBase` cannot be reached: `Addresses.Base` has exactly the two segment tags.
- I-format semantics (`addiu`, `andi`, `ori`, `sltiu`, `beq`, `bne`, `lui`, `lb`, `lw`, `sb`, `sw`): the source's handler is a stub that rejects every word, and the model does the same. `OffsetIsTooSmall` is therefore never produced.
- Register indices are `nat` rather than `uint8_t`. Every index the source computes is below 33, so its out-of-range behaviour is the same.
- ObjectFile.ReadFile: compares the section sizes exactly, so it does not promise the source's result where the `uint32_t` sum or product wraps. With the sum, the header `0xFFFFFFFC`, `0x4` alone passes the source's check (`ObjectFile.SizeCheckWrapAdmitsOverrun`). With the product, a `0x0`, `0x0` header followed by 2^30 words passes it because `4 * 2^30` is 0 in `uint32_t`, and the source returns two empty buffers (`ObjectFile.SizeCheckProductWrap`).
- Words.BitAnd: the contract bounds the result only; its bits are stated by `Words.BitAndBit`.
- Words.BitOr: the contract bounds the result only; its bits are stated by `Words.BitOrBit`.
- Emulation.ShiftLeft: the contract gives the zero shift and the low bit only; the value, the operand times 2^s modulo 2^32, is stated by `Emulation.ShiftLeftValue`.
- Emulation.ShiftRight: the contract gives bounds only; the value, the operand divided by 2^s, is stated by `Emulation.ShiftRightValue`.
- Steps.Run: does not state how many steps a successful run takes. A lemma splitting a run into two runs is not part of the model, because each step unfolds the whole handler chain and that proof exceeds the solver's budget.
- Whole-program runs of the repository's emulation tests (sorting and loops) are not modelled. They rely on I-format instructions, which the source does not execute.
- The repository's file test reads a header of `0x2` and `0x4`, which the reader rejects because neither is a multiple of four. It is not modelled as an expectation.

## Findings

| source | as written | input that shows it | evidently intended | confidence | as-written member | corrected member |
|---|---|---|---|---|---|---|
| Source/Memory.cc:120 | `SetWord` throws only when `offset + 3 > size` | a 4-byte segment and offset 1: the guard passes and the fourth byte goes to index 4, one past the end | throw when `offset + 3 >= size`, as `GetWord` does at line 103 | not executed; high | AddressSpace.SetWordGuardOffByOne | AddressSpace.SetWord |
| Source/File.cc:77 | the section sizes are added, and the word count multiplied by four, in `uint32_t` | the lines `0xFFFFFFFC` and `0x4` alone: the sum wraps to 0 and equals `4 * 0`, and the text range then runs past the word list; also a `0x0`, `0x0` header and 2^30 further words, where `4 * 2^30` wraps to 0 | compare the exact sum, with no wrap-around | not executed; high | ObjectFile.SizeCheckWrapAdmitsOverrun | ObjectFile.ReadFile |
| Source/Memory.cc:11 | the address pattern's digit class is `[0-9a-dA-D]` | `0x1000000f`, data offset 15, is rejected | the full hexadecimal class `[0-9a-fA-F]`, as in Source/Common.cc:12 | not executed; medium | Addresses.ParseAddressRejectsDigitF | Addresses.ParseAddressFixed |
