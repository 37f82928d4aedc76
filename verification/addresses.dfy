/** The tagged `Address` of Public/simple-mips-emu/Memory.hh: a segment tag
    (Text or Data, each with a fixed base) and a 32-bit offset, with the
    flattening to and from a single 32-bit value, plus the address-literal
    parser `Address::Parse` of Source/Memory.cc. All arithmetic is `uint32_t`
    arithmetic and wraps modulo 2^32. */
module Addresses {
  import opened Wrappers
  import opened Words
  import opened Hex

  /** `Address::BaseType`: which segment an address lies in. */
  datatype Base = Text | Data

  const TextBase: U32 := 0x40_0000
  const DataBase: U32 := 0x1000_0000

  /** The numeric value of a base tag. */
  function BaseValue(b: Base): (v: U32)
    ensures v == TextBase || v == DataBase
    ensures (v == DataBase) <==> b == Data
  {
    match b
    case Text => TextBase
    case Data => DataBase
  }

  datatype Address = Address(base: Base, offset: U32)

  /** `Address::MakeText`: a text address keeps the given offset unchanged. */
  function MakeText(offset: U32): (a: Address)
    ensures a.base == Text && a.offset == offset
  {
    Address(Text, offset)
  }

  /** `Address::MakeData`: a data address keeps the given offset unchanged. */
  function MakeData(offset: U32): (a: Address)
    ensures a.base == Data && a.offset == offset
  {
    Address(Data, offset)
  }

  /** The flattening `operator uint32_t`: base plus offset, modulo 2^32. */
  function Flatten(a: Address): (w: U32)
    ensures w == (BaseValue(a.base) + a.offset) % WordModulus
  {
    AddU32(BaseValue(a.base), a.offset)
  }

  /** `Address::MakeFromWord`: values at or above the data base are data
      offsets from that base; everything else is a text offset from the text
      base, which wraps around for values below the text base. */
  function MakeFromWord(w: U32): (a: Address)
    ensures a.base == Data <==> w >= DataBase
    ensures a.base == Data ==> a.offset == w - DataBase
    ensures a.base == Text && w >= TextBase ==> a.offset == w - TextBase
    ensures a.base == Text && w < TextBase ==> a.offset == w - TextBase + WordModulus
  {
    if DataBase <= w then MakeData(w - DataBase) else MakeText(SubU32(w, TextBase))
  }

  /** `Address::MoveToNext`: the next word of the same segment. */
  function MoveToNext(a: Address): (n: Address)
    ensures n.base == a.base
    ensures n.offset == (a.offset + 4) % WordModulus
  {
    a.(offset := AddU32(a.offset, 4))
  }

  /** Flattening undoes `MakeFromWord` for every 32-bit value. */
  lemma FlattenMakeFromWord(w: U32)
    ensures Flatten(MakeFromWord(w)) == w
  {
  }

  /** `MakeFromWord` undoes flattening exactly for the addresses whose
      flattened value falls back into their own range: data offsets up to
      0xEFFFFFFF, and text offsets that stay below the data base or wrap
      around below the text base. */
  lemma MakeFromWordFlatten(a: Address)
    ensures MakeFromWord(Flatten(a)) == a <==>
              || (a.base == Data && a.offset <= 0xEFFF_FFFF)
              || (a.base == Text && (a.offset < 0x0FC0_0000 || a.offset >= 0xFFC0_0000))
  {
  }

  /** Moving to the next word moves the flattened value by four. */
  lemma FlattenMoveToNext(a: Address)
    ensures Flatten(MoveToNext(a)) == AddU32(Flatten(a), 4)
  {
  }

  /** The digits `Address::Parse` admits: its pattern is `[0-9a-dA-D]`. */
  predicate IsAddressDigit(c: char)
  {
    '0' <= c <= '9' || 'a' <= c <= 'd' || 'A' <= c <= 'D'
  }

  predicate AllAddressDigits(s: string)
  {
    forall i :: 0 <= i < |s| ==> IsAddressDigit(s[i])
  }

  /** `Address::Parse` as written (Source/Memory.cc:9-35): exactly `0x`
      followed by one or more of `[0-9a-dA-D]`, no blanks, with a value that
      fits in 32 bits, split as `MakeFromWord` splits it. */
  function ParseAddress(s: string): (r: Option<Address>)
    ensures r.Some? <==> |s| >= 3 && s[..2] == "0x" && AllAddressDigits(s[2..]) && HexValue(s[2..]) <= MaxWord
    ensures r.Some? ==> Flatten(r.value) == HexValue(s[2..])
    ensures r.Some? ==> (r.value.base == Data <==> HexValue(s[2..]) >= DataBase)
  {
    if |s| >= 3 && s[..2] == "0x" && AllAddressDigits(s[2..]) && HexValue(s[2..]) <= MaxWord
    then Some(MakeFromWord(HexValue(s[2..])))
    else None
  }

  /** `Address::Parse` with the digit class the rest of the program uses for
      hexadecimal (`[0-9a-fA-F]`, as in `ParseWord`). */
  function ParseAddressFixed(s: string): (r: Option<Address>)
    ensures r.Some? <==> IsWordLiteral(s)
    ensures r.Some? ==> Flatten(r.value) == HexValue(s[2..])
    ensures r.Some? ==> (r.value.base == Data <==> HexValue(s[2..]) >= DataBase)
  {
    if IsWordLiteral(s) then Some(MakeFromWord(HexValue(s[2..]))) else None
  }

  /** The pattern as written rejects the digits e and f: `0x1000000f`, the
      data address with offset 15, is refused, while the corrected parser
      takes it. */
  lemma ParseAddressRejectsDigitF()
    ensures ParseAddress("0x1000000f") == None
    ensures ParseAddressFixed("0x1000000f") == Some(MakeData(15))
  {
    var s := "0x1000000f";
    assert !IsAddressDigit(s[2..][7]);
    assert s[2..] == "1000000f";
    HexValueExample();
  }

  /** The value of the digits `1000000f`, evaluated one digit at a time. */
  lemma HexValueExample()
    ensures HexValue("1000000f") == 0x1000_000f
  {
    assert "1000000f"[..7] == "1000000";
    assert "1000000"[..6] == "100000";
    assert "100000"[..5] == "10000";
    assert "10000"[..4] == "1000";
    assert "1000"[..3] == "100";
    assert "100"[..2] == "10";
    assert "10"[..1] == "1";
    assert "1"[..0] == "";
  }

  /** The corrected parser reads back every address value rendered as `0x`
      and lower-case digits. */
  lemma ParseAddressFixedRoundTrip(w: U32)
    ensures ParseAddressFixed("0x" + ToHex(w)) == Some(MakeFromWord(w))
  {
    var s := "0x" + ToHex(w);
    assert s[..2] == "0x" && s[2..] == ToHex(w);
    HexValueOfToHex(w);
  }

  /** Whatever the pattern as written accepts, the corrected parser accepts
      with the same address. */
  lemma ParseAddressRefinesFixed(s: string)
    ensures ParseAddress(s).Some? ==> ParseAddressFixed(s) == ParseAddress(s)
  {
  }
}
