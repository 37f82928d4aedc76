/** The fixed-width integers of the emulator and the big-endian conversion
    between a 32-bit word and its four bytes, the byte order used both by
    `Memory::GetWord`/`SetWord` and by the object-file loader.

    `uint8_t` and `uint32_t` are modelled as bounded integers; every place
    where the source relies on `uint32_t` wrap-around reduces modulo
    `WordModulus` explicitly. */
module Words {

  const WordModulus: int := 0x1_0000_0000

  /** A `uint8_t`. */
  type U8 = x: int | 0 <= x < 0x100

  /** A `uint32_t`. */
  type U32 = x: int | 0 <= x < 0x1_0000_0000

  /** `uint32_t` addition, wrapping modulo 2^32. */
  function AddU32(a: U32, b: U32): (r: U32)
    ensures a + b < WordModulus ==> r == a + b
    ensures a + b >= WordModulus ==> r == a + b - WordModulus
  {
    (a + b) % WordModulus
  }

  /** `uint32_t` subtraction, wrapping modulo 2^32. */
  function SubU32(a: U32, b: U32): (r: U32)
    ensures AddU32(r, b) == a
  {
    (a - b) % WordModulus
  }

  /** The four bytes of `w`, most significant first. */
  function BigEndianBytes(w: U32): (bs: seq<U8>)
    ensures |bs| == 4
    ensures WordFromBytes(bs[0], bs[1], bs[2], bs[3]) == w
  {
    var hi := w / 0x1_0000;
    var lo := w % 0x1_0000;
    [hi / 0x100, hi % 0x100, lo / 0x100, lo % 0x100]
  }

  /** The word whose big-endian bytes are `b0 b1 b2 b3`, as
      `b0 << 24 | b1 << 16 | b2 << 8 | b3`. */
  function WordFromBytes(b0: U8, b1: U8, b2: U8, b3: U8): U32
  {
    b0 * 0x100_0000 + b1 * 0x1_0000 + b2 * 0x100 + b3
  }

  /** The word stored big-endian at index `o` of `bytes`. */
  function WordAt(bytes: seq<U8>, o: nat): U32
    requires o + 4 <= |bytes|
  {
    WordFromBytes(bytes[o], bytes[o + 1], bytes[o + 2], bytes[o + 3])
  }

  /** The big-endian bytes of the word read at `o` are the four bytes there. */
  lemma BigEndianBytesOfWordAt(bytes: seq<U8>, o: nat)
    requires o + 4 <= |bytes|
    ensures BigEndianBytes(WordAt(bytes, o)) == bytes[o..o + 4]
  {
    SplitCompose(bytes[o], bytes[o + 1], bytes[o + 2], bytes[o + 3]);
    assert bytes[o..o + 4] == [bytes[o], bytes[o + 1], bytes[o + 2], bytes[o + 3]];
  }

  /** Composing four bytes and splitting the word again gives the bytes back. */
  lemma SplitCompose(b0: U8, b1: U8, b2: U8, b3: U8)
    ensures BigEndianBytes(WordFromBytes(b0, b1, b2, b3)) == [b0, b1, b2, b3]
  {
    var w := WordFromBytes(b0, b1, b2, b3);
    var hi := b0 * 0x100 + b1;
    var lo := b2 * 0x100 + b3;
    assert w == hi * 0x1_0000 + lo;
    assert w / 0x1_0000 == hi && w % 0x1_0000 == lo;
    assert hi / 0x100 == b0 && hi % 0x100 == b1;
    assert lo / 0x100 == b2 && lo % 0x100 == b3;
  }

  /** Different words have different byte strings. */
  lemma BigEndianBytesInjective(v: U32, w: U32)
    ensures BigEndianBytes(v) == BigEndianBytes(w) ==> v == w
  {
  }

  /** Reading a word back from its serialised bytes gives the word. */
  lemma WordAtBigEndianBytes(prefix: seq<U8>, w: U32, suffix: seq<U8>)
    ensures WordAt(prefix + BigEndianBytes(w) + suffix, |prefix|) == w
  {
    var s := prefix + BigEndianBytes(w) + suffix;
    assert s[|prefix|..|prefix| + 4] == BigEndianBytes(w);
  }

  /** 2 to the power `n`. */
  function Pow2(n: nat): (p: nat)
    ensures p >= 1
  {
    if n == 0 then 1 else 2 * Pow2(n - 1)
  }

  /** Eight more bits multiply the range by 256. */
  lemma Pow2Byte(n: nat)
    ensures Pow2(n + 8) == 256 * Pow2(n)
  {
    assert Pow2(n + 8) == 2 * Pow2(n + 7);
    assert Pow2(n + 7) == 2 * Pow2(n + 6);
    assert Pow2(n + 6) == 2 * Pow2(n + 5);
    assert Pow2(n + 5) == 2 * Pow2(n + 4);
    assert Pow2(n + 4) == 2 * Pow2(n + 3);
    assert Pow2(n + 3) == 2 * Pow2(n + 2);
    assert Pow2(n + 2) == 2 * Pow2(n + 1);
    assert Pow2(n + 1) == 2 * Pow2(n);
  }

  /** A word has 32 bits. */
  lemma Pow2Word()
    ensures Pow2(32) == WordModulus
  {
    Pow2Byte(0);
    Pow2Byte(8);
    Pow2Byte(16);
    Pow2Byte(24);
  }

  /** Bitwise AND of two `n`-bit values, taken one bit at a time from the
      least significant end. */
  function BitAnd(a: nat, b: nat, n: nat): (r: nat)
    requires a < Pow2(n) && b < Pow2(n)
    ensures r <= a && r <= b
    decreases n
  {
    if n == 0 then 0
    else 2 * BitAnd(a / 2, b / 2, n - 1) + (if a % 2 == 1 && b % 2 == 1 then 1 else 0)
  }

  /** Bitwise OR of two `n`-bit values, taken one bit at a time from the
      least significant end. */
  function BitOr(a: nat, b: nat, n: nat): (r: nat)
    requires a < Pow2(n) && b < Pow2(n)
    ensures a <= r && b <= r && r < Pow2(n)
    decreases n
  {
    if n == 0 then 0
    else 2 * BitOr(a / 2, b / 2, n - 1) + (if a % 2 == 1 || b % 2 == 1 then 1 else 0)
  }

  /** Every bit set in both operands is counted once by AND and once by OR,
      every bit set in one operand once by OR: together they add up to the
      sum of the operands. */
  lemma {:induction false} AndPlusOr(a: nat, b: nat, n: nat)
    requires a < Pow2(n) && b < Pow2(n)
    ensures BitAnd(a, b, n) + BitOr(a, b, n) == a + b
    decreases n
  {
    if n > 0 {
      AndPlusOr(a / 2, b / 2, n - 1);
    }
  }

  /** Bitwise AND of two words: bit `i` of the result is set exactly when
      it is set in both operands. */
  function AndWord(a: U32, b: U32): (r: U32)
    ensures r <= a && r <= b
    ensures forall i :: 0 <= i < 32 ==> (Bit(r, i) == 1 <==> Bit(a, i) == 1 && Bit(b, i) == 1)
  {
    Pow2Word();
    BitAndBits(a, b, 32);
    BitAnd(a, b, 32)
  }

  /** Bitwise OR of two words: bit `i` of the result is set exactly when
      it is set in either operand. */
  function OrWord(a: U32, b: U32): (r: U32)
    ensures a <= r && b <= r
    ensures forall i :: 0 <= i < 32 ==> (Bit(r, i) == 1 <==> Bit(a, i) == 1 || Bit(b, i) == 1)
  {
    Pow2Word();
    BitOrBits(a, b, 32);
    BitOr(a, b, 32)
  }

  /** AND and OR of the same words add up to their sum. */
  lemma AndOrWordSum(a: U32, b: U32)
    ensures AndWord(a, b) + OrWord(a, b) == a + b
  {
    Pow2Word();
    AndPlusOr(a, b, 32);
  }

  /** Integer division is determined by the quotient-remainder equation. */
  lemma DivUnique(n: int, d: int, q: int, r: int)
    requires d > 0 && 0 <= r < d && n == q * d + r
    ensures n / d == q && n % d == r
  {
    var q', r' := n / d, n % d;
    assert q' * d + r' == n;
    assert (q' - q) * d == r - r';
    if q' > q {
      MulAtLeast(q' - q, d);
    } else if q' < q {
      MulAtLeast(q - q', d);
    }
  }

  /** A positive multiple of `d` is at least `d`. */
  lemma MulAtLeast(k: int, d: int)
    requires k >= 1 && d > 0
    ensures k * d >= d
  {
    assert k * d == (k - 1) * d + d;
  }

  /** Halving and then dividing by `p` is dividing by `2 p`. */
  lemma DivTwice(x: nat, p: nat)
    requires p >= 1
    ensures (x / 2) / p == x / (2 * p)
  {
    var q, r2, r1 := (x / 2) / p, (x / 2) % p, x % 2;
    assert x / 2 == q * p + r2;
    assert x == 2 * (x / 2) + r1;
    assert x == q * (2 * p) + (2 * r2 + r1);
    DivUnique(x, 2 * p, q, 2 * r2 + r1);
  }

  /** Reducing a factor modulo 2^32 before multiplying does not change the
      product modulo 2^32. */
  lemma MulModLeft(x: nat, y: nat)
    ensures ((x % WordModulus) * y) % WordModulus == (x * y) % WordModulus
  {
    var k := x / WordModulus;
    assert x == k * WordModulus + x % WordModulus;
    assert x * y == (x % WordModulus) * y + (k * y) * WordModulus;
  }

  /** Bit `i` of `x`, counted from the least significant end: the value is
      halved `i` times and its low bit taken. */
  function Bit(x: nat, i: nat): (b: nat)
    ensures b < 2
    decreases i
  {
    if i == 0 then x % 2 else Bit(x / 2, i - 1)
  }

  /** Bit `i` is the low bit of `x / 2^i`. */
  lemma {:induction false} BitValue(x: nat, i: nat)
    ensures Bit(x, i) == (x / Pow2(i)) % 2
    decreases i
  {
    if i > 0 {
      BitValue(x / 2, i - 1);
      DivTwice(x, Pow2(i - 1));
    }
  }

  /** Two `n`-bit values with the same `n` bits are equal. */
  lemma {:induction false} BitsDetermine(x: nat, y: nat, n: nat)
    requires x < Pow2(n) && y < Pow2(n)
    requires forall i :: 0 <= i < n ==> Bit(x, i) == Bit(y, i)
    ensures x == y
    decreases n
  {
    if n > 0 {
      assert Bit(x, 0) == Bit(y, 0);
      forall i | 0 <= i < n - 1
        ensures Bit(x / 2, i) == Bit(y / 2, i)
      {
        assert Bit(x, i + 1) == Bit(y, i + 1);
      }
      BitsDetermine(x / 2, y / 2, n - 1);
    }
  }

  /** Bit `i` of an AND is set exactly when it is set in both operands. */
  lemma {:induction false} BitAndBit(a: nat, b: nat, n: nat, i: nat)
    requires a < Pow2(n) && b < Pow2(n) && i < n
    ensures Bit(BitAnd(a, b, n), i) == 1 <==> Bit(a, i) == 1 && Bit(b, i) == 1
    decreases n
  {
    var r := BitAnd(a, b, n);
    if i > 0 {
      assert r / 2 == BitAnd(a / 2, b / 2, n - 1);
      BitAndBit(a / 2, b / 2, n - 1, i - 1);
    }
  }

  /** Bit `i` of an OR is set when it is set in either operand. */
  lemma {:induction false} BitOrBit(a: nat, b: nat, n: nat, i: nat)
    requires a < Pow2(n) && b < Pow2(n) && i < n
    ensures Bit(BitOr(a, b, n), i) == 1 <==> Bit(a, i) == 1 || Bit(b, i) == 1
    decreases n
  {
    var r := BitOr(a, b, n);
    if i > 0 {
      assert r / 2 == BitOr(a / 2, b / 2, n - 1);
      BitOrBit(a / 2, b / 2, n - 1, i - 1);
    }
  }

  /** Every bit of an AND, at once. */
  lemma BitAndBits(a: nat, b: nat, n: nat)
    requires a < Pow2(n) && b < Pow2(n)
    ensures forall i :: 0 <= i < n ==> (Bit(BitAnd(a, b, n), i) == 1 <==> Bit(a, i) == 1 && Bit(b, i) == 1)
  {
    forall i | 0 <= i < n
      ensures Bit(BitAnd(a, b, n), i) == 1 <==> Bit(a, i) == 1 && Bit(b, i) == 1
    {
      BitAndBit(a, b, n, i);
    }
  }

  /** Every bit of an OR, at once. */
  lemma BitOrBits(a: nat, b: nat, n: nat)
    requires a < Pow2(n) && b < Pow2(n)
    ensures forall i :: 0 <= i < n ==> (Bit(BitOr(a, b, n), i) == 1 <==> Bit(a, i) == 1 || Bit(b, i) == 1)
  {
    forall i | 0 <= i < n
      ensures Bit(BitOr(a, b, n), i) == 1 <==> Bit(a, i) == 1 || Bit(b, i) == 1
    {
      BitOrBit(a, b, n, i);
    }
  }

  /** Subtracting an `n`-bit value from the all-ones `n`-bit value flips
      each of its bits: this is `~` on `n` bits. */
  lemma {:induction false} ComplementBit(x: nat, n: nat, i: nat)
    requires x < Pow2(n) && i < n
    ensures Bit(Pow2(n) - 1 - x, i) == 1 - Bit(x, i)
    decreases n
  {
    var c := Pow2(n) - 1 - x;
    assert Pow2(n) == 2 * Pow2(n - 1);
    assert c == 2 * (Pow2(n - 1) - 1 - x / 2) + (1 - x % 2);
    if i > 0 {
      assert c / 2 == Pow2(n - 1) - 1 - x / 2;
      ComplementBit(x / 2, n - 1, i - 1);
    }
  }

  /** Every bit of a complement, at once. */
  lemma ComplementBits(x: nat, n: nat)
    requires x < Pow2(n)
    ensures forall i :: 0 <= i < n ==> Bit(Pow2(n) - 1 - x, i) == 1 - Bit(x, i)
  {
    forall i | 0 <= i < n
      ensures Bit(Pow2(n) - 1 - x, i) == 1 - Bit(x, i)
    {
      ComplementBit(x, n, i);
    }
  }

  /** `~x` on a word flips each of its 32 bits. */
  lemma WordComplementBits(x: U32)
    ensures forall i :: 0 <= i < 32 ==> Bit(0xFFFF_FFFF - x, i) == 1 - Bit(x, i)
  {
    Pow2Word();
    ComplementBits(x, 32);
  }

  /** Bitwise NOT-OR of two words: bit `i` of the result is set exactly
      when it is clear in both operands. */
  function NorWord(a: U32, b: U32): (r: U32)
    ensures forall i :: 0 <= i < 32 ==> (Bit(r, i) == 1 <==> Bit(a, i) == 0 && Bit(b, i) == 0)
  {
    var r: U32 := 0xFFFF_FFFF - OrWord(a, b);
    NorBits(a, b, r);
    r
  }

  /** The bits of the complement `r` of an OR, one at a time. */
  lemma NorBits(a: U32, b: U32, r: U32)
    requires r == 0xFFFF_FFFF - OrWord(a, b)
    ensures forall i :: 0 <= i < 32 ==> (Bit(r, i) == 1 <==> Bit(a, i) == 0 && Bit(b, i) == 0)
  {
    var o := OrWord(a, b);
    WordComplementBits(o);
    forall i | 0 <= i < 32
      ensures Bit(r, i) == 1 <==> Bit(a, i) == 0 && Bit(b, i) == 0
    {
      assert Bit(r, i) == 1 - Bit(o, i);
      assert Bit(o, i) == 1 <==> Bit(a, i) == 1 || Bit(b, i) == 1;
    }
  }

}
