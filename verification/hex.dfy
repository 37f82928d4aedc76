/** The hexadecimal word literal recogniser `ParseWord` of Source/Common.cc:
    a line matching `^ *0x([0-9a-fA-F]+) *$` whose digits denote a value that
    fits in 32 bits. The model describes the language the regular expression
    accepts and the value `std::stoull` computes, not the library internals. */
module Hex {
  import opened Wrappers
  import opened Words

  /** Largest value of a `uint32_t`. */
  const MaxWord: nat := 0xFFFF_FFFF

  predicate IsHexDigit(c: char)
  {
    '0' <= c <= '9' || 'a' <= c <= 'f' || 'A' <= c <= 'F'
  }

  predicate AllHexDigits(s: string)
  {
    forall i :: 0 <= i < |s| ==> IsHexDigit(s[i])
  }

  /** The lower-case digit for a value below 16. */
  function HexChar(v: nat): (c: char)
    requires v < 16
    ensures IsHexDigit(c)
    ensures DigitValue(c) == v
  {
    if v < 10 then '0' + v as char else 'a' + (v - 10) as char
  }

  /** The value of one hexadecimal digit, upper or lower case. */
  function DigitValue(c: char): (v: nat)
    requires IsHexDigit(c)
    ensures v < 16
  {
    if '0' <= c <= '9' then (c - '0') as nat
    else if 'a' <= c <= 'f' then (c - 'a') as nat + 10
    else (c - 'A') as nat + 10
  }

  /** The value of a digit string read most significant digit first, as
      `std::stoull(digits, nullptr, 16)` reads it; unbounded, so the range
      check can be stated separately. */
  function HexValue(d: string): (v: nat)
    requires AllHexDigits(d)
    ensures v < Pow16(|d|)
  {
    if |d| == 0 then 0 else HexValue(d[..|d| - 1]) * 16 + DigitValue(d[|d| - 1])
  }

  /** 16 to the power `k`: one more than the largest value of `k` digits. */
  function Pow16(k: nat): nat
  {
    if k == 0 then 1 else 16 * Pow16(k - 1)
  }

  /** Leading zeros do not change the value, as `stoull` reads them. */
  lemma {:induction false} HexValueLeadingZero(d: string)
    requires AllHexDigits(d)
    ensures AllHexDigits("0" + d) && HexValue("0" + d) == HexValue(d)
    decreases |d|
  {
    var z := "0" + d;
    assert IsHexDigit(z[0]);
    assert forall i :: 1 <= i < |z| ==> z[i] == d[i - 1];
    if |d| > 0 {
      assert z[..|z| - 1] == "0" + d[..|d| - 1];
      assert z[|z| - 1] == d[|d| - 1];
      HexValueLeadingZero(d[..|d| - 1]);
    } else {
      assert z[..0] == "";
    }
  }

  /** The shortest lower-case digit string of `n`. */
  function ToHex(n: nat): (d: string)
    ensures |d| > 0 && AllHexDigits(d)
  {
    if n < 16 then [HexChar(n)] else ToHex(n / 16) + [HexChar(n % 16)]
  }

  /** Reading the rendered digits gives the number back. */
  lemma {:induction false} HexValueOfToHex(n: nat)
    ensures HexValue(ToHex(n)) == n
  {
    var d := ToHex(n);
    if n >= 16 {
      assert d[..|d| - 1] == ToHex(n / 16);
      HexValueOfToHex(n / 16);
    }
  }

  /** A run of `k` blanks. */
  function Spaces(k: nat): (s: string)
    ensures |s| == k
    ensures forall i :: 0 <= i < k ==> s[i] == ' '
  {
    seq(k, _ => ' ')
  }

  lemma SpacesCons(k: nat)
    ensures Spaces(k + 1) == [' '] + Spaces(k)
  {
  }

  lemma SpacesSnoc(k: nat)
    ensures Spaces(k + 1) == Spaces(k) + [' ']
  {
  }

  /** `s` without its leading blanks: the part after the ` *` that opens
      the pattern. */
  function TrimLeft(s: string): (r: string)
    ensures |r| <= |s| && r == s[|s| - |r|..]
    ensures |r| > 0 ==> r[0] != ' '
  {
    if |s| > 0 && s[0] == ' ' then TrimLeft(s[1..]) else s
  }

  /** `s` without its trailing blanks: the part before the closing ` *`. */
  function TrimRight(s: string): (r: string)
    ensures |r| <= |s| && r == s[..|r|]
    ensures |r| > 0 ==> r[|r| - 1] != ' '
  {
    if |s| > 0 && s[|s| - 1] == ' ' then TrimRight(s[..|s| - 1]) else s
  }

  /** `s` without blanks at either end. */
  function Trim(s: string): string
  {
    TrimRight(TrimLeft(s))
  }

  /** What `TrimLeft` removes is a run of blanks. */
  lemma {:induction false} TrimLeftSplit(s: string)
    ensures s == Spaces(|s| - |TrimLeft(s)|) + TrimLeft(s)
  {
    if |s| > 0 && s[0] == ' ' {
      var t := TrimLeft(s[1..]);
      assert TrimLeft(s) == t;
      TrimLeftSplit(s[1..]);
      var k := |s| - 1 - |t|;
      assert s[1..] == Spaces(k) + t;
      SpacesCons(k);
      assert s == [' '] + s[1..];
      ConsRegroup(' ', Spaces(k), t);
    } else {
      assert s == Spaces(0) + s;
    }
  }

  lemma ConsRegroup(c: char, x: string, y: string)
    ensures [c] + (x + y) == ([c] + x) + y
  {
  }

  /** What `TrimRight` removes is a run of blanks. */
  lemma {:induction false} TrimRightSplit(s: string)
    ensures s == TrimRight(s) + Spaces(|s| - |TrimRight(s)|)
  {
    if |s| > 0 && s[|s| - 1] == ' ' {
      TrimRightSplit(s[..|s| - 1]);
      var k := |s| - |TrimRight(s)|;
      SpacesSnoc(k - 1);
      assert s == s[..|s| - 1] + [s[|s| - 1]];
    } else {
      assert s == s + Spaces(0);
    }
  }

  /** Leading blanks in front of a word that does not start with a blank are
      exactly what `TrimLeft` removes. */
  lemma {:induction false} TrimLeftPadded(a: nat, w: string)
    requires |w| > 0 && w[0] != ' '
    ensures TrimLeft(Spaces(a) + w) == w
  {
    if a > 0 {
      assert (Spaces(a) + w)[1..] == Spaces(a - 1) + w;
      TrimLeftPadded(a - 1, w);
    } else {
      assert Spaces(a) + w == w;
    }
  }

  /** Trailing blanks after a word that does not end with a blank are exactly
      what `TrimRight` removes. */
  lemma {:induction false} TrimRightPadded(w: string, b: nat)
    requires |w| > 0 && w[|w| - 1] != ' '
    ensures TrimRight(w + Spaces(b)) == w
  {
    if b > 0 {
      assert (w + Spaces(b))[..|w| + b - 1] == w + Spaces(b - 1);
      TrimRightPadded(w, b - 1);
    } else {
      assert w + Spaces(b) == w;
    }
  }

  /** The text of a literal with `0x` removed, when it has that prefix. */
  predicate IsWordLiteral(body: string)
  {
    |body| >= 3 && body[..2] == "0x" && AllHexDigits(body[2..]) && HexValue(body[2..]) <= MaxWord
  }

  /** `ParseWord` (Source/Common.cc:10-31): `Some(value)` when the line is an
      optionally blank-padded `0x` literal whose value fits in 32 bits, and
      `None` otherwise; the caller's `out` is written only in the `Some` case,
      which is what returning an `Option` captures. */
  function ParseWord(line: string): (r: Option<U32>)
    ensures r.Some? <==> IsWordLiteral(Trim(line))
    ensures r.Some? ==> r.value == HexValue(Trim(line)[2..])
  {
    var body := Trim(line);
    if IsWordLiteral(body) then Some(HexValue(body[2..])) else None
  }

  lemma Regroup(w: string, x: string, y: string, z: string)
    ensures w + x + y + z == w + (x + y) + z
  {
  }

  /** Trimming a padded word whose ends are not blank gives the word. */
  lemma TrimPadded(a: nat, word: string, b: nat)
    requires |word| > 0 && word[0] != ' ' && word[|word| - 1] != ' '
    ensures Trim(Spaces(a) + word + Spaces(b)) == word
  {
    assert Spaces(a) + word + Spaces(b) == Spaces(a) + (word + Spaces(b));
    TrimLeftPadded(a, word + Spaces(b));
    TrimRightPadded(word, b);
  }

  /** Every blank-padded literal is recognised, with the value of its digits
      when that value fits in 32 bits and rejected otherwise (the source's
      range check and the `stoull` overflow both end in `false`). */
  lemma ParseWordComplete(a: nat, digits: string, b: nat)
    requires |digits| > 0 && AllHexDigits(digits)
    ensures ParseWord(Spaces(a) + "0x" + digits + Spaces(b))
         == if HexValue(digits) <= MaxWord then Some(HexValue(digits)) else None
  {
    var lit := "0x" + digits;
    assert IsHexDigit(lit[|lit| - 1]);
    Regroup(Spaces(a), "0x", digits, Spaces(b));
    TrimPadded(a, lit, b);
    assert lit[..2] == "0x" && lit[2..] == digits;
    assert IsWordLiteral(lit) <==> HexValue(digits) <= MaxWord;
  }

  /** A line is its leading blanks, its trimmed body and its trailing blanks. */
  lemma TrimSplit(line: string)
    ensures var a := |line| - |TrimLeft(line)|;
            var b := |TrimLeft(line)| - |Trim(line)|;
            line == Spaces(a) + Trim(line) + Spaces(b)
  {
    TrimLeftSplit(line);
    TrimRightSplit(TrimLeft(line));
    Pad(line, TrimLeft(line), Trim(line), |line| - |TrimLeft(line)|, |TrimLeft(line)| - |Trim(line)|);
  }

  /** Padding on the left of a string padded on the right. */
  lemma Pad(s: string, t: string, u: string, a: nat, b: nat)
    requires s == Spaces(a) + t && t == u + Spaces(b)
    ensures s == Spaces(a) + u + Spaces(b)
  {
  }

  /** Everything `ParseWord` accepts has the shape blanks, `0x`, digits,
      blanks, and its value is the value of those digits. */
  lemma ParseWordSound(line: string)
    requires ParseWord(line).Some?
    ensures var a := |line| - |TrimLeft(line)|;
            var b := |TrimLeft(line)| - |Trim(line)|;
            var digits := Trim(line)[2..];
            && |digits| > 0
            && AllHexDigits(digits)
            && HexValue(digits) <= MaxWord
            && line == Spaces(a) + "0x" + digits + Spaces(b)
            && ParseWord(line).value == HexValue(digits)
  {
    TrimSplit(line);
    var body := Trim(line);
    PrefixSplit(body);
    Regroup(Spaces(|line| - |TrimLeft(line)|), "0x", body[2..], Spaces(|TrimLeft(line)| - |body|));
  }

  /** A string that starts with `0x` is `0x` followed by the rest. */
  lemma PrefixSplit(body: string)
    requires |body| >= 2 && body[..2] == "0x"
    ensures body == "0x" + body[2..]
  {
  }

  /** Rendering a word as a padded literal and parsing it gives the word back. */
  lemma ParseWordRoundTrip(v: U32, a: nat, b: nat)
    ensures ParseWord(Spaces(a) + "0x" + ToHex(v) + Spaces(b)) == Some(v)
  {
    HexValueOfToHex(v);
    ParseWordComplete(a, ToHex(v), b);
  }

  /** Every character of an accepted line is a blank, the `x` of the prefix
      or a hex digit. */
  lemma ParseWordAlphabet(line: string)
    ensures ParseWord(line).Some? ==>
              forall i :: 0 <= i < |line| ==> line[i] == ' ' || line[i] == 'x' || IsHexDigit(line[i])
  {
    if ParseWord(line).Some? {
      ParseWordSound(line);
      var a := |line| - |TrimLeft(line)|;
      var b := |TrimLeft(line)| - |Trim(line)|;
      var digits := Trim(line)[2..];
      forall i | 0 <= i < |line|
        ensures line[i] == ' ' || line[i] == 'x' || IsHexDigit(line[i])
      {
        if i < a {
          assert line[i] == Spaces(a)[i];
        } else if i < a + 2 {
          assert line[i] == "0x"[i - a];
        } else if i < a + 2 + |digits| {
          assert line[i] == digits[i - a - 2];
        } else {
          assert line[i] == Spaces(b)[i - a - 2 - |digits|];
        }
      }
    }
  }

  /** A line holding any character other than a blank, `x` or a hex digit
      is rejected: tabs, `0X`, signs and other white space all fail. */
  lemma ParseWordRejectsForeign(line: string, i: nat)
    requires i < |line| && line[i] != ' ' && line[i] != 'x' && !IsHexDigit(line[i])
    ensures ParseWord(line) == None
  {
    ParseWordAlphabet(line);
  }

  /** `0x` with no digit string is rejected, whatever the padding. */
  lemma ParseWordNeedsDigits(a: nat, b: nat)
    ensures ParseWord(Spaces(a) + "0x" + Spaces(b)) == None
  {
    TrimPadded(a, "0x", b);
  }
}
