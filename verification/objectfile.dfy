/** The object-file reader of `Source/File.cc`: the lines of the file are
    parsed as words, the first two words give the sizes of the text and the
    data segment in bytes, and the remaining words are serialised into the
    two segment buffers, most significant byte first. */
module ObjectFile {
  import opened Wrappers
  import opened Words
  import opened Hex

  /** `FileReadError::Type`. The first two kinds belong to opening the file
      by path and are never produced from a stream. */
  datatype FileReadError =
    | GivenPathIsDirectory
    | FileDoesNotExist
    | InvalidFormat
    | SectionSizeDoesNotMatch

  /** The two segment buffers a successful read produces. */
  datatype Image = Image(text: seq<U8>, data: seq<U8>)

  /** The C `isspace` class in the default locale: blank, tab, line feed,
      vertical tab, form feed and carriage return, which are the code
      points 9 to 13 and 32. */
  predicate IsSpace(c: char)
    ensures IsSpace(c) <==>
              c == ' ' || c == '\t' || c == '\n' || c == '\U{0B}' || c == '\U{0C}' || c == '\r'
  {
    c == ' ' || ('\t' <= c <= '\r')
  }

  /** The position `std::find_if` returns when it looks for the first
      character that is not white space: the length when there is none. */
  function FirstNonSpace(line: string): (k: nat)
    ensures k <= |line|
    ensures forall j :: 0 <= j < k ==> IsSpace(line[j])
    ensures k < |line| ==> !IsSpace(line[k])
  {
    if |line| == 0 then 0
    else if IsSpace(line[0]) then 1 + FirstNonSpace(line[1..])
    else 0
  }

  /** A line the reader skips: the search for a character that is not white
      space reaches the end, which is the case exactly when every character
      is white space. */
  predicate IsBlank(line: string)
    ensures IsBlank(line) <==> FirstNonSpace(line) == |line|
  {
    forall i :: 0 <= i < |line| ==> IsSpace(line[i])
  }

  /** A skipped line could never have carried a word: every line that
      parses holds the digit 0 of its `0x` prefix, which is not white
      space. */
  lemma WordLineIsNotBlank(line: string)
    ensures ParseWord(line).Some? ==> !IsBlank(line)
  {
    if ParseWord(line).Some? {
      ParseWordSound(line);
      var a := |line| - |TrimLeft(line)|;
      var b := |TrimLeft(line)| - |Trim(line)|;
      var digits := Trim(line)[2..];
      assert line == Spaces(a) + "0x" + digits + Spaces(b);
      assert line[a] == "0x"[0];
      assert !IsSpace(line[a]);
    }
  }

  /** The lines that carry a word, in order: every line that is not blank,
      and nothing else. */
  function WordLines(lines: seq<string>): (r: seq<string>)
    ensures |r| <= |lines|
    ensures forall i :: 0 <= i < |r| ==> !IsBlank(r[i]) && r[i] in lines
  {
    if |lines| == 0 then []
    else if IsBlank(lines[0]) then WordLines(lines[1..])
    else [lines[0]] + WordLines(lines[1..])
  }

  /** No word line is dropped: every line that is not blank is among the
      collected word lines. */
  lemma {:induction false} WordLinesComplete(lines: seq<string>, k: nat)
    requires k < |lines| && !IsBlank(lines[k])
    ensures lines[k] in WordLines(lines)
    decreases |lines|
  {
    if k > 0 {
      assert lines[k] == lines[1..][k - 1];
      WordLinesComplete(lines[1..], k - 1);
    }
  }

  /** Collecting word lines distributes over concatenation, so, together
      with its effect on a single line (kept when not blank, dropped when
      blank), it keeps the word lines in their order. */
  lemma {:induction false} WordLinesAppend(a: seq<string>, b: seq<string>)
    ensures WordLines(a + b) == WordLines(a) + WordLines(b)
    ensures |a| == 1 ==> WordLines(a) == (if IsBlank(a[0]) then [] else a)
    decreases |a|
  {
    if |a| == 0 {
      assert a + b == b;
    } else {
      assert (a + b)[0] == a[0];
      assert (a + b)[1..] == a[1..] + b;
      WordLinesAppend(a[1..], b);
      if |a| == 1 {
        assert a[1..] == [];
      }
    }
  }

  /** `MakeBytesFromWords`: four bytes per word, most significant first. */
  function MakeBytesFromWords(ws: seq<U32>): (bs: seq<U8>)
    ensures |bs| == 4 * |ws|
  {
    if |ws| == 0 then [] else BigEndianBytes(ws[0]) + MakeBytesFromWords(ws[1..])
  }

  /** Serialising a concatenation serialises each part. */
  lemma {:induction false} MakeBytesFromWordsAppend(a: seq<U32>, b: seq<U32>)
    ensures MakeBytesFromWords(a + b) == MakeBytesFromWords(a) + MakeBytesFromWords(b)
    decreases |a|
  {
    if |a| == 0 {
      assert a + b == b;
    } else {
      assert (a + b)[1..] == a[1..] + b;
      MakeBytesFromWordsAppend(a[1..], b);
    }
  }

  /** Reading four bytes at offset `4 i` of a serialisation gives word `i`
      back: the big-endian composition `Memory::GetWord` performs inverts
      `MakeBytesFromWords`. */
  lemma {:induction false} WordAtMakeBytes(ws: seq<U32>, i: nat)
    requires i < |ws|
    ensures 4 * i + 4 <= |MakeBytesFromWords(ws)|
    ensures WordAt(MakeBytesFromWords(ws), 4 * i) == ws[i]
    ensures MakeBytesFromWords(ws)[4 * i..4 * i + 4] == BigEndianBytes(ws[i])
  {
    assert ws == ws[..i] + ([ws[i]] + ws[i + 1..]);
    MakeBytesFromWordsAppend(ws[..i], [ws[i]] + ws[i + 1..]);
    MakeBytesFromWordsAppend([ws[i]], ws[i + 1..]);
    assert MakeBytesFromWords([ws[i]]) == BigEndianBytes(ws[i]) + MakeBytesFromWords([]);
    var prefix := MakeBytesFromWords(ws[..i]);
    var suffix := MakeBytesFromWords(ws[i + 1..]);
    assert MakeBytesFromWords(ws) == prefix + BigEndianBytes(ws[i]) + suffix;
    WordAtBigEndianBytes(prefix, ws[i], suffix);
  }

  /** The line loop of `ReadFile`: blank lines are skipped, every other line
      must parse as a word or the read fails with `InvalidFormat`. */
  function CollectWords(lines: seq<string>): (r: Result<seq<U32>, FileReadError>)
    ensures r.Err? ==> r.error == InvalidFormat
    ensures r.Ok? <==> forall i :: 0 <= i < |lines| ==> IsBlank(lines[i]) || ParseWord(lines[i]).Some?
  {
    if |lines| == 0 then Ok([])
    else
      var rest := CollectWords(lines[1..]);
      assert forall i :: 1 <= i < |lines| ==> lines[i] == lines[1..][i - 1];
      if IsBlank(lines[0]) then rest
      else
        match ParseWord(lines[0])
        case None => Err(InvalidFormat)
        case Some(v) =>
          match rest
          case Err(e) => Err(e)
          case Ok(ws) => Ok([v] + ws)
  }

  /** The collected words are the values of the non-blank lines, one word
      per line, in order. */
  lemma {:induction false} CollectWordsValues(lines: seq<string>)
    requires CollectWords(lines).Ok?
    ensures |CollectWords(lines).value| == |WordLines(lines)|
    ensures forall i :: 0 <= i < |WordLines(lines)| ==>
              ParseWord(WordLines(lines)[i]) == Some(CollectWords(lines).value[i])
  {
    if |lines| > 0 {
      CollectWordsStep(lines);
      CollectWordsValues(lines[1..]);
      if !IsBlank(lines[0]) {
        ParsesToCons(lines[0], ParseWord(lines[0]).value, WordLines(lines[1..]), CollectWords(lines[1..]).value);
      }
    }
  }

  /** One step of the line loop: a blank first line is skipped, any other
      first line contributes its word in front of the rest. */
  lemma CollectWordsStep(lines: seq<string>)
    requires |lines| > 0 && CollectWords(lines).Ok?
    ensures CollectWords(lines[1..]).Ok?
    ensures IsBlank(lines[0]) ==>
              CollectWords(lines) == CollectWords(lines[1..]) && WordLines(lines) == WordLines(lines[1..])
    ensures !IsBlank(lines[0]) ==>
              && ParseWord(lines[0]).Some?
              && CollectWords(lines).value == [ParseWord(lines[0]).value] + CollectWords(lines[1..]).value
              && WordLines(lines) == [lines[0]] + WordLines(lines[1..])
  {
  }

  /** Putting a line and its word in front of lines that parse, position by
      position, to words keeps them parsing position by position. */
  lemma ParsesToCons(l: string, v: U32, ls: seq<string>, vs: seq<U32>)
    requires ParseWord(l) == Some(v) && |ls| == |vs|
    requires forall i :: 0 <= i < |ls| ==> ParseWord(ls[i]) == Some(vs[i])
    ensures forall i :: 0 <= i < |ls| + 1 ==> ParseWord(([l] + ls)[i]) == Some(([v] + vs)[i])
  {
  }

  /** Blank lines may hold any white space, but a word line may be padded
      with blanks only: a non-blank line holding a tab, or the carriage
      return a CRLF line ending leaves behind, fails the whole read. */
  lemma {:induction false} OtherWhiteSpaceRejected(lines: seq<string>, k: nat, p: nat)
    requires k < |lines| && !IsBlank(lines[k])
    requires p < |lines[k]| && IsSpace(lines[k][p]) && lines[k][p] != ' '
    ensures ReadFile(lines) == Err(InvalidFormat)
  {
    ParseWordRejectsForeign(lines[k], p);
  }

  /** The header check `ReadFile` makes on the collected words, with the
      size sum taken over unbounded integers. */
  predicate HeaderConsistent(ws: seq<U32>)
  {
    |ws| >= 2 && ws[0] % 4 == 0 && ws[1] % 4 == 0 && ws[0] as int + ws[1] == 4 * (|ws| - 2)
  }

  /** The size comparison as the source writes it: both sides are
      `uint32_t`, so the sum and the product wrap around. */
  predicate SizesMatchAsWritten(textSize: U32, dataSize: U32, count: nat)
    requires count >= 2
  {
    (textSize as int + dataSize) % WordModulus == (4 * (count - 2)) % WordModulus
  }

  /** A header of `0xFFFFFFFC` and `0x4` with no further words passes the
      wrapped comparison, although it announces 0x3FFFFFFF text words that
      are not there; the exact comparison refuses the file. */
  lemma SizeCheckWrapAdmitsOverrun()
    ensures SizesMatchAsWritten(0xFFFF_FFFC, 4, 2)
    ensures ReadFile(["0xFFFFFFFC", "0x4"]) == Err(SectionSizeDoesNotMatch)
  {
    WrappingHeaderWords();
  }

  /** The two lines of the wrapping header collect to their two values. */
  lemma WrappingHeaderWords()
    ensures CollectWords(["0xFFFFFFFC", "0x4"]) == Ok([0xFFFF_FFFC, 4])
  {
    ParseHeaderLines();
    WordLineIsNotBlank("0xFFFFFFFC");
    WordLineIsNotBlank("0x4");
    CollectTwoWords("0xFFFFFFFC", "0x4", 0xFFFF_FFFC, 4);
  }

  /** Two word lines collect to their two values, in order. */
  lemma CollectTwoWords(l0: string, l1: string, v0: U32, v1: U32)
    requires !IsBlank(l0) && ParseWord(l0) == Some(v0)
    requires !IsBlank(l1) && ParseWord(l1) == Some(v1)
    ensures CollectWords([l0, l1]) == Ok([v0, v1])
  {
    var lines := [l0, l1];
    assert [l1][1..] == [];
    assert CollectWords([l1][1..]) == Ok([]);
    assert [v1] + [] == [v1];
    assert CollectWords([l1]) == Ok([v1]);
    assert lines[1..] == [l1];
    assert [v0] + [v1] == [v0, v1];
  }

  /** The values of the two lines of the wrapping header. */
  lemma ParseHeaderLines()
    ensures ParseWord("0xFFFFFFFC") == Some(0xFFFF_FFFC)
    ensures ParseWord("0x4") == Some(4)
  {
    ParseWrappingSize();
    ParseFour();
  }

  lemma ParseWrappingSize()
    ensures ParseWord("0xFFFFFFFC") == Some(0xFFFF_FFFC)
  {
    assert "0x" + "FFFFFFFC" == "0xFFFFFFFC";
    HexValueOfWrappingSize();
    ParseLiteral("FFFFFFFC");
  }

  lemma ParseFour()
    ensures ParseWord("0x4") == Some(4)
  {
    assert "0x" + "4" == "0x4";
    assert "4"[..0] == "";
    assert HexValue("4") == 4;
    ParseLiteral("4");
  }

  /** A literal with no padding parses as the value of its digits. */
  lemma ParseLiteral(digits: string)
    requires |digits| > 0 && AllHexDigits(digits) && HexValue(digits) <= MaxWord
    ensures ParseWord("0x" + digits) == Some(HexValue(digits))
  {
    ParseWordComplete(0, digits, 0);
    Unpadded(digits);
  }

  lemma Unpadded(digits: string)
    ensures Spaces(0) + "0x" + digits + Spaces(0) == "0x" + digits
  {
    assert Spaces(0) == [];
  }

  /** The value of the digits `FFFFFFFC`, evaluated one digit at a time. */
  lemma HexValueOfWrappingSize()
    ensures HexValue("FFFFFFFC") == 0xFFFF_FFFC
  {
    assert "FFFFFFFC"[..7] == "FFFFFFF";
    assert "FFFFFFF"[..6] == "FFFFFF";
    assert "FFFFFF"[..5] == "FFFFF";
    assert "FFFFF"[..4] == "FFFF";
    assert "FFFF"[..3] == "FFF";
    assert "FFF"[..2] == "FF";
    assert "FF"[..1] == "F";
    assert "F"[..0] == "";
  }

  /** The product side of the comparison wraps as well: two zero sizes
      followed by 2^30 words pass it, because `4 * 2^30` is 0 in
      `uint32_t`, and the source then returns two empty buffers. The exact
      comparison refuses such a file. */
  lemma SizeCheckProductWrap(lines: seq<string>)
    requires CollectWords(lines).Ok?
    requires var ws := CollectWords(lines).value;
             |ws| == 2 + 0x4000_0000 && ws[0] == 0 && ws[1] == 0
    ensures SizesMatchAsWritten(0, 0, |CollectWords(lines).value|)
    ensures ReadFile(lines) == Err(SectionSizeDoesNotMatch)
  {
    ProductWrapHeader(CollectWords(lines).value);
  }

  /** The header of the product-wrap example passes the wrapped comparison
      and fails the exact one. */
  lemma ProductWrapHeader(ws: seq<U32>)
    requires |ws| == 2 + 0x4000_0000 && ws[0] == 0 && ws[1] == 0
    ensures SizesMatchAsWritten(0, 0, |ws|) && !HeaderConsistent(ws)
  {
    assert 4 * (|ws| - 2) == WordModulus;
  }

  /** Where no wrap-around occurs the two comparisons agree. */
  lemma SizeCheckAgreesWithoutWrap(textSize: U32, dataSize: U32, count: nat)
    requires count >= 2
    requires textSize as int + dataSize < WordModulus && 4 * (count - 2) < WordModulus
    ensures SizesMatchAsWritten(textSize, dataSize, count) <==> textSize as int + dataSize == 4 * (count - 2)
  {
  }

  /** A consistent header describes the remaining words exactly: the text
      words are followed immediately by the data words. */
  lemma {:induction false} HeaderSplitsWords(ws: seq<U32>)
    requires HeaderConsistent(ws)
    ensures 2 + ws[0] / 4 == |ws| - ws[1] / 4
    ensures 4 * (ws[0] / 4) == ws[0] && 4 * (ws[1] / 4) == ws[1]
  {
  }

  /** Under a consistent header, the serialisations of the text words and
      of the data words, laid end to end, are the serialisation of all the
      words after the header. */
  lemma SerialisationSplits(ws: seq<U32>)
    requires HeaderConsistent(ws)
    ensures 2 + ws[0] / 4 <= |ws|
    ensures MakeBytesFromWords(ws[2..2 + ws[0] / 4]) + MakeBytesFromWords(ws[2 + ws[0] / 4..])
            == MakeBytesFromWords(ws[2..])
  {
    HeaderSplitsWords(ws);
    var split := 2 + ws[0] / 4;
    assert ws[2..] == ws[2..split] + ws[split..];
    MakeBytesFromWordsAppend(ws[2..split], ws[split..]);
  }

  /** `ReadFile` on a stream, given as its lines: the words are collected,
      then the header is checked in the source's order (at least two words,
      a text size that is a multiple of four, a data size that is a multiple
      of four, sizes summing to the number of remaining bytes), and the
      remaining words are split into the two buffers. */
  function ReadFile(lines: seq<string>): (r: Result<Image, FileReadError>)
    ensures CollectWords(lines).Err? ==> r == Err(InvalidFormat)
    ensures CollectWords(lines).Ok? ==>
      (r.Ok? <==> HeaderConsistent(CollectWords(lines).value))
    ensures CollectWords(lines).Ok? && r.Err? ==> r.error == SectionSizeDoesNotMatch
    ensures r.Ok? ==>
      var ws := CollectWords(lines).value;
      |r.value.text| == ws[0] && |r.value.data| == ws[1] &&
      r.value.text + r.value.data == MakeBytesFromWords(ws[2..])
  {
    match CollectWords(lines)
    case Err(e) => Err(e)
    case Ok(words) =>
      if |words| < 2 then Err(SectionSizeDoesNotMatch)
      else if words[0] % 4 != 0 then Err(SectionSizeDoesNotMatch)
      else if words[1] % 4 != 0 then Err(SectionSizeDoesNotMatch)
      else if words[0] as int + words[1] != 4 * (|words| - 2) then Err(SectionSizeDoesNotMatch)
      else
        var split := 2 + words[0] / 4;
        HeaderSplitsWords(words);
        SerialisationSplits(words);
        Ok(Image(MakeBytesFromWords(words[2..split]), MakeBytesFromWords(words[split..])))
  }
}
