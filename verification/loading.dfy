/** A program read from an object file and loaded into a fresh machine, as
    the emulator's driver does: the reader's buffers become the two
    segments, and every word of the file is found again at its address. */
module Loading {
  import opened Wrappers
  import opened Words
  import opened Addresses
  import opened AddressSpace
  import opened ObjectFile

  /** The machine built from a successful read. */
  function Boot(img: Image): (m: Memory)
    requires |img.text| < WordModulus && |img.data| < WordModulus
    ensures m.Valid() && m.text == img.text && m.data == img.data
    ensures m.registers[PC] == TextBase
  {
    FromBuffers(img.text, img.data)
  }

  /** Bytes `4 i` to `4 i + 3` of the two buffers laid end to end are the
      serialisation of word `i` after the header. */
  lemma {:induction false} BuffersHoldWord(lines: seq<string>, i: nat)
    requires ReadFile(lines).Ok?
    requires i < |CollectWords(lines).value| - 2
    ensures var img := ReadFile(lines).value;
      4 * i + 4 <= |img.text + img.data| &&
      (img.text + img.data)[4 * i..4 * i + 4] == BigEndianBytes(CollectWords(lines).value[2 + i])
  {
    var ws := CollectWords(lines).value;
    WordAtMakeBytes(ws[2..], i);
  }

  /** Four bytes holding the serialisation of a word read back as that word. */
  lemma ReadsBack(m: Memory, a: Address, w: U32)
    requires m.Valid() && a.offset + 4 <= |Segment(m, a.base)|
    requires Segment(m, a.base)[a.offset..a.offset + 4] == BigEndianBytes(w)
    ensures GetWord(m, a) == Ok(w)
  {
    BigEndianBytesInjective(GetWord(m, a).value, w);
  }

  /** Text word `i` of the file is what `GetWord` reads at text offset
      `4 i` of the booted machine. */
  lemma LoadedTextWord(lines: seq<string>, i: nat)
    requires ReadFile(lines).Ok?
    requires i < CollectWords(lines).value[0] / 4
    ensures var img := ReadFile(lines).value;
      |img.text| < WordModulus && |img.data| < WordModulus &&
      GetWord(Boot(img), MakeText(4 * i)) == Ok(CollectWords(lines).value[2 + i])
  {
    ImageTextWord(ReadFile(lines).value, CollectWords(lines).value, i);
  }

  /** Data word `j` of the file is what `GetWord` reads at data offset
      `4 j` of the booted machine. */
  lemma LoadedDataWord(lines: seq<string>, j: nat)
    requires ReadFile(lines).Ok?
    requires j < CollectWords(lines).value[1] / 4
    ensures var img := ReadFile(lines).value;
      |img.text| < WordModulus && |img.data| < WordModulus &&
      GetWord(Boot(img), MakeData(4 * j)) == Ok(CollectWords(lines).value[2 + CollectWords(lines).value[0] / 4 + j])
  {
    ImageDataWord(ReadFile(lines).value, CollectWords(lines).value, j);
  }

  /** The buffers a read makes from the words `ws`. */
  predicate ReadOf(img: Image, ws: seq<U32>)
  {
    && HeaderConsistent(ws)
    && |img.text| == ws[0] && |img.data| == ws[1]
    && img.text + img.data == MakeBytesFromWords(ws[2..])
  }

  /** `ImageTextWord` and `ImageDataWord` state the two loaded-word
      properties for buffers made from given words. */
  lemma {:induction false} ImageTextWord(img: Image, ws: seq<U32>, i: nat)
    requires ReadOf(img, ws) && i < ws[0] / 4
    ensures |img.text| < WordModulus && |img.data| < WordModulus
    ensures GetWord(Boot(img), MakeText(4 * i)) == Ok(ws[2 + i])
  {
    HeaderSplitsWords(ws);
    FirstPartWord(ws[2..], img.text, img.data, ws[0] / 4, i);
    assert ws[2..][i] == ws[2 + i];
    ReadsBack(Boot(img), MakeText(4 * i), ws[2 + i]);
  }

  lemma {:induction false} ImageDataWord(img: Image, ws: seq<U32>, j: nat)
    requires ReadOf(img, ws) && j < ws[1] / 4
    ensures |img.text| < WordModulus && |img.data| < WordModulus
    ensures GetWord(Boot(img), MakeData(4 * j)) == Ok(ws[2 + ws[0] / 4 + j])
  {
    HeaderSplitsWords(ws);
    SecondPartWord(ws[2..], img.text, img.data, ws[0] / 4, j);
    assert ws[2..][ws[0] / 4 + j] == ws[2 + ws[0] / 4 + j];
    ReadsBack(Boot(img), MakeData(4 * j), ws[2 + ws[0] / 4 + j]);
  }

  /** When the serialisation of `ws` is split after `k` words, bytes
      `4 i .. 4 i + 3` of the first part serialise word `i`. */
  lemma FirstPartWord(ws: seq<U32>, t: seq<U8>, d: seq<U8>, k: nat, i: nat)
    requires t + d == MakeBytesFromWords(ws) && |t| == 4 * k && i < k <= |ws|
    ensures 4 * i + 4 <= |t| && t[4 * i..4 * i + 4] == BigEndianBytes(ws[i])
  {
    SplitSerialisation(ws, k);
    PartsAgree(t, d, MakeBytesFromWords(ws[..k]), MakeBytesFromWords(ws[k..]));
    WordAtMakeBytes(ws[..k], i);
    assert ws[..k][i] == ws[i];
  }

  /** The serialisation of `ws`, split after `k` words. */
  lemma SplitSerialisation(ws: seq<U32>, k: nat)
    requires k <= |ws|
    ensures |MakeBytesFromWords(ws[..k])| == 4 * k
    ensures MakeBytesFromWords(ws) == MakeBytesFromWords(ws[..k]) + MakeBytesFromWords(ws[k..])
  {
    assert ws == ws[..k] + ws[k..];
    MakeBytesFromWordsAppend(ws[..k], ws[k..]);
  }

  /** When the serialisation of `ws` is split after `k` words, bytes
      `4 j .. 4 j + 3` of the second part serialise word `k + j`. */
  lemma SecondPartWord(ws: seq<U32>, t: seq<U8>, d: seq<U8>, k: nat, j: nat)
    requires t + d == MakeBytesFromWords(ws) && |t| == 4 * k && k + j < |ws|
    ensures 4 * j + 4 <= |d| && d[4 * j..4 * j + 4] == BigEndianBytes(ws[k + j])
  {
    SplitSerialisation(ws, k);
    PartsAgree(t, d, MakeBytesFromWords(ws[..k]), MakeBytesFromWords(ws[k..]));
    WordAtMakeBytes(ws[k..], j);
    assert ws[k..][j] == ws[k + j];
  }

  /** Two splits of one sequence at the same place have the same parts. */
  lemma PartsAgree(t: seq<U8>, d: seq<U8>, t': seq<U8>, d': seq<U8>)
    requires t + d == t' + d' && |t| == |t'|
    ensures t == t' && d == d'
  {
    assert t == (t + d)[..|t|];
    assert t' == (t' + d')[..|t'|];
    assert d == (t + d)[|t|..];
    assert d' == (t' + d')[|t'|..];
  }
}
