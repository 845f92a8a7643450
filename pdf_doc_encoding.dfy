/**
  PDFDocEncoding, the single-byte encoding of PDF text strings
  (ISO 32000-1:2008, Annex D): ISO-8859-1 except for the codes 0x18 to 0x1F
  and 0x7F to 0xA0, which stand for typographic characters.

  The tables are built once, by a static initialiser that first maps every
  code to the character with the same number and then overrides the two
  blocks of deviations. Decoding looks a byte up in the code-to-character
  table. Encoding asks the character-to-code map only whether a character is
  known: a known character is written as its own low eight bits, an unknown
  one as a zero byte.
*/
module DocEncoding {

  /** A Java `byte`: a signed 8-bit value. */
  newtype JByte = x: int | -128 <= x < 128

  /** A Java `char`: a UTF-16 code unit. */
  newtype JChar = x: int | 0 <= x < 0x1_0000

  /** U+FFFD, the character of the two undefined codes 0x7F and 0x9F. */
  const REPLACEMENT_CHARACTER: JChar := 0xFFFD

  /** '?', the character decoding would give a code outside the table. */
  const QUESTION_MARK: JChar := 0x3F

  /** `b & 0xff`: a byte read as unsigned. */
  function Unsigned(b: JByte): (u: int)
    ensures 0 <= u < 256
    ensures u % 256 == (b as int) % 256
  {
    if b < 0 then b as int + 256 else b as int
  }

  /** `(byte) v`, what `ByteArrayOutputStream.write(v)` stores: the low eight bits of `v`. */
  function LowByte(v: int): (b: JByte)
    ensures Unsigned(b) == v % 256
  {
    var u := v % 256;
    if u < 128 then u as JByte else (u - 256) as JByte
  }

  /** `(char) v`: the low sixteen bits of `v`. */
  function ToChar(v: int): JChar
  {
    (v % 0x1_0000) as JChar
  }

  /** The characters of codes 0x18 to 0x1F (breve, caron, circumflex, dot, double acute, ogonek, ring, tilde). */
  const Block1: seq<JChar> := [0x02D8, 0x02C7, 0x02C6, 0x02D9, 0x02DD, 0x02DB, 0x02DA, 0x02DC]

  /** The characters of codes 0x7F to 0xA0 (bullet, daggers, ellipsis, dashes, quotes, ligatures, ..., euro). */
  const Block2: seq<JChar> := [
    0xFFFD, 0x2022, 0x2020, 0x2021, 0x2026, 0x2014, 0x2013, 0x0192,
    0x2044, 0x2039, 0x203A, 0x2212, 0x2030, 0x201E, 0x201C, 0x201D,
    0x2018, 0x2019, 0x201A, 0x2122, 0xFB01, 0xFB02, 0x0141, 0x0152,
    0x0160, 0x0178, 0x017D, 0x0131, 0x0142, 0x0153, 0x0161, 0x017E,
    0xFFFD, 0x20AC]

  /** The codes whose character differs from ISO-8859-1. */
  predicate IsDeviationCode(code: int)
  {
    0x18 <= code <= 0x1F || 0x7F <= code <= 0xA0
  }

  /** The character of each code, as the finished `codeToUni` table holds it. */
  function CodeToUni(code: int): JChar
    requires 0 <= code < 256
  {
    if 0x18 <= code <= 0x1F then Block1[code - 0x18]
    else if 0x7F <= code <= 0xA0 then Block2[code - 0x7F]
    else code as JChar
  }

  /** The characters the finished `uniToCode` map has an entry for. */
  predicate InTable(c: JChar)
  {
    c < 256 || c in Block1 || c in Block2
  }

  /** The character `toString` appends for one byte. */
  function DecodeByte(b: JByte): JChar
  {
    var u := Unsigned(b);
    if u >= 256 then QUESTION_MARK else CodeToUni(u)
  }

  /** The byte `getBytes` writes for one character. */
  function EncodeChar(c: JChar): JByte
  {
    if InTable(c) then LowByte(c as int) else 0
  }

  /** `toString` on a whole byte sequence. */
  function Decode(bytes: seq<JByte>): (s: seq<JChar>)
    ensures |s| == |bytes|
    ensures forall j :: 0 <= j < |bytes| ==> s[j] == DecodeByte(bytes[j])
  {
    seq(|bytes|, j requires 0 <= j < |bytes| => DecodeByte(bytes[j]))
  }

  /** `getBytes` on a whole string. */
  function Encode(text: seq<JChar>): (r: seq<JByte>)
    ensures |r| == |text|
    ensures forall j :: 0 <= j < |text| ==> r[j] == EncodeChar(text[j])
  {
    seq(|text|, j requires 0 <= j < |text| => EncodeChar(text[j]))
  }

  /**
    Outside the two deviation blocks a code stands for the character with
    the same number; inside, for a character beyond ISO-8859-1, and the two
    undefined codes 0x7F and 0x9F for U+FFFD.
  */
  lemma CodeToUniCases(code: int)
    requires 0 <= code < 256
    ensures !IsDeviationCode(code) ==> CodeToUni(code) as int == code
    ensures IsDeviationCode(code) ==> CodeToUni(code) >= 0x100
    ensures code == 0x7F || code == 0x9F ==> CodeToUni(code) == REPLACEMENT_CHARACTER
    ensures code == 0x80 ==> CodeToUni(code) == 0x2022
    ensures code == 0xA0 ==> CodeToUni(code) == 0x20AC
  {
  }

  /** The `'?'` branch of `toString` is never taken: every byte decodes through the table. */
  lemma DecodeByteUsesTable(b: JByte)
    ensures DecodeByte(b) == CodeToUni(Unsigned(b))
  {
  }

  /**
    The map has an entry exactly for the characters below U+0100 and for the
    characters of the deviation codes (including U+FFFD).
  */
  lemma {:induction false} InTableIsImage(c: JChar)
    ensures InTable(c) <==>
      c < 256 || exists code :: 0 <= code < 256 && IsDeviationCode(code) && CodeToUni(code) == c
  {
    if c in Block1 || c in Block2 {
      var code := CodeOfBlockCharacter(c);
    }
    if exists code :: 0 <= code < 256 && IsDeviationCode(code) && CodeToUni(code) == c {
      var code :| 0 <= code < 256 && IsDeviationCode(code) && CodeToUni(code) == c;
      DeviationCharacterInBlocks(code);
    }
  }

  /** Each block character is the character of a deviation code. */
  lemma CodeOfBlockCharacter(c: JChar) returns (code: int)
    requires c in Block1 || c in Block2
    ensures 0 <= code < 256 && IsDeviationCode(code) && CodeToUni(code) == c
  {
    if c in Block1 {
      var i :| 0 <= i < |Block1| && Block1[i] == c;
      code := 0x18 + i;
      assert CodeToUni(code) == Block1[code - 0x18];
    } else {
      var i :| 0 <= i < |Block2| && Block2[i] == c;
      code := 0x7F + i;
      assert CodeToUni(code) == Block2[code - 0x7F];
    }
  }

  /** The character of a deviation code is one of the block characters. */
  lemma DeviationCharacterInBlocks(code: int)
    requires 0 <= code < 256 && IsDeviationCode(code)
    ensures CodeToUni(code) in Block1 || CodeToUni(code) in Block2
  {
    if code <= 0x1F {
      assert Block1[code - 0x18] == CodeToUni(code);
    } else {
      assert Block2[code - 0x7F] == CodeToUni(code);
    }
  }

  /**
    Encoding writes a zero byte for a character the map lacks, and the low
    eight bits of the character itself (not its table code) for one it has:
    a character below U+0100 encodes to itself, U+2022 (bullet) to 0x22.
  */
  lemma EncodeCharCases(c: JChar)
    ensures !InTable(c) ==> EncodeChar(c) == 0
    ensures InTable(c) ==> Unsigned(EncodeChar(c)) == c as int % 256
    ensures c < 256 ==> Unsigned(EncodeChar(c)) == c as int
    ensures c == 0x2022 ==> EncodeChar(c) == 0x22
  {
    if c == 0x2022 {
      assert Block2[1] == c;
      assert InTable(c);
      assert (c as int) % 256 == 0x22;
    }
  }

  /**
    A byte survives decoding and re-encoding exactly when its code lies
    outside the deviation blocks: a deviation character is written as its own
    low byte, which never is its code.
  */
  lemma {:induction false} RoundTripByte(b: JByte)
    ensures Encode(Decode([b])) == [b] <==> !IsDeviationCode(Unsigned(b))
  {
    var u := Unsigned(b);
    var c := CodeToUni(u);
    assert Decode([b]) == [c];
    assert Encode([c]) == [EncodeChar(c)];
    if IsDeviationCode(u) {
      DeviationCharacterMoves(u);
      assert EncodeChar(c) == 0 || Unsigned(EncodeChar(c)) == c as int % 256;
    } else {
      assert c as int == u;
      assert Unsigned(EncodeChar(c)) == u;
      assert EncodeChar(c) == b;
    }
  }

  /** No deviation character has its own code as its low eight bits. */
  lemma DeviationCharacterMoves(code: int)
    requires 0 <= code < 256 && IsDeviationCode(code)
    ensures CodeToUni(code) as int % 256 != code
  {
    DeviationCharacter(code);
  }

  /** Byte strings without deviation codes survive decoding and re-encoding. */
  lemma RoundTrip(bytes: seq<JByte>)
    requires forall j :: 0 <= j < |bytes| ==> !IsDeviationCode(Unsigned(bytes[j]))
    ensures Encode(Decode(bytes)) == bytes
  {
    forall j | 0 <= j < |bytes|
      ensures EncodeChar(DecodeByte(bytes[j])) == bytes[j]
    {
      RoundTripByte(bytes[j]);
      assert Decode([bytes[j]]) == [DecodeByte(bytes[j])];
      assert Encode([DecodeByte(bytes[j])]) == [EncodeChar(DecodeByte(bytes[j]))];
    }
  }

  /** The number of codes of a single-byte encoding. */
  const CODES: nat := 256

  /** The code-to-character table after the initialising loop: every code its own character. */
  function Latin1Codes(): (t: seq<int>)
    ensures |t| == 256
  {
    seq(256, i => i)
  }

  /** The character-to-code map after `n` rounds of the initialising loop: each character below `n` its own code. */
  function Latin1Chars(n: nat): (m: map<JChar, int>)
    requires n <= 0x1_0000
  {
    if n == 0 then map[] else Latin1Chars(n - 1)[(n - 1) as JChar := n - 1]
  }

  /** The initialising loop leaves an entry for exactly the characters below `n`, each its own code. */
  lemma {:induction false} Latin1CharsEntries(n: nat, c: JChar)
    requires n <= 0x1_0000
    ensures c in Latin1Chars(n) <==> (c as int) < n
    ensures c in Latin1Chars(n) ==> Latin1Chars(n)[c] == c as int
  {
    if n > 0 {
      Latin1CharsEntries(n - 1, c);
    }
  }

  /** The code-to-character table once the deviations are set, in the order the initialiser sets them. */
  function CodeTable(): (t: seq<int>)
    ensures |t| == 256
  {
    Latin1Codes()
      [0x18 := 0x02D8]
      [0x19 := 0x02C7]
      [0x1A := 0x02C6]
      [0x1B := 0x02D9]
      [0x1C := 0x02DD]
      [0x1D := 0x02DB]
      [0x1E := 0x02DA]
      [0x1F := 0x02DC]
      [0x7F := 0xFFFD]
      [0x80 := 0x2022]
      [0x81 := 0x2020]
      [0x82 := 0x2021]
      [0x83 := 0x2026]
      [0x84 := 0x2014]
      [0x85 := 0x2013]
      [0x86 := 0x0192]
      [0x87 := 0x2044]
      [0x88 := 0x2039]
      [0x89 := 0x203A]
      [0x8A := 0x2212]
      [0x8B := 0x2030]
      [0x8C := 0x201E]
      [0x8D := 0x201C]
      [0x8E := 0x201D]
      [0x8F := 0x2018]
      [0x90 := 0x2019]
      [0x91 := 0x201A]
      [0x92 := 0x2122]
      [0x93 := 0xFB01]
      [0x94 := 0xFB02]
      [0x95 := 0x0141]
      [0x96 := 0x0152]
      [0x97 := 0x0160]
      [0x98 := 0x0178]
      [0x99 := 0x017D]
      [0x9A := 0x0131]
      [0x9B := 0x0142]
      [0x9C := 0x0153]
      [0x9D := 0x0161]
      [0x9E := 0x017E]
      [0x9F := 0xFFFD]
      [0xA0 := 0x20AC]
  }

  /**
    A character-to-code map with the deviations set over it, in the order the
    initialiser sets them: block 1, then block 2 in four groups of codes.
  */
  function WithDeviations(base: map<JChar, int>): map<JChar, int>
  {
    Set98ToA0(Set90To97(Set88To8F(Set7FTo87(Set18To1F(base)))))
  }

  /** The deviations of codes 0x18 to 0x1F, set over `m`. */
  function Set18To1F(m: map<JChar, int>): map<JChar, int>
  {
    m
      [0x02D8 := 0x18]
      [0x02C7 := 0x19]
      [0x02C6 := 0x1A]
      [0x02D9 := 0x1B]
      [0x02DD := 0x1C]
      [0x02DB := 0x1D]
      [0x02DA := 0x1E]
      [0x02DC := 0x1F]
  }

  /** `Set18To1F` leaves the entry of every other character as it is. */
  lemma Set18To1FKeeps(m: map<JChar, int>, c: JChar)
    requires c != 0x02C6 && c != 0x02C7 && c != 0x02D8 && c != 0x02D9 && c != 0x02DA && c != 0x02DB && c != 0x02DC && c != 0x02DD
    ensures c in Set18To1F(m) <==> c in m
    ensures c in m ==> Set18To1F(m)[c] == m[c]
  {
  }

  /** The deviations of codes 0x7F to 0x87, set over `m`. */
  function Set7FTo87(m: map<JChar, int>): map<JChar, int>
  {
    m
      [0xFFFD := 0x7F]
      [0x2022 := 0x80]
      [0x2020 := 0x81]
      [0x2021 := 0x82]
      [0x2026 := 0x83]
      [0x2014 := 0x84]
      [0x2013 := 0x85]
      [0x0192 := 0x86]
      [0x2044 := 0x87]
  }

  /** `Set7FTo87` leaves the entry of every other character as it is. */
  lemma Set7FTo87Keeps(m: map<JChar, int>, c: JChar)
    requires c != 0x0192 && c != 0x2013 && c != 0x2014 && c != 0x2020 && c != 0x2021 && c != 0x2022 && c != 0x2026 && c != 0x2044 && c != 0xFFFD
    ensures c in Set7FTo87(m) <==> c in m
    ensures c in m ==> Set7FTo87(m)[c] == m[c]
  {
  }

  /** The deviations of codes 0x88 to 0x8F, set over `m`. */
  function Set88To8F(m: map<JChar, int>): map<JChar, int>
  {
    m
      [0x2039 := 0x88]
      [0x203A := 0x89]
      [0x2212 := 0x8A]
      [0x2030 := 0x8B]
      [0x201E := 0x8C]
      [0x201C := 0x8D]
      [0x201D := 0x8E]
      [0x2018 := 0x8F]
  }

  /** `Set88To8F` leaves the entry of every other character as it is. */
  lemma Set88To8FKeeps(m: map<JChar, int>, c: JChar)
    requires c != 0x2018 && c != 0x201C && c != 0x201D && c != 0x201E && c != 0x2030 && c != 0x2039 && c != 0x203A && c != 0x2212
    ensures c in Set88To8F(m) <==> c in m
    ensures c in m ==> Set88To8F(m)[c] == m[c]
  {
  }

  /** The deviations of codes 0x90 to 0x97, set over `m`. */
  function Set90To97(m: map<JChar, int>): map<JChar, int>
  {
    m
      [0x2019 := 0x90]
      [0x201A := 0x91]
      [0x2122 := 0x92]
      [0xFB01 := 0x93]
      [0xFB02 := 0x94]
      [0x0141 := 0x95]
      [0x0152 := 0x96]
      [0x0160 := 0x97]
  }

  /** `Set90To97` leaves the entry of every other character as it is. */
  lemma Set90To97Keeps(m: map<JChar, int>, c: JChar)
    requires c != 0x0141 && c != 0x0152 && c != 0x0160 && c != 0x2019 && c != 0x201A && c != 0x2122 && c != 0xFB01 && c != 0xFB02
    ensures c in Set90To97(m) <==> c in m
    ensures c in m ==> Set90To97(m)[c] == m[c]
  {
  }

  /** The deviations of codes 0x98 to 0xA0, set over `m`. */
  function Set98ToA0(m: map<JChar, int>): map<JChar, int>
  {
    m
      [0x0178 := 0x98]
      [0x017D := 0x99]
      [0x0131 := 0x9A]
      [0x0142 := 0x9B]
      [0x0153 := 0x9C]
      [0x0161 := 0x9D]
      [0x017E := 0x9E]
      [0xFFFD := 0x9F]
      [0x20AC := 0xA0]
  }

  /** `Set98ToA0` leaves the entry of every other character as it is. */
  lemma Set98ToA0Keeps(m: map<JChar, int>, c: JChar)
    requires c != 0x0131 && c != 0x0142 && c != 0x0153 && c != 0x0161 && c != 0x0178 && c != 0x017D && c != 0x017E && c != 0x20AC && c != 0xFFFD
    ensures c in Set98ToA0(m) <==> c in m
    ensures c in m ==> Set98ToA0(m)[c] == m[c]
  {
  }

  /** The character-to-code map once the deviations are set. */
  function CharTable(): map<JChar, int>
  {
    WithDeviations(Latin1Chars(CODES))
  }

  /** The finished table holds the ISO-8859-1 character, or the listed deviation, of each code. */
  lemma CodeTableMeaning()
    ensures |CodeTable()| == 256
    ensures forall code :: 0 <= code < 256 ==> CodeTable()[code] == CodeToUni(code) as int
  {
    forall code | 0 <= code < 256
      ensures CodeTable()[code] == CodeToUni(code) as int
    {
      assert Latin1Codes()[code] == code;
    }
  }

  /** The finished map has an entry exactly for the characters below U+0100 and the deviation characters. */
  lemma CharTableKeys(c: JChar)
    ensures c in CharTable() <==> InTable(c)
  {
    Latin1CharsEntries(CODES, c);
  }

  /** The finished map sends each character below U+0100 to its own code. */
  lemma CharTableLatin1(c: JChar)
    requires c < 256
    ensures c in CharTable() && CharTable()[c] == c as int
  {
    Latin1CharsEntries(CODES, c);
    WithDeviationsKeepsLatin1(Latin1Chars(CODES), c);
  }

  /** The deviations leave the entry of every character below U+0100 as it is. */
  lemma WithDeviationsKeepsLatin1(base: map<JChar, int>, c: JChar)
    requires c < 256 && c in base
    ensures c in WithDeviations(base) && WithDeviations(base)[c] == base[c]
  {
    var m1 := Set18To1F(base);
    var m2 := Set7FTo87(m1);
    var m3 := Set88To8F(m2);
    var m4 := Set90To97(m3);
    Set18To1FKeeps(base, c);
    Set7FTo87Keeps(m1, c);
    Set88To8FKeeps(m2, c);
    Set90To97Keeps(m3, c);
    Set98ToA0Keeps(m4, c);
  }

  /**
    The finished map sends each deviation character to its code; U+FFFD, set
    for both 0x7F and 0x9F, keeps the later code 0x9F.
  */
  lemma CharTableDeviation(code: int)
    requires 0 <= code < 256 && IsDeviationCode(code) && code != 0x7F
    ensures CodeToUni(code) in CharTable()
    ensures CharTable()[CodeToUni(code)] == code
  {
    WithDeviationsSendsDeviation(Latin1Chars(CODES), code);
  }

  /** A deviation code other than 0x7F is what `WithDeviations` maps its character to, whatever the base. */
  lemma WithDeviationsSendsDeviation(base: map<JChar, int>, code: int)
    requires 0 <= code < 256 && IsDeviationCode(code) && code != 0x7F
    ensures CodeToUni(code) in WithDeviations(base)
    ensures WithDeviations(base)[CodeToUni(code)] == code
  {
    DeviationCharacter(code);
    var c := CodeToUni(code);
    if code <= 0x1F {
      Set18To1FSurvives(base, c, code);
    } else if code <= 0x87 {
      Set7FTo87Survives(base, c, code);
    } else if code <= 0x8F {
      Set88To8FSurvives(base, c, code);
    } else if code <= 0x97 {
      Set90To97Survives(base, c, code);
    } else {
      Set98ToA0Sends(Set90To97(Set88To8F(Set7FTo87(Set18To1F(base)))), c, code);
    }
  }

  /** The characters `Set18To1F` sets keep their codes through the later groups. */
  lemma Set18To1FSurvives(base: map<JChar, int>, c: JChar, code: int)
    requires
      (c == 0x02D8 && code == 0x18)
      || (c == 0x02C7 && code == 0x19)
      || (c == 0x02C6 && code == 0x1A)
      || (c == 0x02D9 && code == 0x1B)
      || (c == 0x02DD && code == 0x1C)
      || (c == 0x02DB && code == 0x1D)
      || (c == 0x02DA && code == 0x1E)
      || (c == 0x02DC && code == 0x1F)
    ensures c in WithDeviations(base) && WithDeviations(base)[c] == code
  {
    var m := base;
    Set18To1FSends(m, c, code);
    m := Set18To1F(m);
    Set7FTo87Keeps(m, c);
    m := Set7FTo87(m);
    Set88To8FKeeps(m, c);
    m := Set88To8F(m);
    Set90To97Keeps(m, c);
    m := Set90To97(m);
    Set98ToA0Keeps(m, c);
  }

  /** `Set18To1F` maps each of its characters to its code. */
  lemma Set18To1FSends(m: map<JChar, int>, c: JChar, code: int)
    requires
      (c == 0x02D8 && code == 0x18)
      || (c == 0x02C7 && code == 0x19)
      || (c == 0x02C6 && code == 0x1A)
      || (c == 0x02D9 && code == 0x1B)
      || (c == 0x02DD && code == 0x1C)
      || (c == 0x02DB && code == 0x1D)
      || (c == 0x02DA && code == 0x1E)
      || (c == 0x02DC && code == 0x1F)
    ensures c in Set18To1F(m) && Set18To1F(m)[c] == code
  {
  }

  /** The characters `Set7FTo87` sets keep their codes through the later groups. */
  lemma Set7FTo87Survives(base: map<JChar, int>, c: JChar, code: int)
    requires
      (c == 0x2022 && code == 0x80)
      || (c == 0x2020 && code == 0x81)
      || (c == 0x2021 && code == 0x82)
      || (c == 0x2026 && code == 0x83)
      || (c == 0x2014 && code == 0x84)
      || (c == 0x2013 && code == 0x85)
      || (c == 0x0192 && code == 0x86)
      || (c == 0x2044 && code == 0x87)
    ensures c in WithDeviations(base) && WithDeviations(base)[c] == code
  {
    var m := base;
    m := Set18To1F(m);
    Set7FTo87Sends(m, c, code);
    m := Set7FTo87(m);
    Set88To8FKeeps(m, c);
    m := Set88To8F(m);
    Set90To97Keeps(m, c);
    m := Set90To97(m);
    Set98ToA0Keeps(m, c);
  }

  /** `Set7FTo87` maps each of its characters to its code. */
  lemma Set7FTo87Sends(m: map<JChar, int>, c: JChar, code: int)
    requires
      (c == 0x2022 && code == 0x80)
      || (c == 0x2020 && code == 0x81)
      || (c == 0x2021 && code == 0x82)
      || (c == 0x2026 && code == 0x83)
      || (c == 0x2014 && code == 0x84)
      || (c == 0x2013 && code == 0x85)
      || (c == 0x0192 && code == 0x86)
      || (c == 0x2044 && code == 0x87)
    ensures c in Set7FTo87(m) && Set7FTo87(m)[c] == code
  {
  }

  /** The characters `Set88To8F` sets keep their codes through the later groups. */
  lemma Set88To8FSurvives(base: map<JChar, int>, c: JChar, code: int)
    requires
      (c == 0x2039 && code == 0x88)
      || (c == 0x203A && code == 0x89)
      || (c == 0x2212 && code == 0x8A)
      || (c == 0x2030 && code == 0x8B)
      || (c == 0x201E && code == 0x8C)
      || (c == 0x201C && code == 0x8D)
      || (c == 0x201D && code == 0x8E)
      || (c == 0x2018 && code == 0x8F)
    ensures c in WithDeviations(base) && WithDeviations(base)[c] == code
  {
    var m := base;
    m := Set18To1F(m);
    m := Set7FTo87(m);
    Set88To8FSends(m, c, code);
    m := Set88To8F(m);
    Set90To97Keeps(m, c);
    m := Set90To97(m);
    Set98ToA0Keeps(m, c);
  }

  /** `Set88To8F` maps each of its characters to its code. */
  lemma Set88To8FSends(m: map<JChar, int>, c: JChar, code: int)
    requires
      (c == 0x2039 && code == 0x88)
      || (c == 0x203A && code == 0x89)
      || (c == 0x2212 && code == 0x8A)
      || (c == 0x2030 && code == 0x8B)
      || (c == 0x201E && code == 0x8C)
      || (c == 0x201C && code == 0x8D)
      || (c == 0x201D && code == 0x8E)
      || (c == 0x2018 && code == 0x8F)
    ensures c in Set88To8F(m) && Set88To8F(m)[c] == code
  {
  }

  /** The characters `Set90To97` sets keep their codes through the later groups. */
  lemma Set90To97Survives(base: map<JChar, int>, c: JChar, code: int)
    requires
      (c == 0x2019 && code == 0x90)
      || (c == 0x201A && code == 0x91)
      || (c == 0x2122 && code == 0x92)
      || (c == 0xFB01 && code == 0x93)
      || (c == 0xFB02 && code == 0x94)
      || (c == 0x0141 && code == 0x95)
      || (c == 0x0152 && code == 0x96)
      || (c == 0x0160 && code == 0x97)
    ensures c in WithDeviations(base) && WithDeviations(base)[c] == code
  {
    var m := base;
    m := Set18To1F(m);
    m := Set7FTo87(m);
    m := Set88To8F(m);
    Set90To97Sends(m, c, code);
    m := Set90To97(m);
    Set98ToA0Keeps(m, c);
  }

  /** `Set90To97` maps each of its characters to its code. */
  lemma Set90To97Sends(m: map<JChar, int>, c: JChar, code: int)
    requires
      (c == 0x2019 && code == 0x90)
      || (c == 0x201A && code == 0x91)
      || (c == 0x2122 && code == 0x92)
      || (c == 0xFB01 && code == 0x93)
      || (c == 0xFB02 && code == 0x94)
      || (c == 0x0141 && code == 0x95)
      || (c == 0x0152 && code == 0x96)
      || (c == 0x0160 && code == 0x97)
    ensures c in Set90To97(m) && Set90To97(m)[c] == code
  {
  }

  /** `Set98ToA0` maps each of its characters to its code. */
  lemma Set98ToA0Sends(m: map<JChar, int>, c: JChar, code: int)
    requires
      (c == 0x0178 && code == 0x98)
      || (c == 0x017D && code == 0x99)
      || (c == 0x0131 && code == 0x9A)
      || (c == 0x0142 && code == 0x9B)
      || (c == 0x0153 && code == 0x9C)
      || (c == 0x0161 && code == 0x9D)
      || (c == 0x017E && code == 0x9E)
      || (c == 0xFFFD && code == 0x9F)
      || (c == 0x20AC && code == 0xA0)
    ensures c in Set98ToA0(m) && Set98ToA0(m)[c] == code
  {
  }

  /** The character of each deviation code, one code at a time. */
  lemma DeviationCharacter(code: int)
    requires 0 <= code < 256 && IsDeviationCode(code)
    ensures
      (code == 0x7F && CodeToUni(code) == 0xFFFD) ||
      (code == 0x18 && CodeToUni(code) == 0x02D8) ||
      (code == 0x19 && CodeToUni(code) == 0x02C7) ||
      (code == 0x1A && CodeToUni(code) == 0x02C6) ||
      (code == 0x1B && CodeToUni(code) == 0x02D9) ||
      (code == 0x1C && CodeToUni(code) == 0x02DD) ||
      (code == 0x1D && CodeToUni(code) == 0x02DB) ||
      (code == 0x1E && CodeToUni(code) == 0x02DA) ||
      (code == 0x1F && CodeToUni(code) == 0x02DC) ||
      (code == 0x80 && CodeToUni(code) == 0x2022) ||
      (code == 0x81 && CodeToUni(code) == 0x2020) ||
      (code == 0x82 && CodeToUni(code) == 0x2021) ||
      (code == 0x83 && CodeToUni(code) == 0x2026) ||
      (code == 0x84 && CodeToUni(code) == 0x2014) ||
      (code == 0x85 && CodeToUni(code) == 0x2013) ||
      (code == 0x86 && CodeToUni(code) == 0x0192) ||
      (code == 0x87 && CodeToUni(code) == 0x2044) ||
      (code == 0x88 && CodeToUni(code) == 0x2039) ||
      (code == 0x89 && CodeToUni(code) == 0x203A) ||
      (code == 0x8A && CodeToUni(code) == 0x2212) ||
      (code == 0x8B && CodeToUni(code) == 0x2030) ||
      (code == 0x8C && CodeToUni(code) == 0x201E) ||
      (code == 0x8D && CodeToUni(code) == 0x201C) ||
      (code == 0x8E && CodeToUni(code) == 0x201D) ||
      (code == 0x8F && CodeToUni(code) == 0x2018) ||
      (code == 0x90 && CodeToUni(code) == 0x2019) ||
      (code == 0x91 && CodeToUni(code) == 0x201A) ||
      (code == 0x92 && CodeToUni(code) == 0x2122) ||
      (code == 0x93 && CodeToUni(code) == 0xFB01) ||
      (code == 0x94 && CodeToUni(code) == 0xFB02) ||
      (code == 0x95 && CodeToUni(code) == 0x0141) ||
      (code == 0x96 && CodeToUni(code) == 0x0152) ||
      (code == 0x97 && CodeToUni(code) == 0x0160) ||
      (code == 0x98 && CodeToUni(code) == 0x0178) ||
      (code == 0x99 && CodeToUni(code) == 0x017D) ||
      (code == 0x9A && CodeToUni(code) == 0x0131) ||
      (code == 0x9B && CodeToUni(code) == 0x0142) ||
      (code == 0x9C && CodeToUni(code) == 0x0153) ||
      (code == 0x9D && CodeToUni(code) == 0x0161) ||
      (code == 0x9E && CodeToUni(code) == 0x017E) ||
      (code == 0x9F && CodeToUni(code) == 0xFFFD) ||
      (code == 0xA0 && CodeToUni(code) == 0x20AC)
  {
  }

  /**
    What `getBytes` evidently means to write for one character: the code the
    map holds for it, and a zero byte for a character no code decodes to.
  */
  function EncodeCharIntended(c: JChar): JByte
  {
    if Encodable(c) then
      CharTableKeys(c);
      LowByte(CharTable()[c])
    else
      0
  }

  /** The intended `getBytes` on a whole string. */
  function EncodeIntended(text: seq<JChar>): (r: seq<JByte>)
    ensures |r| == |text|
    ensures forall j :: 0 <= j < |text| ==> r[j] == EncodeCharIntended(text[j])
  {
    seq(|text|, j requires 0 <= j < |text| => EncodeCharIntended(text[j]))
  }

  /**
    The characters some code decodes to: ISO-8859-1 outside the deviation
    blocks, and the deviation characters.
  */
  predicate Encodable(c: JChar)
  {
    (c < 256 && !IsDeviationCode(c as int)) || c in Block1 || c in Block2
  }

  /** The character of every code is encodable. */
  lemma CodeIsEncodable(code: int)
    requires 0 <= code < 256
    ensures Encodable(CodeToUni(code))
  {
    if 0x18 <= code <= 0x1F {
      assert Block1[code - 0x18] == CodeToUni(code);
    } else if 0x7F <= code <= 0xA0 {
      assert Block2[code - 0x7F] == CodeToUni(code);
    } else {
      CodeToUniCases(code);
    }
  }

  /**
    The initialising loop leaves an entry for every character below U+0100,
    so the characters whose codes the deviations took over stay in the map
    although no byte decodes to them.
  */
  lemma StaleEntry(c: JChar)
    requires c < 256 && IsDeviationCode(c as int)
    ensures InTable(c) && c in CharTable()
    ensures !Encodable(c)
    ensures forall b: JByte :: DecodeByte(b) != c
  {
    CharTableKeys(c);
    BlockCharactersAboveLatin1(c);
    forall b: JByte
      ensures DecodeByte(b) != c
    {
      CodeToUniCases(Unsigned(b));
    }
  }

  /** Every deviation character lies beyond ISO-8859-1. */
  lemma BlockCharactersAboveLatin1(c: JChar)
    ensures c in Block1 || c in Block2 ==> c >= 0x100
  {
    if c in Block1 || c in Block2 {
      var code := CodeOfBlockCharacter(c);
      CodeToUniCases(code);
    }
  }

  /**
    Encoded as intended, every byte survives decoding and re-encoding, except
    0x7F: its U+FFFD was taken over by the later 0x9F.
  */
  lemma IntendedRoundTripByte(b: JByte)
    ensures Unsigned(b) != 0x7F ==> EncodeCharIntended(DecodeByte(b)) == b
    ensures Unsigned(b) == 0x7F ==> Unsigned(EncodeCharIntended(DecodeByte(b))) == 0x9F
  {
    var u := Unsigned(b);
    DecodeByteOfCode(u, b);
    LowByteOfUnsigned(b);
    CodeIsEncodable(u);
    if u == 0x7F {
      assert CodeToUni(u) == CodeToUni(0x9F);
      EncodeIntendedDeviation(0x9F);
      UnsignedOfLowByte(0x9F);
    } else if IsDeviationCode(u) {
      EncodeIntendedDeviation(u);
    } else {
      CodeToUniCases(u);
      CharTableLatin1(u as JChar);
    }
  }

  /** `(byte) (b & 0xff)` is `b` again. */
  lemma LowByteOfUnsigned(b: JByte)
    ensures LowByte(Unsigned(b)) == b
  {
  }

  /** A code below 256, written as a byte, reads back as the same code. */
  lemma UnsignedOfLowByte(code: int)
    requires 0 <= code < 256
    ensures Unsigned(LowByte(code)) == code
  {
  }

  /** Encoded as intended, the character of a deviation code becomes that code. */
  lemma EncodeIntendedDeviation(code: int)
    requires 0 <= code < 256 && IsDeviationCode(code) && code != 0x7F
    ensures EncodeCharIntended(CodeToUni(code)) == LowByte(code)
  {
    CharTableDeviation(code);
  }

  /** A code below 256, written as a byte, decodes to its character. */
  lemma DecodeLowByte(code: int)
    requires 0 <= code < 256
    ensures DecodeByte(LowByte(code)) == CodeToUni(code)
  {
    UnsignedOfLowByte(code);
    DecodeByteOfCode(code, LowByte(code));
  }

  /** Encoded as intended, every encodable character survives encoding and re-decoding. */
  lemma IntendedRoundTripChar(c: JChar)
    requires Encodable(c)
    ensures DecodeByte(EncodeCharIntended(c)) == c
  {
    if c < 256 && !IsDeviationCode(c as int) {
      CharTableLatin1(c);
      CodeToUniCases(c as int);
      DecodeLowByte(c as int);
    } else if c in Block1 {
      var i :| 0 <= i < |Block1| && Block1[i] == c;
      assert CodeToUni(0x18 + i) == c;
      IntendedDeviation(0x18 + i);
    } else {
      var i :| 0 <= i < |Block2| && Block2[i] == c;
      var code := if i == 0 then 0x9F else 0x7F + i;
      assert CodeToUni(code) == c;
      IntendedDeviation(code);
    }
  }

  /** Encoded as intended, the character of a deviation code decodes back to itself. */
  lemma IntendedDeviation(code: int)
    requires 0 <= code < 256 && IsDeviationCode(code) && code != 0x7F
    ensures DecodeByte(EncodeCharIntended(CodeToUni(code))) == CodeToUni(code)
  {
    EncodeIntendedDeviation(code);
    DecodeLowByte(code);
  }

  /** A byte decodes to the character of its unsigned value. */
  lemma DecodeByteOfCode(code: int, b: JByte)
    requires 0 <= code < 256 && Unsigned(b) == code
    ensures DecodeByte(b) == CodeToUni(code)
  {
  }

  /** Encoded as intended, a string of encodable characters survives encoding and re-decoding. */
  lemma IntendedRoundTrip(text: seq<JChar>)
    requires forall j :: 0 <= j < |text| ==> Encodable(text[j])
    ensures Decode(EncodeIntended(text)) == text
  {
    forall j | 0 <= j < |text|
      ensures DecodeByte(EncodeCharIntended(text[j])) == text[j]
    {
      IntendedRoundTripChar(text[j]);
    }
  }

  /** As written, `getBytes` turns the bullet of code 0x80 into the byte 0x22 (a quotation mark). */
  lemma BulletBecomesQuote()
    ensures Decode([-128]) == [0x2022]
    ensures Encode([0x2022]) == [0x22]
  {
    assert DecodeByte(-128) == Block2[1];
    EncodeCharCases(0x2022);
  }

  /** The loop of `toString`, over a table that holds the character of every code. */
  method DecodeWith(table: array<int>, bytes: seq<JByte>) returns (s: seq<JChar>)
    requires table.Length == 256
    requires forall code :: 0 <= code < 256 ==> table[code] == CodeToUni(code) as int
    ensures s == Decode(bytes)
  {
    s := [];
    for j := 0 to |bytes|
      invariant |s| == j
      invariant forall k :: 0 <= k < j ==> s[k] == DecodeByte(bytes[k])
    {
      var u := Unsigned(bytes[j]);
      if u >= table.Length {
        s := s + [QUESTION_MARK];
      } else {
        s := s + [ToChar(table[u])];
      }
    }
  }

  /**
    The static state of `PDFDocEncoding`: the code-to-character table and the
    character-to-code map. The constructor is the static initialiser.
  */
  class PdfDocEncoding {
    const codeToUni: array<int>
    var uniToCode: map<JChar, int>

    /** The tables as the initialiser leaves them. */
    ghost predicate Valid()
      reads this, codeToUni
    {
      codeToUni[..] == CodeTable() && uniToCode == CharTable()
    }

    /** Maps every code to the same-numbered character, then sets the deviations. */
    constructor ()
      ensures Valid()
      ensures fresh(codeToUni)
    {
      codeToUni := new int[256];
      uniToCode := map[];
      new;
      SetLatin1();
      // block 1
      Set(0x18, 0x02D8); // breve
      Set(0x19, 0x02C7); // caron
      Set(0x1A, 0x02C6); // modifier letter circumflex accent
      Set(0x1B, 0x02D9); // dot above
      Set(0x1C, 0x02DD); // double acute accent
      Set(0x1D, 0x02DB); // ogonek
      Set(0x1E, 0x02DA); // ring above
      Set(0x1F, 0x02DC); // small tilde
      // block 2
      Set(0x7F, REPLACEMENT_CHARACTER); // undefined
      Set(0x80, 0x2022); // bullet
      Set(0x81, 0x2020); // dagger
      Set(0x82, 0x2021); // double dagger
      Set(0x83, 0x2026); // horizontal ellipsis
      Set(0x84, 0x2014); // em dash
      Set(0x85, 0x2013); // en dash
      Set(0x86, 0x0192); // latin small letter script f
      Set(0x87, 0x2044); // fraction slash
      Set(0x88, 0x2039); // single left-pointing angle quotation mark
      Set(0x89, 0x203A); // single right-pointing angle quotation mark
      Set(0x8A, 0x2212); // minus sign
      Set(0x8B, 0x2030); // per mille sign
      Set(0x8C, 0x201E); // double low-9 quotation mark
      Set(0x8D, 0x201C); // left double quotation mark
      Set(0x8E, 0x201D); // right double quotation mark
      Set(0x8F, 0x2018); // left single quotation mark
      Set(0x90, 0x2019); // right single quotation mark
      Set(0x91, 0x201A); // single low-9 quotation mark
      Set(0x92, 0x2122); // trade mark sign
      Set(0x93, 0xFB01); // latin small ligature fi
      Set(0x94, 0xFB02); // latin small ligature fl
      Set(0x95, 0x0141); // latin capital letter l with stroke
      Set(0x96, 0x0152); // latin capital ligature oe
      Set(0x97, 0x0160); // latin capital letter s with caron
      Set(0x98, 0x0178); // latin capital letter y with diaeresis
      Set(0x99, 0x017D); // latin capital letter z with caron
      Set(0x9A, 0x0131); // latin small letter dotless i
      Set(0x9B, 0x0142); // latin small letter l with stroke
      Set(0x9C, 0x0153); // latin small ligature oe
      Set(0x9D, 0x0161); // latin small letter s with caron
      Set(0x9E, 0x017E); // latin small letter z with caron
      Set(0x9F, REPLACEMENT_CHARACTER); // undefined
      Set(0xA0, 0x20AC); // euro sign
    }

    /** The initialising loop: every code and the character with the same number. */
    method SetLatin1()
      requires codeToUni.Length == 256 && uniToCode == map[]
      modifies this, codeToUni
      ensures codeToUni[..] == Latin1Codes()
      ensures uniToCode == Latin1Chars(CODES)
    {
      for i := 0 to 256
        invariant forall code :: 0 <= code < i ==> codeToUni[code] == code
        invariant uniToCode == Latin1Chars(i)
      {
        Set(i, ToChar(i));
      }
      assert codeToUni[..] == Latin1Codes();
    }

    /** `set(code, unicode)`: records the pair in both directions. */
    method Set(code: int, unicode: JChar)
      requires 0 <= code < codeToUni.Length
      modifies this, codeToUni
      ensures codeToUni[..] == old(codeToUni[..])[code := unicode as int]
      ensures uniToCode == old(uniToCode)[unicode := code]
    {
      codeToUni[code] := unicode as int;
      uniToCode := uniToCode[unicode := code];
    }

    /** `toString`: one character per byte, looked up in the table. */
    method ToString(bytes: seq<JByte>) returns (s: seq<JChar>)
      requires Valid()
      ensures s == Decode(bytes)
    {
      CodeTableMeaning();
      s := DecodeWith(codeToUni, bytes);
    }

    /** `getBytes`: one byte per character; zero for a character the map lacks. */
    method GetBytes(text: seq<JChar>) returns (out: seq<JByte>)
      requires Valid()
      ensures out == Encode(text)
    {
      out := [];
      for j := 0 to |text|
        invariant out == Encode(text[..j])
      {
        var c := text[j];
        CharTableKeys(c);
        if c !in uniToCode {
          out := out + [0];
        } else {
          out := out + [LowByte(c as int)];
        }
        assert text[..j + 1] == text[..j] + [c];
      }
      assert text[..|text|] == text;
    }

    /** `containsChar`: whether the map has an entry for the character. */
    function ContainsChar(c: JChar): (r: bool)
      reads this, codeToUni
      requires Valid()
      ensures r <==> c < 256 || c in Block1 || c in Block2
    {
      CharTableKeys(c);
      c in uniToCode
    }
  }
}
