/**
 * The alphabet codec: a fixed 96-character alphabet whose i-th character is
 * written as the byte CommandCount + i, so literal text occupies bytes 7..102.
 */
module Alphabet {
  import opened Common

  // The character groups, in the order InitCharacters concatenates them.
  const Digits: string := "0123456789"
  const Capitals: string := "ABCDEFGHIJKLMNOPQRSTUVWXYZ"
  const Lowercase: string := "abcdefghijklmnopqrstuvwxyz"
  const Whitespace: string := " \n"
  const Punctuation: string := ",.;:!?"
  const Brackets: string := "()[]{}"
  const Quotes: string := "'\""
  const Arithmetic: string := "+-=<>"
  const Symbols: string := "@#$%^&*"
  const Lines: string := "_|/\\"
  const Weird: string := "`~"

  /**
   * The i-th character of the alphabet. Digits and letters are computed from
   * their code points; CharacterMapUnfolded shows the result is the
   * concatenation of the groups above.
   */
  function CharAt(i: int): char
    requires 0 <= i < 96
  {
    if i < 10 then ('0' as int + i) as char
    else if i < 36 then ('A' as int + (i - 10)) as char
    else if i < 62 then ('a' as int + (i - 36)) as char
    else match i
      case 62 => ' '  case 63 => '\n'
      case 64 => ','  case 65 => '.'  case 66 => ';'  case 67 => ':'  case 68 => '!'  case 69 => '?'
      case 70 => '('  case 71 => ')'  case 72 => '['  case 73 => ']'  case 74 => '{'  case 75 => '}'
      case 76 => '\'' case 77 => '"'
      case 78 => '+'  case 79 => '-'  case 80 => '='  case 81 => '<'  case 82 => '>'
      case 83 => '@'  case 84 => '#'  case 85 => '$'  case 86 => '%'  case 87 => '^'  case 88 => '&'
      case 89 => '*'
      case 90 => '_'  case 91 => '|'  case 92 => '/'  case 93 => '\\'
      case 94 => '`'  case _ => '~'
  }

  /** The 96 characters in alphabet order. */
  function AllCharacters(): (r: seq<char>)
    ensures |r| == 96
    ensures forall i :: 0 <= i < 96 ==> r[i] == CharAt(i)
  {
    seq(96, i requires 0 <= i < 96 => CharAt(i))
  }

  /** The alphabet after InitCharacters has run (once, at start-up). */
  const CharacterMap: seq<char> := AllCharacters()

  /** Group g sits in the alphabet from position offset on. */
  predicate PlacedAt(g: string, offset: int) {
    0 <= offset && offset + |g| <= 96 && forall i :: 0 <= i < |g| ==> CharAt(offset + i) == g[i]
  }

  lemma DigitsPlaced() ensures PlacedAt(Digits, 0) {}
  lemma CapitalsPlaced() ensures PlacedAt(Capitals, 10) {}
  lemma LowercasePlaced() ensures PlacedAt(Lowercase, 36) {}
  lemma PunctuationPlaced()
    ensures PlacedAt(Whitespace, 62) && PlacedAt(Punctuation, 64) && PlacedAt(Brackets, 70)
  {}
  lemma QuotesPlaced() ensures PlacedAt(Quotes, 76) && PlacedAt(Arithmetic, 78) {}
  lemma SymbolsPlaced() ensures PlacedAt(Symbols, 83) {}
  lemma LinesPlaced() ensures PlacedAt(Lines, 90) && PlacedAt(Weird, 94) {}

  /** CharacterMap is the groups concatenated in InitCharacters' order. */
  lemma CharacterMapUnfolded()
    ensures CharacterMap == Digits + Capitals + Lowercase + Whitespace + Punctuation + Brackets
                            + Quotes + Arithmetic + Symbols + Lines + Weird
  {
    DigitsPlaced();
    CapitalsPlaced();
    LowercasePlaced();
    PunctuationPlaced();
    QuotesPlaced();
    SymbolsPlaced();
    LinesPlaced();
    CharacterMapSize();
    var joined := Digits + Capitals + Lowercase + Whitespace + Punctuation + Brackets
                  + Quotes + Arithmetic + Symbols + Lines + Weird;
    assert |joined| == 96;
    forall i | 0 <= i < 96 ensures joined[i] == CharacterMap[i] {
      if i < 10 { assert joined[i] == Digits[i]; }
      else if i < 36 { assert joined[i] == Capitals[i - 10]; }
      else if i < 62 { assert joined[i] == Lowercase[i - 36]; }
      else if i < 64 { assert joined[i] == Whitespace[i - 62]; }
      else if i < 70 { assert joined[i] == Punctuation[i - 64]; }
      else if i < 76 { assert joined[i] == Brackets[i - 70]; }
      else if i < 78 { assert joined[i] == Quotes[i - 76]; }
      else if i < 83 { assert joined[i] == Arithmetic[i - 78]; }
      else if i < 90 { assert joined[i] == Symbols[i - 83]; }
      else if i < 94 { assert joined[i] == Lines[i - 90]; }
      else { assert joined[i] == Weird[i - 94]; }
    }
  }

  /** Fills the alphabet and reports its size. */
  function InitCharacters(): (n: byte)
    ensures n as int == |CharacterMap| == 96
    ensures CommandCount + n as int <= 256
  {
    CharacterMapSize();
    |CharacterMap| as byte
  }

  /** A byte that stands for a character of the alphabet. */
  predicate IsLiteral(b: byte) {
    CommandCount <= b as int < CommandCount + |CharacterMap|
  }

  /** A string written only with characters of the alphabet. */
  predicate InAlphabet(s: string) {
    forall i :: 0 <= i < |s| ==> s[i] in CharacterMap
  }

  /**
   * Position of a character in the alphabet, defined by character class
   * independently of CharacterMap; -1 for characters outside it.
   */
  function Rank(c: char): int {
    if '0' <= c <= '9' then c as int - '0' as int
    else if 'A' <= c <= 'Z' then 10 + (c as int - 'A' as int)
    else if 'a' <= c <= 'z' then 36 + (c as int - 'a' as int)
    else match c
      case ' ' => 62  case '\n' => 63
      case ',' => 64  case '.' => 65  case ';' => 66  case ':' => 67  case '!' => 68  case '?' => 69
      case '(' => 70  case ')' => 71  case '[' => 72  case ']' => 73  case '{' => 74  case '}' => 75
      case '\'' => 76 case '"' => 77
      case '+' => 78  case '-' => 79  case '=' => 80  case '<' => 81  case '>' => 82
      case '@' => 83  case '#' => 84  case '$' => 85  case '%' => 86  case '^' => 87  case '&' => 88
      case '*' => 89
      case '_' => 90  case '|' => 91  case '/' => 92  case '\\' => 93
      case '`' => 94  case '~' => 95
      case _ => -1
  }

  /** Rank recovers the position of every character of the alphabet. */
  lemma RankOfCharAt(i: int)
    requires 0 <= i < 96
    ensures Rank(CharAt(i)) == i
  {}

  lemma CharacterMapSize()
    ensures |CharacterMap| == 96
  {}

  /** Rank recovers every alphabet position. */
  lemma CharacterMapRanked()
    ensures |CharacterMap| == 96
    ensures forall i :: 0 <= i < |CharacterMap| ==> Rank(CharacterMap[i]) == i
  {
    forall i | 0 <= i < |CharacterMap| ensures Rank(CharacterMap[i]) == i {
      RankOfCharAt(i);
    }
  }

  /** The alphabet has no repeated character. */
  lemma CharacterMapDistinct()
    ensures forall i, j :: 0 <= i < j < |CharacterMap| ==> CharacterMap[i] != CharacterMap[j]
  {
    CharacterMapRanked();
    forall i, j | 0 <= i < j < |CharacterMap| ensures CharacterMap[i] != CharacterMap[j] {
      assert Rank(CharacterMap[i]) != Rank(CharacterMap[j]);
    }
  }

  /** List.IndexOf: the first position of c in s, or -1 when c is absent. */
  function IndexOf(s: seq<char>, c: char): (i: int)
    ensures -1 <= i < |s|
  {
    if s == [] then -1
    else if s[0] == c then 0
    else
      var k := IndexOf(s[1..], c);
      if k == -1 then -1 else k + 1
  }

  /** IndexOf finds the first occurrence of c, and reports -1 exactly when c does not occur. */
  lemma {:induction false} IndexOfFinds(s: seq<char>, c: char)
    ensures IndexOf(s, c) == -1 <==> c !in s
    ensures IndexOf(s, c) >= 0 ==> s[IndexOf(s, c)] == c && c !in s[..IndexOf(s, c)]
  {
    if s != [] && s[0] != c {
      IndexOfFinds(s[1..], c);
      var k := IndexOf(s[1..], c);
      if k >= 0 {
        assert s[..k + 1] == [s[0]] + s[1..][..k];
      } else {
        assert s == [s[0]] + s[1..];
      }
    }
  }

  /**
   * CharacterToByte: alphabet position plus the opcode count. A character of
   * the alphabet becomes the literal byte of its position; any other
   * character has position -1 and so becomes byte 6.
   */
  function CharacterToByte(c: char): (b: byte)
    ensures c in CharacterMap ==> IsLiteral(b) && CharacterMap[b as int - CommandCount] == c
    ensures c !in CharacterMap ==> b as int == CommandCount - 1
  {
    CharacterMapSize();
    IndexOfFinds(CharacterMap, c);
    (IndexOf(CharacterMap, c) + CommandCount) as byte
  }

  /** ByteToCharacter: fails unless the byte is a literal byte, else reads the alphabet at its position. */
  function ByteToCharacter(b: byte): (r: Result<char>)
    ensures r.Ok? <==> IsLiteral(b)
    ensures r.Ok? ==> r.value == CharacterMap[b as int - CommandCount]
  {
    var i := b as int - CommandCount;
    if 0 <= i < |CharacterMap| then Ok(CharacterMap[i]) else Err(CharacterOutOfRange)
  }

  /** Alphabet round-trip, byte side: CharacterToByte undoes ByteToCharacter, the alphabet being repetition-free. */
  lemma ByteRoundTrip(b: byte)
    requires IsLiteral(b)
    ensures ByteToCharacter(b).Ok?
    ensures ByteToCharacter(b).value in CharacterMap && CharacterToByte(ByteToCharacter(b).value) == b
  {
    var i := b as int - CommandCount;
    CharacterMapDistinct();
    IndexOfFinds(CharacterMap, CharacterMap[i]);
    assert IndexOf(CharacterMap, CharacterMap[i]) == i;
  }

  /** Alphabet round-trip, character side. */
  lemma CharacterRoundTrip(c: char)
    requires c in CharacterMap
    ensures ByteToCharacter(CharacterToByte(c)) == Ok(c)
  {
  }

  /** The specification of StringToBytes: each character through CharacterToByte. */
  function EncodeString(s: string): (r: seq<byte>)
    ensures |r| == |s|
  {
    if s == [] then [] else EncodeString(s[..|s| - 1]) + [CharacterToByte(s[|s| - 1])]
  }

  /** StringToBytes writes character i of s as byte i, through CharacterToByte. */
  lemma {:induction false} EncodeStringAt(s: string)
    ensures forall i :: 0 <= i < |s| ==> EncodeString(s)[i] == CharacterToByte(s[i])
  {
    if s != [] {
      var n := |s| - 1;
      EncodeStringAt(s[..n]);
      forall i | 0 <= i < |s| ensures EncodeString(s)[i] == CharacterToByte(s[i]) {
        if i < n {
          assert s[..n][i] == s[i];
        }
      }
    }
  }

  /** The specification of BytesToString: fails on the first non-literal byte. */
  function DecodeBytes(bytes: seq<byte>): (r: Result<string>)
    ensures r.Err? ==> r.error == CharacterOutOfRange
    ensures r.Ok? ==> |r.value| == |bytes|
  {
    if bytes == [] then Ok([])
    else
      var init :- DecodeBytes(bytes[..|bytes| - 1]);
      var c :- ByteToCharacter(bytes[|bytes| - 1]);
      Ok(init + [c])
  }

  /**
   * BytesToString succeeds exactly when every byte is a literal byte, and
   * then character i is ByteToCharacter of byte i.
   */
  lemma {:induction false} DecodeBytesAt(bytes: seq<byte>)
    ensures DecodeBytes(bytes).Ok? <==> forall i :: 0 <= i < |bytes| ==> IsLiteral(bytes[i])
    ensures DecodeBytes(bytes).Ok? ==>
              forall i :: 0 <= i < |bytes| ==> ByteToCharacter(bytes[i]) == Ok(DecodeBytes(bytes).value[i])
  {
    if bytes != [] {
      var n := |bytes| - 1;
      var front := bytes[..n];
      DecodeBytesAt(front);
      assert forall i :: 0 <= i < n ==> front[i] == bytes[i];
    }
  }

  /** StringToBytes: builds the byte list one character at a time. */
  method StringToBytes(s: string) returns (bytes: seq<byte>)
    ensures bytes == EncodeString(s)
  {
    bytes := [];
    for i := 0 to |s|
      invariant bytes == EncodeString(s[..i])
    {
      assert EncodeString(s[..i + 1]) == EncodeString(s[..i]) + [CharacterToByte(s[i])] by {
        assert s[..i + 1][..i] == s[..i];
      }
      bytes := bytes + [CharacterToByte(s[i])];
    }
    assert s[..|s|] == s;
  }

  /** BytesToString: appends one character per byte, throwing at the first non-literal byte. */
  method BytesToString(bytes: seq<byte>) returns (r: Result<string>)
    ensures r == DecodeBytes(bytes)
  {
    var sb: string := [];
    for i := 0 to |bytes|
      invariant DecodeBytes(bytes[..i]) == Ok(sb)
    {
      assert bytes[..i + 1][..i] == bytes[..i];
      var c := ByteToCharacter(bytes[i]);
      if c.Err? {
        DecodeRejects(bytes, i);
        return Err(c.error);
      }
      sb := sb + [c.value];
    }
    assert bytes[..|bytes|] == bytes;
    r := Ok(sb);
  }

  /** Text round-trip: decoding what StringToBytes wrote gives back the string. */
  lemma {:induction false} DecodeEncode(s: string)
    requires InAlphabet(s)
    ensures DecodeBytes(EncodeString(s)) == Ok(s)
  {
    if s != [] {
      var n := |s| - 1;
      var e := EncodeString(s);
      var front := EncodeString(s[..n]);
      assert e == front + [CharacterToByte(s[n])];
      assert e[..n] == front;
      assert DecodeBytes(front) == Ok(s[..n]) by {
        assert InAlphabet(s[..n]) by {
          forall i | 0 <= i < n ensures s[..n][i] in CharacterMap {
            assert s[..n][i] == s[i];
          }
        }
        DecodeEncode(s[..n]);
      }
      assert ByteToCharacter(e[n]) == Ok(s[n]) by {
        CharacterRoundTrip(s[n]);
      }
      assert s[..n] + [s[n]] == s;
    }
  }

  /** Byte round-trip: re-encoding a decoded literal payload gives back the bytes. */
  lemma {:induction false} EncodeDecode(bytes: seq<byte>)
    requires forall i :: 0 <= i < |bytes| ==> IsLiteral(bytes[i])
    ensures DecodeBytes(bytes).Ok? && EncodeString(DecodeBytes(bytes).value) == bytes
  {
    if bytes != [] {
      var n := |bytes| - 1;
      EncodeDecode(bytes[..n]);
      ByteRoundTrip(bytes[n]);
      assert bytes[..n] + [bytes[n]] == bytes;
    }
  }

  /** A character outside the alphabet is written as the Ignore opcode and cannot be read back. */
  lemma ForeignCharacterLost(s: string, i: int)
    requires 0 <= i < |s| && s[i] !in CharacterMap
    ensures EncodeString(s)[i] as int == CommandCount - 1
    ensures DecodeBytes(EncodeString(s)) == Err(CharacterOutOfRange)
  {
    var e := EncodeString(s);
    EncodeStringAt(s);
    assert e[i] == CharacterToByte(s[i]);
    CharacterMapSize();
    DecodeRejects(e, i);
  }

  /** A single non-literal byte anywhere makes BytesToString fail. */
  lemma DecodeRejects(bytes: seq<byte>, i: int)
    requires 0 <= i < |bytes| && !IsLiteral(bytes[i])
    ensures DecodeBytes(bytes) == Err(CharacterOutOfRange)
  {
    DecodeBytesAt(bytes);
  }
}
