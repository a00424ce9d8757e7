/** The Base64 alphabet (Table 1 of RFC 4648) and its branch-free inverse. */
module Base64Alphabet {

  /** The characters the decoder is specified for: below 128, `char` means the same signed or unsigned. */
  type Ascii = x: int | 0 <= x < 128

  const UPPER := "ABCDEFGHIJKLMNOPQRSTUVWXYZ"
  const LOWER := "abcdefghijklmnopqrstuvwxyz"
  const REST := "0123456789+/"
  const BASE64_CHARS := UPPER + LOWER + REST

  // ---- The comparison macros: all bits of a byte, or none, on 32-bit words that wrap around

  function EQ(x: bv32, y: bv32): (r: bv32)
    ensures x < 256 && y < 256 ==> r == if x == y then 0xFF else 0
  {
    (((0 - (x ^ y)) >> 8) & 0xFF) ^ 0xFF
  }

  function GT(x: bv32, y: bv32): (r: bv32)
    ensures x < 256 && y < 256 ==> r == if x > y then 0xFF else 0
  {
    ((y - x) >> 8) & 0xFF
  }

  function GE(x: bv32, y: bv32): (r: bv32)
    ensures x < 256 && y < 256 ==> r == if x >= y then 0xFF else 0
  {
    GT(y, x) ^ 0xFF
  }

  function LE(x: bv32, y: bv32): (r: bv32)
    ensures x < 256 && y < 256 ==> r == if x <= y then 0xFF else 0
  {
    GE(y, x)
  }

  /** `b64_char_to_byte`: the position of `c` in the alphabet, or 0xFF. */
  function CharToWord(c: bv32): (r: bv32) {
    var x := (GE(c, 65) & LE(c, 90) & (c - 65)) | (GE(c, 97) & LE(c, 122) & (c - (97 - 26)))
             | (GE(c, 48) & LE(c, 57) & (c + (52 - 48))) | (EQ(c, 43) & 62) | (EQ(c, 47) & 63);
    x | (EQ(x, 0) & (EQ(c, 65) ^ 0xFF))
  }

  lemma {:induction false} DoubleWord(w: bv32)
    requires w < 64
    ensures w + w < 128 && w + w + 1 < 128
    ensures (w + w) as int == 2 * (w as int) && (w + w + 1) as int == 2 * (w as int) + 1
  {
  }

  lemma {:induction false} SmallWord(w: bv32)
    ensures w < 64 <==> w as int < 64
  {
  }

  /** A character as the machine word it is promoted to. */
  function Promote(c: Ascii): (w: bv32)
    ensures w < 128 && w as int == c
  {
    if c == 0 then 0
    else
      var half := Promote(c / 2);
      SmallWord(half);
      DoubleWord(half);
      if c % 2 == 0 then half + half else half + half + 1
  }

  function CharToByte(c: Ascii): (r: nat) {
    CharToWord(Promote(c)) as int
  }

  function ByteToChar(x: nat): (r: Ascii)
    requires x < 64
    ensures r == Code(x)
  {
    Table(x);
    BASE64_CHARS[x] as int
  }

  // ---- The two are inverse to each other

  /** Table 1 of RFC 4648, by ranges. */
  ghost function Code(x: nat): (c: int)
    requires x < 64
  {
    if x < 26 then 65 + x
    else if x < 52 then 97 + (x - 26)
    else if x < 62 then 48 + (x - 52)
    else if x == 62 then 43
    else 47
  }

  /** The position of a character in Table 1. */
  ghost function Position(c: int): (x: nat)
    requires InAlphabet(c)
    ensures x < 64 && Code(x) == c
  {
    if 65 <= c <= 90 then c - 65
    else if 97 <= c <= 122 then c - 71
    else if 48 <= c <= 57 then c + 4
    else if c == 43 then 62
    else 63
  }

  ghost predicate InAlphabet(c: int) {
    65 <= c <= 90 || 97 <= c <= 122 || 48 <= c <= 57 || c == 43 || c == 47
  }

  lemma {:induction false} UpperTable(x: nat)
    requires x < 26
    ensures |UPPER| == 26 && UPPER[x] as int == 65 + x
  {
  }

  lemma {:induction false} LowerTable(x: nat)
    requires x < 26
    ensures |LOWER| == 26 && LOWER[x] as int == 97 + x
  {
  }

  lemma {:induction false} RestTable(x: nat)
    requires x < 12
    ensures |REST| == 12 && REST[x] as int == if x < 10 then 48 + x else if x == 10 then 43 else 47
  {
  }

  lemma {:induction false} Table(x: nat)
    requires x < 64
    ensures |BASE64_CHARS| == 64 && BASE64_CHARS[x] as int == Code(x)
  {
    UpperTable(if x < 26 then x else 0);
    LowerTable(if 26 <= x < 52 then x - 26 else 0);
    RestTable(if 52 <= x then x - 52 else 0);
  }

  /** The branch-free expression, case by case. */
  lemma {:induction false} WordCases(c: bv32)
    requires c < 128
    ensures CharToWord(c) ==
              if 65 <= c <= 90 then c - 65
              else if 97 <= c <= 122 then c - 71
              else if 48 <= c <= 57 then c + 4
              else if c == 43 then 62
              else if c == 47 then 63
              else 0xFF
  {
  }

  /** Differences that do not wrap around are differences of numbers. */
  lemma {:induction false} WordArithmetic(w: bv32)
    requires w < 128
    ensures 65 <= w <==> 65 <= w as int
    ensures w <= 90 <==> w as int <= 90
    ensures 97 <= w <==> 97 <= w as int
    ensures w <= 122 <==> w as int <= 122
    ensures 48 <= w <==> 48 <= w as int
    ensures w <= 57 <==> w as int <= 57
    ensures w == 43 <==> w as int == 43
    ensures w == 47 <==> w as int == 47
    ensures 65 <= w ==> (w - 65) as int == w as int - 65
    ensures 97 <= w ==> (w - 71) as int == w as int - 71
    ensures (w + 4) as int == w as int + 4
  {
  }

  /** The decoder's classification: members of the alphabet get their position, all others 0xFF. */
  lemma {:induction false} CharToBytePosition(c: Ascii)
    ensures CharToByte(c) == if InAlphabet(c) then Position(c) else 0xFF
  {
    WordArithmetic(Promote(c));
    WordCases(Promote(c));
  }

  /** Decoding a character undoes encoding it, and encoding undoes decoding on the alphabet. */
  lemma {:induction false} CharactersRoundTrip(x: nat, c: Ascii)
    ensures x < 64 ==> CharToByte(ByteToChar(x)) == x
    ensures CharToByte(c) < 64 <==> InAlphabet(c)
    ensures InAlphabet(c) ==> ByteToChar(CharToByte(c)) == c
  {
    hide CharToByte, ByteToChar;
    CharToBytePosition(c);
    if x < 64 {
      CharToBytePosition(ByteToChar(x));
    }
  }
}
