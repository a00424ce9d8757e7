/** The streaming Base64 decoder, and the round trips through encoder and decoder. */
module Base64Decoder {
  import opened Wrappers
  import opened BitStream
  import opened Base64Alphabet
  import opened Base64

  // ---- Specification

  /** How many characters of the alphabet follow from position i on. */
  ghost function Run(text: seq<Ascii>, i: nat): (n: nat)
    requires i <= |text|
    ensures i + n <= |text|
    ensures forall j :: i <= j < i + n ==> InAlphabet(text[j])
    ensures i + n < |text| ==> !InAlphabet(text[i + n])
    decreases |text| - i
  {
    if i == |text| || !InAlphabet(text[i]) then 0 else 1 + Run(text, i + 1)
  }

  /** The digits that the first n characters stand for. */
  ghost function DigitsOf(text: seq<Ascii>, n: nat): (r: Digits)
    requires n <= |text| && forall j :: 0 <= j < n ==> InAlphabet(text[j])
    ensures |r| == n && forall j :: 0 <= j < n ==> r[j] == Position(text[j])
  {
    if n == 0 then [] else DigitsOf(text, n - 1) + [Position(text[n - 1])]
  }

  /** The digits of the longest prefix that is in the alphabet: what the decoder looks at. */
  ghost function PrefixDigits(text: seq<Ascii>): (r: Digits) {
    DigitsOf(text, Run(text, 0))
  }

  ghost function DecodedLength(n: nat): (r: nat) {
    6 * n / 8
  }

  /** The bits behind the last complete byte. */
  ghost function Leftover(digits: Digits): (r: seq<bool>) {
    var s := Stream(digits, 6);
    s[if 8 * DecodedLength(|digits|) <= |s| then 8 * DecodedLength(|digits|) else |s|..]
  }

  /** When the decoder succeeds: no dangling digit, only zeros left over, and room for the bytes. */
  ghost predicate Accepts(digits: Digits, room: nat) {
    && |digits| % 4 != 1
    && Leftover(digits) == Zeros(|Leftover(digits)|)
    && DecodedLength(|digits|) <= room
  }

  lemma {:induction false} LeftoverIsPending(digits: Digits, bytes: Bytes, acc: nat, accLen: nat)
    requires Pending(Stream(digits, 6), Stream(bytes, 8), acc, accLen) && accLen < 8
    ensures |bytes| == DecodedLength(|digits|) && accLen == 6 * |digits| % 8
    ensures Leftover(digits) == Bits(acc, accLen)
  {
    hide Bits, Stream;
    StreamLength(digits, 6);
    StreamLength(bytes, 8);
    assert 6 * |digits| == 8 * |bytes| + accLen;
  }

  lemma {:induction false} LengthsByFour(n: nat)
    ensures 6 * n % 8 > 4 <==> n % 4 == 1
    ensures n % 4 != 1 ==> 6 * n % 8 == Fill(DecodedLength(n))
  {
    var q, r := n / 4, n % 4;
    var tail := if r == 0 then 0 else r - 1;
    DivModUnique(6 * n, 8, 3 * q + tail, 6 * r - 8 * tail);
    DivModUnique(3 * q + tail, 3, q, tail);
  }

  /** The check at the end: what is left over decides, and an accepted text encodes the bytes. */
  lemma {:induction false} FinishDecoding(digits: Digits, bytes: Bytes, acc: nat, accLen: nat, room: nat)
    requires Pending(Stream(digits, 6), Stream(bytes, 8), acc, accLen) && accLen < 8
    requires Below(digits, 64) && Below(bytes, 256) && |bytes| <= room
    ensures |bytes| == DecodedLength(|digits|)
    ensures Accepts(digits, room) <==> accLen <= 4 && acc % Pow2(accLen) == 0
    ensures Accepts(digits, room) ==> Encodes(digits, bytes)
  {
    hide Bits, Stream, Pow2, Zeros;
    LeftoverIsPending(digits, bytes, acc, accLen);
    LengthsByFour(|digits|);
    BitsZero(acc, accLen);
  }

  // ---- The decoder

  /** The first `len` bytes of the buffer. */
  ghost function Prefix(dst: array<Byte>, len: nat): (r: Bytes)
    requires len <= dst.Length
    reads dst
    ensures |r| == len && Below(r, 256) && forall i :: 0 <= i < len ==> r[i] == dst[i]
  {
    dst[..len]
  }

  method Classify(c: Ascii) returns (d: nat)
    ensures d == if InAlphabet(c) then Position(c) else 0xFF
  {
    hide CharToByte;
    CharToBytePosition(c);
    d := CharToByte(c);
  }

  /** The state after `i` characters: the bytes in the buffer, then the accumulator, are what was read. */
  ghost predicate Decoding(dst: array<Byte>, src: seq<Ascii>, i: nat, len: nat, acc: nat, accLen: nat)
    reads dst
  {
    && i <= Run(src, 0) && Run(src, 0) == i + Run(src, i)
    && len == DecodedLength(i) && len <= dst.Length && accLen == 6 * i % 8
    && Pending(Stream(DigitsOf(src, i), 6), Stream(Prefix(dst, len), 8), acc, accLen)
  }

  lemma {:induction false} NothingDecoded(dst: array<Byte>, src: seq<Ascii>)
    ensures Decoding(dst, src, 0, 0, 0, 0)
  {
  }

  lemma {:induction false} DecodedMonotone(i: nat, n: nat)
    requires i <= n
    ensures DecodedLength(i) <= DecodedLength(n)
  {
  }

  lemma {:induction false} DecodedStep(i: nat)
    ensures if 6 * i % 8 + 6 >= 8
            then DecodedLength(i + 1) == DecodedLength(i) + 1 && 6 * (i + 1) % 8 == 6 * i % 8 + 6 - 8
            else DecodedLength(i + 1) == DecodedLength(i) && 6 * (i + 1) % 8 == 6 * i % 8 + 6
  {
  }

  lemma {:induction false} RunStep(src: seq<Ascii>, i: nat)
    requires i < |src| && InAlphabet(src[i]) && Run(src, 0) == i + Run(src, i)
    ensures i + 1 <= Run(src, 0) && Run(src, 0) == i + 1 + Run(src, i + 1)
  {
  }

  lemma {:induction false} DigitsStep(src: seq<Ascii>, i: nat)
    requires i < |src| && forall j :: 0 <= j <= i ==> InAlphabet(src[j])
    ensures DigitsOf(src, i + 1) == DigitsOf(src, i) + [Position(src[i])] && Position(src[i]) < 64
  {
  }

  lemma {:induction false} DecodeDigit(dst: array<Byte>, src: seq<Ascii>, i: nat, len: nat, acc: nat, accLen: nat)
    requires Decoding(dst, src, i, len, acc, accLen) && i < |src| && InAlphabet(src[i])
    ensures i + 1 <= Run(src, 0) && Run(src, 0) == i + 1 + Run(src, i + 1)
    ensures Pending(Stream(DigitsOf(src, i + 1), 6), Stream(Prefix(dst, len), 8),
                    Wrap(ShiftLeft(acc, 6) + Position(src[i])), accLen + 6)
  {
    hide Bits, Stream, Wrap, ShiftLeft, Run, Pending, Position, DecodedLength, Prefix, DigitsOf;
    RunStep(src, i);
    DigitsStep(src, i);
    ReadDigit(DigitsOf(src, i), Stream(Prefix(dst, len), 8), acc, accLen, Position(src[i]));
  }

  method StoreByte(dst: array<Byte>, len: nat, acc: nat, accLen: nat, ghost read: seq<bool>)
    requires len < dst.Length && accLen >= 8
    requires Pending(read, Stream(Prefix(dst, len), 8), acc, accLen)
    modifies dst
    ensures Pending(read, Stream(Prefix(dst, len + 1), 8), acc, accLen - 8)
    ensures forall j :: 0 <= j < dst.Length && j != len ==> dst[j] == old(dst[j])
  {
    hide Bits, Stream, ShiftRight;
    WriteByte(read, Prefix(dst, len), acc, accLen);
    ghost var before := Prefix(dst, len);
    dst[len] := ShiftRight(acc, accLen - 8) % 256;
    assert Prefix(dst, len + 1) == before + [ShiftRight(acc, accLen - 8) % 256];
  }

  lemma {:induction false} NoRoom(digits: Digits, room: nat)
    requires DecodedLength(|digits|) > room
    ensures !Accepts(digits, room)
  {
  }

  /** The decoder fails exactly when the alphabet prefix of the text is not an encoding that fits; otherwise
      the buffer holds the bytes it encodes. */
  method FromBase64(dst: array<Byte>, dstLen: nat, src: seq<Ascii>) returns (r: Option<nat>)
    requires dstLen <= dst.Length
    modifies dst
    ensures r.Some? <==> Accepts(PrefixDigits(src), dstLen)
    ensures r.Some? ==> r.value == DecodedLength(|PrefixDigits(src)|)
    ensures r.Some? ==> Encodes(PrefixDigits(src), Prefix(dst, r.value))
    ensures forall j :: 0 <= j < dst.Length && (dstLen <= j || DecodedLength(|PrefixDigits(src)|) <= j) ==>
              dst[j] == old(dst[j])
  {
    hide Bits, Stream, Wrap, ShiftLeft, ShiftRight, Run, Pow2, Leftover, Zeros, Pending, Accepts, Encodes;
    var len: nat, acc: nat, accLen: nat, i: nat := 0, 0, 0, 0;
    NothingDecoded(dst, src);
    while true
      invariant i <= |src| && len <= dstLen && Decoding(dst, src, i, len, acc, accLen)
      invariant forall j :: len <= j < dst.Length ==> dst[j] == old(dst[j])
      decreases |src| - i
    {
      // the text is NUL-terminated, and NUL is not in the alphabet
      var d := Classify(if i < |src| then src[i] else 0);
      if d > 63 {
        break;
      }
      DecodeDigit(dst, src, i, len, acc, accLen);
      DecodedStep(i);
      DecodedMonotone(i + 1, Run(src, 0));
      i := i + 1;
      acc := Wrap(ShiftLeft(acc, 6) + d);
      accLen := accLen + 6;
      if accLen >= 8 {
        accLen := accLen - 8;
        if len >= dstLen {
          NoRoom(PrefixDigits(src), dstLen);
          return None;
        }
        StoreByte(dst, len, acc, accLen + 8, Stream(DigitsOf(src, i), 6));
        len := len + 1;
      }
    }
    assert Run(src, i) == 0;
    FinishDecoding(DigitsOf(src, i), Prefix(dst, len), acc, accLen, dstLen);
    if accLen > 4 || acc % Pow2(accLen) != 0 {
      return None;
    }
    return Some(len);
  }

  // ---- Round trips

  lemma {:induction false} EncodingIsAccepted(digits: Digits, bytes: Bytes, room: nat)
    requires Encodes(digits, bytes)
    ensures DecodedLength(|digits|) == |bytes| && (Accepts(digits, room) <==> |bytes| <= room)
  {
    hide Bits, Stream, Zeros;
    EncodesLength(digits, bytes);
    StreamLength(digits, 6);
    StreamLength(bytes, 8);
    LengthsOfEncoding(|bytes|);
  }

  lemma {:induction false} LengthsOfEncoding(n: nat)
    ensures EncodedLength(n) % 4 != 1 && DecodedLength(EncodedLength(n)) == n
  {
  }

  /** What the decoder accepts is exactly what is an encoding of something: accepted texts and byte
      strings that fit are in bijection. */
  lemma {:induction false} AcceptedAreEncodings(digits: Digits, room: nat)
    requires Below(digits, 64)
    ensures Accepts(digits, room) <==> exists bytes :: Encodes(digits, bytes) && |bytes| <= room
    ensures forall bytes, bytes' :: Encodes(digits, bytes) && Encodes(digits, bytes') ==> bytes == bytes'
  {
    if Accepts(digits, room) {
      var bytes := DecodeDigits(digits, room);
      assert Encodes(digits, bytes) && |bytes| <= room;
    }
    forall bytes | Encodes(digits, bytes)
      ensures Accepts(digits, room) <==> |bytes| <= room
    {
      EncodingIsAccepted(digits, bytes, room);
    }
    forall bytes, bytes' | Encodes(digits, bytes) && Encodes(digits, bytes')
      ensures bytes == bytes'
    {
      EncodesUnique(digits, bytes, digits, bytes');
    }
  }

  lemma {:induction false} DecodeDigits(digits: Digits, room: nat) returns (bytes: Bytes)
    requires Below(digits, 64) && Accepts(digits, room)
    ensures Encodes(digits, bytes) && |bytes| <= room
  {
    hide Bits, Stream, Zeros, Pow2;
    var s, n := Stream(digits, 6), DecodedLength(|digits|);
    StreamLength(digits, 6);
    LengthsByFour(|digits|);
    bytes := BytesOf(s[..8 * n], n);
    assert s == s[..8 * n] + s[8 * n..];
  }

  /** Decoding the characters that the encoder writes, up to its NUL, gives back the bytes, and only them. */
  lemma {:induction false} DecodeUndoesEncode(bytes: Bytes, text: seq<Ascii>, room: nat)
    requires Below(bytes, 256) && |bytes| <= room
    requires var digits := Bytewise(bytes);
             && |digits| < |text| && text[|digits|] == 0
             && forall i :: 0 <= i < |digits| ==> digits[i] < 64 && text[i] == Code(digits[i])
    ensures PrefixDigits(text) == Bytewise(bytes) && Accepts(PrefixDigits(text), room)
    ensures forall decoded :: Encodes(PrefixDigits(text), decoded) ==> decoded == bytes
  {
    hide Bytewise, Encodes, Accepts, Run, DecodedLength;
    var digits := Bytewise(bytes);
    BytewiseEncodes(bytes);
    RunEnds(text, 0, |digits|);
    assert PrefixDigits(text) == digits;
    EncodingIsAccepted(digits, bytes, room);
    forall decoded | Encodes(digits, decoded)
      ensures decoded == bytes
    {
      EncodesUnique(digits, bytes, digits, decoded);
    }
  }

  lemma {:induction false} RunEnds(text: seq<Ascii>, i: nat, n: nat)
    requires i + n < |text| && !InAlphabet(text[i + n])
    requires forall j :: i <= j < i + n ==> InAlphabet(text[j])
    ensures Run(text, i) == n
    decreases n
  {
    if n > 0 { RunEnds(text, i + 1, n - 1); }
  }

  /** Encoding what was decoded gives back exactly the digits that were read. */
  lemma {:induction false} EncodeUndoesDecode(digits: Digits, bytes: Bytes)
    requires Encodes(digits, bytes)
    ensures Bytewise(bytes) == digits
  {
    BytewiseEncodes(bytes);
    EncodesUnique(digits, bytes, Bytewise(bytes), bytes);
  }

  /** The encoder, then the decoder on what it wrote: the original bytes and their length come back. */
  method EncodeThenDecode(src: seq<Byte>, text: array<Byte>, dst: array<Byte>) returns (r: Option<nat>)
    requires EncodedLength(|src|) < text.Length && |src| <= dst.Length && text != dst
    modifies text, dst
    ensures r == Some(|src|) && dst[..|src|] == src
    ensures forall j :: |src| <= j < dst.Length ==> dst[j] == old(dst[j])
  {
    hide Bits, Stream, Bytewise, Accepts, Encodes, PrefixDigits;
    var olen := ToBase64(text, text.Length, src);
    BytewiseEncodes(src);
    var characters: seq<Ascii> := text[..olen.value + 1];
    DecodeUndoesEncode(src, characters, dst.Length);
    EncodedPrefix(src, characters);
    r := FromBase64(dst, dst.Length, characters);
    assert Prefix(dst, r.value) == src;
  }

  lemma {:induction false} EncodedPrefix(src: Bytes, text: seq<Ascii>)
    requires Below(src, 256) && PrefixDigits(text) == Bytewise(src)
    ensures DecodedLength(|PrefixDigits(text)|) == |src|
  {
    BytewiseEncodes(src);
    EncodingIsAccepted(Bytewise(src), src, |src|);
  }
}
