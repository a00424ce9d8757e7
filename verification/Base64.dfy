/**
  The compact Base64 codec: no padding characters (section 3.2 of RFC 4648), no stray trailing
  bits (section 3.5 of RFC 4648).

  `Encodes` says what an encoding is, as bit streams; the encoder and the streaming decoder, with
  their wrapping 32-bit accumulators, are proved against it.
 */
module Base64 {
  import opened Wrappers
  import opened Sequences
  import opened BitStream
  import opened Base64Alphabet

  type Bytes = seq<nat>
  type Digits = seq<nat>

  // ---- Specification

  /** How many zero bits fill up the last digit of an encoding of n bytes. */
  ghost function Fill(n: nat): (k: nat)
    ensures k <= 4
  {
    if n % 3 == 0 then 0 else if n % 3 == 1 then 4 else 2
  }

  /** The digits, as 6-bit groups, are the bytes, as 8-bit groups, followed by zero bits to fill the last digit. */
  ghost predicate Encodes(digits: Digits, bytes: Bytes) {
    && Below(digits, 64) && Below(bytes, 256)
    && Stream(digits, 6) == Stream(bytes, 8) + Zeros(Fill(|bytes|))
  }

  /** How many digits n bytes take. */
  ghost function EncodedLength(n: nat): (r: nat)
    ensures 6 * r == 8 * n + Fill(n)
  {
    n / 3 * 4 + if n % 3 == 0 then 0 else if n % 3 == 1 then 2 else 3
  }

  lemma {:induction false} EncodesLength(digits: Digits, bytes: Bytes)
    requires Encodes(digits, bytes)
    ensures |digits| == EncodedLength(|bytes|)
  {
    StreamLength(digits, 6);
    StreamLength(bytes, 8);
  }

  lemma {:induction false} EncodedLengthInjective(n: nat, m: nat)
    requires EncodedLength(n) == EncodedLength(m)
    ensures n == m
  {
  }

  /** Encodings and byte strings are in bijection: neither has two partners. */
  lemma {:induction false} EncodesUnique(digits: Digits, bytes: Bytes, digits': Digits, bytes': Bytes)
    requires Encodes(digits, bytes) && Encodes(digits', bytes')
    ensures digits == digits' <==> bytes == bytes'
  {
    hide Bits, ShiftRight, ShiftLeft, Stream, Wrap;
    PowersOfTwo();
    EncodesLength(digits, bytes);
    EncodesLength(digits', bytes');
    if bytes == bytes' {
      StreamPrefix(digits, [], digits', [], 6);
    }
    if digits == digits' {
      EncodedLengthInjective(|bytes|, |bytes'|);
      StreamPrefix(bytes, Zeros(Fill(|bytes|)), bytes', Zeros(Fill(|bytes'|)), 8);
    }
  }

  // ---- Steps of the accumulator

  lemma {:induction false} WriteDigit(read: seq<bool>, out: Digits, acc: nat, accLen: nat)
    requires Pending(read, Stream(out, 6), acc, accLen) && accLen >= 6
    ensures Pending(read, Stream(out + [ShiftRight(acc, accLen - 6) % 64], 6), acc, accLen - 6)
  {
    hide Bits, ShiftRight, ShiftLeft, Stream, Wrap;
    PowersOfTwo();
    WriteGroup(read, Stream(out, 6), acc, accLen, 6);
    StreamSnoc(out, ShiftRight(acc, accLen - 6) % 64, 6);
  }

  lemma {:induction false} WriteByte(read: seq<bool>, out: Bytes, acc: nat, accLen: nat)
    requires Pending(read, Stream(out, 8), acc, accLen) && accLen >= 8
    ensures Pending(read, Stream(out + [ShiftRight(acc, accLen - 8) % 256], 8), acc, accLen - 8)
  {
    hide Bits, ShiftRight, ShiftLeft, Stream, Wrap;
    PowersOfTwo();
    WriteGroup(read, Stream(out, 8), acc, accLen, 8);
    StreamSnoc(out, ShiftRight(acc, accLen - 8) % 256, 8);
  }

  lemma {:induction false} ReadByte(consumed: Bytes, written: seq<bool>, acc: nat, accLen: nat, b: nat)
    requires Pending(Stream(consumed, 8), written, acc, accLen) && b < 256 && accLen <= 24
    ensures Pending(Stream(consumed + [b], 8), written, Wrap(ShiftLeft(acc, 8) + b), accLen + 8)
  {
    hide Bits, ShiftRight, ShiftLeft, Stream, Wrap;
    PowersOfTwo();
    ReadGroup(Stream(consumed, 8), written, acc, accLen, b, 8);
    StreamSnoc(consumed, b, 8);
  }

  lemma {:induction false} ReadDigit(consumed: Digits, written: seq<bool>, acc: nat, accLen: nat, d: nat)
    requires Pending(Stream(consumed, 6), written, acc, accLen) && d < 64 && accLen <= 26
    ensures Pending(Stream(consumed + [d], 6), written, Wrap(ShiftLeft(acc, 6) + d), accLen + 6)
  {
    hide Bits, ShiftRight, ShiftLeft, Stream, Wrap;
    PowersOfTwo();
    ReadGroup(Stream(consumed, 6), written, acc, accLen, d, 6);
    StreamSnoc(consumed, d, 6);
  }

  lemma {:induction false} ThreeBytesBits(b0: nat, b1: nat, b2: nat)
    requires b0 < 256 && b1 < 256 && b2 < 256
    ensures Bits(b0 * 0x1_0000 + b1 * 0x100 + b2, 24) == Bits(b0, 8) + Bits(b1, 8) + Bits(b2, 8)
  {
    hide Bits, Pow2;
    PowersOfTwo();
    BitsShift(b0 * 0x100 + b1, 16, b2, 8);
    BitsShift(b0, 8, b1, 8);
  }

  lemma {:induction false} StreamThree(consumed: Bytes, b0: nat, b1: nat, b2: nat)
    ensures Stream(consumed + [b0, b1, b2], 8) == Stream(consumed, 8) + (Bits(b0, 8) + Bits(b1, 8) + Bits(b2, 8))
  {
    hide Bits, ShiftRight, ShiftLeft, Stream, Wrap;
    StreamSnoc(consumed, b0, 8);
    StreamSnoc(consumed + [b0], b1, 8);
    StreamSnoc(consumed + [b0] + [b1], b2, 8);
    assert consumed + [b0] + [b1] + [b2] == consumed + [b0, b1, b2];
    Assoc(Stream(consumed, 8), Bits(b0, 8), Bits(b1, 8));
    Assoc(Stream(consumed, 8), Bits(b0, 8) + Bits(b1, 8), Bits(b2, 8));
  }

  /** Three bytes at once are one 24-bit group. */
  lemma {:induction false} ReadThreeBytes(consumed: Bytes, written: seq<bool>, acc: nat, b0: nat, b1: nat, b2: nat)
    requires Pending(Stream(consumed, 8), written, acc, 0) && b0 < 256 && b1 < 256 && b2 < 256
    ensures Pending(Stream(consumed + [b0, b1, b2], 8), written,
                    Wrap(ShiftLeft(acc, 24) + (b0 * 0x1_0000 + b1 * 0x100 + b2)), 24)
  {
    hide Bits, ShiftRight, ShiftLeft, Stream, Wrap;
    PowersOfTwo();
    ThreeBytesBits(b0, b1, b2);
    StreamThree(consumed, b0, b1, b2);
    ReadGroup(Stream(consumed, 8), written, acc, 0, b0 * 0x1_0000 + b1 * 0x100 + b2, 24);
  }

  // ---- Encoder, one byte at a time

  datatype TailState = TailState(written: Digits, acc: nat, accLen: nat)

  /** The digits that the inner loop takes out of the accumulator. */
  ghost function Drain(acc: nat, accLen: nat): (r: Digits) {
    if accLen < 6 then [] else [ShiftRight(acc, accLen - 6) % 64] + Drain(acc, accLen - 6)
  }

  /** What is pending when all bytes are read goes into a last digit. */
  ghost function LastDigit(acc: nat, accLen: nat): (r: Digits) {
    if 0 < accLen <= 6 then [ShiftLeft(acc, 6 - accLen) % 64] else []
  }

  /** The loop that the encoder runs on its last bytes, run on all bytes. */
  ghost function TailLoop(bytes: Bytes): (s: TailState) {
    if bytes == [] then TailState([], 0, 0)
    else
      var s := TailLoop(bytes[..|bytes| - 1]);
      var acc := Wrap(ShiftLeft(s.acc, 8) + bytes[|bytes| - 1]);
      TailState(s.written + Drain(acc, s.accLen + 8), acc, (s.accLen + 8) % 6)
  }

  ghost function Bytewise(bytes: Bytes): (r: Digits) {
    var s := TailLoop(bytes);
    s.written + LastDigit(s.acc, s.accLen)
  }

  lemma {:induction false} DrainIsDigits(acc: nat, accLen: nat)
    ensures Below(Drain(acc, accLen), 64)
    decreases accLen
  {
    if accLen >= 6 { DrainIsDigits(acc, accLen - 6); }
  }

  lemma {:induction false} DrainStep(out: Digits, acc: nat, accLen: nat)
    requires accLen >= 6
    ensures out + Drain(acc, accLen) == out + [ShiftRight(acc, accLen - 6) % 64] + Drain(acc, accLen - 6)
    ensures (accLen - 6) % 6 == accLen % 6
  {
  }

  lemma {:induction false} DrainWrites(read: seq<bool>, out: Digits, acc: nat, accLen: nat)
    requires Pending(read, Stream(out, 6), acc, accLen)
    ensures Pending(read, Stream(out + Drain(acc, accLen), 6), acc, accLen % 6)
    decreases accLen
  {
    hide Bits, ShiftRight, ShiftLeft, Stream, Wrap, Pending;
    if accLen < 6 {
      assert out + Drain(acc, accLen) == out;
    } else {
      WriteDigit(read, out, acc, accLen);
      DrainWrites(read, out + [ShiftRight(acc, accLen - 6) % 64], acc, accLen - 6);
      DrainStep(out, acc, accLen);
    }
  }

  lemma {:induction false} LastDigitBits(acc: nat, accLen: nat)
    requires 0 < accLen <= 6
    ensures Bits(ShiftLeft(acc, 6 - accLen) % 64, 6) == Bits(acc, accLen) + Zeros(6 - accLen)
  {
    hide Bits, Zeros, Pow2, ShiftLeft, Wrap;
    var k := 6 - accLen;
    var w := ShiftLeft(acc, k);
    PowersOfTwo();
    ShiftIn(acc, accLen, 0, k);
    WrapKeepsBits(w + 0, 6);
    BitsTruncate(w, 6, 6);
    BitsZero(0, k);
  }

  lemma {:induction false} FillByLength(n: nat)
    ensures Fill(n) == if 8 * n % 6 == 0 then 0 else 6 - 8 * n % 6
  {
    var q, r := n / 3, n % 3;
    DivModUnique(8 * n, 6, 4 * q + r, 2 * r);
  }

  /** Whatever is still pending at the end goes into one last digit, filled with zeros. */
  lemma {:induction false} FinishEncoding(bytes: Bytes, out: Digits, acc: nat, accLen: nat)
    requires Pending(Stream(bytes, 8), Stream(out, 6), acc, accLen) && Below(out, 64) && Below(bytes, 256)
    requires accLen == 8 * |bytes| % 6
    ensures Encodes(out + LastDigit(acc, accLen), bytes)
  {
    hide Bits, ShiftRight, ShiftLeft, Stream, Wrap;
    FillByLength(|bytes|);
    if accLen == 0 {
      assert out + LastDigit(acc, accLen) == out;
    } else {
      LastDigitBits(acc, accLen);
      StreamSnoc(out, ShiftLeft(acc, 6 - accLen) % 64, 6);
      Assoc(Stream(out, 6), Bits(acc, accLen), Zeros(6 - accLen));
    }
  }

  lemma {:induction false} NothingRead()
    ensures Pending(Stream([], 8), Stream([], 6), 0, 0)
  {
  }

  lemma {:induction false} TailLoopPending(bytes: Bytes)
    requires Below(bytes, 256)
    ensures var s := TailLoop(bytes);
            && s.accLen == 8 * |bytes| % 6 && Below(s.written, 64)
            && Pending(Stream(bytes, 8), Stream(s.written, 6), s.acc, s.accLen)
  {
    hide Bits, ShiftRight, ShiftLeft, Stream, Wrap, Pending, Drain;
    if bytes == [] {
      NothingRead();
    } else {
      var init, last := bytes[..|bytes| - 1], bytes[|bytes| - 1];
      TailLoopPending(init);
      var s := TailLoop(init);
      ReadByte(init, Stream(s.written, 6), s.acc, s.accLen, last);
      assert init + [last] == bytes;
      DrainWrites(Stream(bytes, 8), s.written, Wrap(ShiftLeft(s.acc, 8) + last), s.accLen + 8);
      DrainIsDigits(Wrap(ShiftLeft(s.acc, 8) + last), s.accLen + 8);
      LengthStep(|init|, 1);
    }
  }

  /** Byte by byte, every byte string has an encoding, and this is it. */
  lemma {:induction false} BytewiseEncodes(bytes: Bytes)
    requires Below(bytes, 256)
    ensures Encodes(Bytewise(bytes), bytes)
  {
    hide Bits, ShiftRight, ShiftLeft, Stream, Wrap;
    TailLoopPending(bytes);
    var s := TailLoop(bytes);
    FinishEncoding(bytes, s.written, s.acc, s.accLen);
  }

  // ---- Encoder, as it is

  /** The first `pos` characters of the buffer spell the digits. */
  ghost predicate Spells(dst: array<Byte>, pos: nat, digits: Digits)
    reads dst
  {
    && pos == |digits| <= dst.Length && Below(digits, 64)
    && (forall i :: 0 <= i < pos ==> dst[i] == Code(digits[i]))
  }

  method Put(dst: array<Byte>, pos: nat, x: nat, ghost out: Digits)
    requires Spells(dst, pos, out) && pos < dst.Length && x < 64
    modifies dst
    ensures Spells(dst, pos + 1, out + [x])
    ensures forall j :: pos < j < dst.Length ==> dst[j] == old(dst[j])
  {
    dst[pos] := ByteToChar(x);
  }

  /** The inner loop: writes all complete digits that are pending. */
  method Emit(dst: array<Byte>, pos: nat, acc: nat, accLen: nat, ghost out: Digits, ghost read: seq<bool>)
    returns (pos': nat, accLen': nat, ghost out': Digits)
    requires Spells(dst, pos, out) && pos + accLen / 6 < dst.Length
    requires Pending(read, Stream(out, 6), acc, accLen)
    modifies dst
    ensures pos' == pos + accLen / 6 && accLen' == accLen % 6
    ensures Spells(dst, pos', out') && Pending(read, Stream(out', 6), acc, accLen')
    ensures forall j :: pos' <= j < dst.Length ==> dst[j] == old(dst[j])
  {
    hide Bits, ShiftRight, ShiftLeft, Stream, Wrap;
    pos', accLen', out' := pos, accLen, out;
    while accLen' >= 6
      invariant pos' + accLen' / 6 == pos + accLen / 6 && accLen' % 6 == accLen % 6
      invariant Spells(dst, pos', out') && Pending(read, Stream(out', 6), acc, accLen')
      invariant forall j :: pos' <= j < dst.Length ==> dst[j] == old(dst[j])
    {
      WriteDigit(read, out', acc, accLen');
      accLen' := accLen' - 6;
      var x := ShiftRight(acc, accLen') % 64;
      Put(dst, pos', x, out');
      pos', out' := pos' + 1, out' + [x];
    }
  }

  /** The state between two rounds of the encoder's loops: `buf` bytes read, `pos` characters written. */
  ghost predicate Encoding(dst: array<Byte>, src: seq<Byte>, buf: nat, pos: nat, acc: nat, accLen: nat, out: Digits)
    reads dst
  {
    && buf <= |src| && pos == 8 * buf / 6 && accLen == 8 * buf % 6
    && Spells(dst, pos, out) && Pending(Stream(src[..buf], 8), Stream(out, 6), acc, accLen)
  }

  lemma {:induction false} RoomFor(n: nat, buf: nat)
    requires buf <= n
    ensures 8 * buf / 6 <= EncodedLength(n) && (buf == n && 8 * n % 6 > 0 ==> 8 * n / 6 + 1 == EncodedLength(n))
    ensures buf == n && 8 * n % 6 == 0 ==> 8 * n / 6 == EncodedLength(n)
  {
  }

  /** Reading k more bytes: how many digits that completes, and how many bits are then pending. */
  lemma {:induction false} LengthStep(buf: nat, k: nat)
    ensures 8 * (buf + k) / 6 == 8 * buf / 6 + (8 * buf % 6 + 8 * k) / 6
    ensures 8 * (buf + k) % 6 == (8 * buf % 6 + 8 * k) % 6
  {
    var pending := 8 * buf % 6 + 8 * k;
    DivModUnique(8 * (buf + k), 6, 8 * buf / 6 + pending / 6, pending % 6);
  }

  method EncodeThree(dst: array<Byte>, src: seq<Byte>, buf: nat, pos: nat, acc: nat, ghost out: Digits)
    returns (pos': nat, acc': nat, accLen': nat, ghost out': Digits)
    requires EncodedLength(|src|) < dst.Length && buf + 3 <= |src| && Encoding(dst, src, buf, pos, acc, 0, out)
    modifies dst
    ensures Encoding(dst, src, buf + 3, pos', acc', accLen', out') && accLen' == 0
    ensures forall j :: pos' <= j < dst.Length ==> dst[j] == old(dst[j])
  {
    hide Bits, ShiftRight, ShiftLeft, Stream, Wrap, Pending, Spells, EncodedLength;
    RoomFor(|src|, buf + 3);
    LengthStep(buf, 3);
    ReadThreeBytes(src[..buf], Stream(out, 6), acc, src[buf], src[buf + 1], src[buf + 2]);
    assert src[..buf + 3] == src[..buf] + [src[buf], src[buf + 1], src[buf + 2]];
    var b0: nat, b1: nat, b2: nat := src[buf], src[buf + 1], src[buf + 2];
    acc' := Wrap(ShiftLeft(acc, 24) + (b0 * 0x1_0000 + b1 * 0x100 + b2));
    accLen' := 24;
    pos', accLen', out' := Emit(dst, pos, acc', accLen', out, Stream(src[..buf + 3], 8));
  }

  method EncodeOne(dst: array<Byte>, src: seq<Byte>, buf: nat, pos: nat, acc: nat, accLen: nat, ghost out: Digits)
    returns (pos': nat, acc': nat, accLen': nat, ghost out': Digits)
    requires EncodedLength(|src|) < dst.Length && buf < |src| && Encoding(dst, src, buf, pos, acc, accLen, out)
    modifies dst
    ensures Encoding(dst, src, buf + 1, pos', acc', accLen', out')
    ensures forall j :: pos' <= j < dst.Length ==> dst[j] == old(dst[j])
  {
    hide Bits, ShiftRight, ShiftLeft, Stream, Wrap, Pending, Spells, EncodedLength;
    RoomFor(|src|, buf + 1);
    LengthStep(buf, 1);
    ReadByte(src[..buf], Stream(out, 6), acc, accLen, src[buf]);
    assert src[..buf + 1] == src[..buf] + [src[buf]];
    acc' := Wrap(ShiftLeft(acc, 8) + src[buf]);
    accLen' := accLen + 8;
    pos', accLen', out' := Emit(dst, pos, acc', accLen', out, Stream(src[..buf + 1], 8));
  }

  method EncodeLast(dst: array<Byte>, src: seq<Byte>, pos: nat, acc: nat, accLen: nat, ghost out: Digits)
    returns (pos': nat)
    requires EncodedLength(|src|) < dst.Length && Encoding(dst, src, |src|, pos, acc, accLen, out)
    modifies dst
    ensures pos' == EncodedLength(|src|) && Spells(dst, pos', Bytewise(src)) && dst[pos'] == 0
    ensures forall j :: pos' < j < dst.Length ==> dst[j] == old(dst[j])
  {
    hide Bits, ShiftRight, ShiftLeft, Stream, Wrap;
    RoomFor(|src|, |src|);
    assert src[..|src|] == src;
    FinishEncoding(src, out, acc, accLen);
    BytewiseEncodes(src);
    EncodesUnique(out + LastDigit(acc, accLen), src, Bytewise(src), src);
    pos' := pos;
    if accLen > 0 {
      Put(dst, pos, ShiftLeft(acc, 6 - accLen) % 64, out);
      pos' := pos' + 1;
    } else {
      assert out + LastDigit(acc, accLen) == out;
    }
    dst[pos'] := 0;
  }

  /** On success the buffer holds the encoding, then NUL, and nothing behind it was touched. */
  method ToBase64(dst: array<Byte>, dstLen: nat, src: seq<Byte>) returns (r: Option<nat>)
    requires dstLen <= dst.Length
    modifies dst
    ensures r.None? <==> dstLen <= EncodedLength(|src|)
    ensures r.None? ==> dst[..] == old(dst[..])
    ensures r.Some? ==> r.value == EncodedLength(|src|) && Spells(dst, r.value, Bytewise(src)) && dst[r.value] == 0
    ensures r.Some? ==> forall j :: r.value < j < dst.Length ==> dst[j] == old(dst[j])
  {
    hide Bits, ShiftRight, ShiftLeft, Stream, Wrap;
    var olen := |src| / 3 * 4;
    if |src| % 3 == 2 {
      olen := olen + 1;
    }
    if |src| % 3 != 0 {
      olen := olen + 2;
    }
    if dstLen <= olen {
      return None;
    }
    var acc: nat, accLen: nat, buf: nat, pos: nat := 0, 0, 0, 0;
    ghost var out: Digits := [];
    NothingRead();
    assert src[..0] == [];
    while |src| - buf >= 3
      invariant accLen == 0 && Encoding(dst, src, buf, pos, acc, accLen, out)
      invariant forall j :: pos <= j < dst.Length ==> dst[j] == old(dst[j])
    {
      pos, acc, accLen, out := EncodeThree(dst, src, buf, pos, acc, out);
      buf := buf + 3;
    }
    while buf < |src|
      invariant Encoding(dst, src, buf, pos, acc, accLen, out)
      invariant forall j :: pos <= j < dst.Length ==> dst[j] == old(dst[j])
    {
      pos, acc, accLen, out := EncodeOne(dst, src, buf, pos, acc, accLen, out);
      buf := buf + 1;
    }
    pos := EncodeLast(dst, src, pos, acc, accLen, out);
    return Some(olen);
  }
}
