/** Numbers as bits, most significant first: the level at which Base64 is defined (section 4 of RFC 4648). */
module BitStream {
  import opened Sequences

  function Pow2(k: nat): (r: nat)
    ensures r >= 1
  {
    if k == 0 then 1 else 2 * Pow2(k - 1)
  }

  /** n >> k: halve k times. */
  function ShiftRight(n: nat, k: nat): (r: nat) {
    if k == 0 then n else ShiftRight(n / 2, k - 1)
  }

  /** The k low bits of n. */
  ghost function Bits(n: nat, k: nat): (r: seq<bool>)
    ensures |r| == k
  {
    if k == 0 then [] else Bits(n / 2, k - 1) + [n % 2 == 1]
  }

  ghost function Zeros(k: nat): (r: seq<bool>)
    ensures |r| == k
  {
    if k == 0 then [] else Zeros(k - 1) + [false]
  }

  /** Numbers of w bits each, one after the other. */
  ghost function Stream(xs: seq<nat>, w: nat): (r: seq<bool>) {
    if xs == [] then [] else Stream(xs[..|xs| - 1], w) + Bits(xs[|xs| - 1], w)
  }

  /** Every number is below the bound. */
  ghost predicate Below(xs: seq<nat>, bound: nat) {
    forall i :: 0 <= i < |xs| ==> xs[i] < bound
  }

  /** Shifting left by j and filling in m puts the bits of m behind those of n. */
  lemma {:induction false} BitsShift(n: nat, k: nat, m: nat, j: nat)
    requires m < Pow2(j)
    ensures Bits(n * Pow2(j) + m, k + j) == Bits(n, k) + Bits(m, j)
    decreases j
  {
    if j == 0 {
      assert m == 0 && n * Pow2(0) == n;
    } else {
      var q := n * Pow2(j - 1);
      assert n * Pow2(j) == 2 * q;
      BitsShift(n, k, m / 2, j - 1);
      assert (2 * q + m) / 2 == q + m / 2 && (2 * q + m) % 2 == m % 2;
      Assoc(Bits(n, k), Bits(m / 2, j - 1), [m % 2 == 1]);
    }
  }

  /** Truncating a number to j bits keeps its k low bits, as long as k <= j. */
  lemma {:induction false} BitsTruncate(n: nat, k: nat, j: nat)
    requires k <= j
    ensures Bits(n % Pow2(j), k) == Bits(n, k)
    decreases k
  {
    if k > 0 {
      HalfModulo(n, Pow2(j - 1));
      BitsTruncate(n / 2, k - 1, j - 1);
    }
  }

  lemma {:induction false} MultipleAtLeast(p: nat, d: int)
    requires d >= 1
    ensures p * d >= p
  {
  }

  /** Quotient and remainder are unique. */
  lemma {:induction false} DivModUnique(n: nat, p: nat, q: nat, r: nat)
    requires n == p * q + r && r < p
    ensures n / p == q && n % p == r
  {
    var a, b := n / p, n % p;
    assert n == p * a + b;
    assert p * (q - a) == b - r;
    assert p * (a - q) == r - b;
    if q > a { MultipleAtLeast(p, q - a); }
    if a > q { MultipleAtLeast(p, a - q); }
  }

  lemma {:induction false} HalfModulo(n: nat, p: nat)
    requires p > 0
    ensures (n % (2 * p)) / 2 == (n / 2) % p && (n % (2 * p)) % 2 == n % 2
  {
    var q, r := n / (2 * p), n % (2 * p);
    var pq := p * q;
    assert n == 2 * pq + r by { assert 2 * p * q == 2 * pq; }
    assert n / 2 == pq + r / 2;
    DivModUnique(n / 2, p, q, r / 2);
  }

  /** The k low bits are the bits above position j, then the j low ones. */
  lemma {:induction false} BitsSplit(n: nat, k: nat, j: nat)
    requires j <= k
    ensures Bits(n, k) == Bits(ShiftRight(n, j), k - j) + Bits(n, j)
    decreases j
  {
    if j > 0 {
      BitsSplit(n / 2, k - 1, j - 1);
      Assoc(Bits(ShiftRight(n, j), k - j), Bits(n / 2, j - 1), [n % 2 == 1]);
    }
  }

  /** Bits determine the number. */
  lemma {:induction false} BitsInjective(n: nat, m: nat, k: nat)
    requires n < Pow2(k) && m < Pow2(k) && Bits(n, k) == Bits(m, k)
    ensures n == m
    decreases k
  {
    if k > 0 {
      var a, b := Bits(n, k), Bits(m, k);
      assert a[..k - 1] == Bits(n / 2, k - 1) && b[..k - 1] == Bits(m / 2, k - 1);
      assert a[k - 1] == (n % 2 == 1) && b[k - 1] == (m % 2 == 1);
      BitsInjective(n / 2, m / 2, k - 1);
    }
  }

  /** The k low bits are zero exactly when the number is a multiple of 2^k. */
  lemma {:induction false} BitsZero(n: nat, k: nat)
    ensures Bits(n, k) == Zeros(k) <==> n % Pow2(k) == 0
    decreases k
  {
    if k > 0 {
      HalfModulo(n, Pow2(k - 1));
      BitsZero(n / 2, k - 1);
      var a, z := Bits(n, k), Zeros(k);
      assert a[..k - 1] == Bits(n / 2, k - 1) && z[..k - 1] == Zeros(k - 1);
      assert a[k - 1] == (n % 2 == 1) && z[k - 1] == false;
    }
  }

  lemma {:induction false} StreamSnoc(xs: seq<nat>, x: nat, w: nat)
    ensures Stream(xs + [x], w) == Stream(xs, w) + Bits(x, w)
  {
    assert (xs + [x])[..|xs|] == xs;
  }

  lemma {:induction false} StreamLength(xs: seq<nat>, w: nat)
    ensures |Stream(xs, w)| == |xs| * w
  {
    if xs != [] {
      StreamLength(xs[..|xs| - 1], w);
      assert |xs| * w == (|xs| - 1) * w + w;
    }
  }

  /** A bit stream that starts with as many w-bit numbers as another one starts with the same numbers. */
  lemma {:induction false} StreamPrefix(xs: seq<nat>, a: seq<bool>, ys: seq<nat>, b: seq<bool>, w: nat)
    requires |xs| == |ys| && Below(xs, Pow2(w)) && Below(ys, Pow2(w)) && Stream(xs, w) + a == Stream(ys, w) + b
    ensures xs == ys && a == b
    decreases |xs|
  {
    StreamLength(xs, w);
    StreamLength(ys, w);
    var s, t := Stream(xs, w), Stream(ys, w);
    assert (s + a)[..|s|] == s && (t + b)[..|t|] == t && (s + a)[|s|..] == a && (t + b)[|t|..] == b;
    if xs != [] {
      var x, y := xs[|xs| - 1], ys[|ys| - 1];
      var s', t' := Stream(xs[..|xs| - 1], w), Stream(ys[..|ys| - 1], w);
      StreamPrefix(xs[..|xs| - 1], Bits(x, w), ys[..|ys| - 1], Bits(y, w), w);
      BitsInjective(x, y, w);
    }
  }

  /** The number that the bits stand for. */
  ghost function Value(bits: seq<bool>): (n: nat) {
    if bits == [] then 0 else 2 * Value(bits[..|bits| - 1]) + if bits[|bits| - 1] then 1 else 0
  }

  lemma {:induction false} BitsOfValue(bits: seq<bool>)
    ensures Value(bits) < Pow2(|bits|) && Bits(Value(bits), |bits|) == bits
  {
    if bits != [] {
      BitsOfValue(bits[..|bits| - 1]);
      assert bits == bits[..|bits| - 1] + [bits[|bits| - 1]];
    }
  }

  lemma {:induction false} ByteOfBits(bits: seq<bool>)
    requires |bits| == 8
    ensures Value(bits) < 256 && Bits(Value(bits), 8) == bits
  {
    PowersOfTwo();
    BitsOfValue(bits);
  }

  /** Every bit stream of k groups of 8 bits is the stream of k bytes. */
  lemma {:induction false} BytesOf(bits: seq<bool>, k: nat) returns (xs: seq<nat>)
    requires |bits| == 8 * k
    ensures |xs| == k && Below(xs, 256) && Stream(xs, 8) == bits
    decreases k
  {
    if k == 0 {
      xs := [];
    } else {
      hide Bits, Value, Stream, Pow2;
      var init := BytesOf(bits[..8 * k - 8], k - 1);
      var group := bits[8 * k - 8..];
      ByteOfBits(group);
      StreamSnoc(init, Value(group), 8);
      xs := init + [Value(group)];
      assert bits == bits[..8 * k - 8] + group;
    }
  }

  // ---- 32-bit words

  const WORD := 0x1_0000_0000

  /** 32-bit arithmetic wraps around. */
  function Wrap(n: nat): (r: nat)
    ensures r < WORD
  {
    n % WORD
  }

  /** acc << k on 32-bit words: double k times. */
  function ShiftLeft(acc: nat, k: nat): (r: nat) {
    if k == 0 then acc else Wrap(2 * ShiftLeft(acc, k - 1))
  }

  lemma {:induction false} PowersOfTwo()
    ensures Pow2(6) == 64 && Pow2(8) == 256 && Pow2(24) == 0x100_0000 && Pow2(32) == WORD
  {
    assert Pow2(8) == 256 * Pow2(0);
    assert Pow2(16) == 256 * Pow2(8);
    assert Pow2(24) == 256 * Pow2(16);
    assert Pow2(32) == 256 * Pow2(24);
  }

  /** Equal words stay equal words when the same is added, or when they are doubled. */
  lemma {:induction false} WrapCongruence(a: nat, b: nat, m: nat)
    requires Wrap(a) == Wrap(b)
    ensures Wrap(a + m) == Wrap(b + m) && Wrap(2 * a) == Wrap(2 * b)
  {
    var r, qa, qb := a % WORD, a / WORD, b / WORD;
    WrapMultiple(qa, r + m);
    WrapMultiple(qb, r + m);
    WrapMultiple(2 * qa, 2 * r);
    WrapMultiple(2 * qb, 2 * r);
  }

  lemma {:induction false} WrapMultiple(q: nat, s: nat)
    ensures Wrap(WORD * q + s) == Wrap(s)
  {
    DivModUnique(WORD * q + s, WORD, q + s / WORD, s % WORD);
  }

  lemma {:induction false} WrapTwice(a: nat)
    ensures Wrap(Wrap(a)) == Wrap(a)
  {
  }

  lemma {:induction false} ShiftLeftIsProduct(acc: nat, k: nat)
    ensures Wrap(ShiftLeft(acc, k)) == Wrap(acc * Pow2(k))
  {
    if k > 0 {
      ShiftLeftIsProduct(acc, k - 1);
      assert acc * Pow2(k) == 2 * (acc * Pow2(k - 1));
      WrapCongruence(ShiftLeft(acc, k - 1), acc * Pow2(k - 1), 0);
      WrapTwice(2 * ShiftLeft(acc, k - 1));
    }
  }

  /** Wrapping at 32 bits does not touch bits below position 32. */
  lemma {:induction false} WrapKeepsBits(n: nat, k: nat)
    requires k <= 32
    ensures Bits(Wrap(n), k) == Bits(n, k)
  {
    PowersOfTwo();
    BitsTruncate(n, k, 32);
  }

  /** Shifting in m, a number of j bits, keeps all k pending bits and adds j. */
  lemma {:induction false} ShiftIn(acc: nat, k: nat, m: nat, j: nat)
    requires m < Pow2(j) && k + j <= 32
    ensures Bits(Wrap(ShiftLeft(acc, j) + m), k + j) == Bits(acc, k) + Bits(m, j)
  {
    hide Bits, Pow2, ShiftLeft, Wrap;
    var p := acc * Pow2(j);
    ShiftLeftIsProduct(acc, j);
    WrapCongruence(ShiftLeft(acc, j), p, m);
    WrapKeepsBits(p + m, k + j);
    BitsShift(acc, k, m, j);
  }

  /** What has been read is what has been written, then the low bits still in the accumulator. */
  ghost predicate Pending(read: seq<bool>, written: seq<bool>, acc: nat, accLen: nat) {
    read == written + Bits(acc, accLen)
  }

  lemma {:induction false} ReadGroup(read: seq<bool>, written: seq<bool>, acc: nat, accLen: nat, m: nat, j: nat)
    requires Pending(read, written, acc, accLen) && m < Pow2(j) && accLen + j <= 32
    ensures Pending(read + Bits(m, j), written, Wrap(ShiftLeft(acc, j) + m), accLen + j)
  {
    ShiftIn(acc, accLen, m, j);
    Assoc(written, Bits(acc, accLen), Bits(m, j));
  }

  /** The top group of w pending bits, masked. */
  lemma {:induction false} WriteGroup(read: seq<bool>, written: seq<bool>, acc: nat, accLen: nat, w: nat)
    requires Pending(read, written, acc, accLen) && w <= accLen
    ensures Pending(read, written + Bits(ShiftRight(acc, accLen - w) % Pow2(w), w), acc, accLen - w)
  {
    BitsSplit(acc, accLen, accLen - w);
    BitsTruncate(ShiftRight(acc, accLen - w), w, w);
    Assoc(written, Bits(ShiftRight(acc, accLen - w), w), Bits(acc, accLen - w));
  }
}
