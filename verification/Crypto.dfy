/** The foreign cryptographic library, reduced to what its callers rely on.  The primitives are
    arbitrary functions: every theorem holds for all of them. */
module Crypto {
  import opened Bytes

  /** `keystream(key, nonce, i)` is byte `i` of the ChaCha stream for that key and nonce. */
  datatype Primitives = Primitives(
    hmac: (bytes, bytes) -> Block,
    sha: bytes -> Block,
    keystream: (bytes, uint64, nat) -> byte)

  /** An encryption key and the MAC key that goes with it. */
  datatype Keys = Keys(symm: Block, hmac: Block)

  /** Bitwise exclusive or of the `n` low-order bits. */
  function XorBits(a: nat, b: nat, n: nat): (r: nat)
    ensures r < Pow2(n)
  {
    if n == 0 then 0 else (a + b) % 2 + 2 * XorBits(a / 2, b / 2, n - 1)
  }

  function Pow2(n: nat): (r: nat)
    ensures r > 0
  {
    if n == 0 then 1 else 2 * Pow2(n - 1)
  }

  lemma SplitBit(bit: nat, rest: nat)
    requires bit < 2
    ensures (bit + 2 * rest) / 2 == rest && (bit + 2 * rest) % 2 == bit
  {
  }

  /** Adding the low bit of `b` twice to the low bit of `a` leaves it. */
  lemma LowBit(a: nat, b: nat, rest: nat)
    ensures ((a + b) % 2 + 2 * rest + b) % 2 == a % 2
  {
    var c := (a + b) % 2 + 2 * rest + b;
    assert c == a + 2 * (rest + b - (a + b) / 2);
  }

  lemma HalfSize(a: nat, n: nat)
    requires n > 0 && a < Pow2(n)
    ensures a / 2 < Pow2(n - 1)
  {
  }

  lemma {:induction false} XorBitsTwice(a: nat, b: nat, n: nat)
    requires a < Pow2(n)
    ensures XorBits(XorBits(a, b, n), b, n) == a
  {
    hide Pow2;
    if n > 0 {
      var bit, rest := (a + b) % 2, XorBits(a / 2, b / 2, n - 1);
      HalfSize(a, n);
      XorBitsTwice(a / 2, b / 2, n - 1);
      SplitBit(bit, rest);
      LowBit(a, b, rest);
      assert XorBits(bit + 2 * rest, b, n) == (bit + 2 * rest + b) % 2 + 2 * XorBits(rest, b / 2, n - 1);
    } else {
      OneValue(a);
    }
  }

  lemma OneValue(a: nat)
    requires a < Pow2(0)
    ensures a == 0
  {
  }

  lemma ByteSize()
    ensures Pow2(8) == 256
  {
    assert Pow2(8) == 2 * Pow2(7) == 2 * (2 * Pow2(6)) == 2 * (2 * (2 * Pow2(5)));
  }

  function Xor(a: byte, b: byte): (r: byte) {
    ByteSize();
    XorBits(a, b, 8)
  }

  lemma XorTwice(a: byte, b: byte)
    ensures Xor(Xor(a, b), b) == a
  {
    ByteSize();
    XorBitsTwice(a, b, 8);
  }

  /** Bit `j` of a number. */
  function Bit(x: nat, j: nat): (b: nat)
    ensures b < 2
  {
    if j == 0 then x % 2 else Bit(x / 2, j - 1)
  }

  /** A bit of the exclusive or is set exactly when the two bits differ. */
  lemma {:induction false} XorIsBitwise(a: nat, b: nat, n: nat, j: nat)
    requires j < n
    ensures Bit(XorBits(a, b, n), j) == if Bit(a, j) == Bit(b, j) then 0 else 1
    decreases j
  {
    SplitBit((a + b) % 2, XorBits(a / 2, b / 2, n - 1));
    if j == 0 {
      Parity(a, b);
    } else {
      XorIsBitwise(a / 2, b / 2, n - 1, j - 1);
    }
  }

  lemma Parity(a: nat, b: nat)
    ensures (a + b) % 2 == if a % 2 == b % 2 then 0 else 1
  {
  }

  lemma {:induction false} XorBitsSwap(a: nat, b: nat, n: nat)
    ensures XorBits(a, b, n) == XorBits(b, a, n)
  {
    if n > 0 {
      XorBitsSwap(a / 2, b / 2, n - 1);
    }
  }

  /** chacha_stream: `s` combined with the keystream from position `at` on. */
  function Stream(p: Primitives, key: bytes, nonce: uint64, at: nat, s: bytes): (r: bytes)
    ensures |r| == |s|
  {
    seq(|s|, i requires 0 <= i < |s| => Xor(s[i], p.keystream(key, nonce, at + i)))
  }

  lemma HalfOfSum(a: nat, k: nat)
    ensures (a + 2 * k) / 2 == a / 2 + k && (a + 2 * k) % 2 == a % 2
  {
  }

  /** Both numbers get the same even amounts on top of their lowest bits. */
  lemma JoinStep(a: nat, b: nat, m: nat, n: nat, k: nat, l: nat, rest: nat)
    requires m > 0 && XorBits(a / 2 + k, b / 2 + l, m - 1 + n) == XorBits(a / 2, b / 2, m - 1) + rest
    ensures XorBits(a + 2 * k, b + 2 * l, m + n) == XorBits(a, b, m) + 2 * rest
  {
    hide XorBits;
    var c, d := a + 2 * k, b + 2 * l;
    HalfOfSum(a, k);
    HalfOfSum(b, l);
    assert (c + d) % 2 == (a + b) % 2 by {
      HalfOfSum(a + b, k + l);
    }
    LowestBit(c, d, m + n);
    LowestBit(a, b, m);
  }

  /** A number moved up by `m` bits. */
  function Up(x: nat, m: nat): nat {
    if m == 0 then x else 2 * Up(x, m - 1)
  }

  lemma UpByByte(x: nat)
    ensures Up(x, 8) == x * 256
  {
    assert Up(x, 1) == 2 * x && Up(x, 2) == 4 * x && Up(x, 3) == 8 * x && Up(x, 4) == 16 * x;
    assert Up(x, 5) == 32 * x && Up(x, 6) == 64 * x && Up(x, 7) == 128 * x;
  }

  /** The exclusive or of long numbers is taken part by part. */
  lemma {:induction false} XorBitsJoin(a: nat, b: nat, m: nat, x: nat, y: nat, n: nat)
    requires a < Pow2(m) && b < Pow2(m)
    ensures XorBits(a + Up(x, m), b + Up(y, m), m + n) == XorBits(a, b, m) + Up(XorBits(x, y, n), m)
    decreases m
  {
    if m == 0 {
      OneValue(a);
      OneValue(b);
    } else {
      hide XorBits, Pow2;
      HalfSize(a, m);
      HalfSize(b, m);
      XorBitsJoin(a / 2, b / 2, m - 1, x, y, n);
      JoinStep(a, b, m, n, Up(x, m - 1), Up(y, m - 1), Up(XorBits(x, y, n), m - 1));
    }
  }

  lemma LowestBit(a: nat, b: nat, n: nat)
    requires n > 0
    ensures XorBits(a, b, n) == (a + b) % 2 + 2 * XorBits(a / 2, b / 2, n - 1)
  {
  }

  function XorBytes(s: bytes, t: bytes): (r: bytes)
    requires |s| == |t|
    ensures |r| == |s| && forall i | 0 <= i < |r| :: r[i] == Xor(s[i], t[i])
  {
    seq(|s|, i requires 0 <= i < |s| => Xor(s[i], t[i]))
  }

  /** Taking it byte by byte is taking it of the numbers that the bytes are. */
  lemma {:induction false} XorBytesIsXor(s: bytes, t: bytes)
    requires |s| == |t|
    ensures DecBE(XorBytes(s, t)) == XorBits(DecBE(s), DecBE(t), 8 * |s|)
    decreases |s|
  {
    hide Xor;
    if s != [] {
      XorBytesIsXor(s[..|s| - 1], t[..|s| - 1]);
      XorBytesStep(s, t, DecBE(s), DecBE(t), 8 * |s|);
    }
  }

  lemma XorBytesStep(s: bytes, t: bytes, x: nat, y: nat, m: nat)
    requires |s| == |t| > 0 && x == DecBE(s) && y == DecBE(t) && m == 8 * |s|
    requires var n := |s| - 1; DecBE(XorBytes(s[..n], t[..n])) == XorBits(DecBE(s[..n]), DecBE(t[..n]), 8 * n)
    ensures DecBE(XorBytes(s, t)) == XorBits(x, y, m)
  {
    hide *;
    var n := |s| - 1;
    DecOfXor(s, t);
    DecSnoc(s);
    DecSnoc(t);
    XorOfLast(DecBE(s[..n]), DecBE(t[..n]), s[n], t[n], 8 * n, x, y, m);
  }

  lemma DecOfXor(s: bytes, t: bytes)
    requires |s| == |t| > 0
    ensures var n := |s| - 1; DecBE(XorBytes(s, t)) == DecBE(XorBytes(s[..n], t[..n])) * 256 + Xor(s[n], t[n])
  {
    hide *;
    var n := |s| - 1;
    XorBytesSnoc(s, t);
    DecMore(XorBytes(s[..n], t[..n]), Xor(s[n], t[n]));
  }

  lemma XorBytesSnoc(s: bytes, t: bytes)
    requires |s| == |t| > 0
    ensures var n := |s| - 1; XorBytes(s, t) == XorBytes(s[..n], t[..n]) + [Xor(s[n], t[n])]
  {
    hide Xor;
  }

  lemma DecSnoc(s: bytes)
    requires s != []
    ensures DecBE(s) == DecBE(s[..|s| - 1]) * 256 + s[|s| - 1]
  {
  }

  lemma XorOfLast(x: nat, y: nat, a: byte, b: byte, n: nat, s: nat, t: nat, m: nat)
    requires s == x * 256 + a && t == y * 256 + b && m == n + 8
    ensures XorBits(s, t, m) == XorBits(x, y, n) * 256 + Xor(a, b)
  {
    hide XorBits, Pow2, Up;
    ByteSize();
    XorBitsJoin(a, b, 8, x, y, n);
    UpByByte(x);
    UpByByte(y);
    UpByByte(XorBits(x, y, n));
  }

  /** Text and cipher together show the keystream: the byte for this key, this nonce and this position. */
  lemma KeystreamShows(p: Primitives, key: bytes, nonce: uint64, at: nat, s: bytes, i: nat)
    requires i < |s|
    ensures Xor(Stream(p, key, nonce, at, s)[i], s[i]) == p.keystream(key, nonce, at + i)
  {
    var x, y := s[i], p.keystream(key, nonce, at + i);
    ByteSize();
    XorBitsSwap(x, y, 8);
    XorBitsTwice(y, x, 8);
  }

  lemma StreamTwice(p: Primitives, key: bytes, nonce: uint64, at: nat, s: bytes)
    ensures Stream(p, key, nonce, at, Stream(p, key, nonce, at, s)) == s
  {
    var t := Stream(p, key, nonce, at, s);
    forall i | 0 <= i < |s|
      ensures Stream(p, key, nonce, at, t)[i] == s[i]
    {
      XorTwice(s[i], p.keystream(key, nonce, at + i));
    }
  }

  /** A stream can be applied in parts, each starting where the one before it stopped. */
  lemma StreamAppend(p: Primitives, key: bytes, nonce: uint64, at: nat, s: bytes, t: bytes)
    ensures Stream(p, key, nonce, at, s + t) == Stream(p, key, nonce, at, s) + Stream(p, key, nonce, at + |s|, t)
  {
    hide Xor;
    var whole, parts := Stream(p, key, nonce, at, s + t), Stream(p, key, nonce, at, s) + Stream(p, key, nonce, at + |s|, t);
    forall i | 0 <= i < |s| + |t|
      ensures whole[i] == parts[i]
    {
      if i >= |s| {
        assert (s + t)[i] == t[i - |s|] && at + i == at + |s| + (i - |s|);
      }
    }
  }
}
