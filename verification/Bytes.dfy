/** Bytes, machine words and the big-endian integer encoding that every format of ibchat uses. */
module Bytes {

  const TWO32: nat := 0x1_0000_0000
  const TWO63: nat := 0x8000_0000_0000_0000
  const TWO64: nat := 0x1_0000_0000_0000_0000

  type byte = x: int | 0 <= x < 0x100
  type bytes = seq<byte>
  type uint32 = x: int | 0 <= x < TWO32
  type uint64 = x: int | 0 <= x < TWO64

  /** Thirty-two bytes: a MAC, a hash, a key or a user id. */
  type Block = s: bytes | |s| == 32 witness seq(32, _ => 0)

  /** What C stores when an unsigned 64-bit computation yields `x`. */
  function Wrap64(x: int): (r: uint64)
    ensures 0 <= x < TWO64 ==> r == x
  {
    x % TWO64
  }

  function Min(a: nat, b: nat): nat {
    if a < b then a else b
  }

  function Pow256(n: nat): (r: nat)
    ensures r > 0
  {
    if n == 0 then 1 else 256 * Pow256(n - 1)
  }

  lemma WordSizes()
    ensures Pow256(4) == TWO32 && Pow256(8) == TWO64
  {
    assert Pow256(4) == 256 * Pow256(3) == 256 * (256 * Pow256(2)) == 256 * (256 * (256 * Pow256(1)));
    assert Pow256(8) == 256 * Pow256(7) == 256 * (256 * Pow256(6)) == 256 * (256 * (256 * Pow256(5)));
  }

  /** The `n` low-order base-256 digits of `x`, most significant first. */
  function EncBE(x: nat, n: nat): (r: bytes)
    ensures |r| == n
  {
    if n == 0 then [] else EncBE(x / 256, n - 1) + [x % 256]
  }

  /** The number whose base-256 digits are `s`. */
  function DecBE(s: bytes): (x: nat)
    ensures x < Pow256(|s|)
  {
    if s == [] then 0 else DecBE(s[..|s| - 1]) * 256 + s[|s| - 1]
  }

  lemma {:induction false} DecOfEnc(x: nat, n: nat)
    requires x < Pow256(n)
    ensures DecBE(EncBE(x, n)) == x
  {
    if n > 0 {
      DecOfEnc(x / 256, n - 1);
      assert EncBE(x, n)[..n - 1] == EncBE(x / 256, n - 1);
    }
  }

  lemma LastDigit(d: nat, last: byte)
    ensures (d * 256 + last) / 256 == d && (d * 256 + last) % 256 == last
  {
  }

  lemma {:induction false} EncOfDec(s: bytes)
    ensures EncBE(DecBE(s), |s|) == s
  {
    hide Pow256;
    if s != [] {
      var d, last := DecBE(s[..|s| - 1]), s[|s| - 1];
      EncOfDec(s[..|s| - 1]);
      LastDigit(d, last);
      assert EncBE(d * 256 + last, |s|) == EncBE(d, |s| - 1) + [last];
      assert s == s[..|s| - 1] + [last];
    }
  }

  function Be64(x: uint64): (r: bytes)
    ensures |r| == 8
  {
    EncBE(x, 8)
  }

  function De64(s: bytes): (x: uint64)
    requires |s| == 8
    ensures Be64(x) == s
  {
    WordSizes();
    EncOfDec(s);
    DecBE(s)
  }

  lemma DeBe64(x: uint64)
    ensures De64(Be64(x)) == x
  {
    WordSizes();
    DecOfEnc(x, 8);
  }

  /** The bytes of a word count from the most significant one down. */
  lemma BigEndian64(s: bytes)
    requires |s| == 8
    ensures De64(s) ==
      ((((((s[0] as int * 256 + s[1]) * 256 + s[2]) * 256 + s[3]) * 256 + s[4]) * 256 + s[5]) * 256 + s[6]) * 256 + s[7]
  {
    var a, b := s[..4], s[4..];
    DecOfFour(a);
    DecMore(s[..4], s[4]);
    DecMore(s[..5], s[5]);
    DecMore(s[..6], s[6]);
    DecMore(s[..7], s[7]);
    assert s[..5] == s[..4] + [s[4]] && s[..6] == s[..5] + [s[5]] && s[..7] == s[..6] + [s[6]] && s == s[..7] + [s[7]];
  }

  lemma DecMore(s: bytes, last: byte)
    ensures DecBE(s + [last]) == DecBE(s) * 256 + last
  {
    assert (s + [last])[..|s|] == s;
  }

  lemma DecOfFour(s: bytes)
    requires |s| == 4
    ensures DecBE(s) == ((s[0] as int * 256 + s[1]) * 256 + s[2]) * 256 + s[3]
  {
    assert DecBE(s[..0]) == 0;
    DecMore(s[..0], s[0]);
    DecMore(s[..1], s[1]);
    DecMore(s[..2], s[2]);
    DecMore(s[..3], s[3]);
    assert s[..1] == s[..0] + [s[0]] && s[..2] == s[..1] + [s[1]] && s[..3] == s[..2] + [s[2]] && s == s[..3] + [s[3]];
  }

  function Be32(x: uint32): (r: bytes)
    ensures |r| == 4
  {
    EncBE(x, 4)
  }

  function De32(s: bytes): (x: uint32)
    requires |s| == 4
    ensures Be32(x) == s
  {
    WordSizes();
    EncOfDec(s);
    DecBE(s)
  }

  lemma BigEndian32(s: bytes)
    requires |s| == 4
    ensures De32(s) == ((s[0] as int * 256 + s[1]) * 256 + s[2]) * 256 + s[3]
  {
    DecOfFour(s);
  }

  lemma DeBe32(x: uint32)
    ensures De32(Be32(x)) == x
  {
    WordSizes();
    DecOfEnc(x, 4);
  }

  lemma SliceOfPrefix(a: bytes, b: bytes, lo: nat, hi: nat)
    requires a <= b && lo <= hi <= |a|
    ensures b[lo..hi] == a[lo..hi]
  {
  }

  lemma PrefixOfAppend(a: bytes, b: bytes, s: bytes)
    requires a + b <= s
    ensures a <= s && b <= s[|a|..]
  {
    assert (a + b)[..|a|] == a;
    assert (a + b)[|a|..] == b;
  }

  lemma SliceOfRest(b: bytes, n: nat, lo: nat, hi: nat)
    requires lo <= hi && n + hi <= |b|
    ensures b[n..][lo..hi] == b[n + lo..n + hi]
  {
  }

  lemma Associate(a: bytes, b: bytes, c: bytes)
    ensures a + b + c == a + (b + c)
  {
  }

  /** The bytes 0, 1, 2, ... */
  function Counting(n: nat): (r: bytes)
    requires n <= 0x100
    ensures |r| == n && forall i | 0 <= i < n :: r[i] == i
  {
    if n == 0 then [] else Counting(n - 1) + [n - 1]
  }

  function Zeros(n: nat): (r: bytes)
    ensures |r| == n && forall i | 0 <= i < n :: r[i] == 0
  {
    if n == 0 then [] else Zeros(n - 1) + [0]
  }

  /** A C string: the bytes before the first NUL. */
  function CStr(s: bytes): (r: bytes)
    ensures r <= s
    ensures 0 !in r
    ensures 0 !in s ==> r == s
    ensures |r| < |s| ==> s[|r|] == 0
  {
    if s == [] || s[0] == 0 then [] else [s[0]] + CStr(s[1..])
  }
}
