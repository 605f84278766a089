/** Bytes as the ESP32 firmware handles them: 8-bit words, big-endian 16-bit fields, XOR check values. */
module Bytes {
  import opened Common

  type byte = x: int | 0 <= x < 256
  type bytes = seq<byte>

  /** The high byte of a 16-bit value, `(uint8_t)(n >> 8)`. */
  function Hi(n: nat): byte
    requires n < 0x1_0000
  {
    n / 256
  }

  /** The low byte of a 16-bit value, `(uint8_t)(n & 0xFF)`. */
  function Lo(n: nat): byte {
    n % 256
  }

  /** `(hi << 8) | lo` */
  function Join(hi: byte, lo: byte): (n: nat)
    ensures n < 0x1_0000
  {
    hi * 256 + lo
  }

  lemma JoinSplit(n: nat)
    requires n < 0x1_0000
    ensures Join(Hi(n), Lo(n)) == n
  {
  }

  /** Bitwise exclusive or of the low `n` bits of `a` and `b`. */
  function XorBits(a: nat, b: nat, n: nat): (r: nat)
    ensures r < Pow2(n)
  {
    if n == 0 then 0 else 2 * XorBits(a / 2, b / 2, n - 1) + (a + b) % 2
  }

  /** `a ^ b` on bytes. */
  function Xor(a: byte, b: byte): byte {
    assert Pow2(8) == 256 by { assert Pow2(4) == 16; }
    XorBits(a, b, 8)
  }

  /** The XOR of all bytes, accumulated left to right from zero. */
  function XorAll(s: bytes): byte {
    if s == [] then 0 else Xor(XorAll(s[..|s| - 1]), s[|s| - 1])
  }

  function Last<T>(s: seq<T>): T
    requires s != []
  {
    s[|s| - 1]
  }

  function Min(a: nat, b: nat): nat {
    if a < b then a else b
  }

  /** The memory `mem` after the bytes `d` were stored from address `at` on. */
  function Splice(mem: bytes, at: nat, d: bytes): (r: bytes)
    requires at + |d| <= |mem|
    ensures |r| == |mem|
    ensures forall i :: 0 <= i < |mem| ==> r[i] == if at <= i < at + |d| then d[i - at] else mem[i]
  {
    mem[..at] + d + mem[at + |d|..]
  }

  lemma SameSlice(a: bytes, b: bytes, at: nat, n: nat)
    requires at + n <= |a| == |b| && forall i :: at <= i < at + n ==> a[i] == b[i]
    ensures a[at..at + n] == b[at..at + n]
  {
    var s, t := a[at..at + n], b[at..at + n];
    forall i | 0 <= i < n ensures s[i] == t[i] {
      assert a[at + i] == b[at + i];
    }
  }

  /** Storing inside a window is storing into the window's contents. */
  lemma SpliceInside(mem: bytes, base: nat, len: nat, at: nat, d: bytes)
    requires base + len <= |mem| && at + |d| <= len
    ensures Splice(mem, base + at, d)[base..base + len] == Splice(mem[base..base + len], at, d)
  {
  }

  /** Storing the next `n` bytes of `f` behind the first `off` ones. */
  lemma SpliceContinues(data: bytes, f: bytes, off: nat, n: nat)
    requires off + n <= |f| <= |data| && data[..off] == f[..off]
    ensures Splice(data, off, f[off..off + n])[..off + n] == f[..off + n]
  {
    assert Splice(data, off, f[off..off + n])[..off + n] == data[..off] + f[off..off + n];
    assert f[..off] + f[off..off + n] == f[..off + n];
  }
}
