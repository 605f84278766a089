/** What the exclusive or of bytes is, bit by bit, and that it notices every changed byte. */
module Bits {
  import opened Common
  import opened Bytes

  function Bit(a: nat, i: nat): nat {
    a / Pow2(i) % 2
  }

  lemma Multiples(k: int, d: nat)
    ensures k >= 1 ==> k * d >= d
    ensures k <= -1 ==> k * d <= 0 - d
  {
    if k >= 1 {
      assert (k - 1) * d >= 0;
    } else if k <= -1 {
      assert (-1 - k) * d >= 0;
    }
  }

  lemma QuotientIs(a: nat, d: nat, q: nat, r: nat)
    requires a == q * d + r && r < d
    ensures a / d == q
  {
    var k := a / d - q;
    assert k * d == r - a % d;
    Multiples(k, d);
  }

  lemma BitOfHalf(a: nat, i: nat)
    ensures Bit(a, 0) == a % 2 && Bit(a, i + 1) == Bit(a / 2, i)
  {
    var p := Pow2(i);
    var q, r := a / 2 / p, a / 2 % p;
    assert Pow2(i + 1) == 2 * p;
    assert a / 2 == q * p + r;
    assert a == q * (2 * p) + (2 * r + a % 2);
    QuotientIs(a, 2 * p, q, 2 * r + a % 2);
  }

  lemma {:induction false} XorBitsAt(a: nat, b: nat, n: nat, i: nat)
    requires i < n
    ensures Bit(XorBits(a, b, n), i) == if Bit(a, i) == Bit(b, i) then 0 else 1
  {
    var r := XorBits(a, b, n);
    XorBitsHalf(a, b, n);
    var k := if i == 0 then 0 else i - 1;
    hide Bit, XorBits;
    BitOfHalf(a, k);
    BitOfHalf(b, k);
    BitOfHalf(r, k);
    if i > 0 {
      XorBitsAt(a / 2, b / 2, n - 1, i - 1);
    }
  }

  lemma XorBitsHalf(a: nat, b: nat, n: nat)
    requires n > 0
    ensures XorBits(a, b, n) / 2 == XorBits(a / 2, b / 2, n - 1)
    ensures XorBits(a, b, n) % 2 == if a % 2 == b % 2 then 0 else 1
  {
  }

  /** Bit `i` of the exclusive or of two bytes is set exactly if their bits `i` differ. */
  lemma XorIsBitwise(a: byte, b: byte, i: nat)
    requires i < 8
    ensures Xor(a, b) / Pow2(i) % 2 == 1 <==> a / Pow2(i) % 2 != b / Pow2(i) % 2
  {
    XorBitsAt(a, b, 8, i);
  }

  /** How many of the bytes have bit `i` set. */
  function BitCount(s: bytes, i: nat): (n: nat)
    ensures n <= |s|
  {
    if s == [] then 0 else BitCount(s[..|s| - 1], i) + s[|s| - 1] / Pow2(i) % 2
  }

  /** Bit `i` of the XOR of some bytes is the parity of how many have it set. */
  lemma {:induction false} XorAllIsParity(s: bytes, i: nat)
    requires i < 8
    ensures XorAll(s) / Pow2(i) % 2 == BitCount(s, i) % 2
  {
    if s == [] {
      assert 0 / Pow2(i) == 0;
    } else {
      var x, b, n := XorAll(s[..|s| - 1]), s[|s| - 1], BitCount(s[..|s| - 1], i);
      XorAllIsParity(s[..|s| - 1], i);
      XorIsBitwise(x, b, i);
      Parity(Bit(XorAll(s), i), Bit(x, i), Bit(b, i), n);
    }
  }

  lemma Parity(r: nat, x: nat, b: nat, n: nat)
    requires r < 2 && x == n % 2 && b < 2 && (r == 1 <==> x != b)
    ensures r == (n + b) % 2
  {
  }

  lemma {:induction false} SameBits(a: nat, b: nat, n: nat)
    requires a < Pow2(n) && b < Pow2(n) && forall i :: 0 <= i < n ==> Bit(a, i) == Bit(b, i)
    ensures a == b
  {
    if n > 0 {
      assert Pow2(n) == 2 * Pow2(n - 1);
      forall i | 0 <= i < n - 1 ensures Bit(a / 2, i) == Bit(b / 2, i) {
        BitOfHalf(a, i);
        BitOfHalf(b, i);
        assert Bit(a, i + 1) == Bit(b, i + 1);
      }
      SameBits(a / 2, b / 2, n - 1);
      BitOfHalf(a, 0);
      BitOfHalf(b, 0);
      assert Bit(a, 0) == Bit(b, 0);
    }
  }

  /** The exclusive or with one byte tells the other. */
  lemma XorTells(a: byte, b: byte, c: byte, d: byte)
    requires Xor(a, b) == Xor(c, d)
    ensures a == c <==> b == d
  {
    assert Pow2(8) == 256 by { assert Pow2(4) == 16; }
    forall i | 0 <= i < 8 ensures (Bit(a, i) == Bit(c, i) <==> Bit(b, i) == Bit(d, i)) {
      XorIsBitwise(a, b, i);
      XorIsBitwise(c, d, i);
    }
    hide Xor, Bit;
    if a == c {
      SameBits(b, d, 8);
    }
    if b == d {
      SameBits(a, c, 8);
    }
  }

  /** Changing any one byte changes the XOR. */
  lemma {:induction false} XorNotices(s: bytes, k: nat, v: byte)
    requires k < |s| && v != s[k]
    ensures XorAll(s[k := v]) != XorAll(s)
  {
    var t, n := s[k := v], |s| - 1;
    if k == n {
      assert t[..n] == s[..n];
    } else {
      assert t[..n] == s[..n][k := v];
      XorNotices(s[..n], k, v);
    }
    if XorAll(t) == XorAll(s) {
      XorTells(XorAll(t[..n]), t[n], XorAll(s[..n]), s[n]);
    }
  }
}
