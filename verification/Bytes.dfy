/** Bytes, and their exclusive or. */
module Bytes {
  type byte = b: int | 0 <= b < 256
  type bytes = seq<byte>

  function Pow2(k: nat): nat {
    if k == 0 then 1 else 2 * Pow2(k - 1)
  }

  /** Exclusive or of the low k bits. */
  function XorBits(k: nat, a: nat, b: nat): nat {
    if k == 0 then 0 else 2 * XorBits(k - 1, a / 2, b / 2) + if a % 2 == b % 2 then 0 else 1
  }

  lemma {:induction false} XorBitsBelow(k: nat, a: nat, b: nat)
    ensures XorBits(k, a, b) < Pow2(k)
  {
    if k > 0 {
      XorBitsBelow(k - 1, a / 2, b / 2);
    }
  }

  lemma {:induction false} XorBitsTwice(k: nat, a: nat, b: nat)
    requires a < Pow2(k)
    ensures XorBits(k, XorBits(k, a, b), b) == a
  {
    if k > 0 {
      XorBitsTwice(k - 1, a / 2, b / 2);
      assert XorBits(k, a, b) / 2 == XorBits(k - 1, a / 2, b / 2);
    }
  }

  lemma {:induction false} AtLeast(k: nat, m: nat)
    requires k > 0
    ensures k * m >= m
  {
  }

  /** Quotient and remainder are unique. */
  lemma ModUnique(q: int, r: nat, m: nat)
    requires r < m
    ensures (q * m + r) / m == q && (q * m + r) % m == r
  {
    var v := q * m + r;
    var k, t := v / m, v % m;
    assert v == k * m + t;
    assert (q - k) * m == t - r && (k - q) * m == r - t;
    if q > k {
      AtLeast(q - k, m);
    } else if k > q {
      AtLeast(k - q, m);
    }
  }

  lemma HalfOfPow2(n: nat, j: nat)
    requires j > 0
    ensures Pow2(j) > 0 && Pow2(j - 1) > 0 && n / Pow2(j) == n / 2 / Pow2(j - 1)
  {
    Pow2Positive(j);
    Pow2Positive(j - 1);
    DivideTwice(n, Pow2(j - 1));
  }

  lemma {:induction false} Pow2Positive(k: nat)
    ensures Pow2(k) > 0
  {
    if k > 0 {
      Pow2Positive(k - 1);
    }
  }

  lemma DivideTwice(n: nat, m: nat)
    requires m > 0
    ensures n / (2 * m) == n / 2 / m
  {
    var q, r := n / 2 / m, n / 2 % m;
    assert n / 2 == m * q + r;
    var rest := 2 * r + n % 2;
    assert n == q * (2 * m) + rest && 0 <= rest < 2 * m;
    ModUnique(q, rest, 2 * m);
  }

  lemma XorHalf(k: nat, a: nat, b: nat)
    requires k > 0
    ensures XorBits(k, a, b) / 2 == XorBits(k - 1, a / 2, b / 2)
    ensures XorBits(k, a, b) % 2 == 1 <==> a % 2 != b % 2
  {
  }

  /** Bit by bit, exclusive or is set exactly where the two differ. */
  lemma {:induction false} XorBitsAt(k: nat, a: nat, b: nat, j: nat)
    requires j < k
    ensures Pow2(j) > 0
    ensures XorBits(k, a, b) / Pow2(j) % 2 == 1 <==> a / Pow2(j) % 2 != b / Pow2(j) % 2
  {
    hide XorBits, Pow2;
    XorHalf(k, a, b);
    if j > 0 {
      XorBitsAt(k - 1, a / 2, b / 2, j - 1);
      HalfOfPow2(a, j);
      HalfOfPow2(b, j);
      HalfOfPow2(XorBits(k, a, b), j);
    } else {
      OneBit();
    }
  }

  lemma OneBit()
    ensures Pow2(0) == 1
  {
  }

  lemma XorByteAt(a: byte, b: byte, k: nat)
    requires k < 8
    ensures Pow2(k) > 0
    ensures XorByte(a, b) / Pow2(k) % 2 == 1 <==> a / Pow2(k) % 2 != b / Pow2(k) % 2
  {
    hide XorBits;
    XorBitsAt(8, a, b, k);
  }

  function XorByte(a: byte, b: byte): byte {
    XorBitsBelow(8, a, b);
    assert Pow2(8) == 256;
    XorBits(8, a, b)
  }

  function Xor(a: bytes, b: bytes): (r: bytes)
    requires |a| == |b|
    ensures |r| == |a| && forall i :: 0 <= i < |a| ==> r[i] == XorByte(a[i], b[i])
  {
    seq(|a|, i requires 0 <= i < |a| => XorByte(a[i], b[i]))
  }

  lemma XorTwice(a: bytes, b: bytes)
    requires |a| == |b|
    ensures Xor(Xor(a, b), b) == a
  {
    hide XorBits, Pow2;
    forall i | 0 <= i < |a| ensures Xor(Xor(a, b), b)[i] == a[i] {
      assert a[i] < Pow2(8) by { EightBits(); }
      XorBitsTwice(8, a[i], b[i]);
    }
  }

  lemma EightBits()
    ensures Pow2(8) == 256
  {
  }
}
