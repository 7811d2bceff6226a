/** Bit operations on natural numbers, by recursion on the binary digits, and the
    byte and big/little-endian helpers the wire formats share. */
module Bits {
  type byte = x: int | 0 <= x < 256
  type bytes = seq<byte>

  function Pow2(n: nat): (r: nat)
    ensures r >= 1
  {
    if n == 0 then 1 else 2 * Pow2(n - 1)
  }

  /** Digit k of a. */
  predicate Bit(a: nat, k: nat) {
    if k == 0 then a % 2 == 1 else Bit(a / 2, k - 1)
  }

  function And(a: nat, b: nat): nat {
    if a == 0 || b == 0 then 0 else (if a % 2 == 1 && b % 2 == 1 then 1 else 0) + 2 * And(a / 2, b / 2)
  }

  function Or(a: nat, b: nat): nat
    decreases a + b
  {
    if a == 0 && b == 0 then 0 else (if a % 2 + b % 2 > 0 then 1 else 0) + 2 * Or(a / 2, b / 2)
  }

  function Xor(a: nat, b: nat): nat
    decreases a + b
  {
    if a == 0 && b == 0 then 0 else (a % 2 + b % 2) % 2 + 2 * Xor(a / 2, b / 2)
  }

  lemma {:induction false} Pow2Strict(m: nat, n: nat)
    requires m < n
    ensures 2 * Pow2(m) <= Pow2(n)
    decreases n
  {
    if m < n - 1 { Pow2Strict(m, n - 1); }
  }

  lemma {:induction false} ZeroBits(k: nat)
    ensures !Bit(0, k)
  {
    if k > 0 { ZeroBits(k - 1); }
  }

  /** Or is the digit-wise disjunction. */
  lemma {:induction false} OrBit(a: nat, b: nat, k: nat)
    ensures Bit(Or(a, b), k) == (Bit(a, k) || Bit(b, k))
    decreases k
  {
    if a == 0 && b == 0 {
      ZeroBits(k);
    } else if k > 0 {
      OrBit(a / 2, b / 2, k - 1);
    }
  }

  /** And is the digit-wise conjunction. */
  lemma {:induction false} AndBit(a: nat, b: nat, k: nat)
    ensures Bit(And(a, b), k) == (Bit(a, k) && Bit(b, k))
    decreases k
  {
    AndHalves(a, b);
    if k > 0 { AndBit(a / 2, b / 2, k - 1); }
  }

  /** Xor is the digit-wise difference. */
  lemma {:induction false} XorBit(a: nat, b: nat, k: nat)
    ensures Bit(Xor(a, b), k) == (Bit(a, k) != Bit(b, k))
    decreases k
  {
    XorHalves(a, b);
    if k > 0 { XorBit(a / 2, b / 2, k - 1); }
  }

  lemma {:induction false} OrBound(a: nat, b: nat, n: nat)
    requires a < Pow2(n) && b < Pow2(n)
    ensures Or(a, b) < Pow2(n)
    decreases n
  {
    if n > 0 { OrBound(a / 2, b / 2, n - 1); }
  }

  lemma {:induction false} XorBound(a: nat, b: nat, n: nat)
    requires a < Pow2(n) && b < Pow2(n)
    ensures Xor(a, b) < Pow2(n)
    decreases n
  {
    if n > 0 { XorBound(a / 2, b / 2, n - 1); }
  }

  lemma XorHalves(a: nat, b: nat)
    ensures Xor(a, b) / 2 == Xor(a / 2, b / 2) && Xor(a, b) % 2 == (a % 2 + b % 2) % 2
  {
  }

  lemma XorDigit(p: nat, q: nat)
    requires p < 2 && q < 2
    ensures ((p + q) % 2 + q) % 2 == p
  {
  }

  /** Masking twice with the same value restores the operand. */
  lemma {:induction false} XorInvolution(a: nat, b: nat)
    ensures Xor(Xor(a, b), b) == a
    decreases a + b
  {
    if a != 0 || b != 0 {
      var x := Xor(a, b);
      XorHalves(a, b);
      XorHalves(x, b);
      XorInvolution(a / 2, b / 2);
      XorDigit(a % 2, b % 2);
    }
  }

  lemma {:induction false} Pow2Bit(j: nat, k: nat)
    ensures Bit(Pow2(j), k) == (j == k)
  {
    if j == 0 {
      if k > 0 { ZeroBits(k - 1); }
    } else if k > 0 {
      Pow2Bit(j - 1, k - 1);
    }
  }

  /** Testing a digit with a one-bit mask. */
  lemma {:induction false} AndPow2(a: nat, k: nat)
    ensures And(a, Pow2(k)) != 0 <==> Bit(a, k)
    decreases k
  {
    if a == 0 {
      ZeroBits(k);
    } else if k == 0 {
      assert And(a / 2, 0) == 0;
    } else {
      AndPow2(a / 2, k - 1);
    }
  }

  lemma AndHalves(a: nat, b: nat)
    ensures And(a, b) / 2 == And(a / 2, b / 2)
    ensures And(a, b) % 2 == if a % 2 == 1 && b % 2 == 1 then 1 else 0
  {
  }

  /** Keeping the k low digits. */
  lemma {:induction false} AndMask(a: nat, k: nat)
    ensures And(a, Pow2(k) - 1) == a % Pow2(k)
    decreases k
  {
    if k > 0 {
      var p := Pow2(k - 1);
      AndHalves(a, 2 * p - 1);
      AndMask(a / 2, k - 1);
      assert (2 * p - 1) / 2 == p - 1 && (2 * p - 1) % 2 == 1;
      HalfMod(a, p);
    }
  }

  /** Dividing twice is dividing by the product. */
  lemma DivDiv(a: nat, m: nat, p: nat)
    requires m > 0 && p > 0
    ensures m * p > 0 && a / m / p == a / (m * p)
  {
    var h, s := a / m, a % m;
    var q, r := h / p, h % p;
    assert m * p > 0 && r * m + s < m * p by {
      MulAtLeast(p - r, m);
      assert (p - r) * m + r * m == m * p;
    }
    assert a == q * (m * p) + (r * m + s) by {
      assert h == q * p + r && a == h * m + s;
      assert (q * p + r) * m == q * (m * p) + r * m;
    }
    ModUnique(a, m * p, q, r * m + s);
  }

  /** Digit k is worth 2^k. */
  lemma {:induction false} BitValue(a: nat, k: nat)
    ensures Bit(a, k) <==> a / Pow2(k) % 2 == 1
    decreases k
  {
    if k > 0 {
      BitValue(a / 2, k - 1);
      DivDiv(a, 2, Pow2(k - 1));
    }
  }

  lemma HalfMod(a: nat, p: nat)
    requires p > 0
    ensures a % (2 * p) == a % 2 + 2 * ((a / 2) % p)
  {
    var h := a / 2;
    var q, r := h / p, h % p;
    assert a == q * (2 * p) + (2 * r + a % 2) by {
      assert h == q * p + r;
      assert q * (2 * p) == 2 * (q * p);
    }
    ModUnique(a, 2 * p, q, 2 * r + a % 2);
  }

  lemma ModUnique(a: int, m: nat, q: int, r: nat)
    requires r < m && a == q * m + r
    ensures a % m == r && a / m == q
  {
    var d := a / m - q;
    assert d * m == r - a % m by { assert a == (a / m) * m + a % m; }
    if d >= 1 { MulAtLeast(d, m); }
    if d <= -1 { MulAtLeast(-d, m); }
  }

  lemma MulAtLeast(d: int, m: nat)
    requires d >= 1
    ensures d * m >= m
  {
    assert (d - 1) * m >= 0;
  }

  /** Setting a digit above all digits of b adds it. */
  lemma {:induction false} OrPow2(k: nat, b: nat)
    requires b < Pow2(k)
    ensures Or(Pow2(k), b) == Pow2(k) + b
    decreases k
  {
    if k == 0 {
      assert Or(0, 0) == 0;
    } else {
      OrPow2(k - 1, b / 2);
      assert Pow2(k) / 2 == Pow2(k - 1);
    }
  }

  lemma Pow2Values()
    ensures Pow2(4) == 16 && Pow2(7) == 128 && Pow2(8) == 256
  {
    assert Pow2(4) == 16;
    assert Pow2(6) == 64 by { assert Pow2(5) == 32; }
    assert Pow2(7) == 128;
  }

  function XorByte(a: byte, b: byte): byte {
    Pow2Values();
    XorBound(a, b, 8);
    Xor(a, b)
  }

  function OrByte(a: byte, b: byte): byte {
    Pow2Values();
    OrBound(a, b, 8);
    Or(a, b)
  }

  /** The n low-order bytes of v, least significant first. */
  function LittleEndian(v: nat, n: nat): (r: bytes)
    ensures |r| == n
  {
    if n == 0 then [] else [v % 256] + LittleEndian(v / 256, n - 1)
  }

  function LittleValue(s: bytes): nat {
    if s == [] then 0 else s[0] + 256 * LittleValue(s[1..])
  }

  function BigEndian(v: nat, n: nat): (r: bytes)
    ensures |r| == n
  {
    if n == 0 then [] else BigEndian(v / 256, n - 1) + [v % 256]
  }

  function BigValue(s: bytes): nat {
    if s == [] then 0 else 256 * BigValue(s[..|s| - 1]) + s[|s| - 1]
  }

  function Pow256(n: nat): (r: nat)
    ensures r >= 1
  {
    if n == 0 then 1 else 256 * Pow256(n - 1)
  }

  lemma {:induction false} LittleRoundTrip(v: nat, n: nat)
    requires v < Pow256(n)
    ensures LittleValue(LittleEndian(v, n)) == v
    decreases n
  {
    if n > 0 {
      LittleRoundTrip(v / 256, n - 1);
      assert LittleEndian(v, n)[1..] == LittleEndian(v / 256, n - 1);
    }
  }

  lemma {:induction false} BigRoundTrip(v: nat, n: nat)
    requires v < Pow256(n)
    ensures BigValue(BigEndian(v, n)) == v
    decreases n
  {
    if n > 0 {
      BigRoundTrip(v / 256, n - 1);
      assert BigEndian(v, n)[..n - 1] == BigEndian(v / 256, n - 1);
    }
  }

  /** Every byte string is the encoding of its value. */
  lemma {:induction false} BigOnto(s: bytes)
    ensures BigValue(s) < Pow256(|s|) && BigEndian(BigValue(s), |s|) == s
  {
    if s != [] {
      var p := s[..|s| - 1];
      BigOnto(p);
      assert BigValue(s) / 256 == BigValue(p) && BigValue(s) % 256 == s[|s| - 1];
      assert s == p + [s[|s| - 1]];
    }
  }

  lemma Pow256Values()
    ensures Pow256(2) == 0x1_0000 && Pow256(4) == 0x1_0000_0000 && Pow256(8) == 0x1_0000_0000_0000_0000
  {
    assert Pow256(2) == 0x1_0000;
    assert Pow256(4) == 0x1_0000_0000;
    assert Pow256(6) == 0x1_0000_0000_0000;
  }

  /** The masking of one byte differs from it exactly in the digits of the mask. */
  lemma XorByteBit(a: byte, b: byte, k: nat)
    ensures Bit(XorByte(a, b), k) <==> Bit(a, k) != Bit(b, k)
  {
    XorBit(a, b, k);
  }

  /** Byte i of the little-endian form counts multiples of 256^i. */
  lemma {:induction false} LittleEndianBytes(v: nat, n: nat, i: nat)
    requires i < n
    ensures LittleEndian(v, n)[i] == v / Pow256(i) % 256
    decreases n
  {
    if i > 0 {
      LittleEndianBytes(v / 256, n - 1, i - 1);
      DivDiv(v, 256, Pow256(i - 1));
    }
  }

  /** Byte i of the big-endian form counts multiples of 256^(n-1-i). */
  lemma {:induction false} BigEndianBytes(v: nat, n: nat, i: nat)
    requires i < n
    ensures BigEndian(v, n)[i] == v / Pow256(n - 1 - i) % 256
    decreases n
  {
    if i < n - 1 {
      BigEndianBytes(v / 256, n - 1, i);
      DivDiv(v, 256, Pow256(n - 2 - i));
    }
  }

  /** The two-byte forms, written and read. */
  lemma TwoBytes(v: nat, a: byte, b: byte)
    requires v < 0x1_0000
    ensures BigEndian(v, 2) == [v / 256, v % 256] && LittleEndian(v, 2) == [v % 256, v / 256]
    ensures BigValue([a, b]) == 256 * a + b && LittleValue([a, b]) == a + 256 * b
  {
    assert BigEndian(v, 2) == BigEndian(v / 256, 1) + [v % 256] && BigEndian(v / 256, 1) == [] + [v / 256 % 256];
    assert LittleEndian(v / 256, 1) == [v / 256 % 256] + [];
    assert [a, b][..1] == [a] && [a][..0] == [] && [a, b][1..] == [b] && [b][1..] == [];
    assert BigValue([a]) == a && LittleValue([b]) == b;
  }
}
