/**
 * The bitwise OR of JavaScript on unsigned 32-bit words, written on natural
 * numbers one bit at a time.
 */
module JsBits {
  import opened JsString

  function Pow2(k: nat): (p: nat)
    ensures p >= 1
  {
    if k == 0 then 1 else 2 * Pow2(k - 1)
  }

  /** `ToUint32`: an integer taken modulo 2^32, as the bitwise operators read their operands. */
  function ToUint32(x: int): (w: nat)
    ensures w < 0x1_0000_0000
  {
    x % 0x1_0000_0000
  }

  /** The bitwise OR of two natural numbers, lowest bit first. */
  function BitOr(a: nat, b: nat): nat
    decreases a + b
  {
    if a == 0 && b == 0 then 0
    else 2 * BitOr(a / 2, b / 2) + (if a % 2 == 1 || b % 2 == 1 then 1 else 0)
  }

  /** `y` shifted left by `k` bits. */
  function Shl(y: nat, k: nat): nat {
    if k == 0 then y else 2 * Shl(y, k - 1)
  }

  /** `x` shifted right by `k` bits. */
  function Shr(x: nat, k: nat): nat {
    if k == 0 then x else Shr(x / 2, k - 1)
  }

  /** The low `k` bits of `x`. */
  function Low(x: nat, k: nat): nat {
    if k == 0 then 0 else 2 * Low(x / 2, k - 1) + x % 2
  }

  /** OR with a number whose low `k` bits are clear keeps the low `k` bits of `x` as they are. */
  lemma {:induction false} OrShifted(x: nat, y: nat, k: nat)
    ensures BitOr(x, Shl(y, k)) == Shl(BitOr(Shr(x, k), y), k) + Low(x, k)
  {
    if k > 0 {
      OrShifted(x / 2, y, k - 1);
      var s := Shl(y, k - 1);
      assert (2 * s) / 2 == s && (2 * s) % 2 == 0;
    }
  }

  /** The shifts and the low bits are division and remainder by 2^k. */
  lemma {:induction false} ShiftArithmetic(x: nat, y: nat, k: nat)
    ensures Shl(y, k) == y * Pow2(k)
    ensures Shr(x, k) == x / Pow2(k) && Low(x, k) == x % Pow2(k)
  {
    if k > 0 {
      ShiftArithmetic(x / 2, y, k - 1);
      var q := Pow2(k - 1);
      assert Pow2(k) == 2 * q;
      Double(y, q);
      Halves(x, q);
    }
  }

  lemma {:induction false} Double(y: nat, q: nat)
    ensures y * (2 * q) == 2 * (y * q)
  {
  }

  /** Dividing by 2 and then by `q` is dividing by `2 * q`. */
  lemma {:induction false} Halves(x: nat, q: nat)
    requires q >= 1
    ensures x / (2 * q) == x / 2 / q && x % (2 * q) == 2 * (x / 2 % q) + x % 2
  {
    var h, r := x / 2 / q, 2 * (x / 2 % q) + x % 2;
    assert x == 2 * (x / 2) + x % 2;
    assert x / 2 == q * h + x / 2 % q;
    assert x == (2 * q) * h + r;
    DivModUnique(x, 2 * q, h, r);
  }

  /** OR with the `n` lowest bits set sets them in anything below 2^n. */
  lemma {:induction false} OrOnes(h: nat, n: nat)
    requires h < Pow2(n)
    ensures BitOr(h, Pow2(n) - 1) == Pow2(n) - 1
  {
    if n > 0 {
      var q := Pow2(n - 1);
      assert (2 * q - 1) / 2 == q - 1 && (2 * q - 1) % 2 == 1;
      OrOnes(h / 2, n - 1);
    }
  }

  /** OR with zero changes nothing. */
  lemma {:induction false} OrZero(b: nat)
    ensures BitOr(0, b) == b
    decreases b
  {
    if b > 0 {
      OrZero(b / 2);
    }
  }

  lemma {:induction false} Pow2Values()
    ensures Pow2(8) == 0x100 && Pow2(24) == 0x100_0000
  {
    assert Pow2(4) == 16;
    assert Pow2(8) == 0x100;
    assert Pow2(16) == 0x1_0000;
  }

  /** The mask the hexadecimal case ORs into its number: an alpha byte of 0xFF. */
  const OpaqueAlpha: nat := 0xFF00_0000

  /**
   * `x | 0xFF000000` on a 32-bit word: the top byte becomes 0xFF and the low
   * 24 bits are those of `x`.
   */
  lemma {:induction false} OrTopByte(x: nat)
    requires x < 0x1_0000_0000
    ensures BitOr(x, OpaqueAlpha) == OpaqueAlpha + x % 0x100_0000
  {
    Pow2Values();
    ShiftArithmetic(x, 0xFF, 24);
    OrShifted(x, 0xFF, 24);
    OrOnes(x / 0x100_0000, 8);
  }

  /** A number below 2^24 ORed with the mask keeps its value in the low 24 bits. */
  lemma {:induction false} OrLowBits(n: nat)
    requires n < 0x100_0000
    ensures BitOr(ToUint32(n), OpaqueAlpha) == 0xFF00_0000 + n
  {
    assert ToUint32(n) == n;
    OrTopByte(n);
  }
}
