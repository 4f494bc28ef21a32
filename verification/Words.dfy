/** Machine words of the receiver and the renderer: unsigned 8-, 16- and 64-bit values,
    their conversions, and the bitwise operators the packet code applies to bytes. */
module Words {
  type byte = b: int | 0 <= b < 0x100
  type word = w: int | 0 <= w < 0x1_0000

  /** Conversion to an unsigned type keeps the value modulo 2^n. */
  function U8(n: int): byte { n % 0x100 }

  function U16(n: int): word { n % 0x1_0000 }

  function U64(n: int): nat { n % 0x1_0000_0000_0000_0000 }

  /** 2^n */
  function Pow2(n: nat): (p: nat)
    ensures p > 0
  {
    if n == 0 then 1 else 2 * Pow2(n - 1)
  }

  /** Binary digit k of n, counted from the least significant one. */
  predicate Digit(n: nat, k: nat)
    decreases k
  {
    if k == 0 then n % 2 == 1 else Digit(n / 2, k - 1)
  }

  /** Bit k of a byte, counted from the most significant one: the order of an address prefix. */
  predicate Bit(b: byte, k: nat)
    requires k < 8
  {
    Digit(b, 7 - k)
  }

  /** The low `n` digits of `a & b`. */
  function AndDigits(a: nat, b: nat, n: nat): (r: nat)
    ensures r < Pow2(n)
  {
    if n == 0 then 0
    else 2 * AndDigits(a / 2, b / 2, n - 1) + (if a % 2 == 1 && b % 2 == 1 then 1 else 0)
  }

  /** The low `n` digits of `a | b`. */
  function OrDigits(a: nat, b: nat, n: nat): (r: nat)
    ensures r < Pow2(n)
  {
    if n == 0 then 0
    else 2 * OrDigits(a / 2, b / 2, n - 1) + (if a % 2 == 1 || b % 2 == 1 then 1 else 0)
  }

  lemma Pow2Of8()
    ensures Pow2(8) == 0x100
  {
    assert Pow2(4) == 16;
  }

  function BitAnd(a: byte, b: byte): byte {
    Pow2Of8(); AndDigits(a, b, 8)
  }

  function BitOr(a: byte, b: byte): byte {
    Pow2Of8(); OrDigits(a, b, 8)
  }

  lemma {:induction false} AndDigit(a: nat, b: nat, n: nat, k: nat)
    requires k < n
    ensures Digit(AndDigits(a, b, n), k) <==> Digit(a, k) && Digit(b, k)
    decreases n
  {
    if k > 0 {
      AndDigit(a / 2, b / 2, n - 1, k - 1);
      assert AndDigits(a, b, n) / 2 == AndDigits(a / 2, b / 2, n - 1);
    }
  }

  lemma {:induction false} OrDigit(a: nat, b: nat, n: nat, k: nat)
    requires k < n
    ensures Digit(OrDigits(a, b, n), k) <==> Digit(a, k) || Digit(b, k)
    decreases n
  {
    if k > 0 {
      OrDigit(a / 2, b / 2, n - 1, k - 1);
      assert OrDigits(a, b, n) / 2 == OrDigits(a / 2, b / 2, n - 1);
    }
  }

  /** A number below 2^n is determined by its n digits. */
  lemma {:induction false} SameDigits(a: nat, b: nat, n: nat)
    requires a < Pow2(n) && b < Pow2(n)
    requires forall k: nat :: k < n ==> (Digit(a, k) <==> Digit(b, k))
    ensures a == b
  {
    if n > 0 {
      forall k: nat | k < n - 1
        ensures Digit(a / 2, k) <==> Digit(b / 2, k)
      {
        assert Digit(a, k + 1) <==> Digit(b, k + 1);
      }
      SameDigits(a / 2, b / 2, n - 1);
      assert Digit(a, 0) <==> Digit(b, 0);
    }
  }

  lemma {:induction false} DigitsModPow2(n: nat, m: nat, k: nat)
    requires k < m
    ensures Digit(n % Pow2(m), k) <==> Digit(n, k)
    decreases m
  {
    HalfOfMod(n, m);
    if k > 0 {
      DigitsModPow2(n / 2, m - 1, k - 1);
    }
  }

  lemma HalfOfMod(n: nat, m: nat)
    requires m > 0
    ensures n % Pow2(m) % 2 == n % 2
    ensures n % Pow2(m) / 2 == (n / 2) % Pow2(m - 1)
  {
    var p := Pow2(m - 1);
    var h := n / 2;
    var q, r := h / p, h % p;
    assert n == 2 * p * q + (2 * r + n % 2);
    ModUnique(n, 2 * p, q, 2 * r + n % 2);
  }

  lemma MulAtLeast(d: int, k: int)
    requires d > 0 && k >= 1
    ensures d * k >= d
  {
    assert d * k == d + d * (k - 1);
  }

  lemma MulMonotone(a: nat, b: nat, c: nat)
    requires a <= b
    ensures a * c <= b * c
  {
    assert b * c == a * c + (b - a) * c;
  }

  lemma ModUnique(n: int, d: int, q: int, r: int)
    requires d > 0 && 0 <= r < d
    requires n == d * q + r
    ensures n / d == q && n % d == r
  {
    var q', r' := n / d, n % d;
    assert d * q' + r' == d * q + r;
    assert d * (q' - q) == r - r';
    assert d * (q - q') == r' - r;
    if q' > q {
      MulAtLeast(d, q' - q);
    } else if q' < q {
      MulAtLeast(d, q - q');
    }
  }

  /** `&` works bit by bit. */
  lemma BitAndBits(a: byte, b: byte, k: nat)
    requires k < 8
    ensures Bit(BitAnd(a, b), k) <==> Bit(a, k) && Bit(b, k)
  {
    AndDigit(a, b, 8, 7 - k);
  }

  /** `|` works bit by bit. */
  lemma BitOrBits(a: byte, b: byte, k: nat)
    requires k < 8
    ensures Bit(BitOr(a, b), k) <==> Bit(a, k) || Bit(b, k)
  {
    OrDigit(a, b, 8, 7 - k);
  }

  /** A byte is determined by its bits. */
  lemma SameBits(a: byte, b: byte)
    requires forall k: nat :: k < 8 ==> (Bit(a, k) <==> Bit(b, k))
    ensures a == b
  {
    Pow2Of8();
    forall k: nat | k < 8
      ensures Digit(a, k) <==> Digit(b, k)
    {
      assert Bit(a, 7 - k) <==> Bit(b, 7 - k);
    }
    SameDigits(a, b, 8);
  }

  /** `m <<= 1` moves every bit one place up and clears the lowest. */
  lemma ShiftLeftBits(m: byte, k: nat)
    requires k < 8
    ensures Bit(U8(2 * m), k) <==> k < 7 && Bit(m, k + 1)
  {
    Pow2Of8();
    DigitsModPow2(2 * m, 8, 7 - k);
    assert Digit(2 * m, 7 - k) <==> k < 7 && Digit(m, 6 - k);
  }

  /** `n & (2^k - 1)` is the remainder modulo 2^k. */
  lemma {:induction false} AndLowMask(a: nat, k: nat, n: nat)
    requires k <= n
    ensures AndDigits(a, Pow2(k) - 1, n) == a % Pow2(k)
    decreases n
  {
    if k == 0 {
      AndZero(a, n);
    } else {
      HalfOfMod(a, k);
      AndLowMask(a / 2, k - 1, n - 1);
    }
  }

  lemma {:induction false} AndZero(a: nat, n: nat)
    ensures AndDigits(a, 0, n) == 0
    decreases n
  {
    if n > 0 {
      AndZero(a / 2, n - 1);
    }
  }

  lemma Pow2Of4()
    ensures Pow2(4) == 16
  {}

  lemma LowNibble(b: byte)
    ensures BitAnd(b, 0xF) == b % 16
  {
    hide AndDigits, Pow2;
    Pow2Of4();
    AndLowMask(b, 4, 8);
  }

  lemma HighNibble(b: byte)
    ensures AndDigits(b, 0xF0, 8) == 16 * AndDigits(b / 16, 0xF, 4)
  {
    var b1 := b / 2;
    var b2 := b1 / 2;
    var b3 := b2 / 2;
    assert b3 / 2 == b / 16;
    assert AndDigits(b2, 0x3C, 6) == 4 * AndDigits(b3 / 2, 0xF, 4);
    assert AndDigits(b, 0xF0, 8) == 4 * AndDigits(b2, 0x3C, 6);
  }

  lemma NibbleKeepsNibble(h: nat)
    requires h < 16
    ensures AndDigits(h, 0xF, 4) == h
  {
    hide AndDigits, Pow2;
    Pow2Of4();
    AndLowMask(h, 4, 4);
  }

  /** The two halves of a byte, as the expressions `b & 0xF` and `(b & 0xF0) >> 4` select them. */
  lemma Nibbles(b: byte)
    ensures BitAnd(b, 0xF) == b % 16
    ensures BitAnd(b, 0xF0) / 16 == b / 16
  {
    LowNibble(b);
    HighNibble(b);
    NibbleKeepsNibble(b / 16);
    hide AndDigits;
  }
}
