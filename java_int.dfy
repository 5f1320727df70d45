/** Java's 32-bit `int` and the two integer operators the table and the
    exercises rely on: the sign-clearing mask `h & 0x7fffffff` and the
    remainder `%`, which truncates toward zero. */
module JavaInt {

  /** A Java `int`. */
  newtype Int32 = x: int | -0x8000_0000 <= x < 0x8000_0000

  function Pow2(n: nat): (r: nat)
    ensures r >= 1
  {
    if n == 0 then 1 else 2 * Pow2(n - 1)
  }

  /** Bitwise AND of the low `width` bits of `a` and `b`, taken one bit at a time. */
  function BitAnd(a: nat, b: nat, width: nat): nat
  {
    if width == 0 then 0 else (a % 2) * (b % 2) + 2 * BitAnd(a / 2, b / 2, width - 1)
  }

  /** The 32 bits of `h` (two's complement) read as an unsigned number. */
  function Unsigned(h: Int32): nat
  {
    (h as int) % 0x1_0000_0000
  }

  /** Java's `h & 0x7fffffff`: the value of `h` with its sign bit cleared. */
  function ClearSignBit(h: Int32): (r: nat)
    ensures r == (h as int) % 0x8000_0000
    ensures r < 0x8000_0000
  {
    ClearSignBitIsMod(h);
    BitAnd(Unsigned(h), 0x7fff_ffff, 32)
  }

  lemma {:induction false} MulAtLeast(m: int, x: int)
    requires m > 0 && x >= 1
    ensures m * x >= m
  {
    if x > 1 {
      MulAtLeast(m, x - 1);
    }
  }

  /** Euclidean division is unique: any quotient and in-range remainder are the ones `/` and `%` give. */
  lemma DivModUnique(a: int, m: int, d: int, s: int)
    requires m > 0 && a == m * d + s && 0 <= s < m
    ensures a % m == s
  {
    var e := d - a / m;
    assert m * e == a % m - s;
    if e >= 1 {
      MulAtLeast(m, e);
    } else if e <= -1 {
      MulAtLeast(m, -e);
    }
  }

  /** `a % (2 * q)` splits into the lowest bit of `a` and the rest. */
  lemma ModDouble(a: nat, q: nat)
    requires q >= 1
    ensures a % (2 * q) == a % 2 + 2 * ((a / 2) % q)
  {
    var r := (a / 2) % q;
    var d := (a / 2) / q;
    assert a / 2 == q * d + r;
    assert a == (2 * q) * d + (a % 2 + 2 * r);
    DivModUnique(a, 2 * q, d, a % 2 + 2 * r);
  }

  lemma {:induction false} Pow2Add(a: nat, b: nat)
    ensures Pow2(a + b) == Pow2(a) * Pow2(b)
  {
    if a > 0 {
      Pow2Add(a - 1, b);
      assert Pow2(a + b) == 2 * Pow2(a - 1 + b);
    }
  }

  lemma {:induction false} BitAndZero(a: nat, width: nat)
    ensures BitAnd(a, 0, width) == 0
  {
    if width > 0 {
      BitAndZero(a / 2, width - 1);
    }
  }

  /** Masking with `p` low one-bits keeps `a` modulo `2^p`, as long as the
      mask fits in the width. */
  lemma {:induction false} BitAndLowMask(a: nat, p: nat, width: nat)
    requires p <= width
    ensures BitAnd(a, Pow2(p) - 1, width) == a % Pow2(p)
  {
    if p == 0 {
      BitAndZero(a, width);
    } else {
      var q := Pow2(p - 1);
      assert (Pow2(p) - 1) % 2 == 1 && (Pow2(p) - 1) / 2 == q - 1;
      BitAndLowMask(a / 2, p - 1, width - 1);
      ModDouble(a, q);
    }
  }

  lemma Pow2Of31()
    ensures Pow2(31) == 0x8000_0000
  {
    assert Pow2(16) == 0x1_0000 && Pow2(15) == 0x8000;
    Pow2Add(16, 15);
  }

  /** Reading the 32 bits as unsigned moves a negative value up by 2^32,
      a multiple of 2^31. */
  lemma UnsignedMod(h: Int32)
    ensures Unsigned(h) % 0x8000_0000 == (h as int) % 0x8000_0000
  {
    var u: int := Unsigned(h);
    if h < 0 {
      var x := h as int;
      assert u == x + 0x1_0000_0000;
      DivModUnique(u, 0x8000_0000, x / 0x8000_0000 + 2, x % 0x8000_0000);
    } else {
      assert u == h as int;
    }
  }

  lemma ClearSignBitIsMod(h: Int32)
    ensures BitAnd(Unsigned(h), 0x7fff_ffff, 32) == (h as int) % 0x8000_0000
  {
    Pow2Of31();
    BitAndLowMask(Unsigned(h), 31, 32);
    UnsignedMod(h);
  }

  /** Java's `a % b` on ints: the sign of the result follows the dividend. */
  function JavaRem(a: int, b: int): (r: int)
    requires b != 0
    ensures a == b * JavaDiv(a, b) + r
    ensures -Abs(b) < r < Abs(b)
    ensures r != 0 ==> (r < 0 <==> a < 0)
  {
    var m := Abs(a) % Abs(b);
    if a < 0 then -m else m
  }

  /** Java's `a / b` on ints, rounding toward zero. */
  function JavaDiv(a: int, b: int): int
    requires b != 0
  {
    var q := Abs(a) / Abs(b);
    if (a < 0) == (b < 0) then q else -q
  }

  function Abs(x: int): int
  {
    if x < 0 then -x else x
  }

  /** `key % 2 != 0` in Java holds exactly for odd keys, negative ones included
      (for them Java's remainder is -1, where a Euclidean one is 1). */
  lemma JavaRemTwoOdd(k: int)
    ensures JavaRem(k, 2) != 0 <==> k % 2 == 1
    ensures k < 0 && k % 2 == 1 ==> JavaRem(k, 2) == -1
  {
  }

  /** Java's `int` addition and subtraction: the exact result wrapped into
      32 bits (two's complement). An exact result that fits is kept. */
  function Wrap(x: int): (r: Int32)
    ensures -0x8000_0000 <= x < 0x8000_0000 ==> r as int == x
  {
    var u := x % 0x1_0000_0000;
    WrapFacts(x);
    if u < 0x8000_0000 then u as Int32 else (u - 0x1_0000_0000) as Int32
  }

  /** The wrapped result is congruent to the exact one modulo 2^32. */
  lemma WrapCongruent(x: int)
    ensures (Wrap(x) as int) % 0x1_0000_0000 == x % 0x1_0000_0000
  {
    WrapFacts(x);
  }

  /** Adding the same amount keeps two values congruent modulo 2^32. */
  lemma AddCongruent(a: int, b: int, v: int)
    requires a % 0x1_0000_0000 == b % 0x1_0000_0000
    ensures (a + v) % 0x1_0000_0000 == (b + v) % 0x1_0000_0000
  {
    var r := (a % 0x1_0000_0000 + v) % 0x1_0000_0000;
    var q := (a % 0x1_0000_0000 + v) / 0x1_0000_0000;
    DivModUnique(a + v, 0x1_0000_0000, a / 0x1_0000_0000 + q, r);
    DivModUnique(b + v, 0x1_0000_0000, b / 0x1_0000_0000 + q, r);
  }

  lemma WrapFacts(x: int)
    ensures (x % 0x1_0000_0000) % 0x1_0000_0000 == x % 0x1_0000_0000
    ensures (x % 0x1_0000_0000 - 0x1_0000_0000) % 0x1_0000_0000 == x % 0x1_0000_0000
    ensures -0x8000_0000 <= x < 0 ==> x % 0x1_0000_0000 == x + 0x1_0000_0000
  {
    var u := x % 0x1_0000_0000;
    DivModUnique(u, 0x1_0000_0000, 0, u);
    DivModUnique(u - 0x1_0000_0000, 0x1_0000_0000, -1, u);
    if -0x8000_0000 <= x < 0 {
      DivModUnique(x, 0x1_0000_0000, -1, x + 0x1_0000_0000);
    }
  }
}
