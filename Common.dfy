/** Small shared vocabulary: an optional value, fixed-width wrap-around and powers. */
module Common {

  /** A value that may be missing; used where the source aborts with a CHECK or
      throws on a missing key, so that the model states the error path instead of
      forbidding it. */
  datatype Option<+T> = None | Some(value: T)

  const TWO_32: nat := 0x1_0000_0000
  const TWO_64: nat := 0x1_0000_0000_0000_0000

  /** Unsigned 32-bit wrap-around of an integer result. */
  function Wrap32(x: int): (r: nat)
    ensures r < TWO_32
    ensures (x - r) % TWO_32 == 0
    ensures 0 <= x < TWO_32 ==> r == x
  {
    x % TWO_32
  }

  /** Unsigned 64-bit wrap-around of an integer result. */
  function Wrap64(x: int): (r: nat)
    ensures r < TWO_64
    ensures (x - r) % TWO_64 == 0
    ensures 0 <= x < TWO_64 ==> r == x
  {
    x % TWO_64
  }

  /** Remainder as C++ computes it for signed operands: it has the sign of the dividend. */
  function TruncMod(a: int, b: int): (r: int)
    requires b > 0
    ensures a >= 0 ==> 0 <= r < b && r == a % b
    ensures a < 0 ==> -b < r <= 0 && r == -((-a) % b)
  {
    if a >= 0 then a % b else -((-a) % b)
  }

  // ---------------------------------------------------------------------------
  // Euclidean division facts that the solver does not find on its own.

  lemma {:induction false} MulAtLeast(e: nat, d: nat)
    requires d >= 1
    ensures e * d >= e
  {
    if d > 1 {
      MulAtLeast(e, d - 1);
      assert e * d == e * (d - 1) + e;
    }
  }

  lemma MulNonnegative(a: nat, b: nat)
    ensures a * b >= 0
  {
    if b >= 1 { MulAtLeast(a, b); }
  }

  lemma MulSmallIsZero(e: int, d: int)
    requires e > 0 && -e < e * d < e
    ensures d == 0
  {
    if d >= 1 {
      MulAtLeast(e, d);
    }
  }

  /** Quotient and remainder are determined by x == e * q + r with 0 <= r < e. */
  lemma DivModUnique(x: int, e: int, q: int, r: int)
    requires e > 0 && x == e * q + r && 0 <= r < e
    ensures x / e == q && x % e == r
  {
    var q0 := x / e;
    var r0 := x % e;
    assert x == e * q0 + r0;
    assert e * (q - q0) == r0 - r;
    MulSmallIsZero(e, q - q0);
  }

  /** An exact division can be multiplied back. */
  lemma DivExact(k: int, e: int)
    requires e > 0 && k % e == 0
    ensures k == e * (k / e)
  {
  }

  /** A multiple of e leaves no remainder. */
  lemma MulMod(e: nat, c: int)
    requires e > 0
    ensures (e * c) % e == 0 && (e * c) / e == c
  {
    DivModUnique(e * c, e, c, 0);
  }

  lemma MulSucc(a: nat, b: nat)
    ensures (a + 1) * b == a * b + b
  {
  }

  lemma Distrib(x: int, y: int, p: int)
    ensures (x + y) * p == x * p + y * p
  {
  }

  lemma MulZero(a: int, b: int)
    requires a == 0
    ensures a * b == 0
  {
  }

  lemma MulAssoc(a: int, b: int, c: int)
    ensures (a * b) * c == a * (b * c)
  {
  }

  lemma MulPred(a: int, p: int)
    ensures (a - 1) * p == a * p - p
  {
  }

  /** a <= b ==> a * c <= b * c. */
  lemma MulMono2(a: nat, b: nat, c: nat)
    requires a <= b
    ensures a * c <= b * c
  {
    MulNonnegative(b - a, c);
    assert b * c - a * c == (b - a) * c;
  }

  /** c * a <= c * b when a <= b. */
  lemma MulMono1(c: nat, a: nat, b: nat)
    requires a <= b
    ensures c * a <= c * b
  {
    MulMono2(a, b, c);
  }

  /** The quotient brackets the dividend. */
  lemma DivBounds(x: nat, d: nat)
    requires d >= 1
    ensures (x / d) * d <= x < (x / d + 1) * d
  {
    assert x == d * (x / d) + x % d;
  }

  /** A quotient by a positive divisor is no larger than the dividend. */
  lemma DivIsSmaller(x: nat, d: nat)
    requires d >= 1
    ensures 0 <= x / d <= x
  {
    var q := x / d;
    assert x == d * q + x % d;
    if q > x {
      MulAtLeast(q, d);
    }
  }

  /** Powers of two. */
  function Pow2(n: nat): (r: nat)
    ensures r >= 1
  {
    if n == 0 then 1 else 2 * Pow2(n - 1)
  }

  /** 2^64 in the powers of two. */
  lemma Pow2Of64()
    ensures Pow2(64) == TWO_64
  {
    Pow2Of32();
    Pow2Add(32, 32);
  }

  lemma Pow2Of32()
    ensures Pow2(32) == TWO_32
  {
    Pow2Of16();
    Pow2Add(16, 16);
  }

  lemma Pow2Of16()
    ensures Pow2(16) == 0x1_0000
  {
    assert Pow2(4) == 16;
    Pow2Add(4, 4);
    Pow2Add(8, 8);
  }

  lemma {:induction false} Pow2Add(a: nat, b: nat)
    ensures Pow2(a + b) == Pow2(a) * Pow2(b)
    decreases a
  {
    if a > 0 {
      Pow2Add(a - 1, b);
    }
  }

  lemma Pow2Monotone(a: nat, b: nat)
    requires a <= b
    ensures Pow2(a) <= Pow2(b)
  {
    Pow2Add(a, b - a);
    MulAtLeast(Pow2(a), Pow2(b - a));
  }

  /** Bitwise or of naturals. */
  function BitOr(x: nat, y: nat): nat
    decreases x + y
  {
    if x == 0 && y == 0 then 0 else 2 * BitOr(x / 2, y / 2) + (if x % 2 == 1 || y % 2 == 1 then 1 else 0)
  }

  lemma {:induction false} OrZero(x: nat)
    ensures BitOr(x, 0) == x
    decreases x
  {
    if x > 0 {
      OrZero(x / 2);
    }
  }

  /** Or-ing in a bit above all of x's bits adds it. */
  lemma {:induction false} OrHigh(x: nat, k: nat)
    requires x < Pow2(k)
    ensures BitOr(x, Pow2(k)) == x + Pow2(k)
    decreases k
  {
    if k > 0 {
      OrHigh(x / 2, k - 1);
    }
  }

  /** Or-ing a value below 32 into the five low bits freed by a shift adds it. */
  lemma OrLow5(z: nat, e: nat)
    requires e < 32
    ensures BitOr(32 * z, e) == 32 * z + e
  {
    assert Shl(z, 1) == 2 * z;
    assert Shl(z, 2) == 4 * z;
    assert Shl(z, 3) == 8 * z;
    assert Shl(z, 4) == 16 * z;
    assert Shl(z, 5) == 32 * z;
    assert Pow2(5) == 32;
    OrShl(z, e, 5);
  }

  /** z shifted left by k bits. */
  function Shl(z: nat, k: nat): nat {
    if k == 0 then z else 2 * Shl(z, k - 1)
  }

  lemma {:induction false} OrShl(z: nat, e: nat, k: nat)
    requires e < Pow2(k)
    ensures BitOr(Shl(z, k), e) == Shl(z, k) + e
    decreases k
  {
    if k == 0 {
      OrZero(z);
    } else {
      OrShl(z, e / 2, k - 1);
      OrEven(Shl(z, k - 1), e);
    }
  }

  /** The defining step of BitOr on an even left operand. */
  lemma OrEven(m: nat, e: nat)
    ensures BitOr(2 * m, e) == 2 * BitOr(m, e / 2) + e % 2
  {
  }
}
