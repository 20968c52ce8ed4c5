/**
  Bitwise operations on unsigned machine words, written over natural numbers.

  The C code works on `uint64_t` and `size_t`; here such a value is a `nat`
  below 2^64, and `^` and `&` are the recursive definitions below (one bit per
  level). Multiplication modulo 2^64 is written out where the source relies on
  wrap-around.
 */
module Bits {

  const TWO64: nat := 0x1_0000_0000_0000_0000

  /** An `unsigned char` */
  type byte = x: int | 0 <= x < 256

  /** 2^k */
  function Pow2(k: nat): (r: nat)
    ensures r >= 1
  {
    if k == 0 then 1 else 2 * Pow2(k - 1)
  }

  /** n is 2^k for some k */
  predicate IsPow2(n: nat)
    decreases n
  {
    n == 1 || (n > 1 && n % 2 == 0 && IsPow2(n / 2))
  }

  /** Bitwise exclusive or `a ^ b` */
  function Xor(a: nat, b: nat): nat
    decreases a + b
  {
    if a == 0 then b
    else if b == 0 then a
    else 2 * Xor(a / 2, b / 2) + (if a % 2 == b % 2 then 0 else 1)
  }

  /** Bitwise and `a & b` */
  function And(a: nat, b: nat): nat
    decreases a + b
  {
    if a == 0 || b == 0 then 0
    else 2 * And(a / 2, b / 2) + (if a % 2 == 1 && b % 2 == 1 then 1 else 0)
  }

  /** `size_t` subtraction of one: 0 - 1 wraps to 2^64 - 1 */
  function Dec64(n: nat): (r: nat)
    requires n < TWO64
    ensures r < TWO64
    ensures n > 0 ==> r == n - 1
  {
    if n == 0 then TWO64 - 1 else n - 1
  }

  /** `a & b` never exceeds `b`. */
  lemma {:induction false} AndAtMost(a: nat, b: nat)
    ensures And(a, b) <= b
    decreases a + b
  {
    if a != 0 && b != 0 {
      AndAtMost(a / 2, b / 2);
    }
  }

  /** `a & a == a` */
  lemma {:induction false} AndSelf(a: nat)
    ensures And(a, a) == a
    decreases a
  {
    if a != 0 {
      AndSelf(a / 2);
    }
  }

  /** Masking with 2^k - 1 keeps the low k bits, i.e. reduces modulo 2^k. */
  lemma {:induction false} AndLowMask(h: nat, k: nat)
    ensures And(h, Pow2(k) - 1) == h % Pow2(k)
    decreases k
  {
    if k == 0 {
      assert Pow2(k) - 1 == 0;
    } else if h == 0 {
      assert And(h, Pow2(k) - 1) == 0;
    } else {
      AndLowMask(h / 2, k - 1);
      AndLowStep(h, k);
    }
  }

  /** One level of AndLowMask: the low bit of `h` and the mask for one bit fewer. */
  lemma AndLowStep(h: nat, k: nat)
    requires k > 0
    requires And(h / 2, Pow2(k - 1) - 1) == (h / 2) % Pow2(k - 1)
    ensures And(h, Pow2(k) - 1) == h % Pow2(k)
  {
    var m := Pow2(k) - 1;
    assert m / 2 == Pow2(k - 1) - 1 && m % 2 == 1;
    AndOdd(h, m);
    DivModPow2(h, k);
  }

  /** `h & m` for an odd mask `m` keeps the low bit of `h`. */
  lemma AndOdd(h: nat, m: nat)
    requires m % 2 == 1
    ensures And(h, m) == 2 * And(h / 2, m / 2) + h % 2
  {
  }

  /** h / 2^k and h % 2^k in terms of h / 2 */
  lemma DivModPow2(h: nat, k: nat)
    requires k > 0
    ensures h % Pow2(k) == 2 * ((h / 2) % Pow2(k - 1)) + h % 2
    ensures h / Pow2(k) == (h / 2) / Pow2(k - 1)
  {
    var p := Pow2(k - 1);
    var q := (h / 2) / p;
    var r := (h / 2) % p;
    assert h / 2 == q * p + r;
    assert h == q * (2 * p) + (2 * r + h % 2);
    assert 0 <= 2 * r + h % 2 < 2 * p;
    DivModUnique(h, 2 * p, q, 2 * r + h % 2);
  }

  /** Euclidean division is unique. */
  lemma DivModUnique(x: nat, d: nat, q: nat, r: nat)
    requires d > 0 && x == q * d + r && r < d
    ensures x % d == r && x / d == q
  {
    var q', r' := x / d, x % d;
    assert q' * d + r' == q * d + r;
    if q' > q {
      MulAtLeast(q' - q, d);
      assert false;
    } else if q' < q {
      MulAtLeast(q - q', d);
      assert false;
    }
  }

  lemma {:induction false} MulAtLeast(t: nat, d: nat)
    requires t >= 1
    ensures t * d >= d
    decreases t
  {
    if t > 1 {
      MulAtLeast(t - 1, d);
      assert t * d == (t - 1) * d + d;
    }
  }

  /** The `n & (n - 1) == 0` test: for n >= 1 it holds exactly of powers of two. */
  lemma {:induction false} PowerOfTwoTest(n: nat)
    requires n >= 1
    ensures And(n, n - 1) == 0 <==> IsPow2(n)
    decreases n
  {
    if n == 1 {
    } else if n % 2 == 0 {
      assert (n - 1) / 2 == n / 2 - 1 && (n - 1) % 2 == 1;
      assert And(n, n - 1) == 2 * And(n / 2, n / 2 - 1);
      PowerOfTwoTest(n / 2);
    } else {
      assert (n - 1) / 2 == n / 2 && (n - 1) % 2 == 0;
      assert And(n, n - 1) == 2 * And(n / 2, n / 2);
      AndSelf(n / 2);
    }
  }

  /** A power of two is 2^k for some k. */
  lemma {:induction false} Pow2Exponent(n: nat) returns (k: nat)
    requires IsPow2(n)
    ensures n == Pow2(k)
    decreases n
  {
    if n == 1 {
      k := 0;
    } else {
      var j := Pow2Exponent(n / 2);
      k := j + 1;
    }
  }

  /** Xor of two values below 2^k stays below 2^k. */
  lemma {:induction false} XorBelow(a: nat, b: nat, k: nat)
    requires a < Pow2(k) && b < Pow2(k)
    ensures Xor(a, b) < Pow2(k)
    decreases a + b
  {
    if a != 0 && b != 0 {
      XorBelow(a / 2, b / 2, k - 1);
    }
  }

  /** Xor with a value below 2^k only touches the low k bits. */
  lemma {:induction false} XorLow(hi: nat, lo: nat, b: nat, k: nat)
    requires lo < Pow2(k) && b < Pow2(k)
    ensures Xor(hi * Pow2(k) + lo, b) == hi * Pow2(k) + Xor(lo, b)
    decreases k
  {
    if b == 0 {
      XorZero(hi * Pow2(k) + lo);
      XorZero(lo);
    } else if hi * Pow2(k) + lo == 0 {
      assert lo == 0;
    } else {
      assert k != 0 && Pow2(k) == 2 * Pow2(k - 1);
      XorLow(hi, lo / 2, b / 2, k - 1);
      XorLowStep(hi, lo, b, k);
    }
  }

  /** One level of XorLow: the low bits of `lo` and `b` and the rest one bit down. */
  lemma XorLowStep(hi: nat, lo: nat, b: nat, k: nat)
    requires k > 0 && b != 0 && hi * Pow2(k) + lo != 0
    requires Xor(hi * Pow2(k - 1) + lo / 2, b / 2) == hi * Pow2(k - 1) + Xor(lo / 2, b / 2)
    ensures Xor(hi * Pow2(k) + lo, b) == hi * Pow2(k) + Xor(lo, b)
  {
    var a := hi * Pow2(k) + lo;
    var p := Pow2(k - 1);
    var m := hi * p;
    MulTwice(hi, p);
    HalveSum(a, m, lo);
    XorUnfold(a, b);
    if lo != 0 {
      XorUnfold(lo, b);
    }
  }

  lemma HalveSum(a: nat, m: nat, lo: nat)
    requires a == 2 * m + lo
    ensures a / 2 == m + lo / 2 && a % 2 == lo % 2
  {
  }

  /** `x ^ 0 == x` */
  lemma XorZero(x: nat)
    ensures Xor(x, 0) == x
  {
  }

  /** One level of the definition of `a ^ b`. */
  lemma XorUnfold(a: nat, b: nat)
    requires a != 0 && b != 0
    ensures Xor(a, b) == 2 * Xor(a / 2, b / 2) + (if a % 2 == b % 2 then 0 else 1)
  {
  }

  lemma MulTwice(q: nat, p: nat)
    ensures q * (2 * p) == 2 * (q * p)
  {
  }

  lemma Pow2Of8()
    ensures Pow2(8) == 256
  {
    assert Pow2(1) == 2;
    assert Pow2(2) == 4;
    assert Pow2(3) == 8;
    assert Pow2(4) == 16;
    assert Pow2(5) == 32;
    assert Pow2(6) == 64;
    assert Pow2(7) == 128;
  }

  /** 2^(a+b) == 2^a * 2^b */
  lemma {:induction false} Pow2Add(a: nat, b: nat)
    ensures Pow2(a + b) == Pow2(a) * Pow2(b)
    decreases b
  {
    if b > 0 {
      Pow2Add(a, b - 1);
      MulTwice(Pow2(a), Pow2(b - 1));
    }
  }

  lemma Pow2Of64()
    ensures Pow2(64) == TWO64
  {
    Pow2Of8();
    Pow2Add(8, 8);
    Pow2Add(16, 16);
    Pow2Add(32, 32);
  }

  /** Xor with a byte only touches the low byte. */
  lemma XorByte(a: nat, b: byte)
    ensures Xor(a, b) == (a / 256) * 256 + Xor(a % 256, b)
  {
    Pow2Of8();
    XorLow(a / 256, a % 256, b, 8);
  }
}
