/** 32-bit Java int arithmetic on bit patterns. A word is held as the unsigned integer
    its 32 bits denote; `&`, `^` and `>>>` are defined bit by bit on it, and Signed gives
    back the two's-complement value a Java int with those bits has. */
module Bits32 {

  const WordModulus: int := 0x1_0000_0000

  /** The bit pattern of a Java int, read as an unsigned number. */
  type Word = x: int | 0 <= x < 0x1_0000_0000

  function Pow2(k: nat): (p: nat)
    ensures p >= 1
  {
    if k == 0 then 1 else 2 * Pow2(k - 1)
  }

  lemma Pow2Of32()
    ensures Pow2(16) == 0x1_0000 && Pow2(32) == WordModulus
  {
    assert Pow2(8) == 0x100;
    Pow2Add(8, 8);
    Pow2Add(16, 16);
  }

  lemma {:induction false} Pow2Add(a: nat, b: nat)
    ensures Pow2(a + b) == Pow2(a) * Pow2(b)
    decreases a
  {
    if a > 0 {
      Pow2Add(a - 1, b);
    }
  }

  lemma {:induction false} Pow2Monotone(a: nat, b: nat)
    requires a <= b
    ensures Pow2(a) <= Pow2(b)
    decreases b
  {
    if a < b {
      Pow2Monotone(a, b - 1);
    }
  }

  /** The two's-complement value of a word, as Java reads an int. */
  function Signed(w: Word): (v: int)
    ensures -0x8000_0000 <= v < 0x8000_0000
    ensures v % WordModulus == w
  {
    if w < 0x8000_0000 then w else w - WordModulus
  }

  /** The bit pattern of a Java int value. */
  function Bits(v: int): Word {
    v % WordModulus
  }

  /** Bitwise and of the low n bits of a and b. */
  function And(a: nat, b: nat, n: nat): (r: nat)
    ensures r < Pow2(n)
  {
    if n == 0 then 0
    else (if a % 2 == 1 && b % 2 == 1 then 1 else 0) + 2 * And(a / 2, b / 2, n - 1)
  }

  /** Bitwise exclusive or of the low n bits of a and b. */
  function Xor(a: nat, b: nat, n: nat): (r: nat)
    ensures r < Pow2(n)
  {
    if n == 0 then 0
    else (if a % 2 != b % 2 then 1 else 0) + 2 * Xor(a / 2, b / 2, n - 1)
  }

  /** Java's `a & b` on ints. */
  function AndWord(a: Word, b: Word): Word {
    Pow2Of32();
    And(a, b, 32)
  }

  /** Java's `a ^ b` on ints. */
  function XorWord(a: Word, b: Word): Word {
    Pow2Of32();
    Xor(a, b, 32)
  }

  /** Java's `a >>> k`: the unsigned shift fills with zero bits. */
  function UShr(a: Word, k: nat): Word {
    DivAtMost(a, Pow2(k));
    a / Pow2(k)
  }

  lemma DivAtMost(a: nat, d: int)
    requires d >= 1
    ensures 0 <= a / d <= a
  {
    var q := a / d;
    assert a == d * q + a % d;
    if q > 0 {
      MulAtLeast(q, d);
    }
  }

  /** Masking never yields more than the mask. */
  lemma {:induction false} AndAtMost(a: nat, b: nat, n: nat)
    ensures And(a, b, n) <= a
    decreases n
  {
    if n > 0 {
      AndAtMost(a / 2, b / 2, n - 1);
    }
  }

  lemma {:induction false} AndZero(b: nat, n: nat)
    ensures And(0, b, n) == 0
    decreases n
  {
    if n > 0 {
      AndZero(b / 2, n - 1);
    }
  }

  /** x % 2p splits into the lowest bit and the rest; x / 2p is (x / 2) / p. */
  lemma ModDouble(x: nat, p: nat, q: nat)
    requires p >= 1 && q == 2 * p
    ensures x % q == x % 2 + 2 * ((x / 2) % p)
    ensures x / q == (x / 2) / p
  {
    var q := (x / 2) / p;
    var r := (x / 2) % p;
    assert x / 2 == q * p + r;
    assert x == 2 * (q * p + r) + x % 2;
    assert x == (2 * p) * q + (2 * r + x % 2);
    assert 0 <= 2 * r + x % 2 < 2 * p;
    DivModUnique(x, 2 * p, q, 2 * r + x % 2);
  }

  lemma DivModUnique(x: int, d: int, q: int, r: int)
    requires d > 0 && 0 <= r < d && x == d * q + r
    ensures x / d == q && x % d == r
  {
    var q', r' := x / d, x % d;
    assert x == d * q' + r';
    if q' > q {
      var t := q' - q;
      assert d * q' == d * q + d * t;
      MulAtLeast(d, t);
    } else if q' < q {
      var t := q - q';
      assert d * q == d * q' + d * t;
      MulAtLeast(d, t);
    }
  }

  lemma MulAtLeast(d: int, t: int)
    requires d > 0 && t >= 1
    ensures d * t >= d
  {
  }

  /** The number formed by the low k bits of a. */
  function LowBits(a: nat, k: nat): nat {
    if k == 0 then 0 else a % 2 + 2 * LowBits(a / 2, k - 1)
  }

  lemma {:induction false} AndLowBits(a: nat, k: nat, n: nat)
    requires k <= n
    ensures And(Pow2(k) - 1, a, n) == LowBits(a, k)
    decreases n
  {
    if k == 0 {
      AndZero(a, n);
    } else {
      AndOddMask(Pow2(k) - 1, Pow2(k - 1), a, n);
      AndLowBits(a / 2, k - 1, n - 1);
    }
  }

  lemma {:induction false} LowBitsMod(a: nat, k: nat)
    ensures LowBits(a, k) == a % Pow2(k)
  {
    if k > 0 {
      LowBitsMod(a / 2, k - 1);
      ModDouble(a, Pow2(k - 1), Pow2(k));
    }
  }

  /** `a & (2^k - 1)` keeps the low k bits of a, that is a % 2^k, when k <= n. */
  lemma AndLowMask(a: nat, k: nat, n: nat)
    requires k <= n
    ensures And(Pow2(k) - 1, a, n) == a % Pow2(k)
  {
    AndLowBits(a, k, n);
    LowBitsMod(a, k);
  }

  /** The lowest bit of an odd mask is set: it keeps a's lowest bit. */
  lemma AndOddMask(m: nat, p: nat, a: nat, n: nat)
    requires p >= 1 && n >= 1 && m == 2 * p - 1
    ensures And(m, a, n) == a % 2 + 2 * And(p - 1, a / 2, n - 1)
  {
    DivModUnique(m, 2, p - 1, 1);
  }

  /** The lowest bit and the remaining bits of an exclusive or. */
  lemma XorSplit(a: nat, b: nat, n: nat)
    requires n >= 1
    ensures Xor(a, b, n) % 2 == (if a % 2 != b % 2 then 1 else 0)
    ensures Xor(a, b, n) / 2 == Xor(a / 2, b / 2, n - 1)
  {
    DivModUnique(Xor(a, b, n), 2, Xor(a / 2, b / 2, n - 1), if a % 2 != b % 2 then 1 else 0);
  }

  /** Dropping the k lowest bits, one at a time. */
  function Shr(a: nat, k: nat): nat {
    if k == 0 then a else Shr(a / 2, k - 1)
  }

  /** Dropping k bits is dividing by 2^k, the unsigned shift. */
  lemma {:induction false} ShrIsDiv(a: nat, k: nat)
    ensures Shr(a, k) == a / Pow2(k)
    decreases k
  {
    if k > 0 {
      ShrIsDiv(a / 2, k - 1);
      ModDouble(a, Pow2(k - 1), Pow2(k));
    }
  }

  /** Shifting an exclusive or right by k bits shifts both operands. */
  lemma {:induction false} XorShift(a: nat, b: nat, n: nat, k: nat)
    requires k <= n
    ensures Shr(Xor(a, b, n), k) == Xor(Shr(a, k), Shr(b, k), n - k)
    decreases k
  {
    if k > 0 {
      XorSplit(a, b, n);
      XorShift(a / 2, b / 2, n - 1, k - 1);
    }
  }

  /** Exclusive or with zero keeps the low n bits. */
  lemma {:induction false} XorZero(a: nat, n: nat)
    requires a < Pow2(n)
    ensures Xor(a, 0, n) == a
    decreases n
  {
    if n > 0 {
      XorZero(a / 2, n - 1);
    }
  }

  /** Exclusive or with the same b twice gives a back. */
  lemma {:induction false} XorCancel(a: nat, b: nat, n: nat)
    requires a < Pow2(n)
    ensures Xor(Xor(a, b, n), b, n) == a
    decreases n
  {
    if n > 0 {
      XorSplit(a, b, n);
      XorCancel(a / 2, b / 2, n - 1);
    }
  }
}
