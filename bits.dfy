/** Arithmetic on machine words, stated on naturals: powers of two, the bitwise AND that
    the hash table uses as a cheap modulo, and the bitwise OR of its rounding helper. */
module Bits {

  function Pow2(k: nat): (p: nat)
    ensures p >= 1
  {
    if k == 0 then 1 else 2 * Pow2(k - 1)
  }

  /** Bitwise AND of two naturals, one binary digit at a time (the C `&` on size_t). */
  function And(a: nat, b: nat): nat
  {
    if a == 0 || b == 0 then 0
    else 2 * And(a / 2, b / 2) + (if a % 2 == 1 && b % 2 == 1 then 1 else 0)
  }

  /** Masking never yields more than the mask, so `h & capacity` indexes a table of
      `capacity + 1` slots. */
  lemma {:induction false} AndAtMost(a: nat, b: nat)
    ensures And(a, b) <= b
  {
    if a != 0 && b != 0 {
      AndAtMost(a / 2, b / 2);
    }
  }

  /** With a mask of the form 2^k - 1, AND is the remainder modulo 2^k. */
  lemma {:induction false} AndMaskIsMod(a: nat, k: nat)
    ensures And(a, Pow2(k) - 1) == a % Pow2(k)
  {
    if k == 0 {
    } else if a == 0 {
    } else {
      AndMaskIsMod(a / 2, k - 1);
      assert (Pow2(k) - 1) / 2 == Pow2(k - 1) - 1;
      assert (Pow2(k) - 1) % 2 == 1;
      ModDouble(a, Pow2(k - 1));
    }
  }

  lemma ModDouble(a: nat, p: nat)
    requires p >= 1
    ensures a % (2 * p) == 2 * ((a / 2) % p) + a % 2
  {
    var q := (a / 2) / p;
    var r := (a / 2) % p;
    assert a / 2 == q * p + r;
    assert a == q * (2 * p) + (2 * r + a % 2);
    DivModUnique(a, 2 * p, q, 2 * r + a % 2);
  }

  /** Euclidean division has exactly one quotient and remainder. */
  lemma DivModUnique(a: int, m: int, q: int, r: int)
    requires m > 0 && a == q * m + r && 0 <= r < m
    ensures a % m == r && a / m == q
  {
    var q', r' := a / m, a % m;
    assert (q - q') * m == r' - r;
    if q > q' {
      MulAtLeast(q - q', m);
    } else if q < q' {
      MulAtLeast(q' - q, m);
    }
  }

  lemma MulAtLeast(x: int, m: int)
    requires x >= 1 && m >= 0
    ensures x * m >= m
    decreases x
  {
    if x > 1 {
      MulAtLeast(x - 1, m);
      assert x * m == (x - 1) * m + m;
    }
  }
  lemma {:induction false} Pow2Add(a: nat, b: nat)
    ensures Pow2(a + b) == Pow2(a) * Pow2(b)
  {
    if a > 0 {
      Pow2Add(a - 1, b);
      assert Pow2(a + b) == 2 * Pow2(a - 1 + b);
    }
  }

  lemma {:induction false} Pow2Monotone(a: nat, b: nat)
    requires a <= b
    ensures Pow2(a) <= Pow2(b)
  {
    if a < b {
      Pow2Monotone(a, b - 1);
    }
  }

  /** The number of binary digits of `m`: the least `p` with `m < 2^p`. */
  function BitLength(m: nat): (p: nat)
    ensures m < Pow2(p)
    ensures p > 0 ==> Pow2(p - 1) <= m
  {
    if m == 0 then 0 else 1 + BitLength(m / 2)
  }

  /** Bitwise OR of two naturals, one binary digit at a time (the C `|` on a non-negative
      int). */
  function Or(a: nat, b: nat): nat
  {
    if a == 0 then b
    else if b == 0 then a
    else 2 * Or(a / 2, b / 2) + (if a % 2 == 1 || b % 2 == 1 then 1 else 0)
  }

  /** OR keeps every digit of both operands, so it is at least either of them. */
  lemma {:induction false} OrAtLeast(a: nat, b: nat)
    ensures a <= Or(a, b) && b <= Or(a, b)
  {
    if a != 0 && b != 0 {
      OrAtLeast(a / 2, b / 2);
    }
  }

  /** OR sets no digit above those of its operands. */
  lemma {:induction false} OrBelow(a: nat, b: nat, k: nat)
    requires a < Pow2(k) && b < Pow2(k)
    ensures Or(a, b) < Pow2(k)
  {
    if a != 0 && b != 0 {
      OrBelow(a / 2, b / 2, k - 1);
    }
  }

  /** ORing in a value below `2^k` keeps the digits of `x` from `k` upwards and adds
      at least the value itself. */
  lemma {:induction false} OrKeepsHigh(x: nat, b: nat, k: nat)
    requires b < Pow2(k)
    ensures Or(x, b) >= x - x % Pow2(k) + b
  {
    if k == 0 {
      assert b == 0;
    } else if x != 0 && b != 0 {
      OrKeepsHigh(x / 2, b / 2, k - 1);
      ModDouble(x, Pow2(k - 1));
    }
  }

  /** The C `x >> s` on a non-negative int. */
  function Shr(x: nat, s: nat): (r: nat)
  {
    DivNonNegative(x, Pow2(s));
    x / Pow2(s)
  }

  lemma DivNonNegative(x: nat, d: nat)
    requires d > 0
    ensures x / d >= 0
  {
  }

  function Min(a: nat, b: nat): nat
  {
    if a <= b then a else b
  }

  lemma MulMonotone(a: nat, b: nat, c: nat)
    requires a <= b
    ensures a * c <= b * c
  {
    assert b * c == a * c + (b - a) * c;
  }

  lemma DivMonotone(a: nat, b: nat, d: nat)
    requires a <= b && d > 0
    ensures a / d <= b / d
  {
    var qa, qb := a / d, b / d;
    assert qa * d < (qb + 1) * d;
    MulLessCancel(qa, qb + 1, d);
  }

  lemma MulLessCancel(x: nat, y: nat, d: nat)
    requires x * d < y * d
    ensures x < y
  {
    if y <= x {
      MulMonotone(y, x, d);
    }
  }

  lemma DivBelow(x: nat, d: nat, q: nat)
    requires d > 0 && x < q * d
    ensures x / d < q
  {
    if x / d >= q {
      MulMonotone(q, x / d, d);
    }
  }

  lemma DivAtMost(x: nat, d: nat)
    requires d > 0
    ensures x / d <= x
  {
    if x / d > 0 {
      MulAtLeast(d, x / d);
    }
  }

  /** One round `x |= x >> s` of the rounding loop: when the top `Min(s, p)` of the `p`
      digits of `x` are all ones, afterwards the top `Min(2 * s, p)` are, and `x` still
      has at most `p` digits. (A block of top ones is the bound `2^p - 2^(p - t) <= x`.) */
  lemma SmearStep(x: nat, p: nat, s: nat)
    requires s >= 1
    requires Pow2(p) - Pow2(p - Min(s, p)) <= x < Pow2(p)
    ensures Pow2(p) - Pow2(p - Min(2 * s, p)) <= Or(x, Shr(x, s)) < Pow2(p)
  {
    var b := Shr(x, s);
    DivAtMost(x, Pow2(s));
    OrBelow(x, b, p);
    OrAtLeast(x, b);
    if s < p {
      SmearInside(x, p, s);
    }
  }

  /** SmearStep when the shift is below the digit count: the shifted copy lands on the
      digits just under the block of ones. */
  lemma SmearInside(x: nat, p: nat, s: nat)
    requires 1 <= s < p
    requires Pow2(p) - Pow2(p - s) <= x < Pow2(p)
    ensures Pow2(p) - Pow2(p - Min(2 * s, p)) <= Or(x, Shr(x, s))
  {
    var q := p - s;
    var b := Shr(x, s);
    Pow2Add(s, q);
    Pow2Monotone(q, p);
    var h: nat := Pow2(s) - 1;
    assert (Pow2(s) - 1) * Pow2(q) == Pow2(s) * Pow2(q) - Pow2(q);
    assert h * Pow2(q) == Pow2(p) - Pow2(q);
    var l: nat := x - h * Pow2(q);
    DivModUnique(x, Pow2(q), h, l);
    DivBelow(x, Pow2(s), Pow2(q));
    OrKeepsHigh(x, b, q);
    ShiftedBlock(p, s);
    DivMonotone(Pow2(p) - Pow2(q), x, Pow2(s));
  }

  /** The block of top ones `2^p - 2^(p - s)` shifted down by `s` digits. */
  lemma ShiftedBlock(p: nat, s: nat)
    requires 1 <= s < p
    ensures (Pow2(p) - Pow2(p - s)) / Pow2(s) == Pow2(p - s) - Pow2(p - Min(2 * s, p))
  {
    var q := p - s;
    Pow2Add(s, q);
    if 2 * s <= p {
      Pow2Add(s, q - s);
      BlockQuotient(Pow2(p), Pow2(q), Pow2(q - s), Pow2(s));
    } else {
      Pow2Monotone(q, s);
      BlockQuotient(Pow2(p), Pow2(q), 1, Pow2(s));
    }
  }

  /** `(S*Q - Q) / S` is `Q - R` when `S*R == Q`, and `Q - 1` when `Q <= S`. */
  lemma BlockQuotient(P: int, Q: int, R: int, S: int)
    requires S >= 1 && P == S * Q && 1 <= R <= Q
    requires S * R == Q || (R == 1 && Q <= S)
    ensures (P - Q) / S == Q - R
  {
    if S * R == Q {
      assert P - Q == (Q - R) * S + 0 by {
        assert (Q - R) * S == Q * S - R * S;
      }
      DivModUnique(P - Q, S, Q - R, 0);
    } else {
      assert P - Q == (Q - 1) * S + (S - Q) by {
        assert (Q - 1) * S == Q * S - S;
      }
      DivModUnique(P - Q, S, Q - 1, S - Q);
    }
  }

  /** The powers of two that the machine-word constants are built from. */
  lemma Pow2Constants()
    ensures Pow2(6) == 64 && Pow2(10) == 1024
    ensures Pow2(30) == 0x4000_0000 && Pow2(31) == 0x8000_0000 && Pow2(32) == 0x1_0000_0000
  {
    Pow2Add(10, 10);
    Pow2Add(20, 10);
    Pow2Add(30, 2);
  }

  /** A number below 2^k needs at most k binary digits. */
  lemma {:induction false} BitLengthBelow(x: nat, k: nat)
    requires x < Pow2(k)
    ensures BitLength(x) <= k
  {
    if x != 0 {
      BitLengthBelow(x / 2, k - 1);
    }
  }

  /** A number in [2^k, 2^(k+1)) has exactly k + 1 binary digits. */
  lemma {:induction false} BitLengthExact(x: nat, k: nat)
    requires Pow2(k) <= x < Pow2(k + 1)
    ensures BitLength(x) == k + 1
  {
    if k > 0 {
      BitLengthExact(x / 2, k - 1);
    }
  }
}
