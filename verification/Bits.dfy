/**
 Bitwise operators of the machine words, written on naturals so that a mask or a
 flag bit can be related to `%`, `+` and `<`.
 */
module Bits {

  type byte = x: int | 0 <= x < 256
  type u64 = x: int | 0 <= x < 0x1_0000_0000_0000_0000
  const U64: nat := 0x1_0000_0000_0000_0000

  function Pow2(k: nat): (p: nat)
    ensures 1 <= p
  {
    if k == 0 then 1 else 2 * Pow2(k - 1)
  }

  /** `a & b` */
  function And(a: nat, b: nat): nat
  {
    if a == 0 || b == 0 then 0
    else 2 * And(a / 2, b / 2) + (if a % 2 == 1 && b % 2 == 1 then 1 else 0)
  }

  /** `a | b` */
  function Or(a: nat, b: nat): nat
    decreases a + b
  {
    if a == 0 then b
    else if b == 0 then a
    else 2 * Or(a / 2, b / 2) + (if a % 2 == 1 || b % 2 == 1 then 1 else 0)
  }

  /** `n.is_power_of_two()` */
  predicate IsPowerOfTwo(n: nat)
  {
    n == 1 || (0 < n && n % 2 == 0 && IsPowerOfTwo(n / 2))
  }

  lemma {:induction false} PowerOfTwoOrder(n: nat) returns (k: nat)
    requires IsPowerOfTwo(n)
    ensures n == Pow2(k)
  {
    if n == 1 {
      k := 0;
    } else {
      var j := PowerOfTwoOrder(n / 2);
      k := j + 1;
    }
  }

  lemma {:induction false} Pow2IsPowerOfTwo(k: nat)
    ensures IsPowerOfTwo(Pow2(k))
  {
    if k == 0 {
    } else {
      Pow2IsPowerOfTwo(k - 1);
    }
  }

  lemma {:induction false} Pow2Monotone(j: nat, k: nat)
    requires j <= k
    ensures Pow2(j) <= Pow2(k)
  {
    if k <= j {
    } else {
      Pow2Monotone(j, k - 1);
    }
  }

  lemma {:induction false} Pow2Add(j: nat, k: nat)
    ensures Pow2(j + k) == Pow2(j) * Pow2(k)
  {
    if j == 0 {
    } else {
      Pow2Add(j - 1, k);
      assert 2 * (Pow2(j - 1) * Pow2(k)) == (2 * Pow2(j - 1)) * Pow2(k);
    }
  }

  lemma Pow2Constants()
    ensures Pow2(3) == 8
    ensures Pow2(31) == 0x8000_0000
    ensures Pow2(32) == 0x1_0000_0000
    ensures Pow2(64) == 0x1_0000_0000_0000_0000
  {
    assert Pow2(3) == 8;
    assert Pow2(7) == 128;
    assert Pow2(11) == 0x800;
    assert Pow2(15) == 0x8000;
    assert Pow2(19) == 0x8_0000;
    assert Pow2(23) == 0x80_0000;
    assert Pow2(27) == 0x800_0000;
    assert Pow2(31) == 0x8000_0000;
    assert Pow2(32) == 0x1_0000_0000;
    Pow2Add(32, 32);
  }

  /** Masking with 2^k - 1 is reduction modulo 2^k. */
  lemma AndMask(x: nat, k: nat)
    ensures And(x, Pow2(k) - 1) == x % Pow2(k)
  {
    AndRem(x, k);
  }

  /** `x % m`, named so that proofs can treat it as a plain term. */
  function Rem(x: nat, m: nat): nat
    requires 1 <= m
  {
    x % m
  }

  lemma {:induction false} AndRem(x: nat, k: nat)
    ensures And(x, Pow2(k) - 1) == Rem(x, Pow2(k))
  {
    var m := Pow2(k);
    AndZero(x);
    AndZero(m - 1);
    RemZero(x, m);
    assert k == 0 ==> m == 1;
    assert k > 0 ==> m == 2 * Pow2(k - 1);
    hide And, Pow2, Rem;
    if k == 0 || x == 0 {
    } else {
      AndRem(x / 2, k - 1);
      AndRemDouble(x, Pow2(k - 1), m);
    }
  }

  lemma RemZero(x: nat, m: nat)
    requires 1 <= m
    ensures x == 0 ==> Rem(x, m) == 0
    ensures m == 1 ==> Rem(x, m) == 0
  {}

  lemma AndZero(x: nat)
    ensures And(x, 0) == 0 && And(0, x) == 0
  {}

  lemma AndRemDouble(x: nat, h: nat, m: nat)
    requires 1 <= h && m == 2 * h && And(x / 2, h - 1) == Rem(x / 2, h)
    ensures And(x, m - 1) == Rem(x, m)
  {
    hide And;
    AndOnes(x, h);
    HalvedRemainder(x, h);
  }

  lemma AndOnes(x: nat, h: nat)
    requires 1 <= h
    ensures And(x, 2 * h - 1) == 2 * And(x / 2, h - 1) + x % 2
  {
    assert (2 * h - 1) / 2 == h - 1 && (2 * h - 1) % 2 == 1;
  }

  lemma HalvedRemainder(x: nat, h: nat)
    requires 1 <= h
    ensures x % (2 * h) == 2 * ((x / 2) % h) + x % 2
  {
    var q, r := (x / 2) / h, (x / 2) % h;
    assert x == 2 * (h * q + r) + x % 2;
    DivModUnique(x, 2 * h, q, 2 * r + x % 2);
  }

  lemma LargerQuotient(m: nat, q: nat, r: nat, q': nat, r': nat)
    requires r' < m && q' < q
    ensures m * q' + r' < m * q + r
  {
    assert m * q == m * q' + m + m * (q - q' - 1);
  }

  lemma DivModUnique(x: nat, m: nat, q: nat, r: nat)
    requires r < m && x == m * q + r
    ensures x / m == q && x % m == r
  {
    var q', r' := x / m, x % m;
    assert x == m * q' + r';
    if q' < q {
      LargerQuotient(m, q, r, q', r');
    } else if q < q' {
      LargerQuotient(m, q', r', q, r);
    }
  }

  /** Setting a bit that is clear adds its weight. */
  lemma {:induction false} OrClearBit(v: nat, k: nat)
    requires v < Pow2(k)
    ensures Or(v, Pow2(k)) == v + Pow2(k)
  {
    if k == 0 || v == 0 {
    } else {
      OrClearBit(v / 2, k - 1);
    }
  }

  /** Testing bit k of a value below 2^(k+1). */
  lemma {:induction false} AndTopBit(v: nat, k: nat)
    requires v < 2 * Pow2(k)
    ensures And(v, Pow2(k)) == if v < Pow2(k) then 0 else Pow2(k)
  {
    if k == 0 || v == 0 {
    } else {
      AndTopBit(v / 2, k - 1);
    }
  }
}
