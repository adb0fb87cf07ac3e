/** Remainders of positions that grow without bound. */
module Modular {
  import opened Bits

  lemma ModAdd(a: nat, k: nat, m: nat)
    requires 1 <= m
    ensures (a % m + k) % m == (a + k) % m
  {
    var q, x := a / m, a % m + k;
    assert a + k == m * (q + x / m) + x % m;
    DivModUnique(a + k, m, q + x / m, x % m);
  }

  lemma ModOfMultiple(a: nat, m: nat, t: nat)
    requires 1 <= m && 1 <= m * t
    ensures (a % (m * t)) % m == a % m
  {
    var mt := m * t;
    var q, b := a / mt, a % mt;
    assert a == mt * q + b;
    assert mt * q == m * (t * q);
    assert m * (t * q + b / m) == m * (t * q) + m * (b / m);
    DivModUnique(a, m, t * q + b / m, b % m);
  }

  /** Two positions less than m apart never share a slot of an m-slot ring. */
  lemma ModDistinct(x: nat, y: nat, m: nat)
    requires x < y < x + m
    ensures x % m != y % m
  {
    var q, r, d := x / m, x % m, y - x;
    if r + d < m {
      DivModUnique(y, m, q, r + d);
    } else {
      assert y == m * (q + 1) + (r + d - m);
      DivModUnique(y, m, q + 1, r + d - m);
    }
  }

  /** `y.wrapping_sub(x)` on words of m values. */
  function WrapSub(y: nat, x: nat, m: nat): nat
    requires x < m && y < m
  {
    if x <= y then y - x else m + y - x
  }

  /** Wrapping subtraction recovers a distance shorter than m. */
  lemma ModDistance(x: nat, y: nat, m: nat)
    requires x <= y < x + m
    ensures WrapSub(y % m, x % m, m) == y - x
  {
    var q, r, d := x / m, x % m, y - x;
    if r + d < m {
      DivModUnique(y, m, q, r + d);
    } else {
      assert y == m * (q + 1) + (r + d - m);
      DivModUnique(y, m, q + 1, r + d - m);
    }
  }

  lemma Scale(a: nat, b: nat, m: nat)
    requires a <= b
    ensures m * a <= m * b
  {
    assert m * b == m * a + m * (b - a);
  }

  /** What a machine word keeps of x. */
  function Wrap(x: nat): u64
  {
    x % U64
  }

  lemma WrapSum(a: nat, b: nat)
    ensures Wrap(Wrap(a) + b) == Wrap(a + b)
    ensures Wrap(Wrap(a) + Wrap(b)) == Wrap(a + b)
    ensures a < U64 ==> Wrap(a) == a
  {
    ModAdd(a, b, U64);
    ModAdd(a, b % U64, U64);
    ModAdd(b, a, U64);
  }

  /** Together with WrapSum: the low 64 bits, neither more nor less. */
  lemma WrapLap(a: nat)
    ensures Wrap(a + 0x1_0000_0000_0000_0000) == Wrap(a)
  {
    DivModUnique(a + U64, U64, a / U64 + 1, a % U64);
  }

  function Inc(c: u64): u64
  {
    var n: nat := c;
    Wrap(n + 1)
  }

  lemma IncIs(c: u64)
    ensures Inc(c) == (c as int + 1) % 0x1_0000_0000_0000_0000
  {}

  lemma IncWrap(a: nat)
    ensures Inc(Wrap(a)) == Wrap(a + 1)
  {
    WrapSum(a, 1);
  }

  function SaturatingSub(a: nat, b: nat): nat
  {
    if b <= a then a - b else 0
  }
}
