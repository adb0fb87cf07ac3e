/**
 Fairness of a round-robin cursor that is a 32-bit word: dispatch k of a run goes to slot
 ((cursor + k) mod 2^32) mod n.
 */
module RoundRobin {
  import opened Bits
  import opened Modular

  const U32: nat := 0x1_0000_0000

  function Slot(n: nat, cursor: nat, k: nat): (s: nat)
    requires 0 < n
    ensures s < n
  {
    ((cursor + k) % U32) % n
  }

  /** How many of m dispatches from `cursor` on go to slot s. */
  function Served(n: nat, cursor: nat, m: nat, s: nat): nat
    requires 0 < n
  {
    if m == 0 then 0
    else Served(n, cursor, m - 1, s) + if Slot(n, cursor, m - 1) == s then 1 else 0
  }

  /** How many numbers below x are s modulo n. */
  function Below(n: nat, x: nat, s: nat): nat
    requires s < n
  {
    (x + n - 1 - s) / n
  }

  lemma BelowStep(n: nat, x: nat, s: nat)
    requires s < n
    ensures Below(n, x + 1, s) == Below(n, x, s) + if x % n == s then 1 else 0
    ensures Below(n, 0, s) == 0
  {
    var q, r := x / n, x % n;
    assert x == n * q + r;
    assert n * (q + 1) == n * q + n;
    if s <= r {
      DivModUnique(x + n - s, n, q + 1, r - s);
    } else {
      DivModUnique(x + n - s, n, q, n + r - s);
    }
    if s < r {
      DivModUnique(x + n - 1 - s, n, q + 1, r - 1 - s);
    } else {
      DivModUnique(x + n - 1 - s, n, q, n + r - 1 - s);
    }
    DivModUnique(n - 1 - s, n, 0, n - 1 - s);
  }

  /** Before the cursor wraps. */
  lemma {:induction false} ServedUnwrapped(n: nat, cursor: nat, m: nat, s: nat)
    requires s < n && cursor + m <= U32
    ensures Served(n, cursor, m, s) == Below(n, cursor + m, s) - Below(n, cursor, s)
  {
    hide Slot, Below;
    if m == 0 {
    } else {
      ServedUnwrapped(n, cursor, m - 1, s);
      BelowStep(n, cursor + m - 1, s);
      SlotUnwrapped(n, cursor, m - 1);
    }
  }

  lemma SlotUnwrapped(n: nat, cursor: nat, k: nat)
    requires 0 < n && cursor + k < U32
    ensures Slot(n, cursor, k) == (cursor + k) % n
  {}

  lemma FloorShare(a: nat, m: nat, n: nat)
    requires 0 < n
    ensures m / n <= (a + m) / n - a / n <= m / n + 1
  {
    var q, r, q', r' := a / n, a % n, m / n, m % n;
    assert a == n * q + r && m == n * q' + r';
    Carry(a, m, n, q, r, q', r');
  }

  lemma Carry(a: nat, m: nat, n: nat, q: nat, r: nat, q': nat, r': nat)
    requires r < n && r' < n && a == n * q + r && m == n * q' + r'
    ensures q + q' <= (a + m) / n <= q + q' + 1
  {
    assert n * (q + q') == n * q + n * q';
    assert n * (q + q' + 1) == n * q + n * q' + n;
    if r + r' < n {
      DivModUnique(a + m, n, q + q', r + r');
    } else {
      DivModUnique(a + m, n, q + q' + 1, r + r' - n);
    }
  }

  /** Every slot gets m / n dispatches or one more, as long as the cursor does not wrap. */
  lemma FairWithoutWrap(n: nat, cursor: nat, m: nat, s: nat)
    requires s < n && cursor + m <= U32
    ensures m / n <= Served(n, cursor, m, s) <= m / n + 1
  {
    ServedUnwrapped(n, cursor, m, s);
    FloorShare(cursor + n - 1 - s, m, n);
    assert cursor + n - 1 - s + m == cursor + m + n - 1 - s;
  }

  lemma {:induction false} ServedSplit(n: nat, cursor: nat, m: nat, m': nat, s: nat)
    requires 0 < n
    ensures Served(n, cursor, m + m', s) == Served(n, cursor, m, s) + Served(n, (cursor + m) % U32, m', s)
  {
    hide Slot;
    if m' == 0 {
    } else {
      ServedSplit(n, cursor, m, m' - 1, s);
      SlotSplit(n, cursor, m, m' - 1);
    }
  }

  lemma SlotSplit(n: nat, cursor: nat, m: nat, k: nat)
    requires 0 < n
    ensures Slot(n, (cursor + m) % U32, k) == Slot(n, cursor, m + k)
  {
    ModAdd(cursor + m, k, U32);
  }

  /** Any two slots differ by at most one, and one more for each time the cursor wraps. */
  lemma {:induction false} FairAcrossWraps(n: nat, cursor: nat, m: nat, s: nat, s': nat)
    requires s < n && s' < n && cursor < U32
    ensures Served(n, cursor, m, s) <= Served(n, cursor, m, s') + 1 + (cursor + m) / U32
    decreases m
  {
    hide Served;
    if cursor + m < U32 {
      FairWithoutWrap(n, cursor, m, s);
      FairWithoutWrap(n, cursor, m, s');
    } else {
      var first := U32 - cursor;
      ServedSplit(n, cursor, first, m - first, s);
      ServedSplit(n, cursor, first, m - first, s');
      FairWithoutWrap(n, cursor, first, s);
      FairWithoutWrap(n, cursor, first, s');
      FairAcrossWraps(n, 0, m - first, s, s');
    }
  }

  /** When n divides 2^32 the wrap cannot be noticed. */
  lemma SlotIgnoresWrap(n: nat, x: nat)
    requires 0 < n && U32 % n == 0
    ensures (x % U32) % n == x % n
  {
    var w, y := x / U32, x % U32;
    assert x == U32 * w + y && U32 == n * (U32 / n);
    assert x == n * ((U32 / n) * w + y / n) + y % n by {
      assert y == n * (y / n) + y % n;
      assert U32 * w == n * ((U32 / n) * w);
      assert n * ((U32 / n) * w + y / n) == n * ((U32 / n) * w) + n * (y / n);
    }
    DivModUnique(x, n, (U32 / n) * w + y / n, y % n);
  }

  lemma SlotIs(n: nat, cursor: nat, k: nat)
    requires 0 < n
    ensures Slot(n, cursor, k) == ((cursor + k) % U32) % n
  {}

  lemma {:induction false} ServedDividing(n: nat, cursor: nat, m: nat, s: nat)
    requires s < n && U32 % n == 0
    ensures Served(n, cursor, m, s) == Below(n, cursor + m, s) - Below(n, cursor, s)
  {
    if m == 0 {
    } else {
      ServedDividing(n, cursor, m - 1, s);
      BelowStep(n, cursor + m - 1, s);
      SlotIgnoresWrap(n, cursor + m - 1);
      SlotIs(n, cursor, m - 1);
      hide Below, Slot;
    }
  }

  ghost predicate AlwaysFair(n: nat)
    requires 0 < n
  {
    forall cursor: nat, m: nat, s: nat, s': nat :: cursor < U32 && s < n && s' < n ==>
      Served(n, cursor, m, s) <= Served(n, cursor, m, s') + 1
  }

  /** Slots stay within one of each other for ever iff their number divides 2^32. */
  lemma AlwaysFairIffDividing(n: nat)
    requires 0 < n < U32
    ensures AlwaysFair(n) <==> U32 % n == 0
  {
    if U32 % n == 0 {
      forall cursor: nat, m: nat, s: nat, s': nat | cursor < U32 && s < n && s' < n
        ensures Served(n, cursor, m, s) <= Served(n, cursor, m, s') + 1
      {
        ServedDividing(n, cursor, m, s);
        ServedDividing(n, cursor, m, s');
        FloorShare(cursor + n - 1 - s, m, n);
        FloorShare(cursor + n - 1 - s', m, n);
        assert cursor + n - 1 - s + m == cursor + m + n - 1 - s;
        assert cursor + n - 1 - s' + m == cursor + m + n - 1 - s';
      }
    } else {
      UnfairAtWrap(n);
    }
  }

  /** The slots before the wrap are the first ones again after it. */
  lemma UnfairAtWrap(n: nat)
    requires 0 < n < U32 && U32 % n != 0
    ensures var r := U32 % n;
            Served(n, U32 - r, 2 * r, 0) == 2 && Served(n, U32 - r, 2 * r, n - 1) == 0
  {
    var q, r := U32 / n, U32 % n;
    assert U32 - r == n * q;
    DivModUnique(U32 - r, n, q, 0);
    assert (U32 - r + r) % U32 == 0;
    DivModUnique(0, n, 0, 0);
    hide Served;
    ServedSplit(n, U32 - r, r, r, 0);
    ServedSplit(n, U32 - r, r, r, n - 1);
    FirstSlots(n, U32 - r, q, r);
    FirstSlots(n, 0, 0, r);
  }

  lemma FirstSlots(n: nat, cursor: nat, q: nat, r: nat)
    requires 0 < r < n && cursor + r <= U32 && cursor == n * q
    ensures Served(n, cursor, r, 0) == 1 && Served(n, cursor, r, n - 1) == 0
  {
    ServedUnwrapped(n, cursor, r, 0);
    ServedUnwrapped(n, cursor, r, n - 1);
    hide Served;
    assert n * (q + 1) == n * q + n;
    DivModUnique(cursor + n - 1, n, q, n - 1);
    DivModUnique(cursor + r + n - 1, n, q + 1, r - 1);
    DivModUnique(cursor, n, q, 0);
    DivModUnique(cursor + r, n, q, r);
  }

  /** The dispatches that go to slots below t. */
  function ServedBelow(n: nat, cursor: nat, m: nat, t: nat): nat
    requires 0 < n
  {
    if t == 0 then 0 else ServedBelow(n, cursor, m, t - 1) + Served(n, cursor, m, t - 1)
  }

  /** No dispatch is lost: the slots' shares add up to all of them. */
  lemma {:induction false} AllServed(n: nat, cursor: nat, m: nat)
    requires 0 < n
    ensures ServedBelow(n, cursor, m, n) == m
  {
    if m == 0 {
      NoneBelow(n, cursor, n);
    } else {
      AllServed(n, cursor, m - 1);
      OneMoreBelow(n, cursor, m, n);
    }
  }

  lemma {:induction false} NoneBelow(n: nat, cursor: nat, t: nat)
    requires 0 < n
    ensures ServedBelow(n, cursor, 0, t) == 0
  {
    if t == 0 {
    } else {
      NoneBelow(n, cursor, t - 1);
    }
  }

  lemma {:induction false} OneMoreBelow(n: nat, cursor: nat, m: nat, t: nat)
    requires 0 < n && 0 < m
    ensures ServedBelow(n, cursor, m, t) ==
            ServedBelow(n, cursor, m - 1, t) + if Slot(n, cursor, m - 1) < t then 1 else 0
  {
    hide Slot;
    if t == 0 {
    } else {
      OneMoreBelow(n, cursor, m, t - 1);
    }
  }
}
