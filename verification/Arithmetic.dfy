// Division facts for offsets cut into files of a fixed but arbitrary size.

module Arithmetic {
  lemma {:induction false} MulMonotone(a: int, b: int, s: nat)
    requires a <= b
    ensures a * s <= b * s
    decreases b - a
  {
    if a < b { MulMonotone(a, b - 1, s); }
  }

  // The quotient is the only k with k * s <= a < (k + 1) * s.
  lemma {:induction false} DivUnique(a: int, k: int, s: int)
    requires s > 0 && k * s <= a < k * s + s
    ensures a / s == k && a % s == a - k * s
  {
    var q := a / s;
    assert a == q * s + a % s;
    assert (q + 1) * s == q * s + s && (k + 1) * s == k * s + s;
    MulOrder(q + 1, k, s);
    MulOrder(k + 1, q, s);
  }

  lemma {:induction false} MulOrder(a: int, b: int, s: nat)
    ensures a <= b ==> a * s <= b * s
  {
    if a <= b { MulMonotone(a, b, s); }
  }

  lemma {:induction false} DivBounds(a: int, s: int)
    requires s > 0
    ensures (a / s) * s <= a < (a / s) * s + s && a % s == a - (a / s) * s
  {
  }

  // Stepping forward by whole multiples of s moves the quotient and keeps the remainder.
  lemma {:induction false} DivShift(a: int, k: int, s: int)
    requires s > 0
    ensures (a + k * s) / s == a / s + k && (a + k * s) % s == a % s
  {
    DivBounds(a, s);
    assert (a / s + k) * s == (a / s) * s + k * s;
    DivUnique(a + k * s, a / s + k, s);
  }

  // Adding less than the rest of the current block stays in the block.
  lemma {:induction false} ModAdd(a: int, d: int, s: int)
    requires s > 0 && 0 <= d && a % s + d < s
    ensures (a + d) % s == a % s + d && (a + d) / s == a / s
  {
    DivBounds(a, s);
    DivUnique(a + d, a / s, s);
  }

  // Adding exactly the rest of the block lands on the next block's start.
  lemma {:induction false} ModRoll(a: int, s: int)
    requires s > 0
    ensures (a + (s - a % s)) % s == 0 && (a + (s - a % s)) / s == a / s + 1
  {
    DivBounds(a, s);
    assert (a / s + 1) * s == (a / s) * s + s;
    DivUnique(a + (s - a % s), a / s + 1, s);
  }

  // The position of an offset inside its block.
  function InFile(a: int, s: int): (r: int)
    requires s > 0
    ensures 0 <= r < s
  {
    a % s
  }

  lemma {:induction false} InFileAdd(a: int, d: int, s: int)
    requires s > 0 && 0 <= d && InFile(a, s) + d < s
    ensures InFile(a + d, s) == InFile(a, s) + d
  {
    ModAdd(a, d, s);
  }

  lemma {:induction false} InFileRoll(a: int, s: int)
    requires s > 0
    ensures InFile(a + (s - InFile(a, s)), s) == 0
  {
    ModRoll(a, s);
  }

  // Go's integer quotient and remainder, which truncate toward zero.
  function Quo(a: int, b: int): int
    requires b > 0
  {
    if a >= 0 then a / b else -((-a) / b)
  }

  function Rem(a: int, b: int): int
    requires b > 0
  {
    a - Quo(a, b) * b
  }
}
