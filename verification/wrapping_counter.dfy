/** `DataWithWrappingCounter`: subtraction of fixed-width hardware counters that may
    have wrapped around once between two readings. */
module WrappingCounter {

  /** `@@counter_modulus` before `set_32_bit` has run; `sub_with_wrap` would divide by zero. */
  const UnsetModulus: nat := 0

  const Modulus32: nat := 0x1_0000_0000
  const Modulus64: nat := 0x1_0000_0000_0000_0000

  /** `set_32_bit`: the modulus for 32-bit or for 64-bit counters. */
  function SetThirtyTwoBit(is32bit: bool): (m: nat)
    ensures m > UnsetModulus
  {
    if is32bit then Modulus32 else Modulus64
  }

  /** `sub_with_wrap`: the increase from reading `b` to reading `a` of a counter that
      counts modulo `m`. */
  function SubWithWrap(m: nat, a: int, b: int): (r: int)
    requires m > UnsetModulus
    ensures 0 <= r < m
    ensures (r - (a - b)) % m == 0
    ensures 0 <= a - b < m ==> r == a - b
  {
    var r := (m + a - b) % m;
    var q := (m + a - b) / m;
    assert r - (a - b) == (1 - q) * m;
    DivModUnique(r - (a - b), m, 1 - q, 0);
    if 0 <= a - b < m then DivModUnique(m + a - b, m, 1, a - b); r else r
  }

  /** `k` is the increase of a counter from `before` to `now`, modulo `m`. */
  predicate IsIncrease(m: nat, now: int, before: int, k: int)
    requires m > 0
  {
    0 <= k < m && (before + k) % m == now % m
  }

  lemma MulAtLeast(d: int, m: int)
    requires m > 0
    ensures d >= 1 ==> d * m >= m
    ensures d <= -1 ==> d * m <= -m
  {
    if d >= 1 {
      assert d * m == (d - 1) * m + m;
    } else if d <= -1 {
      assert d * m == (d + 1) * m - m;
    }
  }

  /** Euclidean division has one quotient and one remainder. */
  lemma DivModUnique(x: int, m: int, q: int, r: int)
    requires m > 0 && 0 <= r < m && x == q * m + r
    ensures x % m == r && x / m == q
  {
    var q0, r0 := x / m, x % m;
    assert (q - q0) * m == r0 - r;
    MulAtLeast(q - q0, m);
  }

  /** Adding the wrapped difference to the older reading gives back the newer one, modulo `m`. */
  lemma SubWithWrapUndoes(m: nat, a: int, b: int)
    requires m > 0
    ensures (b + SubWithWrap(m, a, b)) % m == a % m
  {
    var r := SubWithWrap(m, a, b);
    var k := (r - (a - b)) / m;
    DivModUnique(r - (a - b), m, k, 0);
    var qa := a / m;
    assert b + r == (qa + k) * m + a % m;
    DivModUnique(b + r, m, qa + k, a % m);
  }

  /** The wrapped difference is the only value in [0, m) congruent to `a - b`. */
  lemma SubWithWrapUnique(m: nat, a: int, b: int, r: int)
    requires m > 0
    requires 0 <= r < m && (r - (a - b)) % m == 0
    ensures r == SubWithWrap(m, a, b)
  {
    var s := SubWithWrap(m, a, b);
    var i := (r - (a - b)) / m;
    var j := (s - (a - b)) / m;
    DivModUnique(r - (a - b), m, i, 0);
    DivModUnique(s - (a - b), m, j, 0);
    assert r - s == (i - j) * m;
    MulAtLeast(i - j, m);
  }

  /** A counter that wrapped once between the readings still yields its true increase. */
  lemma SingleWrap(m: nat, a: int, b: int)
    requires 0 <= a < b < m
    ensures SubWithWrap(m, a, b) == m + a - b
  {
    SubWithWrapUnique(m, a, b, m + a - b);
  }

  /** The two widths give different answers once a 32-bit counter has wrapped. */
  lemma WidthSelection()
    ensures SetThirtyTwoBit(true) == 0x1_0000_0000
    ensures SetThirtyTwoBit(false) == 0x1_0000_0000_0000_0000
    ensures SubWithWrap(SetThirtyTwoBit(true), 5, 4294967290) == 11
    ensures SubWithWrap(SetThirtyTwoBit(false), 5, 4294967290) == 0x1_0000_0000_0000_0000 - 4294967285
  {
    SingleWrap(Modulus32, 5, 4294967290);
    SingleWrap(Modulus64, 5, 4294967290);
  }
}
