/** Rounding of amounts to cents, on exact values. The validators use three
    rules: JavaScript's `Math.round` (ties towards +infinity), the digits of
    `Number.prototype.toFixed` (ties away from zero) and Python's `round`
    (ties to even). They agree everywhere except on ties. */
module Rounding {
  import opened Values

  /** `Math.round(x)`: the nearest integer, a tie going towards +infinity. */
  function RoundHalfUp(x: real): (k: int)
    ensures x - 0.5 < k as real <= x + 0.5
  {
    (x + 0.5).Floor
  }

  /** The integer `toFixed` writes: the nearest integer, a tie going away
      from zero (`toFixed` rounds the magnitude and puts the sign back). */
  function RoundHalfAway(x: real): (k: int)
    ensures x - 0.5 <= k as real <= x + 0.5
    ensures k as real == x + 0.5 ==> x >= 0.0
    ensures k as real == x - 0.5 ==> x < 0.0
  {
    if x >= 0.0 then RoundHalfUp(x) else -RoundHalfUp(-x)
  }

  /** Python's `round` on an exact value: the nearest integer, a tie going
      to the even one. */
  function RoundHalfEven(x: real): (k: int)
    ensures x - 0.5 <= k as real <= x + 0.5
    ensures k as real == x + 0.5 || k as real == x - 0.5 ==> k % 2 == 0
  {
    var f := x.Floor;
    if x - f as real < 0.5 then f
    else if x - f as real > 0.5 then f + 1
    else if f % 2 == 0 then f
    else f + 1
  }

  /** An integer strictly closer than one half to `x` is what every rule
      returns. */
  lemma RoundingOffTies(x: real, j: int)
    requires x - 0.5 < j as real < x + 0.5
    ensures RoundHalfUp(x) == j && RoundHalfAway(x) == j && RoundHalfEven(x) == j
  {
  }

  /** `x` lies exactly half-way between two integers. */
  predicate IsTie(x: real) {
    (x + 0.5).Floor as real == x + 0.5
  }

  /** Off the ties, the three rules agree. */
  lemma RulesAgreeOffTies(x: real)
    requires !IsTie(x)
    ensures RoundHalfAway(x) == RoundHalfUp(x) && RoundHalfEven(x) == RoundHalfUp(x)
  {
    RoundingOffTies(x, RoundHalfUp(x));
  }

  /** `r` has at most two decimals. */
  predicate IsCents(r: real) {
    (r * 100.0).Floor as real == r * 100.0
  }

  /** `m` is `n` rounded to cents by some rule: a value with at most two
      decimals no further than half a cent away; infinities and NaN are left
      as they are. */
  predicate RoundedToCents(n: Number, m: Number) {
    match n
    case Finite(r) => m.Finite? && IsCents(m.r) && r - 0.005 <= m.r <= r + 0.005
    case _ => m == n
  }

  lemma CentsOf(k: int)
    ensures IsCents(k as real / 100.0)
  {
    assert k as real / 100.0 * 100.0 == k as real;
  }

  /** `Math.round(n * 100) / 100` (frontend/js/utils/validator.js and
      frontend/js/utils/sanitizer.js). */
  function CentsHalfUp(n: Number): (m: Number)
    ensures RoundedToCents(n, m)
  {
    match n
    case Finite(r) => CentsOf(RoundHalfUp(r * 100.0)); Finite(RoundHalfUp(r * 100.0) as real / 100.0)
    case _ => n
  }

  /** `parseFloat(n.toFixed(2))` (frontend/js/security.js). */
  function CentsHalfAway(n: Number): (m: Number)
    ensures RoundedToCents(n, m)
  {
    match n
    case Finite(r) => CentsOf(RoundHalfAway(r * 100.0)); Finite(RoundHalfAway(r * 100.0) as real / 100.0)
    case _ => n
  }

  /** Python's `round(n, 2)` (backend/utils/validators.py, backend/app.py). */
  function CentsHalfEven(n: Number): (m: Number)
    ensures RoundedToCents(n, m)
  {
    match n
    case Finite(r) => CentsOf(RoundHalfEven(r * 100.0)); Finite(RoundHalfEven(r * 100.0) as real / 100.0)
    case _ => n
  }

  /** An amount that already has at most two decimals is left unchanged by
      every rule, so each rounding is idempotent. */
  lemma CentsOfCents(n: Number)
    requires n.Finite? ==> IsCents(n.r)
    ensures CentsHalfUp(n) == n && CentsHalfAway(n) == n && CentsHalfEven(n) == n
  {
    if n.Finite? {
      var j := (n.r * 100.0).Floor;
      RoundingOffTies(n.r * 100.0, j);
      assert j as real / 100.0 == n.r;
    }
  }

  /** Off the ties (in cents) the three roundings give the same amount. */
  lemma CentsAgreeOffTies(n: Number)
    requires n.Finite? ==> !IsTie(n.r * 100.0)
    ensures CentsHalfAway(n) == CentsHalfUp(n) && CentsHalfEven(n) == CentsHalfUp(n)
  {
    if n.Finite? {
      RulesAgreeOffTies(n.r * 100.0);
    }
  }

  /** On a tie the rules part ways: 0.125 and -0.125 are exact binary
      values, so the tie is real. */
  lemma CentsTies()
    ensures CentsHalfUp(Finite(0.125)) == Finite(0.13) && CentsHalfUp(Finite(-0.125)) == Finite(-0.12)
    ensures CentsHalfAway(Finite(0.125)) == Finite(0.13) && CentsHalfAway(Finite(-0.125)) == Finite(-0.13)
    ensures CentsHalfEven(Finite(0.125)) == Finite(0.12) && CentsHalfEven(Finite(-0.125)) == Finite(-0.12)
  {
  }

  /** An amount within the limit stays within it once rounded, since the
      limit has no decimals. */
  lemma CentsWithinLimit(n: Number)
    requires !ExceedsLimit(n)
    ensures !ExceedsLimit(CentsHalfUp(n)) && !ExceedsLimit(CentsHalfAway(n)) && !ExceedsLimit(CentsHalfEven(n))
  {
    if n.Finite? {
      var x := n.r * 100.0;
      NearestWithinLimit(x, RoundHalfUp(x));
      NearestWithinLimit(x, RoundHalfAway(x));
      NearestWithinLimit(x, RoundHalfEven(x));
    }
  }

  /** An integer within one half of a value of magnitude at most 10^8 has
      magnitude at most 10^8, and so has at most one million as a number of
      cents. */
  lemma NearestWithinLimit(x: real, k: int)
    requires -100000000.0 <= x <= 100000000.0
    requires x - 0.5 <= k as real <= x + 0.5
    ensures -1000000.0 <= k as real / 100.0 <= 1000000.0
  {
    assert -100000000 <= k <= 100000000;
  }

  /** Less than half a cent away from zero, every rule gives zero. */
  lemma SubCentIsZero(r: real)
    requires -0.005 < r < 0.005
    ensures CentsHalfUp(Finite(r)) == Finite(0.0)
    ensures CentsHalfAway(Finite(r)) == Finite(0.0)
    ensures CentsHalfEven(Finite(r)) == Finite(0.0)
  {
    RoundingOffTies(r * 100.0, 0);
  }
}
