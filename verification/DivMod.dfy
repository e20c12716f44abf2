/** Division by a unit that is not a constant. Each fact is kept apart, away from the others. */
module DivMod {

  lemma Grows(i: nat, j: nat, unit: nat)
    requires i <= j
    ensures i * unit <= j * unit
  {
  }

  lemma Divided(x: nat, unit: nat)
    requires unit > 0
    ensures x == x / unit * unit + x % unit
  {
  }

  lemma OneMore(q: nat, unit: nat)
    ensures (q + 1) * unit == q * unit + unit
  {
  }

  /** The least multiple of the unit from `n` on. */
  function RoundUp(n: nat, unit: nat): nat
    requires unit > 0
  {
    (n + unit - 1) / unit * unit
  }

  lemma RoundUpIsLeast(n: nat, unit: nat)
    requires unit > 0
    ensures n <= RoundUp(n, unit) < n + unit
    ensures RoundUp(n, unit) % unit == 0
  {
    var x := n + unit - 1;
    Divided(x, unit);
    Quotient(x / unit, 0, unit);
  }

  lemma Unique(d: nat, r: nat, m: nat, s: nat, unit: nat)
    requires r < unit && s < unit && d * unit + r == m * unit + s
    ensures d == m && r == s
  {
    if d < m {
      OneMore(d, unit);
      Grows(d + 1, m, unit);
    }
    if m < d {
      OneMore(m, unit);
      Grows(m + 1, d, unit);
    }
  }

  lemma Quotient(m: nat, s: nat, unit: nat)
    requires s < unit
    ensures (m * unit + s) / unit == m && (m * unit + s) % unit == s
  {
    var x := m * unit + s;
    Divided(x, unit);
    Unique(x / unit, x % unit, m, s, unit);
  }
}
