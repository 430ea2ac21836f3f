/** Multiples of a positive number. */
module Multiples {

  lemma AtLeast(k: nat, base: nat)
    requires k > 0
    ensures k * base >= base
  {}

  lemma OneMore(k: nat, base: nat)
    ensures (k + 1) * base == k * base + base
  {}

  /** Two multiples of `base` less than `base` apart are the same. */
  lemma SameMultiple(q: int, k: int, base: nat)
    requires q * base - k * base < base && k * base - q * base < base
    ensures q == k
  {
    assert (q - k) * base == q * base - k * base && (k - q) * base == k * base - q * base;
    if q > k {
      AtLeast(q - k, base);
    } else if q < k {
      AtLeast(k - q, base);
    }
  }

  lemma IsMultiple(k: nat, base: nat)
    requires base > 0
    ensures k * base % base == 0 && k * base / base == k
  {
    SameMultiple(k * base / base, k, base);
  }

  lemma RestOfDivision(n: nat, base: nat, q: nat, r: nat)
    requires base > 0 && n == q * base + r && r < base
    ensures n / base == q
  {
    SameMultiple(n / base, q, base);
  }

  /** What is left behind the last multiple. */
  lemma RestIs(n: nat, m: nat, base: nat)
    requires base > 0 && n % base == 0 && m < base
    ensures (n + m) % base == m
  {
    SameMultiple((n + m) / base, n / base, base);
  }

  lemma OneBefore(n: nat, base: nat)
    requires 0 < base <= n && n % base == 0
    ensures (n - base) % base == 0
  {
    assert n - base == (n / base - 1) * base;
    IsMultiple(n / base - 1, base);
  }

  lemma Sum(a: nat, b: nat, base: nat)
    requires base > 0 && a % base == 0 && b % base == 0
    ensures (a + b) % base == 0
  {
    assert a + b == (a / base + b / base) * base;
    IsMultiple(a / base + b / base, base);
  }

  lemma Difference(a: nat, b: nat, base: nat)
    requires base > 0 && a % base == 0 && b % base == 0 && b <= a
    ensures (a - b) % base == 0
  {
    assert a - b == (a / base - b / base) * base;
    IsMultiple(a / base - b / base, base);
  }

  lemma Itself(base: nat)
    requires base > 0
    ensures base % base == 0
  {
    IsMultiple(1, base);
  }

  lemma Positive(n: nat, base: nat)
    requires base > 0 && n % base == 0 && n > 0
    ensures n >= base
  {
    if n < base {
      SameMultiple(n / base, 0, base);
    }
  }

  /** Two multiples less than one apart, by their rests. */
  lemma MultipleUnique(a: nat, b: nat, base: nat)
    requires base > 0 && a % base == 0 && b % base == 0 && a - b < base && b - a < base
    ensures a == b
  {
    SameMultiple(a / base, b / base, base);
  }

  /** The multiple of `base` at or below `m`. */
  function Multiple(m: nat, base: nat): (r: nat)
    requires base > 0
    ensures r <= m < r + base && r % base == 0
  {
    var r := m / base * base;
    assert r == m - m % base;
    IsMultiple(m / base, base);
    r
  }
}
