/** Minima and maxima, and quotients and remainders by a divisor that is not a constant. */
module Arithmetic {

  function Min(a: int, b: int): int { if a < b then a else b }
  function Max(a: int, b: int): int { if a < b then b else a }

  lemma MulMono(a: nat, b: nat, n: nat)
    requires a <= b
    ensures a * n <= b * n && (a + 1) * n == a * n + n
  {
  }

  lemma QuotientRemainder(q: nat, r: nat, n: nat)
    requires r < n
    ensures (q * n + r) / n == q && (q * n + r) % n == r
  {
    var x := q * n + r;
    var q', r' := x / n, x % n;
    assert x == q' * n + r';
    if q' < q {
      MulMono(q' + 1, q, n);
      assert false;
    } else if q' > q {
      MulMono(q + 1, q', n);
      assert false;
    }
  }

  /** The least number of units that hold `n`. */
  function UnitsFor(n: nat, unit: nat): (q: nat)
    requires unit > 0
    ensures n <= q * unit
    ensures q > 0 ==> (q - 1) * unit < n
  {
    (n + unit - 1) / unit
  }

  lemma NextRemainder(x: nat, n: nat)
    requires n > 0
    ensures (x + 1) % n == (x % n + 1) % n
  {
    var q, r := x / n, x % n;
    assert x == q * n + r;
    if r + 1 < n {
      QuotientRemainder(q, r + 1, n);
      QuotientRemainder(0, r + 1, n);
    } else {
      QuotientRemainder(q + 1, 0, n);
      QuotientRemainder(1, 0, n);
      MulMono(q, q, n);
    }
  }

  /** Two numbers less than `n` apart leave different remainders. */
  lemma RemaindersDiffer(i: nat, j: nat, n: nat)
    requires i < j < i + n
    ensures i % n != j % n
  {
    var d := j - i;
    var q, r := i / n, i % n;
    assert i == q * n + r;
    MulMono(q, q, n);
    if r + d < n {
      assert j == q * n + (r + d);
      QuotientRemainder(q, r + d, n);
    } else {
      assert j == (q + 1) * n + (r + d - n);
      QuotientRemainder(q + 1, r + d - n, n);
    }
  }

  lemma WholeUnits(q: nat, unit: nat)
    requires unit > 0 && q > 0
    ensures q * unit >= unit && (q * unit) % unit == 0
  {
    MulMono(1, q, unit);
    QuotientRemainder(q, 0, unit);
  }

  /** `n` is a number of whole units, exactly when the least that holds it is no more. */
  lemma WholeUnitsIff(n: nat, q: nat, unit: nat)
    requires unit > 0 && q > 0 && (q - 1) * unit < n <= q * unit
    ensures q * unit <= n <==> n % unit == 0
  {
    MulMono(q - 1, q, unit);
    if n == q * unit {
      QuotientRemainder(q, 0, unit);
    } else {
      QuotientRemainder(q - 1, n - (q - 1) * unit, unit);
    }
  }

  /** Going on by whole pages, less the place in the page, ends at a page boundary. */
  lemma RoundsUp(at: nat, room: nat, page: nat)
    requires page > 0 && room >= page && room % page == 0
    ensures (at + room - at % page) % page == 0
  {
    var q, q' := at / page, room / page;
    assert at - at % page == q * page && room == q' * page;
    assert q * page + q' * page == (q + q') * page;
    QuotientRemainder(q + q', 0, page);
  }
}
