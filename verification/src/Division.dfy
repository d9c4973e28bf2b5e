/** The few facts about products and remainders that the models need. */
module Division {

  lemma Distributes(a: int, b: int, m: int)
    ensures (a + b) * m == a * m + b * m
  {
  }

  lemma NonNegative(a: int, m: int)
    requires 0 <= a && 0 <= m
    ensures 0 <= a * m
  {
  }

  lemma Ordered(a: int, b: int, m: int)
    requires a <= b && 0 <= m
    ensures a * m <= b * m
    ensures a < b ==> a * m + m <= b * m
  {
    NonNegative(b - a, m);
    Distributes(b - a, a, m);
    if a < b {
      NonNegative(b - a - 1, m);
      Distributes(b - a - 1, a + 1, m);
      Distributes(a, 1, m);
    }
  }

  /** There is one way to write a number as a multiple and a remainder. */
  lemma Unique(x: int, m: int, q: int, r: int)
    requires 0 <= r < m && x == q * m + r
    ensures x / m == q && x % m == r
  {
    var p := x / m;
    assert x == p * m + x % m;
    if p < q {
      Ordered(p, q, m);
    } else if q < p {
      Ordered(q, p, m);
    }
  }

  lemma Multiple(q: int, m: int)
    requires 0 < m
    ensures (q * m) % m == 0 && (q * m) / m == q
  {
    Unique(q * m, m, q, 0);
  }

  lemma MultipleAdded(x: int, q: int, m: int)
    requires 0 < m
    ensures (x + q * m) % m == x % m && (x + q * m) / m == x / m + q
  {
    Distributes(x / m, q, m);
    Unique(x + q * m, m, x / m + q, x % m);
  }

  lemma QuotientsOrdered(x: int, y: int, m: int)
    requires 0 < m && x <= y
    ensures x / m <= y / m
  {
    if y / m < x / m {
      Ordered(y / m, x / m, m);
    }
  }
}
