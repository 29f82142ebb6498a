/** Facts about multiples of a positive number that the solver does not find alone. */
module Multiples {
  lemma Scaled(d: int, r: int)
    requires 1 <= r
    ensures d <= -1 ==> d * r <= -r
    ensures d >= 1 ==> d * r >= r
  {
    if d >= 1 {
      assert (d - 1) * r >= 0;
    } else if d <= -1 {
      assert (d + 1) * r <= 0;
    }
  }

  lemma MultipleOf(q: int, r: int)
    requires 1 <= r
    ensures (q * r) % r == 0 && (q * r) / r == q
  {
    var d := (q * r) / r - q;
    assert d * r == (q * r) / r * r - q * r;
    Scaled(d, r);
  }

  lemma Difference(t: int, b: int, r: int)
    requires 1 <= r
    ensures (t * r - b * r) % r == 0
    ensures b * r < t * r <==> b < t
    ensures b + 1 == t ==> b * r + r == t * r
  {
    assert (t - b) * r == t * r - b * r;
    MultipleOf(t - b, r);
    Scaled(t - b, r);
  }

  lemma MultipleShift(a: int, r: int)
    requires 1 <= r && a % r == 0
    ensures (a + r) % r == 0 && (a - r) % r == 0
    ensures (a + r) / r == a / r + 1 && (a - r) / r == a / r - 1
  {
    assert a + r == (a / r + 1) * r && a - r == (a / r - 1) * r;
    MultipleOf(a / r + 1, r);
    MultipleOf(a / r - 1, r);
  }

  /** Two different multiples of `r` are at least `r` apart. */
  lemma MultipleGap(a: int, b: int, r: int)
    requires 1 <= r && a % r == 0 && b % r == 0 && a < b
    ensures a + r <= b
  {
    var d := b / r - a / r;
    assert d * r == b / r * r - a / r * r == b - a;
    Scaled(d, r);
  }

  /** How many pieces of size `r` it takes to hold `a`. */
  function Pieces(a: nat, r: nat): (t: nat)
    requires 1 <= r
  {
    (a + r - 1) / r
  }

  lemma PiecesBound(a: nat, r: nat)
    requires 1 <= r
    ensures Pieces(a, r) * r - r < a <= Pieces(a, r) * r
    ensures (Pieces(a, r) - 1) * r == Pieces(a, r) * r - r
    ensures 1 <= a ==> 1 <= Pieces(a, r)
  {
    var t := Pieces(a, r);
    assert a + r - 1 == t * r + (a + r - 1) % r;
    Scaled(t, r);
  }

  /** Integer division by `r` is settled by any quotient and remainder that fit. */
  lemma DivisionIs(a: int, r: int, q: int)
    requires 1 <= r && q * r <= a < q * r + r
    ensures a / r == q && a % r == a - q * r
  {
    var d := a / r - q;
    assert d * r == a / r * r - q * r && a == a / r * r + a % r;
    Scaled(d, r);
  }

  lemma OnePieceLess(a: nat, r: nat)
    requires 1 <= a && 1 <= r
    ensures Pieces(a, r) == if a <= r then 1 else 1 + Pieces(a - r, r)
  {
    if a <= r {
      DivisionIs(a + r - 1, r, 1);
    } else {
      var q := (a - 1) / r;
      assert (q + 1) * r == q * r + r && a - 1 == q * r + (a - 1) % r;
      DivisionIs(a + r - 1, r, q + 1);
    }
  }

  lemma OneQuotientLess(a: nat, r: nat)
    requires 1 <= r
    ensures a / r == if a < r then 0 else 1 + (a - r) / r
  {
    if a < r {
      DivisionIs(a, r, 0);
    } else {
      var q := (a - r) / r;
      assert (q + 1) * r == q * r + r && a - r == q * r + (a - r) % r;
      DivisionIs(a, r, q + 1);
    }
  }
}
