/** Facts of multiplication and division that several of the models lean on. */
module Arithmetic {
  /** C division truncates toward zero, and the remainder takes the sign of the dividend. */
  function Quotient(n: int, c: int): int
    requires c != 0
  {
    if (n < 0) == (c < 0) then Abs(n) / Abs(c) else -(Abs(n) / Abs(c))
  }

  function Remainder(n: int, c: int): int
    requires c != 0
  {
    if n < 0 then -(Abs(n) % Abs(c)) else n % Abs(c)
  }

  function Min(a: int, b: int): int { if a < b then a else b }

  function Max(a: int, b: int): int { if a < b then b else a }

  function Abs(n: int): nat { if n < 0 then -n else n }

  lemma MulMonotone(a: int, b: int, c: int)
    requires a <= b && 0 <= c
    ensures a * c <= b * c
  {
  }

  lemma QuotientIs(n: int, c: int, q: int, s: int)
    requires n == q * c + s && 0 <= s < c
    ensures n / c == q && n % c == s
  {
    var t := n / c;
    if t < q {
      MulMonotone(t + 1, q, c);
    } else if t > q {
      MulMonotone(q + 1, t, c);
    }
  }

  lemma DivisionParts(n: int, c: int)
    requires c > 0
    ensures n == n / c * c + n % c && 0 <= n % c < c
  {
  }

  lemma DivBelow(n: nat, c: nat, b: nat)
    requires c > 0
    ensures n / c < b <==> n < b * c
  {
    DivisionParts(n, c);
    if n / c < b {
      MulMonotone(n / c + 1, b, c);
      DistributeOver(n / c, 1, c);
    } else {
      MulMonotone(b, n / c, c);
    }
  }

  lemma DistributeOver(a: int, b: int, c: int)
    ensures (a + b) * c == a * c + b * c
  {
  }

  lemma ModShift(n: int, c: int, k: int)
    requires c > 0
    ensures (n + k * c) % c == n % c
  {
    DivisionParts(n, c);
    DistributeOver(n / c, k, c);
    QuotientIs(n + k * c, c, n / c + k, n % c);
  }

  lemma RegroupThree(a: int, b: int, c: int)
    ensures a * (b * c) == a * c * b
  {
  }

  lemma CoarserMultiple(n: int, c: int, k: int)
    requires c > 0 && k > 0 && c * k > 0 && n % (c * k) == 0
    ensures n % c == 0
  {
    var q := n / (c * k);
    DivisionParts(n, c * k);
    RegroupThree(q, c, k);
    QuotientIs(n, c, q * k, 0);
  }

  lemma DivMod(n: nat, c: nat)
    requires c > 1
    ensures n / c * c + n % c == n && n % c < c && (n > 0 ==> n / c < n)
  {
    if n > 0 && n / c >= n {
      MulMonotone(2, c, n / c);
    }
  }
}
