/** The positional arithmetic by which a file block number selects one entry per indirect block. */
module Radix {
  import opened Arithmetic
  import opened IndirectTree

  function Pow2(e: nat): (p: nat)
    ensures p > 0
  {
    if e == 0 then 1 else 2 * Pow2(e - 1)
  }

  lemma {:induction false} Pow2Add(a: nat, b: nat)
    ensures Pow2(a + b) == Pow2(a) * Pow2(b)
    decreases a
  {
    if a > 0 {
      Pow2Add(a - 1, b);
    }
  }

  function Pow(k: nat, e: nat): nat {
    if e == 0 then 1 else k * Pow(k, e - 1)
  }

  lemma {:induction false} PowPositive(k: nat, e: nat)
    requires k > 0
    ensures Pow(k, e) > 0
  {
    if e > 0 {
      PowPositive(k, e - 1);
    }
  }

  lemma PowStep(k: nat, e: nat)
    ensures Pow(k, e) * k == Pow(k, e + 1)
  {
  }

  lemma TimesStep(e: int, k: int)
    ensures e * k + k == (e + 1) * k
  {
  }

  /** Shifts compose: the unit of digit position `e` is a shift by `e` times the width shift. */
  lemma {:induction false} PowOfPow2(shift: nat, e: nat)
    ensures Pow(Pow2(shift), e) == Pow2(e * shift)
  {
    if e > 0 {
      PowOfPow2(shift, e - 1);
      Pow2Add(shift, (e - 1) * shift);
      assert shift + (e - 1) * shift == e * shift;
    }
  }

  /** The `levels` least significant base-`k` digits of `n`, most significant first. */
  function Digits(n: nat, levels: nat, k: nat): (path: seq<nat>)
    requires k > 0
    ensures |path| == levels && Within(path, k)
  {
    if levels == 0 then [] else
      PowPositive(k, levels - 1);
      [n / Pow(k, levels - 1) % k] + Digits(n, levels - 1, k)
  }

  lemma {:induction false} DigitAt(n: nat, levels: nat, k: nat, d: nat)
    requires k > 0 && d < levels
    ensures Pow(k, levels - 1 - d) > 0 && Digits(n, levels, k)[d] == n / Pow(k, levels - 1 - d) % k
  {
    PowPositive(k, levels - 1 - d);
    if d > 0 {
      DigitAt(n, levels - 1, k, d - 1);
    }
  }

  /** Shifting and masking picks out one digit. */
  lemma {:induction false} ShiftMaskIsDigit(n: nat, levels: nat, shift: nat, e: nat)
    requires e < levels
    ensures n / Pow2(e * shift) % Pow2(shift) == Digits(n, levels, Pow2(shift))[levels - 1 - e]
  {
    DigitAt(n, levels, Pow2(shift), levels - 1 - e);
    PowOfPow2(shift, e);
  }

  lemma RegroupDigits(q: int, k: int, d: int, c: int)
    ensures (q * k + d) * c == q * (c * k) + d * c
  {
  }

  lemma DigitFits(k: int, d: int, c: int, s: int)
    requires 0 <= d < k && 0 <= s < c
    ensures 0 <= d * c + s < c * k
  {
    MulMonotone(0, d, c);
    MulMonotone(d + 1, k, c);
  }

  lemma SplitIs(n: nat, m: nat, s: nat, q: nat, d: nat, c: nat, k: nat)
    requires n == m * c + s && m == q * k + d && s < c && d < k
    ensures c * k > 0 && n % (c * k) == d * c + s
  {
    RegroupDigits(q, k, d, c);
    DigitFits(k, d, c, s);
    QuotientIs(n, c * k, q, d * c + s);
  }

  /** A remainder splits into the next digit and the remainder below it. */
  lemma {:induction false} ModSplit(n: nat, c: nat, k: nat)
    requires c > 0 && k > 0
    ensures c * k > 0 && n % (c * k) == (n / c % k) * c + n % c
  {
    DivisionParts(n, c);
    DivisionParts(n / c, k);
    SplitIs(n, n / c, n % c, n / c / k, n / c % k, c, k);
  }

  /** The number a digit string stands for. */
  ghost function Value(path: seq<nat>, k: nat): nat {
    if path == [] then 0 else path[0] * Pow(k, |path| - 1) + Value(path[1..], k)
  }

  lemma {:induction false} ValueBound(path: seq<nat>, k: nat)
    requires Within(path, k)
    ensures Value(path, k) < Pow(k, |path|)
  {
    if path != [] {
      var c := Pow(k, |path| - 1);
      ValueBound(path[1..], k);
      MulMonotone(path[0], k - 1, c);
      assert Pow(k, |path|) == k * c == (k - 1) * c + c;
    }
  }

  lemma {:induction false} ValueOfDigits(n: nat, levels: nat, k: nat)
    requires k > 0
    ensures Pow(k, levels) > 0 && Value(Digits(n, levels, k), k) == n % Pow(k, levels)
  {
    PowPositive(k, levels);
    if levels > 0 {
      hide Pow, Value, Digits;
      ValueOfDigits(n, levels - 1, k);
      ModSplit(n, Pow(k, levels - 1), k);
      PowStep(k, levels - 1);
      ValueStep(n, levels, k);
    }
  }

  lemma ValueStep(n: nat, levels: nat, k: nat)
    requires k > 0 && levels > 0
    ensures var c := Pow(k, levels - 1);
      c > 0 && Value(Digits(n, levels, k), k) == (n / c % k) * c + Value(Digits(n, levels - 1, k), k)
  {
    hide Pow;
    PowPositive(k, levels - 1);
    assert Digits(n, levels, k)[1..] == Digits(n, levels - 1, k);
  }

  lemma LeadingDigitDecides(a: nat, b: nat, c: nat, s: nat, t: nat)
    requires s < c && t < c && a * c + s < b * c + t
    ensures a < b || (a == b && s < t)
  {
    if b < a {
      MulMonotone(b + 1, a, c);
    }
  }

  lemma {:induction false} LexByValue(p: seq<nat>, q: seq<nat>, k: nat)
    requires |p| == |q| && Within(p, k) && Within(q, k) && Value(p, k) < Value(q, k)
    ensures LexLess(p, q)
  {
    ValueBound(p[1..], k);
    ValueBound(q[1..], k);
    LeadingDigitDecides(p[0], q[0], Pow(k, |p| - 1), Value(p[1..], k), Value(q[1..], k));
    if p[0] == q[0] {
      LexByValue(p[1..], q[1..], k);
    }
  }

  lemma SmallRemainder(n: nat, c: nat)
    requires n < c
    ensures n % c == n
  {
  }

  /** Counting upwards moves strictly rightwards in the tree. */
  lemma {:induction false} DigitsOrdered(m: nat, n: nat, levels: nat, k: nat)
    requires k > 0 && m < n < Pow(k, levels)
    ensures LexLess(Digits(m, levels, k), Digits(n, levels, k))
  {
    ValueOfDigits(m, levels, k);
    ValueOfDigits(n, levels, k);
    SmallRemainder(m, Pow(k, levels));
    SmallRemainder(n, Pow(k, levels));
    LexByValue(Digits(m, levels, k), Digits(n, levels, k), k);
  }

  lemma Pow2InNumbers(e: nat)
    ensures Pow2(0) == 1 && Pow2(e + 1) == Pow2(e) + Pow2(e) && Pow2(7) == 128
  {
    assert Pow2(3) == 8 && Pow2(5) == 32;
  }
}
