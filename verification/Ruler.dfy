/** The ruler's integer square root, and the numbers for which a 32-bit word is wide enough. */
module Ruler {
  import opened Arithmetic

  predicate IsRoot(s: int, x: int) { s >= 0 && s * s <= x < (s + 1) * (s + 1) }

  lemma Squares(a: int, b: int)
    requires 0 <= a <= b
    ensures a * a <= b * b
  {
    MulMonotone(a, b, a);
    MulMonotone(a, b, b);
  }

  // Dividing first by s and then by two is dividing once.
  lemma HalfQuotient(n: nat, s: nat)
    requires s > 0
    ensures n / s / 2 * (2 * s) <= n < (n / s / 2 + 1) * (2 * s)
  {
    var q, h := n / s, n / s / 2;
    MulMonotone(2 * h, q, s);
    MulMonotone(q + 1, 2 * h + 2, s);
    assert n == q * s + n % s;
    assert 2 * h * s == h * (2 * s) && (2 * h + 2) * s == (h + 1) * (2 * s);
  }

  /** A Newton step from a point at or above the root stays there, and one that does not fall
      started at the root. */
  lemma NewtonStep(x: nat, s: nat)
    requires s > 0 && x < (s + 1) * (s + 1)
    ensures var u := (x + s * s) / s / 2;
      && u >= 0 && x < (u + 1) * (u + 1)
      && (u >= s ==> IsRoot(s, x))
  {
    var u := (x + s * s) / s / 2;
    HalfQuotient(x + s * s, s);
    StepAbove(x, s, u);
    if u >= s {
      StepStops(x, s, u);
    }
  }

  lemma NextSquare(s: int)
    ensures (s + 1) * (s + 1) == s * s + 2 * s + 1
  {
  }

  lemma DoubleProduct(a: int, b: int)
    ensures a * (2 * b) == 2 * (a * b)
  {
  }

  lemma SquareNotNegative(d: int)
    ensures d * d >= 0
  {
  }

  lemma StepAbove(x: nat, s: nat, u: nat)
    requires x + s * s < (u + 1) * (2 * s)
    ensures x < (u + 1) * (u + 1)
  {
    DoubleProduct(u + 1, s);
    SquareOfDifference(u + 1, s);
    SquareNotNegative(u + 1 - s);
  }

  lemma StepStops(x: nat, s: nat, u: nat)
    requires u >= s && u * (2 * s) <= x + s * s
    ensures s * s <= x
  {
    MulMonotone(s, u, 2 * s);
    DoubleProduct(s, s);
  }

  lemma SquareOfDifference(a: int, b: int)
    ensures (a - b) * (a - b) == a * a - 2 * (a * b) + b * b
  {
  }

  function Four(k: nat): (u: nat)
    ensures u > 0
  {
    if k == 0 then 1 else 4 * Four(k - 1)
  }

  lemma {:induction false} FourGrows(k: nat, m: nat)
    requires k <= m
    ensures Four(k) <= Four(m)
    decreases m
  {
    if k < m {
      FourGrows(k, m - 1);
    }
  }

  lemma FourValues(k: nat)
    ensures Four(k + 1) == 4 * Four(k) && Four(1) == 4 && Four(15) == 0x4000_0000
    ensures k < 15 ==> Four(k + 1) <= 0x4000_0000
  {
    assert Four(5) == 1024;
    assert Four(10) == 0x10_0000;
    if k < 15 {
      FourGrows(k + 1, 15);
    }
  }

  type Word = n: int | -0x8000_0000 <= n < 0x8000_0000

  // What a 32-bit word keeps of a number.
  function Wrap(n: int): Word { (n + 0x8000_0000) % 0x1_0000_0000 - 0x8000_0000 }

  // The next value of Newton's iteration.
  function Estimate(x: Word, s: Word): Word
    requires s != 0
  {
    Wrap(Quotient(Wrap(x + Wrap(s * s)), s)) / 2
  }

  /** Where the program stands at the head of one of its loops, or when it is over: with a result, or
      by a division by zero. */
  datatype State = Doubling(s: Word, u: Word) | Stepping(s: Word) | Returned(result: Word) | Trapped

  function Start(x: Word): State { if x <= 0 then Returned(0) else Doubling(2, 4) }

  // One turn of a loop, with every operation in a word.
  function Turn(x: Word, at: State): State {
    match at
    case Doubling(s, u) => if u < x then Doubling(Wrap(s + s), Wrap(u * 4)) else Stepping(s)
    case Stepping(s) =>
      if s == 0 then Trapped
      else if Estimate(x, s) < s then Stepping(Estimate(x, s)) else Returned(s)
    case _ => at
  }

  function After(x: Word, at: State, n: nat): State
    decreases n
  {
    if n == 0 then at else After(x, Turn(x, at), n - 1)
  }

  ghost predicate Returns(x: Word, s: Word) { exists n: nat :: After(x, Start(x), n) == Returned(s) }

  ghost predicate Ends(x: Word) { exists s: Word :: Returns(x, s) }

  lemma {:induction false} AfterSum(x: Word, at: State, n: nat, m: nat)
    ensures After(x, at, n + m) == After(x, After(x, at, n), m)
    decreases n
  {
    if n > 0 {
      AfterSum(x, Turn(x, at), n - 1, m);
    }
  }

  lemma {:induction false} OverForGood(x: Word, at: State, n: nat)
    requires at.Returned? || at.Trapped?
    ensures After(x, at, n) == at
    decreases n
  {
    if n > 0 {
      OverForGood(x, at, n - 1);
    }
  }

  lemma OneResult(x: Word, s: Word, t: Word)
    requires Returns(x, s) && Returns(x, t)
    ensures s == t
  {
    var n: nat :| After(x, Start(x), n) == Returned(s);
    var m: nat :| After(x, Start(x), m) == Returned(t);
    AfterSum(x, Start(x), n, m);
    OverForGood(x, Returned(s), m);
    AfterSum(x, Start(x), m, n);
    OverForGood(x, Returned(t), n);
    assert n + m == m + n;
  }

  // Doubling that no operation has overflowed, k turns on.
  predicate Climbing(at: State, k: nat) {
    at.Doubling? && 0 < k <= 15 && at.s > 0 && at.s * at.s == at.u == Four(k)
  }

  lemma RootOfFour(at: State, k: nat)
    requires Climbing(at, k)
    ensures at.u <= 0x4000_0000 && at.s <= 0x8000
    ensures k == 15 ==> at.u == 0x4000_0000 && at.s == 0x8000
  {
    FourValues(k - 1);
    if at.s > 0x8000 {
      Squares(0x8001, at.s);
    }
    if at.s < 0x8000 {
      Squares(at.s, 0x7FFF);
    }
  }

  lemma ClimbsOn(x: Word, at: State, k: nat)
    requires Climbing(at, k) && k < 15 && at.u < x
    ensures Climbing(Turn(x, at), k + 1)
  {
    hide Four;
    RootOfFour(at, k);
    FourValues(k);
    assert (at.s + at.s) * (at.s + at.s) == 4 * (at.s * at.s);
  }

  lemma {:induction false} DoublingEnds(x: Word, at: State, k: nat) returns (n: nat, s: Word)
    requires 0 < x <= 0x4000_0000 && Climbing(at, k)
    ensures After(x, at, n) == Stepping(s)
    ensures 0 < s <= 0x8000 && x <= s * s && (x == 0x4000_0000 ==> s == 0x8000)
    decreases 15 - k
  {
    hide Four;
    RootOfFour(at, k);
    if at.u < x {
      ClimbsOn(x, at, k);
      n, s := DoublingEnds(x, Turn(x, at), k + 1);
      n := n + 1;
    } else {
      n, s := 1, at.s;
      assert After(x, Turn(x, at), 0) == Stepping(s);
      if x == 0x4000_0000 && s < 0x8000 {
        Squares(s, 0x7FFF);
      }
    }
  }

  // Below two to the thirtieth nothing overflows in a step, which stays at or above the root.
  lemma StepInWord(x: Word, s: Word)
    requires 0 < x < 0x4000_0000 && 0 < s <= 0x8000 && x < (s + 1) * (s + 1)
    ensures var u := Estimate(x, s);
      && 0 < u && x < (u + 1) * (u + 1)
      && (u >= s ==> IsRoot(s, x))
  {
    hide Estimate, IsRoot;
    EstimateIs(x, s);
    NewtonStep(x, s);
    assert (0 + 1) * (0 + 1) == 1;
  }

  lemma EstimateIs(x: Word, s: Word)
    requires 0 < x < 0x4000_0000 && 0 < s <= 0x8000
    ensures Estimate(x, s) == (x + s * s) / s / 2
  {
    hide Wrap, Quotient;
    Squares(s, 0x8000);
    QuotientFits(x, s * s, s);
  }

  lemma QuotientFits(x: Word, q: nat, s: nat)
    requires 0 < x < 0x4000_0000 && q <= 0x4000_0000 && s > 0
    ensures Wrap(Quotient(Wrap(x + Wrap(q)), s)) == (x + q) / s
  {
    hide Wrap, Quotient;
    FitsWord(q);
    FitsWord(x + q);
    NotAbove(x + q, s);
    FitsWord((x + q) / s);
  }

  lemma FitsWord(n: int)
    requires -0x8000_0000 <= n < 0x8000_0000
    ensures Wrap(n) == n
  {
  }

  lemma NotAbove(n: nat, s: nat)
    requires s > 0
    ensures 0 <= n / s <= n && Quotient(n, s) == n / s
  {
    DivisionParts(n, s);
    MulMonotone(1, s, n / s);
  }

  lemma {:induction false} SteppingEnds(x: Word, s: Word) returns (n: nat, r: Word)
    requires 0 < x < 0x4000_0000 && 0 < s <= 0x8000 && x < (s + 1) * (s + 1)
    ensures After(x, Stepping(s), n) == Returned(r) && IsRoot(r, x)
    decreases s
  {
    hide IsRoot, Estimate;
    StepInWord(x, s);
    var u := Estimate(x, s);
    if u < s {
      n, r := SteppingEnds(x, u);
      n := n + 1;
    } else {
      n, r := 1, s;
      assert After(x, Turn(x, Stepping(s)), 0) == Returned(s);
    }
  }

  /** Every number below two to the thirtieth has its root found. */
  lemma FindsRoot(x: Word)
    requires 0 < x < 0x4000_0000
    ensures exists s: Word :: Returns(x, s) && IsRoot(s, x)
  {
    hide After, Turn, IsRoot, Four;
    FourValues(0);
    var n, s := DoublingEnds(x, Start(x), 1);
    assert x < (s + 1) * (s + 1) by {
      NextSquare(s);
    }
    var m, r := SteppingEnds(x, s);
    AfterSum(x, Start(x), n, m);
    assert After(x, Start(x), n + m) == Returned(r);
    assert Returns(x, r);
  }

  lemma EstimatesFromMaximum()
    ensures Estimate(0x4000_0000, 0x8000) == -0x8000
    ensures Estimate(0x4000_0000, -0x8000) == 0x8000
  {
    assert Wrap(0x8000 * 0x8000) == 0x4000_0000 && Wrap(-0x8000 * -0x8000) == 0x4000_0000;
    assert Wrap(0x4000_0000 + 0x4000_0000) == -0x8000_0000;
    assert Quotient(-0x8000_0000, 0x8000) == -0x1_0000 && Quotient(-0x8000_0000, -0x8000) == 0x1_0000;
    assert Wrap(-0x1_0000) == -0x1_0000 && Wrap(0x1_0000) == 0x1_0000;
  }

  lemma StepsFromMaximum()
    ensures After(0x4000_0000, Stepping(0x8000), 2) == Returned(-0x8000)
  {
    hide Estimate;
    EstimatesFromMaximum();
    assert After(0x4000_0000, Stepping(-0x8000), 1) == After(0x4000_0000, Returned(-0x8000), 0);
    assert After(0x4000_0000, Stepping(0x8000), 2) == After(0x4000_0000, Stepping(-0x8000), 1);
  }

  /** For two to the thirtieth itself the sum in Newton's step overflows, and the result is minus the root. */
  lemma ReturnsMinusRoot()
    ensures Returns(0x4000_0000, -0x8000) && IsRoot(0x8000, 0x4000_0000)
  {
    hide After, Turn, Four;
    FourValues(0);
    var x: Word := 0x4000_0000;
    var n, s := DoublingEnds(x, Start(x), 1);
    StepsFromMaximum();
    AfterSum(x, Start(x), n, 2);
    assert After(x, Start(x), n + 2) == Returned(-0x8000);
  }

  /** Past two to the thirtieth the doubling never gets there: the bound runs through the powers of
      four and then stays at zero. */
  lemma {:induction false} DoublingNeverEnds(x: Word, at: State, k: nat, n: nat)
    requires 0x4000_0000 < x
    requires Climbing(at, k) || (at.Doubling? && at.u == 0)
    ensures After(x, at, n).Doubling?
    decreases n
  {
    if n > 0 {
      if at.u == 0 {
        DoublingNeverEnds(x, Turn(x, at), k, n - 1);
      } else {
        RootOfFour(at, k);
        if k < 15 {
          ClimbsOn(x, at, k);
        }
        DoublingNeverEnds(x, Turn(x, at), if k < 15 then k + 1 else k, n - 1);
      }
    }
  }

  /** The program ends exactly for words up to two to the thirtieth. */
  lemma EndsUpTo(x: Word)
    ensures Ends(x) <==> x <= 0x4000_0000
  {
    if x <= 0 {
      assert After(x, Start(x), 0) == Returned(0);
      assert Returns(x, 0);
    } else if x < 0x4000_0000 {
      FindsRoot(x);
    } else if x == 0x4000_0000 {
      ReturnsMinusRoot();
    } else {
      forall n: nat ensures !After(x, Start(x), n).Returned? {
        DoublingNeverEnds(x, Start(x), 1, n);
      }
    }
  }

  /** It ends with the square root exactly for words below two to the thirtieth. */
  lemma RootFoundBelow(x: Word)
    requires 0 < x
    ensures (exists s: Word :: Returns(x, s) && IsRoot(s, x)) <==> x < 0x4000_0000
  {
    if x < 0x4000_0000 {
      FindsRoot(x);
    } else {
      EndsUpTo(x);
      ReturnsMinusRoot();
      forall s: Word | Returns(x, s) ensures !IsRoot(s, x) {
        OneResult(x, s, -0x8000);
      }
    }
  }

  /** The square root by doubling and Newton's steps in 32-bit words, wherever that ends. */
  method Isqrt(x: Word) returns (s: Word)
    requires Ends(x)
    ensures Returns(x, s)
    ensures if x <= 0 then s == 0 else x < 0x4000_0000 ==> IsRoot(s, x)
  {
    hide Estimate, Wrap, IsRoot;
    ghost var r: Word :| Returns(x, r);
    ghost var n: nat :| After(x, Start(x), n) == Returned(r);
    if 0 < x < 0x4000_0000 {
      FindsRoot(x);
      ghost var t: Word :| Returns(x, t) && IsRoot(t, x);
      OneResult(x, r, t);
    }
    if x <= 0 {
      OverForGood(x, Returned(0), n);
      return 0;
    }
    s := 2;
    var u: Word := 4;
    while u < x
      invariant After(x, Doubling(s, u), n) == Returned(r)
      decreases n
    {
      s, u := Wrap(s + s), Wrap(u * 4);
      n := n - 1;
    }
    n := n - 1;
    StepIsDefined(x, s, n);
    u := Estimate(x, s);
    while u < s
      invariant s != 0 && u == Estimate(x, s)
      invariant After(x, Stepping(s), n) == Returned(r)
      decreases n
    {
      s := u;
      n := n - 1;
      StepIsDefined(x, s, n);
      u := Estimate(x, s);
    }
    OverForGood(x, Returned(s), n - 1);
  }

  lemma StepIsDefined(x: Word, s: Word, n: nat)
    requires After(x, Stepping(s), n).Returned?
    ensures n > 0 && s != 0
  {
    if n > 0 && s == 0 {
      OverForGood(x, Trapped, n - 1);
    }
  }

  /** The root is the largest number whose square is not beyond x. */
  lemma RootIsLargest(s: int, x: int)
    ensures IsRoot(s, x) <==> s >= 0 && s * s <= x && forall t: nat :: t * t <= x ==> t <= s
  {
    if IsRoot(s, x) {
      forall t: nat | t * t <= x
        ensures t <= s
      {
        if s < t {
          Squares(s + 1, t);
        }
      }
    }
    if s >= 0 && s * s <= x && forall t: nat :: t * t <= x ==> t <= s {
      var t: nat := s + 1;
      assert t * t > x;
    }
  }
}
