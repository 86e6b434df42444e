/** Height-balanced search trees of keys, as values. */
module AvlTree {

  datatype Tree = Leaf | Br(l: Tree, key: int, r: Tree)

  function Height(t: Tree): nat {
    match t
    case Leaf => 0
    case Br(l, _, r) => 1 + if Height(l) < Height(r) then Height(r) else Height(l)
  }

  function Keys(t: Tree): set<int> {
    match t
    case Leaf => {}
    case Br(l, k, r) => Keys(l) + {k} + Keys(r)
  }

  ghost predicate Below(s: set<int>, k: int) {
    forall x :: x in s ==> x < k
  }

  ghost predicate Above(k: int, s: set<int>) {
    forall x :: x in s ==> k < x
  }

  /** The search order. */
  ghost predicate Sorted(t: Tree) {
    match t
    case Leaf => true
    case Br(l, k, r) => Sorted(l) && Sorted(r) && Below(Keys(l), k) && Above(k, Keys(r))
  }

  /** The tag that a node must carry for its two subtrees; '!' if their heights differ by more than one. */
  function Tag(l: Tree, r: Tree): char {
    if Height(l) == Height(r) then '='
    else if Height(l) == Height(r) + 1 then 'L'
    else if Height(l) + 1 == Height(r) then 'R'
    else '!'
  }

  ghost predicate Balanced(t: Tree) {
    match t
    case Leaf => true
    case Br(l, _, r) => Balanced(l) && Balanced(r) && Tag(l, r) != '!'
  }

  function InOrder(t: Tree): seq<int> {
    match t
    case Leaf => []
    case Br(l, k, r) => InOrder(l) + [k] + InOrder(r)
  }

  function Fib(n: nat): nat {
    if n < 2 then n else Fib(n - 1) + Fib(n - 2)
  }

  lemma {:induction false} FibMonotone(m: nat, n: nat)
    requires m <= n
    ensures Fib(m) <= Fib(n)
    decreases n
  {
    if m < n && n >= 2 {
      FibMonotone(m, n - 1);
    }
  }

  lemma {:induction false} InOrderKeys(t: Tree)
    ensures forall k :: k in InOrder(t) <==> k in Keys(t)
  {
    if t.Br? {
      InOrderKeys(t.l);
      InOrderKeys(t.r);
    }
  }

  /** A search tree read in order is strictly increasing. */
  lemma {:induction false} InOrderIncreases(t: Tree)
    requires Sorted(t)
    ensures forall i, j :: 0 <= i < j < |InOrder(t)| ==> InOrder(t)[i] < InOrder(t)[j]
  {
    if t.Br? {
      InOrderIncreases(t.l);
      InOrderIncreases(t.r);
      InOrderKeys(t.l);
      InOrderKeys(t.r);
      var a, b := InOrder(t.l), InOrder(t.r);
      assert forall i :: 0 <= i < |a| ==> a[i] in Keys(t.l);
      assert forall i :: 0 <= i < |b| ==> b[i] in Keys(t.r);
    }
  }

  /** A balanced tree of height h holds at least Fib(h + 2) - 1 keys. */
  lemma {:induction false} BalancedIsFull(t: Tree)
    requires Balanced(t)
    ensures |InOrder(t)| + 1 >= Fib(Height(t) + 2)
  {
    hide Fib, Height, InOrder, Balanced;
    if t.Br? {
      HigherSide(t);
      BalancedIsFull(t.l);
      BalancedIsFull(t.r);
      var low := if Height(t.l) < Height(t.r) then Height(t.l) else Height(t.r);
      FibStep(Height(t));
      FibMonotone(Height(t), low + 2);
    } else {
      FibLow();
    }
  }

  lemma FibLow()
    ensures Fib(Height(Leaf) + 2) == 1
  {
  }

  lemma FibStep(n: nat)
    ensures Fib(n + 2) == Fib(n + 1) + Fib(n)
  {
  }

  // One side is one lower than the whole and the other at most two.
  lemma HigherSide(t: Tree)
    requires t.Br? && Balanced(t)
    ensures var right := Height(t.l) < Height(t.r);
      && (if right then Height(t.r) else Height(t.l)) + 1 == Height(t)
      && (if right then Height(t.l) else Height(t.r)) + 2 >= Height(t)
      && |InOrder(t)| == |InOrder(t.l)| + 1 + |InOrder(t.r)| && Balanced(t.l) && Balanced(t.r)
  {
  }

  /** The nodes that a search for k compares it with. */
  function Probes(t: Tree, k: int): nat {
    match t
    case Leaf => 0
    case Br(l, key, r) => 1 + if k < key then Probes(l, k) else if key < k then Probes(r, k) else 0
  }

  lemma {:induction false} ProbesWithinHeight(t: Tree, k: int)
    ensures Probes(t, k) <= Height(t)
  {
    if t.Br? {
      ProbesWithinHeight(t.l, k);
      ProbesWithinHeight(t.r, k);
    }
  }

  /** A search tree holds each of its keys once. */
  lemma {:induction false} SizeIsKeys(t: Tree)
    requires Sorted(t)
    ensures |InOrder(t)| == |Keys(t)|
  {
    if t.Br? {
      SizeIsKeys(t.l);
      SizeIsKeys(t.r);
      var a, k, b := Keys(t.l), t.key, Keys(t.r);
      assert k !in a && k !in b;
      assert forall x :: x in a ==> x !in b;
      assert |a + {k}| == |a| + 1;
      assert (a + {k}) !! b;
      assert |(a + {k}) + b| == |a + {k}| + |b|;
    }
  }

  /** Rotations change neither the keys nor their order. */
  lemma {:induction false} RotatedLeft(a: Tree, p: int, b: Tree, q: int, c: Tree)
    requires Sorted(Br(a, p, Br(b, q, c)))
    ensures Keys(Br(a, p, Br(b, q, c))) == Keys(Br(Br(a, p, b), q, c))
    ensures Sorted(Br(Br(a, p, b), q, c))
  {
    var right := Keys(Br(b, q, c));
    assert q in right;
    assert forall x :: x in Keys(b) || x in Keys(c) ==> x in right;
    forall x | x in Keys(Br(a, p, b)) ensures x < q {
    }
  }

  lemma {:induction false} RotatedRight(a: Tree, p: int, b: Tree, q: int, c: Tree)
    requires Sorted(Br(Br(a, p, b), q, c))
    ensures Keys(Br(a, p, Br(b, q, c))) == Keys(Br(Br(a, p, b), q, c))
    ensures Sorted(Br(a, p, Br(b, q, c)))
  {
    var left := Keys(Br(a, p, b));
    assert p in left;
    assert forall x :: x in Keys(a) || x in Keys(b) ==> x in left;
    forall x | x in Keys(Br(b, q, c)) ensures p < x {
    }
  }

  /** The tag names the higher side. */
  lemma TagInNumbers(l: Tree, r: Tree)
    ensures (Tag(l, r) == 'L' <==> Height(l) == Height(r) + 1) && (Tag(l, r) == 'R' <==> Height(r) == Height(l) + 1)
    ensures Tag(l, r) == '=' <==> Height(l) == Height(r)
  {
  }
}
