/** The thirteen addresses of an inode: ten data blocks, then trees of height one, two and three. */
module Inode {
  import opened Arithmetic
  import opened Options
  import opened BlockCache
  import opened IndirectTree
  import opened Radix

  const NADDR: nat := 13
  const DIRECT: nat := NADDR - 3

  /** Where a file block hangs: an inode address and one index per indirect block below it. */
  datatype Pos = Pos(slot: nat, path: seq<nat>)

  function Height(slot: nat): nat {
    if slot < DIRECT then 0 else slot - DIRECT + 1
  }

  /** The number of data blocks below trees of heights 1 to `h`. */
  function Span(k: nat, h: nat): nat {
    if h == 0 then 0 else Span(k, h - 1) + Pow(k, h)
  }

  /** The number of file blocks that an inode can address. */
  function Capacity(k: nat): nat {
    DIRECT + Span(k, 3)
  }

  /** The position of indirect block number `m` of the file, given that it lies in no tree lower than `h`. */
  function TreeOf(m: nat, h: nat, k: nat): (p: Option<Pos>)
    requires k > 0 && 1 <= h <= 4 && Span(k, h - 1) <= m
    ensures p.Some? <==> m < Span(k, 3)
    ensures p.Some? ==>
      && DIRECT < p.value.slot + 1 <= NADDR
      && var g := Height(p.value.slot);
         && Span(k, g - 1) <= m < Span(k, g)
         && p.value.path == Digits(m - Span(k, g - 1), g, k)
    decreases 4 - h
  {
    if h == 4 then None
    else if m < Span(k, h) then
      SpanMonotone(k, h, 3);
      Some(Pos(DIRECT + h - 1, Digits(m - Span(k, h - 1), h, k)))
    else TreeOf(m, h + 1, k)
  }

  lemma {:induction false} SpanMonotone(k: nat, g: nat, h: nat)
    requires g <= h
    ensures Span(k, g) <= Span(k, h)
  {
    if g < h {
      SpanMonotone(k, g, h - 1);
    }
  }

  lemma {:induction false} SpanOrder(m: nat, n: nat, g: nat, h: nat, k: nat)
    requires m < n && 0 < g && 0 < h && Span(k, g - 1) <= m < Span(k, g) && Span(k, h - 1) <= n < Span(k, h)
    ensures g <= h
  {
    if h < g {
      SpanMonotone(k, h, g - 1);
    }
  }

  function Locate(n: nat, k: nat): (p: Option<Pos>)
    requires k > 0
    ensures p.Some? <==> n < Capacity(k)
    ensures p.Some? ==> p.value.slot < NADDR && |p.value.path| == Height(p.value.slot) && Within(p.value.path, k)
  {
    if n < DIRECT then Some(Pos(n, [])) else TreeOf(n - DIRECT, 1, k)
  }

  ghost predicate Before(p: Pos, q: Pos)
    requires p.slot == q.slot ==> |p.path| == |q.path|
  {
    p.slot < q.slot || (p.slot == q.slot && LexLess(p.path, q.path))
  }

  lemma {:induction false} LocateOrdered(m: nat, n: nat, k: nat)
    requires k > 0 && m < n < Capacity(k)
    ensures Before(Locate(m, k).value, Locate(n, k).value)
  {
    hide Digits;
    if m >= DIRECT {
      var g, h := Height(Locate(m, k).value.slot), Height(Locate(n, k).value.slot);
      if g == h {
        DigitsOrdered(m - DIRECT - Span(k, h - 1), n - DIRECT - Span(k, h - 1), h, k);
      } else {
        SpanOrder(m - DIRECT, n - DIRECT, g, h, k);
      }
    }
  }

  lemma {:induction false} LexIrreflexive(p: seq<nat>)
    ensures !LexLess(p, p)
  {
    if p != [] {
      LexIrreflexive(p[1..]);
    }
  }

  lemma {:induction false} LocateInjective(m: nat, n: nat, k: nat)
    requires k > 0 && m < Capacity(k) && n < Capacity(k) && m != n
    ensures Locate(m, k) != Locate(n, k)
  {
    LocateOrdered(if m < n then m else n, if m < n then n else m, k);
    LexIrreflexive(Locate(m, k).value.path);
  }

  /** All blocks hanging from the addresses `lo..hi`. */
  ghost function Slots(blocks: seq<Block>, ia: seq<int>, lo: nat, hi: nat): seq<Node>
    requires lo <= hi <= |ia|
    decreases hi - lo
  {
    if lo == hi then [] else PreOrder(blocks, ia[lo], Height(lo)) + Slots(blocks, ia, lo + 1, hi)
  }

  /** All blocks of the file, in the order of the file. */
  ghost function Nodes(blocks: seq<Block>, ia: seq<int>): seq<Node> {
    Slots(blocks, ia, 0, |ia|)
  }

  // Data blocks by their own addresses, holes left out.
  ghost function Singles(ia: seq<int>): seq<Node> {
    if ia == [] then [] else (if ia[0] == 0 then [] else [Node(ia[0], 0)]) + Singles(ia[1..])
  }

  lemma {:induction false} SlotsSingle(blocks: seq<Block>, ia: seq<int>, lo: nat)
    requires |ia| == 13 && lo <= 10
    ensures Slots(blocks, ia, lo, 10) == Singles(ia[lo..10])
    decreases 10 - lo
  {
    if lo < 10 {
      SlotsSingle(blocks, ia, lo + 1);
      assert ia[lo..10][1..] == ia[lo + 1..10];
    }
  }

  /** All the blocks of a file: those of the first ten addresses, and the trees of height one, two and
      three at the last three. */
  lemma NodesInNumbers(blocks: seq<Block>, ia: seq<int>)
    requires |ia| == 13
    ensures Nodes(blocks, ia)
      == Singles(ia[..10]) + PreOrder(blocks, ia[10], 1) + PreOrder(blocks, ia[11], 2) + PreOrder(blocks, ia[12], 3)
  {
    hide PreOrder, Slots, Singles;
    SlotsSingle(blocks, ia, 0);
    SlotsSplit(blocks, ia, 0, 10, 13);
    assert ia[0..10] == ia[..10];
    LastThree(blocks, ia);
    Grouped(Singles(ia[..10]), PreOrder(blocks, ia[10], 1), PreOrder(blocks, ia[11], 2), PreOrder(blocks, ia[12], 3));
  }

  lemma LastThree(blocks: seq<Block>, ia: seq<int>)
    requires |ia| == 13
    ensures Slots(blocks, ia, 10, 13)
      == PreOrder(blocks, ia[10], 1) + (PreOrder(blocks, ia[11], 2) + (PreOrder(blocks, ia[12], 3) + []))
  {
    hide PreOrder;
    assert Slots(blocks, ia, 13, 13) == [];
    assert Slots(blocks, ia, 12, 13) == PreOrder(blocks, ia[12], 3) + Slots(blocks, ia, 13, 13);
    assert Slots(blocks, ia, 11, 13) == PreOrder(blocks, ia[11], 2) + Slots(blocks, ia, 12, 13);
    assert Slots(blocks, ia, 10, 13) == PreOrder(blocks, ia[10], 1) + Slots(blocks, ia, 11, 13);
  }

  lemma Grouped<T>(a: seq<T>, b: seq<T>, c: seq<T>, d: seq<T>)
    ensures a + (b + (c + (d + []))) == a + b + c + d
  {
    assert d + [] == d;
    assert b + (c + d) == b + c + d;
    assert a + (b + c + d) == a + b + c + d;
  }

  /** The disk block of file block `n`, or 0 for a hole. */
  ghost function BlockOf(blocks: seq<Block>, ia: seq<int>, n: nat, k: nat): int
    requires k > 0 && |ia| == NADDR
  {
    match Locate(n, k)
    case None => 0
    case Some(p) => Follow(blocks, ia[p.slot], p.path)
  }

  /** An inode addresses ten blocks, then as many as one, two and three lookups of k entries tell apart. */
  lemma CapacityInNumbers(k: nat)
    ensures Capacity(k) == 10 + k + k * k + k * k * k
  {
    PowersInNumbers(k);
  }

  lemma PowersInNumbers(k: nat)
    ensures Pow(k, 0) == 1 && Pow(k, 1) == k && Pow(k, 2) == k * k && Pow(k, 3) == k * k * k
    ensures Span(k, 0) == 0 && Span(k, 1) == k && Span(k, 2) == k + k * k && Span(k, 3) == k + k * k + k * k * k
  {
    assert k * (k * k) == k * k * k;
  }

  // What an indirect block holds at an index, or 0 where there is none.
  ghost function Entry(blocks: seq<Block>, b: int, i: int): int {
    if 0 < b < |blocks| && 0 <= i < |blocks[b]| then blocks[b][i] else 0
  }

  lemma FollowStep(blocks: seq<Block>, b: int, i: nat, rest: seq<nat>)
    ensures Follow(blocks, b, []) == b
    ensures Follow(blocks, b, [i] + rest) == Follow(blocks, Entry(blocks, b, i), rest)
  {
    assert ([i] + rest)[1..] == rest;
  }

  lemma FollowInNumbers(blocks: seq<Block>, b: int, i: nat, j: nat, l: nat)
    ensures Follow(blocks, b, []) == b
    ensures Follow(blocks, b, [i]) == Entry(blocks, b, i)
    ensures Follow(blocks, b, [i, j]) == Entry(blocks, Entry(blocks, b, i), j)
    ensures Follow(blocks, b, [i, j, l]) == Entry(blocks, Entry(blocks, Entry(blocks, b, i), j), l)
  {
    hide Follow, Entry;
    var b1 := Entry(blocks, b, i);
    assert [i] == [i] + [] && [i, j] == [i] + [j] && [i, j, l] == [i] + [j, l] && [j] == [j] + [] && [j, l] == [j] + [l];
    assert [l] == [l] + [];
    FollowStep(blocks, b, i, []);
    FollowStep(blocks, b, i, [j]);
    FollowStep(blocks, b, i, [j, l]);
    FollowStep(blocks, b1, j, []);
    FollowStep(blocks, b1, j, [l]);
    FollowStep(blocks, Entry(blocks, b1, j), l, []);
    FollowStep(blocks, Entry(blocks, Entry(blocks, b1, j), l), 0, []);
  }

  lemma DigitsInNumbers(m: nat, k: nat)
    requires k > 0
    ensures Digits(m, 0, k) == [] && Digits(m, 1, k) == [m % k] && Digits(m, 2, k) == [m / k % k, m % k]
    ensures Digits(m, 3, k) == [m / k / k % k, m / k % k, m % k]
  {
    PowersInNumbers(k);
    PowPositive(k, 2);
    DividedTwice(m, k);
    assert Digits(m, 0, k) == [];
    assert Digits(m, 1, k) == [m / 1 % k];
    assert Digits(m, 2, k) == [m / k % k] + Digits(m, 1, k);
    assert Digits(m, 3, k) == [m / (k * k) % k] + Digits(m, 2, k);
  }

  lemma DividedTwice(m: nat, k: nat)
    requires k > 0
    ensures k * k > 0 && m / (k * k) == m / k / k
  {
    var q, r := m / k, m % k;
    DivisionParts(m, k);
    DivisionParts(q, k);
    MulMonotone(q % k, k - 1, k);
    DistributeOver(q / k * k, q % k, k);
    RegroupThree(q / k, k, k);
    QuotientIs(m, k * k, q / k, q % k * k + r);
  }

  // A block is found through this address and these entries of the indirect blocks below it.
  predicate LeadsTo(at: Option<Pos>, slot: int, path: seq<int>) {
    at.Some? && at.value.slot == slot && at.value.path == path
  }

  // The block numbers of the three trees, in quotients and remainders.
  lemma TreeInNumbers(m: nat, k: nat)
    requires k > 0
    ensures m < k ==> LeadsTo(TreeOf(m, 1, k), 10, [m])
    ensures k <= m < k + k * k ==> LeadsTo(TreeOf(m, 1, k), 11, [(m - k) / k, (m - k) % k])
    ensures k + k * k <= m < k + k * k + k * k * k ==>
              var l := m - k - k * k; LeadsTo(TreeOf(m, 1, k), 12, [l / k / k, l / k % k, l % k])
  {
    hide Digits, Span, TreeOf;
    PowersInNumbers(k);
    TreeByHeight(m, k);
    if m < k {
      AllDigits(m, k);
    } else if m - k < k * k {
      AllDigits(m - k, k);
    } else if m - k - k * k < k * k * k {
      AllDigits(m - k - k * k, k);
    }
  }

  lemma TreeByHeight(m: nat, k: nat)
    requires k > 0 && Span(k, 0) == 0
    ensures m < Span(k, 1) ==> TreeOf(m, 1, k) == Some(Pos(10, Digits(m, 1, k)))
    ensures Span(k, 1) <= m < Span(k, 2) ==> TreeOf(m, 1, k) == Some(Pos(11, Digits(m - Span(k, 1), 2, k)))
    ensures Span(k, 2) <= m < Span(k, 3) && Span(k, 1) <= m ==> TreeOf(m, 1, k) == Some(Pos(12, Digits(m - Span(k, 2), 3, k)))
  {
    hide Digits, Span;
  }

  // The leading digit of a number that has so many digits is what is left of it.
  lemma AllDigits(l: nat, k: nat)
    requires k > 0
    ensures l < k ==> Digits(l, 1, k) == [l]
    ensures l < k * k ==> Digits(l, 2, k) == [l / k, l % k]
    ensures l < k * k * k ==> Digits(l, 3, k) == [l / k / k, l / k % k, l % k]
  {
    hide Digits;
    DigitsInNumbers(l, k);
    if l < k {
      QuotientIs(l, k, 0, l);
    }
    if l < k * k {
      FirstDigit(l, k);
    }
    if l < k * k * k {
      DivBelow(l, k, k * k);
      FirstDigit(l / k, k);
    }
  }

  lemma FirstDigit(l: nat, k: nat)
    requires k > 0 && l < k * k
    ensures l / k % k == l / k
  {
    DivBelow(l, k, k);
    QuotientIs(l / k, k, 0, l / k);
  }

  /** Which address and which entries lead to every file block. */
  lemma LocateInNumbers(n: nat, k: nat)
    requires k > 0
    ensures n < 10 ==> LeadsTo(Locate(n, k), n, [])
    ensures 10 <= n < 10 + k ==> LeadsTo(Locate(n, k), 10, [n - 10])
    ensures 10 + k <= n < 10 + k + k * k ==> var m := n - 10 - k; LeadsTo(Locate(n, k), 11, [m / k, m % k])
    ensures 10 + k + k * k <= n < 10 + k + k * k + k * k * k ==>
              var m := n - 10 - k - k * k; LeadsTo(Locate(n, k), 12, [m / k / k, m / k % k, m % k])
    ensures 10 + k + k * k + k * k * k <= n ==> Locate(n, k) == None
  {
    hide TreeOf, Capacity;
    CapacityInNumbers(k);
    if n >= 10 {
      TreeInNumbers(n - 10, k);
    }
  }

  /** So every file block is found: the first ten by their own addresses, the next k through address 10
      and one lookup, the next k*k through address 11 and two, the next k*k*k through address 12 and three. */
  lemma BlockOfInNumbers(blocks: seq<Block>, ia: seq<int>, n: nat, k: nat)
    requires k > 0 && |ia| == 13
    ensures n < 10 ==> BlockOf(blocks, ia, n, k) == ia[n]
    ensures 10 <= n < 10 + k ==> BlockOf(blocks, ia, n, k) == Entry(blocks, ia[10], n - 10)
    ensures 10 + k <= n < 10 + k + k * k ==>
      var m := n - 10 - k; BlockOf(blocks, ia, n, k) == Entry(blocks, Entry(blocks, ia[11], m / k), m % k)
    ensures 10 + k + k * k <= n < 10 + k + k * k + k * k * k ==>
      var m := n - 10 - k - k * k;
      BlockOf(blocks, ia, n, k) == Entry(blocks, Entry(blocks, Entry(blocks, ia[12], m / k / k), m / k % k), m % k)
    ensures 10 + k + k * k + k * k * k <= n ==> BlockOf(blocks, ia, n, k) == 0
  {
    hide Locate, Entry, Follow;
    LocateInNumbers(n, k);
    if Locate(n, k).Some? {
      var p := Locate(n, k).value;
      FollowInNumbers(blocks, ia[p.slot], if |p.path| > 0 then p.path[0] else 0, if |p.path| > 1 then p.path[1] else 0,
                      if |p.path| > 2 then p.path[2] else 0);
    }
  }

  ghost predicate OpenFrom(blocks: seq<Block>, ia: seq<int>, p: Pos)
    requires p.slot < |ia|
  {
    (forall s :: p.slot < s < |ia| ==> ia[s] == 0) && Open(blocks, ia[p.slot], p.path)
  }

  ghost predicate ClosedAfter(blocks: seq<Block>, ia: seq<int>, p: Pos)
    requires p.slot < |ia|
  {
    (forall s :: p.slot < s < |ia| ==> ia[s] == 0) && Closed(blocks, ia[p.slot], p.path)
  }

  /** Nothing is mapped at file block `n` or beyond it. */
  ghost predicate EmptyFrom(blocks: seq<Block>, ia: seq<int>, n: nat, k: nat)
    requires k > 0 && |ia| == NADDR
  {
    n < Capacity(k) ==> OpenFrom(blocks, ia, Locate(n, k).value)
  }

  lemma {:induction false} SlotsSplit(blocks: seq<Block>, ia: seq<int>, lo: nat, mid: nat, hi: nat)
    requires lo <= mid <= hi <= |ia|
    ensures Slots(blocks, ia, lo, hi) == Slots(blocks, ia, lo, mid) + Slots(blocks, ia, mid, hi)
    decreases mid - lo
  {
    if lo < mid {
      SlotsSplit(blocks, ia, lo + 1, mid, hi);
    }
  }

  lemma {:induction false} NodesAround(blocks: seq<Block>, ia: seq<int>, s: nat)
    requires s < |ia|
    ensures Nodes(blocks, ia) == Slots(blocks, ia, 0, s) + PreOrder(blocks, ia[s], Height(s)) + Slots(blocks, ia, s + 1, |ia|)
  {
    SlotsSplit(blocks, ia, 0, s, |ia|);
  }

  lemma {:induction false} SlotsOfZeroes(blocks: seq<Block>, ia: seq<int>, lo: nat)
    requires lo <= |ia| && forall s :: lo <= s < |ia| ==> ia[s] == 0
    ensures Slots(blocks, ia, lo, |ia|) == []
    decreases |ia| - lo
  {
    if lo < |ia| {
      SlotsOfZeroes(blocks, ia, lo + 1);
    }
  }

  lemma {:induction false} NodesUpTo(blocks: seq<Block>, ia: seq<int>, s: nat)
    requires s < |ia| && forall t :: s < t < |ia| ==> ia[t] == 0
    ensures Nodes(blocks, ia) == Slots(blocks, ia, 0, s) + PreOrder(blocks, ia[s], Height(s))
  {
    NodesAround(blocks, ia, s);
    SlotsOfZeroes(blocks, ia, s + 1);
  }

  lemma {:induction false} SlotsFrame(was: seq<Block>, now: seq<Block>, ia: seq<int>, ia': seq<int>, lo: nat, hi: nat)
    requires lo <= hi <= |ia| && hi <= |ia'| && ia[lo..hi] == ia'[lo..hi]
    requires SameIndirect(was, now, Slots(was, ia, lo, hi))
    ensures Slots(now, ia', lo, hi) == Slots(was, ia, lo, hi)
    decreases hi - lo
  {
    if lo < hi {
      assert ia[lo] == ia[lo..hi][0] == ia'[lo];
      assert ia[lo + 1..hi] == ia[lo..hi][1..] == ia'[lo + 1..hi];
      PreOrderFrame(was, now, ia[lo], Height(lo));
      SlotsFrame(was, now, ia, ia', lo + 1, hi);
    }
  }

  /** A change outside the indirect blocks of the file is invisible through it. */
  lemma {:induction false} InodeFrame(was: seq<Block>, now: seq<Block>, ia: seq<int>, k: nat)
    requires k > 0 && |ia| == NADDR && SameIndirect(was, now, Nodes(was, ia))
    ensures Nodes(now, ia) == Nodes(was, ia)
    ensures forall n: nat :: BlockOf(now, ia, n, k) == BlockOf(was, ia, n, k)
    ensures forall n: nat :: EmptyFrom(now, ia, n, k) == EmptyFrom(was, ia, n, k)
  {
    SlotsFrame(was, now, ia, ia, 0, NADDR);
    forall n: nat | n < Capacity(k)
      ensures BlockOf(now, ia, n, k) == BlockOf(was, ia, n, k) && EmptyFrom(now, ia, n, k) == EmptyFrom(was, ia, n, k)
    {
      var p := Locate(n, k).value;
      NodesAround(was, ia, p.slot);
      PathFrame(was, now, ia[p.slot], p.path, Height(p.slot));
    }
  }

  lemma {:induction false} FollowInside(blocks: seq<Block>, ia: seq<int>, p: Pos, lo: nat, hi: nat)
    requires lo <= p.slot < hi <= |ia| && |p.path| == Height(p.slot) && Follow(blocks, ia[p.slot], p.path) != 0
    ensures Node(Follow(blocks, ia[p.slot], p.path), 0) in Slots(blocks, ia, lo, hi)
  {
    StaysInside(blocks, ia[p.slot], p.path, |p.path|, Height(p.slot));
    SlotsSplit(blocks, ia, lo, p.slot, hi);
  }

  /** Every block the file maps is one of its nodes, at data level. */
  lemma {:induction false} BlockOfInside(blocks: seq<Block>, ia: seq<int>, n: nat, k: nat)
    requires k > 0 && |ia| == NADDR && BlockOf(blocks, ia, n, k) != 0
    ensures Node(BlockOf(blocks, ia, n, k), 0) in Nodes(blocks, ia)
  {
    FollowInside(blocks, ia, Locate(n, k).value, 0, NADDR);
  }

  /** The file's addresses share no block. */
  lemma {:induction false} SlotsApart(blocks: seq<Block>, ia: seq<int>, s: nat)
    requires s < |ia| && DistinctNodes(Nodes(blocks, ia))
    ensures DistinctNodes(PreOrder(blocks, ia[s], Height(s)))
    ensures Apart(PreOrder(blocks, ia[s], Height(s)), Slots(blocks, ia, 0, s))
    ensures Apart(PreOrder(blocks, ia[s], Height(s)), Slots(blocks, ia, s + 1, |ia|))
  {
    var left, here, right := Slots(blocks, ia, 0, s), PreOrder(blocks, ia[s], Height(s)), Slots(blocks, ia, s + 1, |ia|);
    NodesAround(blocks, ia, s);
    DistinctConcat(left + here, right);
    DistinctConcat(left, here);
    assert forall nd :: nd in here ==> nd in left + here;
  }

  /** Distinct file blocks lie in distinct disk blocks. */
  lemma {:induction false} BlockOfInjective(blocks: seq<Block>, ia: seq<int>, m: nat, n: nat, k: nat)
    requires k > 0 && |ia| == NADDR && DistinctNodes(Nodes(blocks, ia)) && m != n
    requires BlockOf(blocks, ia, m, k) != 0 && BlockOf(blocks, ia, n, k) != 0
    ensures BlockOf(blocks, ia, m, k) != BlockOf(blocks, ia, n, k)
  {
    LocateInjective(m, n, k);
    PositionsApart(blocks, ia, Locate(m, k).value, Locate(n, k).value);
  }

  lemma {:induction false} PositionsApart(blocks: seq<Block>, ia: seq<int>, p: Pos, q: Pos)
    requires p != q && p.slot < |ia| && q.slot < |ia| && DistinctNodes(Nodes(blocks, ia))
    requires |p.path| == Height(p.slot) && |q.path| == Height(q.slot)
    requires Follow(blocks, ia[p.slot], p.path) != 0 && Follow(blocks, ia[q.slot], q.path) != 0
    ensures Follow(blocks, ia[p.slot], p.path) != Follow(blocks, ia[q.slot], q.path)
  {
    SlotsApart(blocks, ia, p.slot);
    if p.slot == q.slot {
      FollowInjective(blocks, ia[p.slot], p.path, q.path);
    } else {
      StaysInside(blocks, ia[p.slot], p.path, |p.path|, Height(p.slot));
      if q.slot < p.slot {
        FollowInside(blocks, ia, q, 0, p.slot);
      } else {
        FollowInside(blocks, ia, q, p.slot + 1, |ia|);
      }
    }
  }

  lemma {:induction false} EmptyInode(blocks: seq<Block>, ia: seq<int>, k: nat)
    requires k > 0 && |ia| == NADDR && forall s :: 0 <= s < NADDR ==> ia[s] == 0
    ensures Nodes(blocks, ia) == []
    ensures forall n: nat :: BlockOf(blocks, ia, n, k) == 0 && EmptyFrom(blocks, ia, n, k)
  {
    SlotsOfZeroes(blocks, ia, 0);
  }

  lemma {:induction false} EmptyFromLater(blocks: seq<Block>, ia: seq<int>, m: nat, n: nat, k: nat)
    requires k > 0 && |ia| == NADDR && Wide(blocks, k) && m < n
    requires m < Capacity(k) ==> ClosedAfter(blocks, ia, Locate(m, k).value)
    ensures EmptyFrom(blocks, ia, n, k)
  {
    if n < Capacity(k) {
      var p, q := Locate(m, k).value, Locate(n, k).value;
      LocateOrdered(m, n, k);
      if p.slot == q.slot {
        ClosedThenOpen(blocks, ia[p.slot], p.path, q.path, k);
      }
    }
  }

  // ---- what one allocation does to the file ----

  /** A missing block on the walk to `p` can be filled with `x`: an inode address when `d` is 0,
      otherwise an entry of the indirect block at depth `d - 1`. */
  ghost predicate CanExtend(blocks: seq<Block>, ia: seq<int>, p: Pos, d: nat, x: int, k: nat)
  {
    && p.slot < |ia| && |p.path| == Height(p.slot) && d <= |p.path|
    && (forall s :: p.slot < s < |ia| ==> ia[s] == 0)
    && Wide(blocks, k) && Within(p.path, k) && 0 < x < |blocks|
    && DistinctNodes(Nodes(blocks, ia)) && !Holds(Nodes(blocks, ia), x)
    && if d == 0 then ia[p.slot] == 0 else CanGrow(blocks, ia[p.slot], p.path, d - 1, x, k)
  }

  lemma {:induction false} MayExtend(blocks: seq<Block>, ia: seq<int>, p: Pos, d: nat, x: int, k: nat)
    requires p.slot < |ia| && |p.path| == Height(p.slot) && d <= |p.path|
    requires Wide(blocks, k) && Within(p.path, k) && 0 < x < |blocks|
    requires DistinctNodes(Nodes(blocks, ia)) && !Holds(Nodes(blocks, ia), x)
    requires OpenFrom(blocks, ia, p) && At(blocks, ia[p.slot], p.path, d) == 0
    requires d > 0 ==> 0 < At(blocks, ia[p.slot], p.path, d - 1) < |blocks|
    ensures CanExtend(blocks, ia, p, d, x, k)
  {
    SlotsApart(blocks, ia, p.slot);
    NodesAround(blocks, ia, p.slot);
    assert forall nd :: nd in PreOrder(blocks, ia[p.slot], |p.path|) ==> nd in Nodes(blocks, ia);
  }

  ghost function ExtendedVolume(blocks: seq<Block>, ia: seq<int>, p: Pos, d: nat, x: int, k: nat): seq<Block>
    requires CanExtend(blocks, ia, p, d, x, k)
  {
    if d == 0 then blocks[x := Zeroes(k)] else Grown(blocks, ia[p.slot], p.path, d - 1, x, k)
  }

  ghost function ExtendedInode(ia: seq<int>, p: Pos, d: nat, x: int): seq<int>
    requires p.slot < |ia|
  {
    if d == 0 then ia[p.slot := x] else ia
  }

  lemma {:induction false} ExtendSparesLeft(blocks: seq<Block>, ia: seq<int>, p: Pos, d: nat, x: int, k: nat)
    requires CanExtend(blocks, ia, p, d, x, k)
    ensures SameIndirect(blocks, ExtendedVolume(blocks, ia, p, d, x, k), Slots(blocks, ia, 0, p.slot))
    ensures Slots(ExtendedVolume(blocks, ia, p, d, x, k), ExtendedInode(ia, p, d, x), 0, p.slot) == Slots(blocks, ia, 0, p.slot)
  {
    SparesLeft(blocks, ia, p, d, x, k);
    SlotsFrame(blocks, ExtendedVolume(blocks, ia, p, d, x, k), ia, ExtendedInode(ia, p, d, x), 0, p.slot);
  }

  lemma {:induction false} SparesLeft(blocks: seq<Block>, ia: seq<int>, p: Pos, d: nat, x: int, k: nat)
    requires CanExtend(blocks, ia, p, d, x, k)
    ensures SameIndirect(blocks, ExtendedVolume(blocks, ia, p, d, x, k), Slots(blocks, ia, 0, p.slot))
  {
    var left := Slots(blocks, ia, 0, p.slot);
    NodesAround(blocks, ia, p.slot);
    assert forall nd :: nd in left ==> nd in Nodes(blocks, ia);
    assert !Holds(left, x);
    if d > 0 {
      SlotsApart(blocks, ia, p.slot);
      StaysInside(blocks, ia[p.slot], p.path, d - 1, |p.path|);
      assert !Holds(left, At(blocks, ia[p.slot], p.path, d - 1));
    }
  }

  /** The tree at the address walked gets the new block, last. */
  lemma {:induction false} ExtendSlot(blocks: seq<Block>, ia: seq<int>, p: Pos, d: nat, x: int, k: nat)
    requires CanExtend(blocks, ia, p, d, x, k)
    ensures PreOrder(ExtendedVolume(blocks, ia, p, d, x, k), ExtendedInode(ia, p, d, x)[p.slot], |p.path|)
         == PreOrder(blocks, ia[p.slot], |p.path|) + [Node(x, |p.path| - d)]
  {
    if d > 0 {
      GrowAppends(blocks, ia[p.slot], p.path, d - 1, x, k);
    } else if |p.path| > 0 {
      var now := ExtendedVolume(blocks, ia, p, d, x, k);
      KidsOfZeroes(now, now[x], 0, k, |p.path| - 1);
    }
  }

  /** The new block comes last in the file. */
  lemma {:induction false} ExtendAppends(blocks: seq<Block>, ia: seq<int>, p: Pos, d: nat, x: int, k: nat)
    requires CanExtend(blocks, ia, p, d, x, k)
    ensures Nodes(ExtendedVolume(blocks, ia, p, d, x, k), ExtendedInode(ia, p, d, x))
         == Nodes(blocks, ia) + [Node(x, |p.path| - d)]
  {
    NodesUpTo(blocks, ia, p.slot);
    NodesUpTo(ExtendedVolume(blocks, ia, p, d, x, k), ExtendedInode(ia, p, d, x), p.slot);
    ExtendSlot(blocks, ia, p, d, x, k);
    ExtendSparesLeft(blocks, ia, p, d, x, k);
  }

  /** Only the path walked changes what it leads to, and only when its data block is the one allocated. */
  lemma {:induction false} ExtendMaps(blocks: seq<Block>, ia: seq<int>, p: Pos, d: nat, x: int, k: nat, q: Pos)
    requires CanExtend(blocks, ia, p, d, x, k)
    requires q.slot < |ia| && |q.path| == Height(q.slot) && Within(q.path, k)
    ensures Follow(ExtendedVolume(blocks, ia, p, d, x, k), ExtendedInode(ia, p, d, x)[q.slot], q.path)
         == if d == |p.path| && q == p then x else Follow(blocks, ia[q.slot], q.path)
  {
    var now, ia' := ExtendedVolume(blocks, ia, p, d, x, k), ExtendedInode(ia, p, d, x);
    if q.slot < p.slot {
      ExtendSparesLeft(blocks, ia, p, d, x, k);
      SlotsSplit(blocks, ia, 0, q.slot, p.slot);
      PathFrame(blocks, now, ia[q.slot], q.path, Height(q.slot));
    } else if q.slot == p.slot {
      if d > 0 {
        GrowFollows(blocks, ia[p.slot], p.path, d - 1, x, k, q.path);
      } else if |p.path| > 0 {
        assert Follow(now, x, q.path) == At(now, 0, q.path[1..], |q.path| - 1);
      }
    }
  }

  lemma {:induction false} ExtendKeepsOpen(blocks: seq<Block>, ia: seq<int>, p: Pos, d: nat, x: int, k: nat)
    requires CanExtend(blocks, ia, p, d, x, k)
    ensures var now, ia' := ExtendedVolume(blocks, ia, p, d, x, k), ExtendedInode(ia, p, d, x);
      && At(now, ia'[p.slot], p.path, d) == x
      && ClosedAfter(now, ia', p) && (d < |p.path| ==> OpenFrom(now, ia', p))
  {
    if d > 0 {
      GrowKeepsOpen(blocks, ia[p.slot], p.path, d - 1, x, k);
    }
  }

  // Blocks of 512 bytes hold 128 entries.
  lemma CapacityOf128()
    ensures Capacity(Pow2(7)) == 10 + 128 + 16384 + 2097152
  {
    Pow2InNumbers(0);
    CapacityInNumbers(128);
  }
}
