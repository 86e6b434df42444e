/** Where the subtree of each node lies in the sequence of all keys in order. */
module AvlOrder {
  import opened AvlTree
  import opened AvlStore
  import opened AvlInsert

  ghost predicate Increasing(order: seq<int>) {
    forall i, j :: 0 <= i < j < |order| ==> order[i] < order[j]
  }

  /** No two nodes carry the same key. */
  ghost predicate KeysApart<V>(s: Store<V>) {
    forall a, b :: a in s.rec && b in s.rec && a.key == b.key ==> a == b
  }

  ghost predicate Ordered<V>(s: Store<V>, t: Trees<V>, order: seq<int>) {
    Shaped(s, t) && KeysApart(s) && Increasing(order) && order == InOrder(Sub(t, s.head))
  }

  /** The keys of `tree` are those of `order` from `lo` on. */
  ghost predicate Spans(order: seq<int>, lo: nat, tree: Tree) {
    var n := |InOrder(tree)|;
    lo + n <= |order| && order[lo..lo + n] == InOrder(tree)
  }

  lemma {:induction false} SpanParts(order: seq<int>, lo: nat, l: Tree, key: int, r: Tree)
    requires Spans(order, lo, Br(l, key, r))
    ensures Spans(order, lo, l) && lo + |InOrder(l)| < |order| && order[lo + |InOrder(l)|] == key
    ensures Spans(order, lo + |InOrder(l)| + 1, r)
    ensures |InOrder(Br(l, key, r))| == |InOrder(l)| + 1 + |InOrder(r)|
  {
    SliceThree(order, lo, InOrder(l), key, InOrder(r));
  }

  lemma SliceThree(order: seq<int>, lo: nat, a: seq<int>, key: int, b: seq<int>)
    requires var n := |a| + 1 + |b|; lo + n <= |order| && order[lo..lo + n] == a + [key] + b
    ensures order[lo..lo + |a|] == a && order[lo + |a|] == key
    ensures order[lo + |a| + 1..lo + |a| + 1 + |b|] == b
  {
    var part := order[lo..lo + |a| + 1 + |b|];
    assert order[lo..lo + |a|] == part[..|a|];
    assert order[lo + |a|] == part[|a|];
    assert order[lo + |a| + 1..lo + |a| + 1 + |b|] == part[|a| + 1..];
  }

  /** A tree with a key in it lies at one place only. */
  lemma {:induction false} SpanUnique(order: seq<int>, lo: nat, lo': nat, tree: Tree)
    requires Increasing(order) && tree.Br? && Spans(order, lo, tree) && Spans(order, lo', tree)
    ensures lo == lo'
  {
    SpanParts(order, lo, tree.l, tree.key, tree.r);
    SpanParts(order, lo', tree.l, tree.key, tree.r);
  }

  lemma {:induction false} FindBelow<V>(s: Store<V>, t: Trees<V>, order: seq<int>, cur: Node<V>, lo: nat, p: Node<V>) returns (at: nat)
    requires Ordered(s, t, order) && cur in s.rec && p in s.rec && p.key in Keys(t[cur]) && Spans(order, lo, t[cur])
    ensures Spans(order, at, t[p])
    decreases Height(t[cur])
  {
    assert Local(s, t, cur) && Tagged(s, t, cur) && Linked(s, cur);
    var l, r := Sub(t, s.rec[cur].L), Sub(t, s.rec[cur].R);
    SpanParts(order, lo, l, cur.key, r);
    SearchStep(s, t, cur, p.key);
    if p.key < cur.key {
      at := FindBelow(s, t, order, s.rec[cur].L, lo, p);
    } else if cur.key < p.key {
      at := FindBelow(s, t, order, s.rec[cur].R, lo + |InOrder(l)| + 1, p);
    } else {
      at := lo;
    }
  }

  lemma {:induction false} FindSpan<V>(s: Store<V>, t: Trees<V>, order: seq<int>, p: Node<V>) returns (at: nat)
    requires Ordered(s, t, order) && p in s.rec && p.key in Keys(Sub(t, s.head))
    ensures Spans(order, at, t[p])
  {
    at := FindBelow(s, t, order, s.head, 0, p);
  }

  /** From a node to its parent: a left child ends just before the parent's key, a right child begins just after it. */
  lemma {:induction false} UpStep<V>(s: Store<V>, t: Trees<V>, order: seq<int>, q: Node<V>, lo: nat) returns (up: nat)
    requires Ordered(s, t, order) && q in s.rec && Spans(order, lo, t[q])
    requires s.rec[q].U != null && s.rec[q].U.key in Keys(Sub(t, s.head))
    ensures var p := s.rec[q].U; var n := |InOrder(t[q])|;
      && p in s.rec && Spans(order, up, t[p])
      && if s.rec[p].L == q then lo + n < |order| && order[lo + n] == p.key && up == lo
         else s.rec[p].R == q && lo > 0 && order[lo - 1] == p.key && up + |InOrder(t[p])| == lo + n
  {
    var p := s.rec[q].U;
    assert Linked(s, q) && Linked(s, p) && Local(s, t, p) && Local(s, t, q);
    up := FindSpan(s, t, order, p);
    var l, r := Sub(t, s.rec[p].L), Sub(t, s.rec[p].R);
    SpanParts(order, up, l, p.key, r);
    SpanUnique(order, lo, if s.rec[p].L == q then up else up + |InOrder(l)| + 1, t[q]);
  }

  /** From a node to its children. */
  lemma {:induction false} DownStep<V>(s: Store<V>, t: Trees<V>, order: seq<int>, p: Node<V>, lo: nat)
    requires Ordered(s, t, order) && p in s.rec && Spans(order, lo, t[p])
    ensures var l, r := Sub(t, s.rec[p].L), Sub(t, s.rec[p].R); var a := |InOrder(l)|;
      && Spans(order, lo, l) && lo + a < |order| && order[lo + a] == p.key && Spans(order, lo + a + 1, r)
      && |InOrder(t[p])| == a + 1 + |InOrder(r)|
      && Height(l) < Height(t[p]) && Height(r) < Height(t[p])
      && In(s, s.rec[p].L) && In(s, s.rec[p].R)
      && (s.rec[p].L == null ==> a == 0) && (s.rec[p].R == null ==> |InOrder(r)| == 0)
  {
    assert Local(s, t, p) && Linked(s, p);
    SpanParts(order, lo, Sub(t, s.rec[p].L), p.key, Sub(t, s.rec[p].R));
  }

  /** The last node visited on the way up is the head, whose keys are all there are. */
  lemma {:induction false} HeadSpan<V>(s: Store<V>, t: Trees<V>, order: seq<int>, q: Node<V>, lo: nat)
    requires Ordered(s, t, order) && q in s.rec && Spans(order, lo, t[q]) && s.rec[q].U == null
    ensures lo == 0 && lo + |InOrder(t[q])| == |order|
  {
    assert Linked(s, q) && Local(s, t, q);
    assert order[0..|order|] == order;
    SpanUnique(order, lo, 0, t[q]);
  }

  /** Every subtree is balanced. */
  lemma {:induction false} AllBalanced<V>(s: Store<V>, t: Trees<V>, p: Node<V>)
    requires Shaped(s, t) && p in s.rec
    ensures Balanced(t[p])
    decreases Height(t[p])
  {
    assert Local(s, t, p) && Tagged(s, t, p) && Linked(s, p);
    var l, r := s.rec[p].L, s.rec[p].R;
    if l != null {
      AllBalanced(s, t, l);
    }
    if r != null {
      AllBalanced(s, t, r);
    }
  }
}
