/** Iterators that walk the linked nodes in key order without a stack, and copying by iteration. */
module AvlIter {
  import opened AvlTree
  import opened AvlStore
  import opened AvlInsert
  import opened AvlOrder
  import opened AvlMap

  /** The place of `p` among the keys in order; the null position comes after the last key. */
  ghost predicate Position<V>(m: Map<V>, p: Node?<V>, i: nat)
    reads m
  {
    if p == null then i == |m.Order()| else i < |m.Order()| && p in m.nodes && m.Order()[i] == p.key
  }

  /** The place after `i` when the null position `n` joins the ends. */
  function After(i: nat, n: nat): nat {
    if i == n then 0 else i + 1
  }

  function Before(i: nat, n: nat): nat {
    if i == 0 then n else i - 1
  }

  /** A place holds one node only. */
  lemma PositionUnique<V>(m: Map<V>, p: Node?<V>, q: Node?<V>, i: nat)
    requires m.Valid() && Position(m, p, i) && Position(m, q, i)
    ensures p == q
  {
    m.OrderIsKeys();
  }

  /** Where the subtree of `p` begins, and where the key of `p` is within it. */
  lemma Placed<V>(m: Map<V>, p: Node<V>, i: nat) returns (lo: nat)
    requires m.Valid() && Position(m, p, i)
    ensures Ordered(m.Snap(), m.t, m.Order()) && p in m.t && Spans(m.Order(), lo, m.t[p])
    ensures i == lo + |InOrder(Sub(m.t, p.L))|
    ensures (p.L != null ==> p.L in m.nodes && p.L in m.t) && (p.R != null ==> p.R in m.nodes && p.R in m.t)
    ensures p.R == null ==> lo + |InOrder(m.t[p])| == i + 1
    ensures p.L == null ==> lo == i
    ensures p.R != null ==> Spans(m.Order(), i + 1, m.t[p.R])
    ensures p.L != null ==> Spans(m.Order(), lo, m.t[p.L]) && lo + |InOrder(m.t[p.L])| == i
  {
    hide Map.Snap, Map.Valid, Map.Order, Ordered, Spans, Height, InOrder, Keys;
    m.OrderIsKeys();
    m.NodeKeys();
    m.SnapHead();
    m.SnapAt(p);
    m.SnapAt(p.L);
    m.SnapAt(p.R);
    lo := FindSpan(m.Snap(), m.t, m.Order(), p);
    DownStep(m.Snap(), m.t, m.Order(), p, lo);
    KeyOnce(m, p, i, lo + |InOrder(Sub(m.t, p.L))|);
  }

  /** A key stands in one place only. */
  lemma KeyOnce<V>(m: Map<V>, p: Node<V>, i: nat, j: nat)
    requires m.Valid() && Position(m, p, i) && j < |m.Order()| && m.Order()[j] == p.key
    ensures i == j
  {
    hide Map.Snap, Map.Valid, Map.Order;
    m.OrderIsKeys();
    OrderIncreases(m);
  }

  /** The children of a node whose subtree lies at `lo`. */
  lemma GoDown<V>(m: Map<V>, p: Node<V>, lo: nat)
    requires m.Valid() && p in m.nodes && p in m.t && Spans(m.Order(), lo, m.t[p])
    ensures (p.L != null ==> p.L in m.nodes && p.L in m.t) && (p.R != null ==> p.R in m.nodes && p.R in m.t)
    ensures p.L == null ==> Position(m, p, lo)
    ensures p.L != null ==> Spans(m.Order(), lo, m.t[p.L]) && Height(m.t[p.L]) < Height(m.t[p])
    ensures p.R == null ==> |InOrder(m.t[p])| > 0 && Position(m, p, lo + |InOrder(m.t[p])| - 1)
    ensures p.R != null ==>
      && |InOrder(m.t[p])| >= |InOrder(m.t[p.R])| && Height(m.t[p.R]) < Height(m.t[p])
      && Spans(m.Order(), lo + |InOrder(m.t[p])| - |InOrder(m.t[p.R])|, m.t[p.R])
  {
    hide Map.Snap, Map.Valid, Ordered, Height;
    m.OrderIsKeys();
    m.NodeKeys();
    m.SnapAt(p);
    m.SnapAt(p.L);
    m.SnapAt(p.R);
    DownStep(m.Snap(), m.t, m.Order(), p, lo);
  }

  /** One step up from a node whose subtree lies at `lo`. */
  lemma GoUp<V>(m: Map<V>, q: Node<V>, lo: nat) returns (up: nat)
    requires m.Valid() && q in m.nodes && q in m.t && Spans(m.Order(), lo, m.t[q])
    ensures q.U == null ==> lo == 0 && lo + |InOrder(m.t[q])| == |m.Order()|
    ensures q.U != null ==>
      var p, n := q.U, |InOrder(m.t[q])|;
      && p in m.nodes && p in m.t && Spans(m.Order(), up, m.t[p]) && |InOrder(m.t[p])| > n
      && if p.L == q then Position(m, p, lo + n) && up == lo && p.R != q
         else p.R == q && lo > 0 && Position(m, p, lo - 1) && up + |InOrder(m.t[p])| == lo + n
  {
    hide Map.Snap, Map.Valid, Map.Order, Ordered, Spans, Height, InOrder, Keys;
    m.OrderIsKeys();
    m.NodeKeys();
    m.SnapHead();
    m.SnapAt(q);
    up := 0;
    if q.U == null {
      HeadSpan(m.Snap(), m.t, m.Order(), q, lo);
    } else {
      ParentThere(m, q);
      m.SnapAt(q.U);
      up := UpStep(m.Snap(), m.t, m.Order(), q, lo);
      DownStep(m.Snap(), m.t, m.Order(), q.U, up);
    }
  }

  lemma ParentThere<V>(m: Map<V>, q: Node<V>)
    requires m.Valid() && q in m.nodes && q.U != null
    ensures q.U in m.nodes && q.U.L != q.U.R && (q.U.L == q || q.U.R == q)
  {
    hide Map.Snap;
    m.SnapAt(q);
    assert Linked(m.Snap(), q);
    m.SnapAt(q.U);
    assert Linked(m.Snap(), q.U);
  }

  /** The whole tree hangs from the head. */
  lemma AtHead<V>(m: Map<V>)
    requires m.Valid()
    ensures m.head == null ==> |m.Order()| == 0
    ensures m.head != null ==> m.head in m.nodes && m.head in m.t && Spans(m.Order(), 0, m.t[m.head])
    ensures m.head != null ==> |InOrder(m.t[m.head])| == |m.Order()|
  {
    m.OrderIsKeys();
    assert m.Order()[0..|m.Order()|] == m.Order();
  }

  class Mapiter<V> {
    const m: Map<V>
    var p: Node?<V>

    constructor (map0: Map<V>)
      ensures m == map0 && p == null
    {
      m, p := map0, null;
    }

    /** To the next key in order, round through the null position. */
    method Next(ghost i: nat)
      requires m.Valid() && Position(m, p, i)
      modifies this`p
      ensures Position(m, p, After(i, |m.Order()|))
    {
      hide Spans, Map.Valid, Map.Snap, Map.Order, InOrder, Height, Ordered, Increasing;
      ghost var lo: nat := 0;
      if p != null {
        lo := Placed(m, p, i);
        if p.R != null {
          p := p.R;
          lo := i + 1;
        } else {
          while p != null
            invariant p != null ==> p in m.nodes && p in m.t && Spans(m.Order(), lo, m.t[p]) && lo + |InOrder(m.t[p])| == i + 1
            invariant p == null ==> i + 1 == |m.Order()|
            decreases if p == null then 0 else 1 + |m.Order()| - |InOrder(m.t[p])|
          {
            SpanFits(m, p, lo);
            var q := p;
            ghost var up := GoUp(m, q, lo);
            p := p.U;
            if p != null && p.L == q {
              return;
            }
            if p != null {
              SpanFits(m, p, up);
            }
            lo := up;
          }
        }
      } else {
        AtHead(m);
        p := m.head;
      }
      if p != null {
        while p.L != null
          invariant p in m.nodes && p in m.t && Spans(m.Order(), lo, m.t[p])
          decreases Height(m.t[p])
        {
          GoDown(m, p, lo);
          p := p.L;
        }
        GoDown(m, p, lo);
      }
    }

    /** To the key before, round through the null position. */
    method Prev(ghost i: nat)
      requires m.Valid() && Position(m, p, i)
      modifies this`p
      ensures Position(m, p, Before(i, |m.Order()|))
    {
      hide Spans, Map.Valid, Map.Snap, Map.Order, InOrder, Height, Ordered, Increasing;
      ghost var hi: nat := |m.Order()|;
      ghost var lo: nat := 0;
      if p != null {
        lo := Placed(m, p, i);
        hi := i;
        if p.L != null {
          p := p.L;
        } else {
          while p != null
            invariant p != null ==> p in m.nodes && p in m.t && Spans(m.Order(), lo, m.t[p]) && lo == i
            invariant p == null ==> i == 0
            decreases if p == null then 0 else 1 + |m.Order()| - |InOrder(m.t[p])|
          {
            SpanFits(m, p, lo);
            var q := p;
            ghost var up := GoUp(m, q, lo);
            p := p.U;
            if p != null && p.R == q {
              return;
            }
            if p != null {
              SpanFits(m, p, up);
            }
            lo := up;
          }
        }
      } else {
        AtHead(m);
        p := m.head;
      }
      if p != null {
        while p.R != null
          invariant p in m.nodes && p in m.t && Spans(m.Order(), lo, m.t[p]) && lo + |InOrder(m.t[p])| == hi
          decreases Height(m.t[p])
        {
          GoDown(m, p, lo);
          lo := lo + |InOrder(m.t[p])| - |InOrder(m.t[p.R])|;
          p := p.R;
        }
        GoDown(m, p, lo);
      }
    }
  }

  lemma SpanFits<V>(m: Map<V>, p: Node<V>, lo: nat)
    requires p in m.t && Spans(m.Order(), lo, m.t[p])
    ensures lo + |InOrder(m.t[p])| <= |m.Order()|
  {
  }

  /** The keys that an iterator from the null position passes until it is back there. */
  method Walk<V>(m: Map<V>) returns (keys: seq<int>)
    requires m.Valid()
    ensures keys == m.Order()
    ensures forall i, j :: 0 <= i < j < |keys| ==> keys[i] < keys[j]
    ensures forall k :: k in keys <==> k in m.View()
  {
    hide Position, Map.Valid, Map.Order, Map.View;
    var it := new Mapiter(m);
    ghost var order := m.Order();
    ghost var i := |order|;
    keys := [];
    AtNull(m);
    it.Next(i);
    i := After(i, |order|);
    InRange(m, it.p, i);
    while it.p != null
      invariant it.m == m && m.Valid() && m.Order() == order && Position(m, it.p, i)
      invariant i <= |order| && (it.p == null <==> i == |order|) && keys == order[..i]
      decreases |order| - i
    {
      AtPosition(m, it.p, i);
      keys := keys + [it.p.key];
      it.Next(i);
      i := After(i, |order|);
      InRange(m, it.p, i);
    }
    assert keys == order;
    OrderIncreases(m);
  }

  lemma OrderIncreases<V>(m: Map<V>)
    requires m.Valid()
    ensures forall i, j :: 0 <= i < j < |m.Order()| ==> m.Order()[i] < m.Order()[j]
    ensures forall k :: k in m.Order() <==> k in m.View()
  {
    m.OrderIsKeys();
    m.ViewKeys();
  }

  lemma InRange<V>(m: Map<V>, p: Node?<V>, i: nat)
    requires Position(m, p, i)
    ensures i <= |m.Order()|
    ensures p == null <==> i == |m.Order()|
  {
  }

  /** A step forward, to `there`, and a step back end where they began. */
  method ForthAndBack<V>(it: Mapiter<V>, ghost i: nat) returns (there: Node?<V>)
    requires it.m.Valid() && Position(it.m, it.p, i)
    modifies it`p
    ensures Position(it.m, there, After(i, |it.m.Order()|))
    ensures it.p == old(it.p)
  {
    hide Position, Map.Valid, Map.Order;
    InRange(it.m, it.p, i);
    it.Next(i);
    there := it.p;
    it.Prev(After(i, |it.m.Order()|));
    PositionUnique(it.m, it.p, old(it.p), i);
  }

  /** And so do a step back, to `there`, and a step forward. */
  method BackAndForth<V>(it: Mapiter<V>, ghost i: nat) returns (there: Node?<V>)
    requires it.m.Valid() && Position(it.m, it.p, i)
    modifies it`p
    ensures Position(it.m, there, Before(i, |it.m.Order()|))
    ensures it.p == old(it.p)
  {
    hide Position, Map.Valid, Map.Order;
    InRange(it.m, it.p, i);
    it.Prev(i);
    there := it.p;
    it.Next(Before(i, |it.m.Order()|));
    PositionUnique(it.m, it.p, old(it.p), i);
  }

  /** The part of a map that the first `i` of its keys make up. */
  ghost function Restricted<V>(was: map<int, V>, order: seq<int>, i: nat): map<int, V>
    requires i <= |order|
  {
    map k | k in order[..i] && k in was :: was[k]
  }

  lemma RestrictedNext<V>(was: map<int, V>, order: seq<int>, i: nat)
    requires i < |order| && order[i] in was
    ensures Restricted(was, order, i + 1) == Restricted(was, order, i)[order[i] := was[order[i]]]
  {
    assert order[..i + 1] == order[..i] + [order[i]];
  }

  lemma AtPosition<V>(m: Map<V>, p: Node<V>, i: nat)
    requires m.Valid() && Position(m, p, i)
    ensures i < |m.Order()| && m.Order()[i] == p.key && p.key in m.View() && m.View()[p.key] == p.value
  {
  }

  /** Makes `d` a copy of `m` by walking over `m` and inserting. */
  method Assign<V>(d: Map<V>, m: Map<V>)
    requires d.Valid() && m.Valid() && (d != m ==> d.nodes !! m.nodes)
    modifies d, d.nodes
    ensures d.Valid() && m.Valid() && d.View() == m.View()
    ensures m.nodes == old(m.nodes) && m.View() == old(m.View())
  {
    hide Position, Map.Valid, Map.Order, Map.View;
    if d == m {
      return;
    }
    ghost var order, was := m.Order(), m.View();
    m.Distinct();
    d.Clear();
    EmptyView(d, was, order);
    var it := new Mapiter(m);
    ghost var i := |order|;
    AtNull(m);
    it.Next(i);
    i := After(i, |order|);
    while it.p != null
      invariant d.Valid() && m.Valid() && it.m == m && Position(m, it.p, i) && i <= |order|
      invariant m.Order() == order && m.View() == was && m.nodes == old(m.nodes) && d.nodes !! m.nodes
      invariant fresh(d.nodes) && d.View() == Restricted(was, order, i)
      decreases |order| - i
    {
      AtPosition(m, it.p, i);
      RestrictedNext(was, order, i);
      d.Put(it.p.key, it.p.value);
      it.Next(i);
      i := After(i, |order|);
      InRange(m, it.p, i);
    }
    InRange(m, it.p, i);
    m.ViewKeys();
    RestrictedAll(was, order);
  }

  lemma RestrictedAll<V>(was: map<int, V>, order: seq<int>)
    requires forall k :: k in order <==> k in was
    ensures Restricted(was, order, |order|) == was
  {
    assert order[..|order|] == order;
    assert forall k :: k in was ==> k in order[..|order|];
  }

  lemma EmptyView<V>(d: Map<V>, was: map<int, V>, order: seq<int>)
    requires d.at == map[]
    ensures d.View() == map[] == Restricted(was, order, 0)
  {
  }

  lemma AtNull<V>(m: Map<V>)
    ensures Position(m, null, |m.Order()|)
  {
  }
}
