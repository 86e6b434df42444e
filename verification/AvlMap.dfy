/** The map class: insertion with a default value, lookup, and rebalancing on the heap. */
module AvlMap {
  import opened AvlTree
  import opened AvlStore
  import opened AvlInsert
  import opened AvlOrder

  /** Every node is found under its key, and the tree at the head holds exactly these keys. */
  ghost predicate Indexed<V>(nodes: set<Node<V>>, at: map<int, Node<V>>, keys: set<int>, n: int) {
    && (forall m :: m in nodes ==> m.key in at && at[m.key] == m)
    && (forall k :: k in at ==> at[k] in nodes && at[k].key == k)
    && at.Keys == keys
    && n == |at|
  }

  lemma IndexGrows<V>(nodes: set<Node<V>>, at: map<int, Node<V>>, keys: set<int>, n: int, x: Node<V>)
    requires Indexed(nodes, at, keys, n) && x !in nodes && x.key !in at
    ensures Indexed(nodes + {x}, at[x.key := x], keys + {x.key}, n + 1)
  {
    assert at[x.key := x].Keys == at.Keys + {x.key};
  }

  class Map<V> {
    var head: Node?<V>
    var n: int
    const def: V
    ghost var nodes: set<Node<V>>
    ghost var at: map<int, Node<V>>
    ghost var t: Trees<V>

    ghost function Snap(): Store<V>
      reads this`head, this`nodes, nodes`L, nodes`R, nodes`U, nodes`bal
    {
      Store(head, map m | m in nodes :: Rec(m.L, m.R, m.U, m.bal))
    }

    ghost predicate Valid()
      reads this`head, this`n, this`nodes, this`at, this`t, nodes`L, nodes`R, nodes`U, nodes`bal
    {
      Shaped(Snap(), t) && Indexed(nodes, at, Keys(Sub(t, head)), n)
    }

    /** The map that the nodes stand for. */
    ghost function View(): map<int, V>
      reads this`at, set k | k in at :: at[k]
    {
      map k | k in at :: at[k].value
    }

    constructor (d: V)
      ensures Valid() && View() == map[] && nodes == {} && def == d
    {
      head, n, def := null, 0, d;
      nodes, at, t := {}, map[], map[];
    }

    method AttachL(p: Node<V>, x: Node?<V>)
      requires p in nodes && In(Snap(), x)
      modifies p`L, nodes`U
      ensures Snap() == Attached(old(Snap()), p, Lt, x)
    {
      p.L := x;
      if x != null {
        x.U := p;
      }
    }

    method AttachR(p: Node<V>, x: Node?<V>)
      requires p in nodes && In(Snap(), x)
      modifies p`R, nodes`U
      ensures Snap() == Attached(old(Snap()), p, Rt, x)
    {
      p.R := x;
      if x != null {
        x.U := p;
      }
    }

    /** Makes `q` hang where `p` hung below `u`, looking for `p` on the left first. */
    method RehangL(u: Node?<V>, p: Node<V>, q: Node<V>)
      requires In(Snap(), u) && q in nodes
      modifies this`head, nodes`L, nodes`R, q`U
      ensures Snap() == Replaced(old(Snap()), u, p, q)
    {
      if u == null {
        head := q;
      } else if u.L == p {
        u.L := q;
      } else {
        u.R := q;
      }
      q.U := u;
    }

    /** The same, looking on the right first. */
    method RehangR(u: Node?<V>, p: Node<V>, q: Node<V>)
      requires In(Snap(), u) && q in nodes
      requires u != null ==> (u.R == p) == (u.L != p)
      modifies this`head, nodes`L, nodes`R, q`U
      ensures Snap() == Replaced(old(Snap()), u, p, q)
    {
      if u == null {
        head := q;
      } else if u.R == p {
        u.R := q;
      } else {
        u.L := q;
      }
      q.U := u;
    }

    /** Turns the edge from `p` to its right child. */
    method RotL(p: Node<V>)
      requires Wired(Snap()) && p in nodes && p.R != null
      modifies this`head, nodes`L, nodes`R, nodes`U
      ensures Snap() == Rotated(old(Snap()), p, Rt)
    {
      hide Wired, Attached, Replaced;
      LinkedAt(p);
      LinkedAt(p.R);
      var q := p.R;
      var u := p.U;
      AttachR(p, q.L);
      AttachL(q, p);
      RehangL(u, p, q);
    }

    /** Turns the edge from `p` to its left child. */
    method RotR(p: Node<V>)
      requires Wired(Snap()) && p in nodes && p.L != null && NotAbove(Snap(), p, p.L)
      modifies this`head, nodes`L, nodes`R, nodes`U
      ensures Snap() == Rotated(old(Snap()), p, Lt)
    {
      hide Wired, Attached, Replaced;
      LinkedAt(p);
      LinkedAt(p.L);
      OneSide(Snap(), p, p.L);
      var q := p.L;
      var u := p.U;
      AttachL(p, q.R);
      AttachR(q, p);
      RehangR(u, p, q);
    }

    static lemma OneSide(s: Store<V>, p: Node<V>, q: Node<V>)
      requires Wired(s) && p in s.rec && NotAbove(s, p, q)
      ensures var u := s.rec[p].U; u != null ==> u in s.rec && u != p && u != q && (s.rec[u].R == p) == (s.rec[u].L != p)
    {
      assert Linked(s, p);
      if s.rec[p].U != null {
        assert Linked(s, s.rec[p].U);
      }
    }

    lemma SnapAt(p: Node?<V>)
      ensures p in Snap().rec <==> p in nodes
      ensures p in nodes ==> p != null && Snap().rec[p] == Rec(p.L, p.R, p.U, p.bal)
    {
    }

    lemma LinkedAt(p: Node<V>)
      requires Wired(Snap()) && p in nodes
      ensures Linked(Snap(), p)
    {
    }

    method Retag(p: Node<V>, b: char)
      requires p in nodes
      modifies p`bal
      ensures Snap() == SetBal(old(Snap()), p, b)
    {
      p.bal := b;
    }

    /** Both rotations for a right-heavy `p` whose child `q` leans the other way, with their tags. */
    method TurnTwiceRight(p: Node<V>, q: Node<V>, r: Node<V>, ghost s: Store<V>)
      requires s == Snap() && Wired(s) && p in nodes && q in nodes && r in nodes && p != q && q != r && p != r
      requires Kid(s.rec[q], Lt) == r && NotAbove(s, q, r) && r.bal in {'L', 'R', '='}
      requires var s1 := Rotated(s, q, Lt);
        && Wired(s1) && s1.rec.Keys == s.rec.Keys && Kid(s1.rec[p], Rt) == r && NotAbove(s1, p, r)
        && Rotated(s1, p, Rt).rec.Keys == s.rec.Keys && Rotated(s1, p, Rt).rec[r].bal == s.rec[r].bal
      modifies this`head, nodes`L, nodes`R, nodes`U, nodes`bal
      ensures Snap() == DoubleStore(s, p, q, r, Rt)
    {
      hide Rotated, Wired, NotAbove;
      RotR(q);
      RotL(p);
      assert r.bal == s.rec[r].bal;
      match r.bal {
        case 'L' =>
          Retag(p, '=');
          Retag(q, 'R');
        case 'R' =>
          Retag(p, 'L');
          Retag(q, '=');
        case '=' =>
          Retag(p, '=');
          Retag(q, '=');
      }
      Retag(r, '=');
    }

    /** `p` has become too heavy on the right, where `q` is its child. */
    method FixRight(p: Node<V>, q: Node<V>, ghost path: seq<Node<V>>, ghost was: Tree, ghost k: int) returns (ghost top: Node<V>)
      requires TooHeavy(Snap(), t, path, q, was, k, Rt) && p == Last(path) && p in nodes && q in nodes
      requires q.bal == 'R' || q.bal == 'L'
      modifies this`head, this`t, nodes`L, nodes`R, nodes`U, nodes`bal
      ensures Fixed(Snap(), old(t), t, path, top, k)
    {
      hide Snap, Pending, TooHeavy, Rotated, Wired, NotAbove, SingleTrees, DoubleTrees, DoubleStore, Path, Fixed;
      ghost var s := Snap();
      SnapAt(p);
      SnapAt(q);
      HeavyRotates(s, t, path, q, was, k, Rt);
      PendingKeys(s, t, path, q, was, k, Rt);
      if q.bal == 'R' {
        SingleFixes(s, t, path, q, was, k, Rt);
        RotL(p);
        Retag(p, '=');
        Retag(q, '=');
        t := SingleTrees(s, t, p, q, Rt);
        top := q;
      } else {
        InnerExists(s, t, path, q, was, k, Rt);
        var r := q.L;
        SnapAt(r);
        DoubleFixes(s, t, path, q, r, was, k, Rt);
        DoubleKept(s, t, path, q, r, was, k, Rt);
        TurnTwiceRight(p, q, r, s);
        t := DoubleTrees(s, t, p, q, r, Rt);
        top := r;
      }
    }

    /** Both rotations for a left-heavy `p` whose child `q` leans the other way, with their tags. */
    method TurnTwiceLeft(p: Node<V>, q: Node<V>, r: Node<V>, ghost s: Store<V>)
      requires s == Snap() && Wired(s) && p in nodes && q in nodes && r in nodes && p != q && q != r && p != r
      requires Kid(s.rec[q], Rt) == r && NotAbove(s, q, r) && r.bal in {'L', 'R', '='}
      requires var s1 := Rotated(s, q, Rt);
        && Wired(s1) && s1.rec.Keys == s.rec.Keys && Kid(s1.rec[p], Lt) == r && NotAbove(s1, p, r)
        && Rotated(s1, p, Lt).rec.Keys == s.rec.Keys && Rotated(s1, p, Lt).rec[r].bal == s.rec[r].bal
      modifies this`head, nodes`L, nodes`R, nodes`U, nodes`bal
      ensures Snap() == DoubleStore(s, p, q, r, Lt)
    {
      hide Rotated, Wired, NotAbove;
      RotL(q);
      RotR(p);
      assert r.bal == s.rec[r].bal;
      match r.bal {
        case 'R' =>
          Retag(p, '=');
          Retag(q, 'L');
        case 'L' =>
          Retag(p, 'R');
          Retag(q, '=');
        case '=' =>
          Retag(p, '=');
          Retag(q, '=');
      }
      Retag(r, '=');
    }

    /** `p` has become too heavy on the left, where `q` is its child. */
    method FixLeft(p: Node<V>, q: Node<V>, ghost path: seq<Node<V>>, ghost was: Tree, ghost k: int) returns (ghost top: Node<V>)
      requires TooHeavy(Snap(), t, path, q, was, k, Lt) && p == Last(path) && p in nodes && q in nodes
      requires q.bal == 'L' || q.bal == 'R'
      modifies this`head, this`t, nodes`L, nodes`R, nodes`U, nodes`bal
      ensures Fixed(Snap(), old(t), t, path, top, k)
    {
      hide Snap, Pending, TooHeavy, Rotated, Wired, NotAbove, SingleTrees, DoubleTrees, DoubleStore, Path, Fixed;
      ghost var s := Snap();
      SnapAt(p);
      SnapAt(q);
      HeavyRotates(s, t, path, q, was, k, Lt);
      PendingKeys(s, t, path, q, was, k, Lt);
      if q.bal == 'L' {
        SingleFixes(s, t, path, q, was, k, Lt);
        RotR(p);
        Retag(p, '=');
        Retag(q, '=');
        t := SingleTrees(s, t, p, q, Lt);
        top := q;
      } else {
        InnerExists(s, t, path, q, was, k, Lt);
        var r := q.R;
        SnapAt(r);
        DoubleFixes(s, t, path, q, r, was, k, Lt);
        DoubleKept(s, t, path, q, r, was, k, Lt);
        TurnTwiceLeft(p, q, r, s);
        t := DoubleTrees(s, t, p, q, r, Lt);
        top := r;
      }
    }

    /** Hangs the new node `x` where the search for its key ran out. */
    method Graft(x: Node<V>, d: Side, parent: Node?<V>, ghost path: seq<Node<V>>, ghost s: Store<V>)
      requires s == Snap() && Shaped(s, t)
      requires x !in nodes && x.L == x.R == null && x.U == parent && x.bal == '='
      requires parent == Last(path) && Path(s, path, x.key)
      requires if parent == null then head == null else x.key != parent.key && (d == Lt <==> x.key < parent.key)
      requires parent != null ==> parent in nodes && (if d == Lt then parent.L else parent.R) == null
      modifies this`head, this`n, this`nodes, this`at, this`t, nodes`L, nodes`R, x`L, x`R
      ensures nodes == old(nodes) + {x} && at == old(at)[x.key := x] && n == old(n) + 1
      ensures t == old(t)[x := Br(Leaf, x.key, Leaf)]
      ensures Growing(Snap(), t, path, x, Leaf, x.key)
    {
      hide Snap, Shaped, Path, Growing, Wired;
      SnapAt(parent);
      SnapHead();
      SnapAt(x);
      PlantedGrows(s, t, path, x.key, d, x);
      Adopt(x);
      Hang(parent, d, x);
      n := n + 1;
      at, t := at[x.key := x], t[x := Br(Leaf, x.key, Leaf)];
    }

    /** The new node becomes one of the map's. */
    ghost method Adopt(x: Node<V>)
      requires x !in nodes
      modifies this`nodes
      ensures nodes == old(nodes) + {x}
      ensures Snap() == old(Snap()).(rec := old(Snap()).rec[x := Rec(x.L, x.R, x.U, x.bal)])
    {
      nodes := nodes + {x};
    }

    /** Stores `x` in the pointer where the search ended. */
    method Hang(parent: Node?<V>, d: Side, x: Node<V>)
      requires In(Snap(), parent) && x in nodes
      modifies this`head, nodes`L, nodes`R
      ensures Snap() == if parent == null then old(Snap()).(head := x) else SetKid(old(Snap()), parent, d, x)
    {
      if parent == null {
        head := x;
      } else if d == Lt {
        parent.L := x;
      } else {
        parent.R := x;
      }
    }

    lemma SnapHead()
      ensures Snap().head == head
    {
    }

    /** Runs up the path, unbalancing every even node met. */
    method Unbalance(x: Node<V>, ghost path: seq<Node<V>>, ghost k: int) returns (p: Node?<V>, q: Node<V>, ghost up: seq<Node<V>>, ghost was: Tree)
      requires x in nodes && Growing(Snap(), t, path, x, Leaf, k)
      modifies this`t, nodes`bal
      ensures q in nodes && In(Snap(), p) && Growing(Snap(), t, up, q, was, k)
      ensures p == Last(up) && (p != null ==> p.bal != '=')
      ensures CameUp(old(t), t, path, up, was)
    {
      hide Snap, Pending, Growing, Path, CameUp, Refreshed;
      ghost var t0 := t;
      StartUp(Snap(), t, path, x, k);
      q, up, was := x, path, Leaf;
      SnapAt(q);
      p := q.U;
      SnapAt(p);
      while p != null && p.bal == '='
        invariant q in nodes && Growing(Snap(), t, up, q, was, k) && CameUp(t0, t, path, up, was)
        invariant p == Last(up) && (p != null ==> p in nodes)
        decreases |up|
      {
        ghost var s := Snap();
        SnapAt(p);
        GrowStep(s, t, up, q, was, k);
        GrowKept(s, t, up, q, was, k, Refreshed(s, t, p));
        CameUpFurther(t0, t, t[p := Refreshed(s, t, p)], path, up, was);
        Retag(p, if p.L == q then 'L' else 'R');
        was, t, up := t[p], t[p := Refreshed(s, t, p)], up[..|up| - 1];
        q := p;
        SnapAt(q);
        p := p.U;
        GrowingParent(Snap(), t, up, q, was, k);
        SnapAt(p);
      }
      SnapAt(p);
    }

    /** Lets the rest of the path know of an insertion that made nothing higher. */
    ghost method Tell(q: Node<V>, up: seq<Node<V>>, was: Tree, k: int)
      requires q in nodes && q in t && Pending(Snap(), t, up, q, was, k) && Height(t[q]) == Height(was)
      modifies this`t
      ensures forall m :: m in up ==> m in old(t)
      ensures Shaped(Snap(), t)
      ensures Inserted(if up == [] then was else old(t)[up[0]], Sub(t, head), k)
      decreases |up|
    {
      hide Snap, Pending, Path, Inserted, Refreshed, Shaped;
      var s := Snap();
      if up == [] {
        AllTold(s, t, q, was, k);
        SnapHead();
      } else {
        var p := up[|up| - 1];
        PathInTrees(s, t, up, q, was, k);
        Lift(s, t, up, q, was, k);
        SnapAt(p);
        PendingKept(s, t, up, q, was, k, Refreshed(s, t, p));
        var below := t[p];
        t := t[p := Refreshed(s, t, p)];
        Tell(p, up[..|up| - 1], below, k);
      }
    }

    /** Puts right the first node met that was not even, if there is one. */
    method Settle(p: Node<V>, q: Node<V>, ghost up: seq<Node<V>>, ghost was: Tree, ghost k: int) returns (ghost top: Node<V>)
      requires Growing(Snap(), t, up, q, was, k) && p == Last(up) && p in nodes && q in nodes && p.bal != '='
      modifies this`head, this`t, nodes`L, nodes`R, nodes`U, nodes`bal
      ensures top in nodes && Fixed(Snap(), old(t), t, up, top, k)
    {
      hide Snap, Pending, Growing, Path, Fixed, TooHeavy, Refreshed, KeptOn;
      ghost var s := Snap();
      SnapAt(p);
      SnapAt(q);
      if p.bal == (if p.L == q then 'R' else 'L') {
        AbsorbStep(s, t, up, q, was, k);
        AbsorbFixes(s, t, up, q, was, k);
        Retag(p, '=');
        t := t[p := Refreshed(s, t, p)];
        top := p;
      } else {
        HeavyCase(s, t, up, q, was, k);
        HeavySide(s, t, up, q, was, k);
        if p.bal == 'R' {
          top := FixRight(p, q, up, was, k);
        } else {
          top := FixLeft(p, q, up, was, k);
        }
        FixedTop(Snap(), s, old(t), t, up, top, k);
        SnapAt(top);
      }
    }

    /** Restores the balance after `x` was grafted at the end of `path`. */
    method Rebalance(x: Node<V>, ghost path: seq<Node<V>>, ghost k: int)
      requires x in nodes && Growing(Snap(), t, path, x, Leaf, k)
      modifies this`head, this`t, nodes`L, nodes`R, nodes`U, nodes`bal
      ensures Shaped(Snap(), t)
      ensures path != [] ==> path[0] in old(t)
      ensures Inserted(if path == [] then Leaf else old(t)[path[0]], Sub(t, head), k)
    {
      hide Snap, Shaped, Path, Pending, Growing, Fixed, CameUp, Inserted, KeptOn;
      ghost var t1 := t;
      var p, q, up, was := Unbalance(x, path, k);
      if p == null {
        TopTold(Snap(), t1, t, path, up, q, was, k);
        SnapHead();
      } else {
        ghost var t2 := t;
        SnapAt(p);
        ghost var top := Settle(p, q, up, was, k);
        FixedOriginal(Snap(), t1, t2, t, path, up, was, top, k);
        Tell(top, up[..|up| - 1], t2[p], k);
      }
    }

    /** Adds key `k` with the default value where the search for it ran out, and restores the balance. */
    method NewNode(d: Side, k: int, parent: Node?<V>, ghost path: seq<Node<V>>) returns (x: Node<V>)
      requires Valid() && k !in at && parent == Last(path) && Path(Snap(), path, k)
      requires if parent == null then head == null else k != parent.key && (d == Lt <==> k < parent.key)
      requires parent != null ==> parent in nodes && (if d == Lt then parent.L else parent.R) == null
      modifies this, nodes
      ensures Valid() && fresh(x) && x.key == k && x.value == def
      ensures nodes == old(nodes) + {x} && at == old(at)[k := x]
      ensures forall m :: m in old(nodes) ==> m.value == old(m.value)
    {
      hide Snap, Shaped, Path, Growing, Inserted, Keys, Sorted, Sub, Indexed;
      ghost var s0, t0 := Snap(), t;
      SnapHead();
      x := new Node(k, def);
      x.U := parent;
      SnapAt(x);
      IndexGrows(nodes, at, Keys(Sub(t, head)), n, x);
      OldTree(s0, t0, path, k, x);
      Graft(x, d, parent, path, s0);
      Rebalance(x, path, k);
      InsertedKeys(if path == [] then Leaf else t0[path[0]], Sub(t, head), k);
    }

    /** The node for key `k`, made with the default value if there was none. */
    method Index(k: int) returns (x: Node<V>)
      requires Valid()
      modifies this, nodes
      ensures Valid() && k in at && at[k] == x && x.key == k
      ensures if k in old(at) then nodes == old(nodes) && at == old(at)
              else fresh(x) && nodes == old(nodes) + {x} && at == old(at)[k := x] && x.value == def
      ensures forall m :: m in old(nodes) ==> m.value == old(m.value)
    {
      hide Snap, Shaped, Path, Keys, Sorted, Sub, Indexed, Steps;
      ghost var s := Snap();
      SnapHead();
      if head != null {
        var p: Node<V> := head;
        ghost var path := [p];
        StartPath(s, t, k);
        SnapAt(p);
        while true
          invariant p in nodes && s == Snap() && path != [] && path[|path| - 1] == p && Path(s, path, k)
          invariant k in Keys(Sub(t, head)) <==> k in Keys(Sub(t, p))
          invariant Valid() && unchanged(this) && unchanged(nodes)
          decreases Height(Sub(t, p))
        {
          SnapAt(p);
          SearchStep(s, t, p, k);
          IndexAt(p);
          if k < p.key {
            if p.L != null {
              PathExtends(s, t, path, k, p.L);
              p := p.L;
              path := path + [p];
              SnapAt(p);
            } else {
              IndexKeys(k);
              x := NewNode(Lt, k, p, path);
              return;
            }
          } else if p.key < k {
            if p.R != null {
              PathExtends(s, t, path, k, p.R);
              p := p.R;
              path := path + [p];
              SnapAt(p);
            } else {
              IndexKeys(k);
              x := NewNode(Rt, k, p, path);
              return;
            }
          } else {
            break;
          }
        }
        x := p;
      } else {
        EmptyTree(s, t, k);
        IndexKeys(k);
        x := NewNode(Lt, k, null, []);
      }
    }

    lemma IndexAt(p: Node<V>)
      requires Valid() && p in nodes
      ensures p.key in at && at[p.key] == p
    {
    }

    lemma IndexKeys(k: int)
      requires Valid()
      ensures k in at <==> k in Keys(Sub(t, head))
    {
    }

    /** All keys, in increasing order. */
    ghost function Order(): seq<int>
      reads this`t, this`head
    {
      InOrder(Sub(t, head))
    }

    lemma OrderIsKeys()
      requires Valid()
      ensures Ordered(Snap(), t, Order())
      ensures |Order()| == n && forall k :: k in Order() <==> k in at
    {
      var tree := Sub(t, head);
      var s := Snap();
      if head != null {
        assert Tagged(s, t, head);
      }
      InOrderIncreases(tree);
      InOrderKeys(tree);
      SizeIsKeys(tree);
    }

    /** A map of n keys is low: a tree of height h needs Fib(h + 2) - 1 keys. */
    lemma HeightBound()
      requires Valid()
      ensures Balanced(Sub(t, head)) && Fib(Height(Sub(t, head)) + 2) <= n + 1
    {
      if head != null {
        AllBalanced(Snap(), t, head);
      }
      BalancedIsFull(Sub(t, head));
      OrderIsKeys();
    }

    /** Looks `k` up; `steps` is the number of nodes compared with, at most the height of the tree. */
    method Element(k: int) returns (p: Node?<V>, ghost steps: nat)
      requires Valid()
      ensures p != null <==> k in at
      ensures p != null ==> p == at[k]
      ensures steps == Probes(Sub(t, head), k)
      ensures steps <= Height(Sub(t, head)) && Fib(steps + 2) <= n + 1
    {
      hide Snap, Shaped, Keys, Sorted, Sub, Indexed, Fib, Probes;
      ProbesWithinHeight(Sub(t, head), k);
      ghost var s := Snap();
      SnapHead();
      IndexKeys(k);
      HeightBound();
      p, steps := head, 0;
      SnapRoot();
      while p != null
        invariant p != null ==> p in nodes
        invariant k in at <==> k in Keys(Sub(t, p))
        invariant steps + Probes(Sub(t, p), k) == Probes(Sub(t, head), k)
        decreases Height(Sub(t, p))
      {
        SnapAt(p);
        SearchStep(s, t, p, k);
        ProbesStep(s, t, p, k);
        IndexAt(p);
        steps := steps + 1;
        if k < p.key {
          p := p.L;
        } else if p.key < k {
          p := p.R;
        } else {
          assert steps == Probes(Sub(t, head), k);
          break;
        }
        SnapAt(p);
      }
      FibMonotone(steps + 2, Height(Sub(t, head)) + 2);
      NoKeys(k);
    }

    lemma SnapRoot()
      requires Valid()
      ensures head != null ==> head in nodes
    {
    }

    lemma NoKeys(k: int)
      ensures Keys(Sub(t, null)) == {} && Probes(Sub(t, null), k) == 0
    {
    }

    lemma NodeKeys()
      requires Valid()
      ensures forall q :: q in nodes ==> q.key in Keys(Sub(t, head)) && q in t
    {
    }

    method Clear()
      modifies this
      ensures Valid() && nodes == {} && at == map[]
    {
      head, n := null, 0;
      nodes, at, t := {}, map[], map[];
    }

    /** Assignment through the reference that indexing yields. */
    method Put(k: int, v: V)
      requires Valid()
      modifies this, nodes
      ensures Valid() && fresh(nodes - old(nodes))
      ensures View() == old(View())[k := v]
    {
      hide Valid;
      Distinct();
      ghost var at0, view0 := at, View();
      var x := Index(k);
      Distinct();
      x.value := v;
      assert at.Keys == at0.Keys + {k};
      forall j | j in at ensures View()[j] == view0[k := v][j] {
        assert j != k ==> at[j] == at0[j] && at[j] != x;
      }
      assert View() == view0[k := v];
    }

    lemma Distinct()
      requires Valid()
      ensures forall j, k :: j in at && k in at && at[j] == at[k] ==> j == k
      ensures forall k :: k in at ==> at[k] in nodes
    {
    }

    lemma ViewKeys()
      requires Valid()
      ensures View().Keys == at.Keys
      ensures forall k :: k in Order() <==> k in View()
    {
      OrderIsKeys();
    }
  }
}
