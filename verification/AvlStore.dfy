/** Snapshots of the linked nodes of a map, and what rotations and rebalancing do to them. */
module AvlStore {
  import opened AvlTree

  class Node<V> {
    const key: int
    var value: V
    var L: Node?<V>
    var R: Node?<V>
    var U: Node?<V>
    var bal: char

    constructor (key: int, value: V)
      ensures this.key == key && this.value == value && L == R == U == null && bal == '='
    {
      this.key, this.value := key, value;
      L, R, U := null, null, null;
      bal := '=';
    }
  }

  /** The links and the tag of one node. */
  datatype Rec<!V> = Rec(L: Node?<V>, R: Node?<V>, U: Node?<V>, bal: char)

  datatype Store<!V> = Store(head: Node?<V>, rec: map<Node<V>, Rec<V>>)

  /** The subtree that hangs from each node. */
  type Trees<!V> = map<Node<V>, Tree>

  ghost predicate In<V>(s: Store<V>, p: Node?<V>) {
    p != null ==> p in s.rec
  }

  /** Child and parent pointers of the node agree with each other. */
  ghost predicate Linked<V>(s: Store<V>, p: Node<V>)
    requires p in s.rec
  {
    var r := s.rec[p];
    && In(s, r.L) && In(s, r.R) && In(s, r.U)
    && (r.L != null ==> s.rec[r.L].U == p && r.L != r.R && r.L != p)
    && (r.R != null ==> s.rec[r.R].U == p && r.R != p)
    && (r.U != null ==> s.rec[r.U].L == p || s.rec[r.U].R == p)
    && (r.U == null <==> p == s.head)
  }

  ghost predicate Wired<V>(s: Store<V>) {
    In(s, s.head) && forall p {:trigger Linked(s, p)} :: p in s.rec ==> Linked(s, p)
  }

  datatype Side = Lt | Rt

  function Opposite(d: Side): Side {
    if d == Lt then Rt else Lt
  }

  ghost function Kid<V>(r: Rec<V>, d: Side): Node?<V> {
    if d == Lt then r.L else r.R
  }

  ghost function WithKid<V>(r: Rec<V>, d: Side, x: Node?<V>): Rec<V> {
    if d == Lt then r.(L := x) else r.(R := x)
  }

  ghost function SetKid<V>(s: Store<V>, p: Node<V>, d: Side, x: Node?<V>): Store<V>
    requires p in s.rec
  {
    s.(rec := s.rec[p := WithKid(s.rec[p], d, x)])
  }

  ghost function SetU<V>(s: Store<V>, p: Node<V>, x: Node?<V>): Store<V>
    requires p in s.rec
  {
    s.(rec := s.rec[p := s.rec[p].(U := x)])
  }

  ghost function SetBal<V>(s: Store<V>, p: Node<V>, b: char): Store<V>
    requires p in s.rec
  {
    s.(rec := s.rec[p := s.rec[p].(bal := b)])
  }

  /** Hangs `x` on side `d` of `p`. */
  ghost function Attached<V>(s: Store<V>, p: Node<V>, d: Side, x: Node?<V>): Store<V>
    requires p in s.rec && In(s, x)
  {
    var s1 := SetKid(s, p, d, x);
    if x == null then s1 else SetU(s1, x, p)
  }

  /** Makes `c` hang from `u`, or from the map itself, where `p` hung before. */
  ghost function Replaced<V>(s: Store<V>, u: Node?<V>, p: Node<V>, c: Node<V>): Store<V>
    requires In(s, u) && c in s.rec
  {
    var s1 := if u == null then s.(head := c) else SetKid(s, u, if s.rec[u].L == p then Lt else Rt, c);
    SetU(s1, c, u)
  }

  /** The edge from `p` to its child on side `d` is turned the other way: the child goes up, `p` goes down. */
  ghost function Rotated<V>(s: Store<V>, p: Node<V>, d: Side): Store<V>
    requires Wired(s) && p in s.rec && Kid(s.rec[p], d) != null
  {
    assert Linked(s, p);
    var q, u := Kid(s.rec[p], d), s.rec[p].U;
    assert Linked(s, q);
    Replaced(Attached(Attached(s, p, d, Kid(s.rec[q], Opposite(d))), q, Opposite(d), p), u, p, q)
  }

  /** Node `q` is not found one or two steps up from `p`. */
  ghost predicate NotAbove<V>(s: Store<V>, p: Node<V>, q: Node<V>)
    requires Wired(s) && p in s.rec
  {
    assert Linked(s, p);
    var u := s.rec[p].U;
    u != q && (u != null ==> s.rec[u].U != q)
  }

  /** The record of a node where `p` below it has given way to `c`. */
  ghost function Redirected<V>(r: Rec<V>, p: Node<V>, c: Node<V>): Rec<V> {
    Rec(if r.L == p then c else r.L, if r.R == p then c else r.R, r.U, r.bal)
  }

  /** The records after the rotation, node by node. */
  ghost predicate Turned<V>(s: Store<V>, s': Store<V>, p: Node<V>, q: Node<V>, d: Side)
    requires p in s.rec && q in s.rec
  {
    var u, b := s.rec[p].U, Kid(s.rec[q], Opposite(d));
    && s'.rec.Keys == s.rec.Keys
    && s'.head == (if u == null then q else s.head)
    && s'.rec[p] == WithKid(s.rec[p], d, b).(U := q)
    && s'.rec[q] == WithKid(s.rec[q], Opposite(d), p).(U := u)
    && forall m :: m in s.rec && m != p && m != q ==>
         s'.rec[m] == if m == u then Redirected(s.rec[m], p, q) else if m == b then s.rec[m].(U := p) else s.rec[m]
  }

  lemma RotationTurns<V>(s: Store<V>, p: Node<V>, d: Side)
    requires Wired(s) && p in s.rec && Kid(s.rec[p], d) != null && NotAbove(s, p, Kid(s.rec[p], d))
    ensures Kid(s.rec[p], d) in s.rec
    ensures Turned(s, Rotated(s, p, d), p, Kid(s.rec[p], d), d)
  {
    hide Wired, Linked;
    var q, u := Kid(s.rec[p], d), s.rec[p].U;
    RotationNodes(s, p, d);
  }

  // The nodes that a rotation touches.
  lemma RotationNodes<V>(s: Store<V>, p: Node<V>, d: Side)
    requires Wired(s) && p in s.rec && Kid(s.rec[p], d) != null && NotAbove(s, p, Kid(s.rec[p], d))
    ensures var q, u := Kid(s.rec[p], d), s.rec[p].U;
      && q in s.rec && q != p && s.rec[q].U == p && In(s, u) && u != q && u != p && Kid(s.rec[p], Opposite(d)) != q
      && (u != null ==> (s.rec[u].L == p) != (s.rec[u].R == p))
      && var b := Kid(s.rec[q], Opposite(d));
      && In(s, b) && b != q && b != p && (b != null ==> b != u)
  {
    var q, u := Kid(s.rec[p], d), s.rec[p].U;
    assert Linked(s, p) && Linked(s, q);
    if u != null {
      assert Linked(s, u);
    }
    if Kid(s.rec[q], Opposite(d)) != null {
      assert Linked(s, Kid(s.rec[q], Opposite(d)));
    }
  }

  /** A rotation keeps child and parent pointers in agreement. */
  lemma RotationWired<V>(s: Store<V>, s': Store<V>, p: Node<V>, q: Node<V>, d: Side)
    requires Wired(s) && p in s.rec && q in s.rec && Kid(s.rec[p], d) == q && NotAbove(s, p, q)
    requires Turned(s, s', p, q, d)
    ensures Wired(s')
  {
    hide NotAbove, Linked;
    LinkedThere(s, p);
    LinkedThere(s, q);
    forall m | m in s'.rec ensures Linked(s', m) {
      LinkedAfter(s, s', p, q, d, m);
    }
  }

  lemma LinkedThere<V>(s: Store<V>, m: Node<V>)
    requires Wired(s) && m in s.rec
    ensures Linked(s, m)
  {
  }

  ghost predicate Turning<V>(s: Store<V>, s': Store<V>, p: Node<V>, q: Node<V>, d: Side) {
    && Wired(s) && p in s.rec && q in s.rec && Kid(s.rec[p], d) == q && NotAbove(s, p, q)
    && Turned(s, s', p, q, d)
  }

  ghost function NewUp<V>(s: Store<V>, p: Node<V>, q: Node<V>, d: Side, x: Node<V>): Node?<V>
    requires p in s.rec && q in s.rec && x in s.rec
  {
    if x == p then q else if x == q then s.rec[p].U
    else if x == Kid(s.rec[q], Opposite(d)) then p else s.rec[x].U
  }

  // The parent of a node after the rotation.
  lemma UpAfter<V>(s: Store<V>, s': Store<V>, p: Node<V>, q: Node<V>, d: Side, x: Node?<V>)
    requires Turning(s, s', p, q, d)
    ensures x != null && x in s.rec ==> x in s'.rec && s'.rec[x].U == NewUp(s, p, q, d, x)
  {
    hide Wired, NotAbove;
    RotationNodes(s, p, d);
  }

  lemma LinkedAfter<V>(s: Store<V>, s': Store<V>, p: Node<V>, q: Node<V>, d: Side, m: Node<V>)
    requires Turning(s, s', p, q, d) && m in s.rec
    ensures Linked(s', m)
  {
    hide Wired, NotAbove, Linked;
    if m == p || m == q {
      InnerLinked(s, s', p, q, d);
    } else {
      OuterLinked(s, s', p, q, d, m);
    }
  }

  lemma InnerLinked<V>(s: Store<V>, s': Store<V>, p: Node<V>, q: Node<V>, d: Side)
    requires Turning(s, s', p, q, d)
    ensures Linked(s', p) && Linked(s', q)
  {
    hide Wired, NotAbove;
    LinkedThere(s, p);
    LinkedThere(s, q);
    RotationNodes(s, p, d);
    UpAfter(s, s', p, q, d, s.rec[p].L);
    UpAfter(s, s', p, q, d, s.rec[p].R);
    UpAfter(s, s', p, q, d, s.rec[q].L);
    UpAfter(s, s', p, q, d, s.rec[q].R);
    UpAfter(s, s', p, q, d, p);
  }

  lemma OuterLinked<V>(s: Store<V>, s': Store<V>, p: Node<V>, q: Node<V>, d: Side, m: Node<V>)
    requires Turning(s, s', p, q, d) && m in s.rec && m != p && m != q
    ensures Linked(s', m)
  {
    hide Wired, NotAbove;
    LinkedThere(s, p);
    LinkedThere(s, m);
    RotationNodes(s, p, d);
    KidsKnow(s, q, Opposite(d));
    UpAfter(s, s', p, q, d, s.rec[m].L);
    UpAfter(s, s', p, q, d, s.rec[m].R);
    UpAfter(s, s', p, q, d, q);
  }

  lemma KidsKnow<V>(s: Store<V>, q: Node<V>, d: Side)
    requires Wired(s) && q in s.rec
    ensures Kid(s.rec[q], d) != null ==> Kid(s.rec[q], d) in s.rec && s.rec[Kid(s.rec[q], d)].U == q
  {
    assert Linked(s, q);
  }
}
