/** Rebalancing after an insertion, step by step up the search path. */
module AvlInsert {
  import opened AvlTree
  import opened AvlStore

  ghost function Sub<V>(t: Trees<V>, p: Node?<V>): Tree {
    if p != null && p in t then t[p] else Leaf
  }

  /** The subtree at `p` is built from those of its children. */
  ghost predicate Local<V>(s: Store<V>, t: Trees<V>, p: Node<V>)
    requires p in s.rec && p in t
  {
    t[p] == Br(Sub(t, s.rec[p].L), p.key, Sub(t, s.rec[p].R))
  }

  /** The tag of `p` shows the difference in height of its recorded subtrees, which is at most one. */
  ghost predicate Tagged<V>(s: Store<V>, t: Trees<V>, p: Node<V>)
    requires p in s.rec && p in t
  {
    t[p].Br? && Sorted(t[p]) && s.rec[p].bal == Tag(t[p].l, t[p].r) != '!'
  }

  /** The linked nodes form one balanced search tree. */
  ghost predicate Shaped<V>(s: Store<V>, t: Trees<V>) {
    && Wired(s) && t.Keys == s.rec.Keys
    && (forall p {:trigger Local(s, t, p)} :: p in s.rec ==> Local(s, t, p))
    && (forall p {:trigger Tagged(s, t, p)} :: p in s.rec ==> Tagged(s, t, p))
  }

  ghost function Last<V>(path: seq<Node<V>>): Node?<V> {
    if path == [] then null else path[|path| - 1]
  }

  /** `path` is the way that a search for `k` takes down from the head. */
  ghost predicate Path<V>(s: Store<V>, path: seq<Node<V>>, k: int) {
    && (path != [] ==> path[0] == s.head)
    && (forall i :: 0 <= i < |path| ==> path[i] in s.rec)
    && (forall i :: 0 < i < |path| ==> Steps(s, path[i - 1], path[i], k))
    && (forall i, j :: 0 <= i < j < |path| ==> path[i] != path[j])
  }

  /** The search for `k` goes from `p` to its child `q`. */
  ghost predicate Steps<V>(s: Store<V>, p: Node<V>, q: Node<V>, k: int)
    requires p in s.rec && q in s.rec
  {
    s.rec[q].U == p && k != p.key && (s.rec[p].L == q <==> k < p.key)
  }

  /** `now` is the search tree `was` with key `k` added. */
  ghost predicate Inserted(was: Tree, now: Tree, k: int) {
    Sorted(now) && Keys(now) == Keys(was) + {k}
  }

  /** All is well except that the last node of the path does not know yet that the subtree `was`
      at its child `q` has had `k` inserted. */
  ghost predicate Pending<V>(s: Store<V>, t: Trees<V>, path: seq<Node<V>>, q: Node<V>, was: Tree, k: int) {
    var p := Last(path);
    && Wired(s) && t.Keys == s.rec.Keys && q in s.rec
    && Path(s, path, k) && s.rec[q].U == p
    && (forall m {:trigger Tagged(s, t, m)} :: m in s.rec ==> Tagged(s, t, m))
    && (forall m {:trigger Local(s, t, m)} :: m in s.rec && m != p ==> Local(s, t, m))
    && (p != null ==>
          && Steps(s, p, q, k) && Sorted(t[p])
          && t[p] == if k < p.key then Br(was, p.key, Sub(t, s.rec[p].R)) else Br(Sub(t, s.rec[p].L), p.key, was))
    && Inserted(was, t[q], k)
  }

  /** The nodes of `inner`, with top node `p`, were rearranged into a subtree with top node `c`;
      the nodes outside were only told so. */
  ghost predicate Regrouped<V>(s: Store<V>, s': Store<V>, p: Node<V>, c: Node<V>, inner: set<Node<V>>) {
    && Wired(s) && Wired(s') && s'.rec.Keys == s.rec.Keys
    && p in inner && c in inner && inner <= s.rec.Keys
    && s'.rec[c].U == s.rec[p].U
    && (forall x :: x in inner && x != p ==> s.rec[x].U in inner)
    && (s.rec[p].U == null || s.rec[p].U !in inner)
    && forall m :: m in s.rec && m !in inner ==> Told(s, s', p, c, inner, m)
  }

  /** All that changes for a node outside is that `c` takes the place of `p`. */
  ghost predicate Told<V>(s: Store<V>, s': Store<V>, p: Node<V>, c: Node<V>, inner: set<Node<V>>, m: Node<V>)
    requires m in s.rec && m in s'.rec
  {
    && s'.rec[m].bal == s.rec[m].bal
    && s'.rec[m].L == (if s.rec[m].L == p then c else s.rec[m].L)
    && s'.rec[m].R == (if s.rec[m].R == p then c else s.rec[m].R)
    && (s.rec[m].U !in inner ==> s'.rec[m].U == s.rec[m].U)
  }

  /** A node off the rearranged ones has none of them as a child, unless it is the parent of their top. */
  lemma ChildrenOutside<V>(s: Store<V>, s': Store<V>, p: Node<V>, c: Node<V>, inner: set<Node<V>>, m: Node<V>)
    requires Regrouped(s, s', p, c, inner) && m in s.rec && m !in inner
    ensures s.rec[m].L in inner ==> s.rec[m].L == p && s.rec[p].U == m
    ensures s.rec[m].R in inner ==> s.rec[m].R == p && s.rec[p].U == m
  {
    assert Linked(s, m);
  }

  /** The path above the top is off the rearranged nodes. */
  lemma {:induction false} PathOutside<V>(s: Store<V>, path: seq<Node<V>>, k: int, inner: set<Node<V>>, i: nat)
    requires Path(s, path, k) && Wired(s) && i + 1 < |path| && inner <= s.rec.Keys
    requires forall x :: x in inner && x != path[|path| - 1] ==> s.rec[x].U in inner
    ensures path[i] !in inner
  {
    assert Linked(s, path[0]);
    if i > 0 {
      assert Steps(s, path[i - 1], path[i], k);
      PathOutside(s, path, k, inner, i - 1);
    }
  }

  lemma {:induction false} ClimbPath<V>(s: Store<V>, path: seq<Node<V>>, k: int, s': Store<V>, c: Node<V>, inner: set<Node<V>>)
    requires Path(s, path, k) && path != [] && Regrouped(s, s', path[|path| - 1], c, inner)
    ensures var up := path[..|path| - 1];
      && Path(s', up, k) && s'.rec[c].U == Last(up)
      && (up != [] ==> Last(up) !in inner && Steps(s', Last(up), c, k))
  {
    var up, p := path[..|path| - 1], path[|path| - 1];
    assert Linked(s, p);
    forall i | 0 <= i < |up| ensures path[i] !in inner && Linked(s, path[i]) {
      PathOutside(s, path, k, inner, i);
    }
    forall i | 0 < i < |path| ensures Steps(s, path[i - 1], path[i], k) {
    }
    if up != [] {
      assert Linked(s', c);
      assert s.rec[path[0]].U == null == s'.rec[path[0]].U;
      assert Linked(s', path[0]);
    }
  }

  lemma {:induction false} ClimbLocal<V>(s: Store<V>, t: Trees<V>, s': Store<V>, t': Trees<V>, p: Node<V>, c: Node<V>, inner: set<Node<V>>, m: Node<V>)
    requires Regrouped(s, s', p, c, inner) && m in s.rec && m !in inner && m != s.rec[p].U
    requires t.Keys == s.rec.Keys == t'.Keys && forall x :: x in t && x !in inner ==> t'[x] == t[x]
    requires Local(s, t, m)
    ensures Local(s', t', m)
  {
    ChildrenOutside(s, s', p, c, inner, m);
    assert Linked(s, m);
  }

  lemma {:induction false} ClimbParent<V>(s: Store<V>, t: Trees<V>, s': Store<V>, t': Trees<V>, p: Node<V>, c: Node<V>, inner: set<Node<V>>, u: Node<V>, k: int)
    requires Regrouped(s, s', p, c, inner) && s.rec[p].U == u && u in s.rec && Steps(s, u, p, k)
    requires t.Keys == s.rec.Keys == t'.Keys && forall x :: x in t && x !in inner ==> t'[x] == t[x]
    requires Local(s, t, u)
    ensures t'[u] == if k < u.key then Br(t[p], u.key, Sub(t', s'.rec[u].R)) else Br(Sub(t', s'.rec[u].L), u.key, t[p])
  {
    ChildrenOutside(s, s', p, c, inner, u);
    assert Linked(s, u) && Linked(s, p);
  }

  /** After the rearrangement the parent of its top is the one that does not know yet. */
  lemma {:induction false} Climb<V>(s: Store<V>, t: Trees<V>, path: seq<Node<V>>, q: Node<V>, was: Tree, k: int,
                                    s': Store<V>, t': Trees<V>, c: Node<V>, inner: set<Node<V>>)
    requires Pending(s, t, path, q, was, k) && path != []
    requires Regrouped(s, s', path[|path| - 1], c, inner)
    requires t'.Keys == t.Keys && forall m :: m in t && m !in inner ==> t'[m] == t[m]
    requires forall m :: m in inner ==> Local(s', t', m) && Tagged(s', t', m)
    requires Inserted(t[path[|path| - 1]], t'[c], k)
    ensures Pending(s', t', path[..|path| - 1], c, t[path[|path| - 1]], k)
  {
    hide Linked, Wired, Inserted, Sorted;
    var p := path[|path| - 1];
    ClimbPath(s, path, k, s', c, inner);
    forall m | m in s'.rec && m != s.rec[p].U ensures Local(s', t', m) {
      if m !in inner {
        ClimbLocal(s, t, s', t', p, c, inner, m);
      }
    }
    forall m | m in s'.rec ensures Tagged(s', t', m) {
      assert Tagged(s, t, m);
    }
    if |path| > 1 {
      var u := path[|path| - 2];
      assert Steps(s, path[|path| - 2], p, k);
      assert u == path[..|path| - 1][|path| - 2];
      assert Local(s, t, u) && Tagged(s, t, u);
      ClimbParent(s, t, s', t', p, c, inner, u, k);
    }
  }

  lemma SetBalWired<V>(s: Store<V>, p: Node<V>, b: char)
    requires Wired(s) && p in s.rec
    ensures Wired(SetBal(s, p, b))
  {
    var s' := SetBal(s, p, b);
    forall m | m in s'.rec ensures Linked(s', m) {
      assert Linked(s, m);
    }
  }

  /** Putting the new subtree in place of the old one inserts the key one level up. */
  lemma InsertedBelow(l: Tree, key: int, r: Tree, now: Tree, k: int)
    requires k != key && Sorted(Br(l, key, r)) && Inserted(if k < key then l else r, now, k)
    ensures Inserted(Br(l, key, r), if k < key then Br(now, key, r) else Br(l, key, now), k)
  {
  }

  /** What the last node of the path amounts to once it knows. */
  ghost function Refreshed<V>(s: Store<V>, t: Trees<V>, p: Node<V>): Tree
    requires p in s.rec
  {
    Br(Sub(t, s.rec[p].L), p.key, Sub(t, s.rec[p].R))
  }

  lemma PendingAt<V>(s: Store<V>, t: Trees<V>, path: seq<Node<V>>, q: Node<V>, was: Tree, k: int)
    requires Pending(s, t, path, q, was, k) && path != []
    ensures var p := path[|path| - 1];
      && p in s.rec && Inserted(t[p], Refreshed(s, t, p), k)
      && k != p.key && (if k < p.key then s.rec[p].L == q else s.rec[p].R == q)
      && t[p] == (if k < p.key then Br(was, p.key, Sub(t, s.rec[p].R)) else Br(Sub(t, s.rec[p].L), p.key, was))
      && s.rec[p].bal == Tag(t[p].l, t[p].r) != '!'
  {
    var p := path[|path| - 1];
    assert Linked(s, q) && Linked(s, p) && Tagged(s, t, p);
    InsertedBelow(t[p].l, p.key, t[p].r, t[q], k);
  }

  /** Telling the last node of the path, when its balance allows it. */
  lemma {:induction false} TellParent<V>(s: Store<V>, t: Trees<V>, path: seq<Node<V>>, q: Node<V>, was: Tree, k: int, b: char)
    requires Pending(s, t, path, q, was, k) && path != []
    requires var p := path[|path| - 1]; p in s.rec && b == Tag(Sub(t, s.rec[p].L), Sub(t, s.rec[p].R)) != '!'
    ensures var p := path[|path| - 1];
      Pending(SetBal(s, p, b), t[p := Refreshed(s, t, p)], path[..|path| - 1], p, t[p], k)
  {
    hide Path, Linked, Wired, Inserted, Pending, Sorted;
    var p := path[|path| - 1];
    PendingAt(s, t, path, q, was, k);
    TellParentRegroups(s, t, path, q, was, k, b);
    Climb(s, t, path, q, was, k, SetBal(s, p, b), t[p := Refreshed(s, t, p)], p, {p});
  }

  lemma TellParentRegroups<V>(s: Store<V>, t: Trees<V>, path: seq<Node<V>>, q: Node<V>, was: Tree, k: int, b: char)
    requires Pending(s, t, path, q, was, k) && path != []
    requires var p := path[|path| - 1]; p in s.rec && b == Tag(Sub(t, s.rec[p].L), Sub(t, s.rec[p].R)) != '!'
    ensures var p := path[|path| - 1]; var t' := t[p := Refreshed(s, t, p)];
      && t'.Keys == t.Keys == s.rec.Keys
      && Regrouped(s, SetBal(s, p, b), p, p, {p}) && Local(SetBal(s, p, b), t', p) && Tagged(SetBal(s, p, b), t', p)
  {
    hide Pending, Path, Wired, Linked, Inserted, Regrouped, Local, Tagged, Sorted;
    var p := path[|path| - 1];
    PendingParts(s, t, path, q, was, k);
    PendingAt(s, t, path, q, was, k);
    NotOwnParent(s, path, p, k);
    RetaggedAlone(s, p, b);
    RefreshedFits(s, t, p, b, k);
  }

  lemma PendingParts<V>(s: Store<V>, t: Trees<V>, path: seq<Node<V>>, q: Node<V>, was: Tree, k: int)
    requires Pending(s, t, path, q, was, k)
    ensures Wired(s) && t.Keys == s.rec.Keys && Path(s, path, k)
  {
  }

  lemma RetaggedAlone<V>(s: Store<V>, p: Node<V>, b: char)
    requires Wired(s) && p in s.rec && s.rec[p].U != p
    ensures Regrouped(s, SetBal(s, p, b), p, p, {p})
  {
    hide Linked;
    SetBalWired(s, p, b);
  }

  lemma RefreshedFits<V>(s: Store<V>, t: Trees<V>, p: Node<V>, b: char, k: int)
    requires Wired(s) && p in s.rec && p in t && Inserted(t[p], Refreshed(s, t, p), k)
    requires b == Tag(Sub(t, s.rec[p].L), Sub(t, s.rec[p].R)) != '!'
    ensures var t' := t[p := Refreshed(s, t, p)]; Local(SetBal(s, p, b), t', p) && Tagged(SetBal(s, p, b), t', p)
  {
    hide Sorted, Tag;
    assert Linked(s, p);
  }

  lemma NotOwnParent<V>(s: Store<V>, path: seq<Node<V>>, p: Node<V>, k: int)
    requires Wired(s) && Path(s, path, k) && path != [] && p == path[|path| - 1]
    ensures s.rec[p].U != p
  {
    assert Linked(s, p);
    if |path| > 1 {
      assert Steps(s, path[|path| - 2], p, k);
    }
  }

  // ---- rotations ----

  lemma {:induction false} ChildOffPath<V>(s: Store<V>, path: seq<Node<V>>, k: int, q: Node<V>)
    requires Wired(s) && Path(s, path, k) && path != [] && q in s.rec && s.rec[q].U == path[|path| - 1]
    ensures q !in path
  {
    assert Linked(s, path[0]);
    forall i | 0 <= i < |path| ensures q != path[i] {
      if i > 0 {
        assert Steps(s, path[i - 1], path[i], k);
      }
    }
  }

  lemma {:induction false} GrandchildOffPath<V>(s: Store<V>, path: seq<Node<V>>, k: int, q: Node<V>, r: Node<V>)
    requires Wired(s) && Path(s, path, k) && path != [] && q !in path && r in s.rec && s.rec[r].U == q
    ensures r !in path
  {
    assert Linked(s, path[0]);
    forall i | 0 <= i < |path| ensures r != path[i] {
      if i > 0 {
        assert Steps(s, path[i - 1], path[i], k);
      }
    }
  }

  lemma {:induction false} OffPathNotAbove<V>(s: Store<V>, path: seq<Node<V>>, k: int, x: Node<V>)
    requires Wired(s) && Path(s, path, k) && path != [] && x !in path
    ensures NotAbove(s, path[|path| - 1], x)
    ensures s.rec[path[|path| - 1]].U != null ==> s.rec[path[|path| - 1]].U in path
  {
    var n := |path|;
    assert Linked(s, path[0]);
    if n > 1 {
      assert Steps(s, path[n - 2], path[n - 1], k);
    }
    if n > 2 {
      assert Steps(s, path[n - 3], path[n - 2], k);
    }
  }

  /** One rotation rearranges `p` and its child. */
  lemma {:induction false} RotationRegroups<V>(s: Store<V>, p: Node<V>, q: Node<V>, d: Side)
    requires Wired(s) && p in s.rec && Kid(s.rec[p], d) == q && NotAbove(s, p, q)
    ensures Regrouped(s, Rotated(s, p, d), p, q, {p, q})
    ensures Turned(s, Rotated(s, p, d), p, q, d)
  {
    hide Rotated, Wired, Linked;
    var s' := Rotated(s, p, d);
    RotationTurns(s, p, d);
    RotationNodes(s, p, d);
    RotationWired(s, s', p, q, d);
    forall m | m in s.rec && m !in {p, q}
      ensures s'.rec[m].bal == s.rec[m].bal
      ensures s'.rec[m].L == (if s.rec[m].L == p then q else s.rec[m].L)
      ensures s'.rec[m].R == (if s.rec[m].R == p then q else s.rec[m].R)
      ensures s.rec[m].U !in {p, q} ==> s'.rec[m].U == s.rec[m].U
    {
      LinkedThere(s, m);
      KidsKnow(s, q, Opposite(d));
    }
  }

  lemma RetagKeepsRegrouped<V>(s: Store<V>, s': Store<V>, p: Node<V>, c: Node<V>, inner: set<Node<V>>, x: Node<V>, b: char)
    requires Regrouped(s, s', p, c, inner) && x in inner
    ensures Regrouped(s, SetBal(s', x, b), p, c, inner)
  {
    hide Linked;
    SetBalWired(s', x, b);
  }

  /** The keys inserted below `p` survive turning the edge above a subtree already inserted. */
  lemma TurnedInserted(a: Tree, p: int, b: Tree, q: int, c: Tree, was: Tree, d: Side, k: int)
    requires Inserted(was, if d == Rt then Br(a, p, Br(b, q, c)) else Br(Br(c, q, b), p, a), k)
    ensures Inserted(was, if d == Rt then Br(Br(a, p, b), q, c) else Br(c, q, Br(b, p, a)), k)
  {
    if d == Rt {
      RotatedLeft(a, p, b, q, c);
    } else {
      RotatedRight(c, q, b, p, a);
    }
  }

  ghost function Mk(d: Side, x: Tree, key: int, y: Tree): (t: Tree)
    ensures t.Br?
  {
    if d == Lt then Br(x, key, y) else Br(y, key, x)
  }

  /** The trees after a single rotation of `p` towards its child `q` on side `d`. */
  ghost function SingleTrees<V>(s: Store<V>, t: Trees<V>, p: Node<V>, q: Node<V>, d: Side): Trees<V>
    requires p in s.rec && q in s.rec
  {
    var o := Opposite(d);
    var tp := Mk(d, Sub(t, Kid(s.rec[q], o)), p.key, Sub(t, Kid(s.rec[p], o)));
    t[p := tp][q := Mk(d, Sub(t, Kid(s.rec[q], d)), q.key, tp)]
  }

  ghost function SideTag(d: Side): char {
    if d == Lt then 'L' else 'R'
  }

  /** The node on the path that has become too heavy on side `d`: its subtree on that side grew by one. */
  ghost predicate TooHeavy<V>(s: Store<V>, t: Trees<V>, path: seq<Node<V>>, q: Node<V>, was: Tree, k: int, d: Side) {
    && Pending(s, t, path, q, was, k) && path != []
    && path[|path| - 1] in s.rec && s.rec[path[|path| - 1]].bal == SideTag(d)
    && (d == Lt <==> k < path[|path| - 1].key)
    && Height(t[q]) == Height(was) + 1
  }

  lemma {:induction false} HeavyRotates<V>(s: Store<V>, t: Trees<V>, path: seq<Node<V>>, q: Node<V>, was: Tree, k: int, d: Side)
    requires TooHeavy(s, t, path, q, was, k, d)
    ensures var p := path[|path| - 1];
      && Wired(s) && q !in path && Kid(s.rec[p], d) == q && NotAbove(s, p, q)
  {
    PendingAt(s, t, path, q, was, k);
    ChildOffPath(s, path, k, q);
    OffPathNotAbove(s, path, k, q);
  }

  lemma {:induction false} SingleLocal<V>(s: Store<V>, t: Trees<V>, s': Store<V>, p: Node<V>, q: Node<V>, d: Side)
    requires Wired(s) && p in s.rec && q in s.rec && Kid(s.rec[p], d) == q && NotAbove(s, p, q) && t.Keys == s.rec.Keys
    requires Turned(s, s', p, q, d)
    ensures var t' := SingleTrees(s, t, p, q, d);
      t'.Keys == t.Keys && Local(s', t', p) && Local(s', t', q)
  {
    assert Linked(s, p) && Linked(s, q);
  }

  lemma SingleTagged<V>(s: Store<V>, t: Trees<V>, path: seq<Node<V>>, q: Node<V>, was: Tree, k: int, d: Side)
    requires TooHeavy(s, t, path, q, was, k, d) && q in s.rec && s.rec[q].bal == SideTag(d)
    ensures var p := path[|path| - 1]; var t' := SingleTrees(s, t, p, q, d);
      && p in t' && p in t && t'[p].Br? && t'[q].Br? && Sorted(t'[p]) && Sorted(t'[q])
      && Tag(t'[p].l, t'[p].r) == '=' == Tag(t'[q].l, t'[q].r)
      && Height(t'[q]) == Height(t[p]) && Inserted(t[p], t'[q], k)
  {
    var p := path[|path| - 1];
    PendingAt(s, t, path, q, was, k);
    HeavyRotates(s, t, path, q, was, k, d);
    assert Local(s, t, q) && Tagged(s, t, q) && Linked(s, p);
    var o := Opposite(d);
    var a, b, c := Sub(t, Kid(s.rec[p], o)), Sub(t, Kid(s.rec[q], o)), Sub(t, Kid(s.rec[q], d));
    TurnedInserted(a, p.key, b, q.key, c, t[p], d, k);
  }

  ghost function SingleStore<V>(s: Store<V>, p: Node<V>, q: Node<V>, d: Side): Store<V>
    requires Wired(s) && p in s.rec && q in s.rec && Kid(s.rec[p], d) == q
    requires Rotated(s, p, d).rec.Keys == s.rec.Keys
  {
    SetBal(SetBal(Rotated(s, p, d), p, '='), q, '=')
  }

  lemma RetaggedPair<V>(s: Store<V>, t: Trees<V>, p: Node<V>, q: Node<V>)
    requires p in s.rec && q in s.rec && p in t && q in t && Local(s, t, p) && Local(s, t, q)
    requires t[p].Br? && t[q].Br? && Sorted(t[p]) && Sorted(t[q])
    requires Tag(t[p].l, t[p].r) == '=' == Tag(t[q].l, t[q].r)
    ensures var s' := SetBal(SetBal(s, p, '='), q, '=');
      Local(s', t, p) && Local(s', t, q) && Tagged(s', t, p) && Tagged(s', t, q)
  {
    hide Sorted, Tag;
  }

  /** When the child is heavy on the same side, one rotation restores the balance and the height. */
  lemma {:induction false} SingleStep<V>(s: Store<V>, t: Trees<V>, path: seq<Node<V>>, q: Node<V>, was: Tree, k: int, d: Side)
    requires TooHeavy(s, t, path, q, was, k, d) && q in s.rec && s.rec[q].bal == SideTag(d)
    ensures var p := path[|path| - 1];
      && Wired(s) && p in s.rec && Kid(s.rec[p], d) == q && Rotated(s, p, d).rec.Keys == s.rec.Keys
      && var s', t' := SingleStore(s, p, q, d), SingleTrees(s, t, p, q, d);
         && p in t && q in t' && Pending(s', t', path[..|path| - 1], q, t[p], k)
         && Height(t'[q]) == Height(t[p])
  {
    hide Path, Linked, Wired, Sorted, Turned, Rotated, Regrouped, Local, Tagged, Inserted, Tag, NotAbove, Height;
    var p := path[|path| - 1];
    HeavyRotates(s, t, path, q, was, k, d);
    RotationRegroups(s, p, q, d);
    RegroupedKeys(s, Rotated(s, p, d), p, q, {p, q});
    var s1 := Rotated(s, p, d);
    var s', t' := SingleStore(s, p, q, d), SingleTrees(s, t, p, q, d);
    RetagKeepsRegrouped(s, s1, p, q, {p, q}, p, '=');
    RetagKeepsRegrouped(s, SetBal(s1, p, '='), p, q, {p, q}, q, '=');
    SingleLocal(s, t, s1, p, q, d);
    SingleTagged(s, t, path, q, was, k, d);
    RetaggedPair(s1, t', p, q);
    Climb(s, t, path, q, was, k, s', t', q, {p, q});
  }

  lemma RegroupedKeys<V>(s: Store<V>, s': Store<V>, p: Node<V>, c: Node<V>, inner: set<Node<V>>)
    requires Regrouped(s, s', p, c, inner)
    ensures Wired(s) && Wired(s') && s'.rec.Keys == s.rec.Keys && inner <= s.rec.Keys
    ensures p in s.rec && c in s.rec && s'.rec[c].U == s.rec[p].U
  {
    hide Wired, Told;
  }

  /** The grandchild that comes out on top of a double rotation. */
  ghost function Inner<V>(s: Store<V>, q: Node<V>, d: Side): Node?<V>
    requires q in s.rec
  {
    Kid(s.rec[q], Opposite(d))
  }

  lemma {:induction false} InnerExists<V>(s: Store<V>, t: Trees<V>, path: seq<Node<V>>, q: Node<V>, was: Tree, k: int, d: Side)
    requires TooHeavy(s, t, path, q, was, k, d) && q in s.rec && s.rec[q].bal == SideTag(Opposite(d))
    ensures var r, p := Inner(s, q, d), path[|path| - 1];
      && Wired(s) && r != null && r in s.rec && r !in path && r != q && NotAbove(s, q, r)
  {
    HeavyRotates(s, t, path, q, was, k, d);
    assert Linked(s, q) && Local(s, t, q) && Tagged(s, t, q);
    GrandchildOffPath(s, path, k, q, Inner(s, q, d));
    OffPathNotAbove(s, path, k, Inner(s, q, d));
  }

  /** After turning the child's inner edge, the grandchild is the child. */
  lemma {:induction false} FirstTurn<V>(s: Store<V>, path: seq<Node<V>>, k: int, q: Node<V>, r: Node<V>, d: Side)
    requires Wired(s) && Path(s, path, k) && path != [] && q in s.rec && r in s.rec && q !in path && r !in path
    requires Kid(s.rec[path[|path| - 1]], d) == q && Kid(s.rec[q], Opposite(d)) == r && NotAbove(s, q, r)
    ensures var p := path[|path| - 1]; var s1 := Rotated(s, q, Opposite(d));
      && Regrouped(s, s1, q, r, {q, r}) && Turned(s, s1, q, r, Opposite(d))
      && Kid(s1.rec[p], d) == r && NotAbove(s1, p, r)
      && s1.rec[p].U == s.rec[p].U && Kid(s1.rec[p], Opposite(d)) == Kid(s.rec[p], Opposite(d))
  {
    var p := path[|path| - 1];
    var s1 := Rotated(s, q, Opposite(d));
    RotationRegroups(s, q, r, Opposite(d));
    assert Linked(s, q) && Linked(s, p);
    OffPathNotAbove(s, path, k, r);
    OffPathNotAbove(s, path, k, q);
    var u := s.rec[p].U;
    if u != null {
      assert Linked(s, u);
      if s.rec[u].U != null {
        assert s.rec[u].U != q;
      }
    }
  }

  lemma {:induction false} TwoTurnsOutside<V>(s: Store<V>, s1: Store<V>, s2: Store<V>, p: Node<V>, q: Node<V>, r: Node<V>, m: Node<V>)
    requires Regrouped(s, s1, q, r, {q, r}) && Regrouped(s1, s2, p, r, {p, r})
    requires p in s.rec && s.rec[q].U == p && m in s.rec && m != p && m != q && m != r
    ensures s2.rec[m].bal == s.rec[m].bal
    ensures s2.rec[m].L == (if s.rec[m].L == p then r else s.rec[m].L)
    ensures s2.rec[m].R == (if s.rec[m].R == p then r else s.rec[m].R)
    ensures s.rec[m].U != p && s.rec[m].U != q && s.rec[m].U != r ==> s2.rec[m].U == s.rec[m].U
  {
    assert Linked(s, m);
    assert m !in {q, r} && m !in {p, r};
  }

  lemma {:induction false} TwoTurnsRegroup<V>(s: Store<V>, s1: Store<V>, s2: Store<V>, p: Node<V>, q: Node<V>, r: Node<V>)
    requires Regrouped(s, s1, q, r, {q, r}) && Regrouped(s1, s2, p, r, {p, r})
    requires p in s.rec && s.rec[q].U == p && s.rec[r].U == q && p != r && p != q && q != r
    requires s1.rec[p].U == s.rec[p].U && s.rec[p].U != q && s.rec[p].U != r && s.rec[p].U != p
    ensures Regrouped(s, s2, p, r, {p, q, r})
  {
    hide Wired, Linked, Regrouped, Told;
    RegroupedKeys(s, s1, q, r, {q, r});
    RegroupedKeys(s1, s2, p, r, {p, r});
    forall m | m in s.rec && m !in {p, q, r}
      ensures Told(s, s2, p, r, {p, q, r}, m)
    {
      TwoTurnsOutside(s, s1, s2, p, q, r, m);
      ToldOf(s, s2, p, q, r, m);
    }
    OuterTold(s, s2, p, q, r);
  }

  lemma ToldOf<V>(s: Store<V>, s2: Store<V>, p: Node<V>, q: Node<V>, r: Node<V>, m: Node<V>)
    requires m in s.rec && m in s2.rec && s2.rec[m].bal == s.rec[m].bal
    requires s2.rec[m].L == (if s.rec[m].L == p then r else s.rec[m].L)
    requires s2.rec[m].R == (if s.rec[m].R == p then r else s.rec[m].R)
    requires s.rec[m].U != p && s.rec[m].U != q && s.rec[m].U != r ==> s2.rec[m].U == s.rec[m].U
    ensures Told(s, s2, p, r, {p, q, r}, m)
  {
  }

  lemma OuterTold<V>(s: Store<V>, s2: Store<V>, p: Node<V>, q: Node<V>, r: Node<V>)
    requires Wired(s) && Wired(s2) && s2.rec.Keys == s.rec.Keys && p in s.rec && q in s.rec && r in s.rec
    requires s.rec[q].U == p && s.rec[r].U == q && s2.rec[r].U == s.rec[p].U
    requires s.rec[p].U != q && s.rec[p].U != r && s.rec[p].U != p
    requires forall m :: m in s.rec && m !in {p, q, r} ==> Told(s, s2, p, r, {p, q, r}, m)
    ensures Regrouped(s, s2, p, r, {p, q, r})
  {
    hide Wired, Told;
  }

  /** The trees after the double rotation: `c`, `x`, `y`, `a` from side `d` to the other. */
  ghost function DoubleTrees<V>(s: Store<V>, t: Trees<V>, p: Node<V>, q: Node<V>, r: Node<V>, d: Side): Trees<V>
    requires p in s.rec && q in s.rec && r in s.rec
  {
    var o := Opposite(d);
    var tq := Mk(d, Sub(t, Kid(s.rec[q], d)), q.key, Sub(t, Kid(s.rec[r], d)));
    var tp := Mk(d, Sub(t, Kid(s.rec[r], o)), p.key, Sub(t, Kid(s.rec[p], o)));
    t[p := tp][q := tq][r := Mk(d, tq, r.key, tp)]
  }

  ghost function OuterTag(b: char, d: Side): char {
    if b == SideTag(d) then SideTag(Opposite(d)) else '='
  }

  lemma {:induction false} DoubleLocal<V>(s: Store<V>, t: Trees<V>, s1: Store<V>, s2: Store<V>, p: Node<V>, q: Node<V>, r: Node<V>, d: Side)
    requires Wired(s) && p in s.rec && q in s.rec && r in s.rec && t.Keys == s.rec.Keys
    requires p != q && q != r && p != r && s.rec[p].U != q && s.rec[p].U != r
    requires Kid(s.rec[p], d) == q && Kid(s.rec[q], Opposite(d)) == r
    requires Turned(s, s1, q, r, Opposite(d)) && Turned(s1, s2, p, r, d)
    ensures var t' := DoubleTrees(s, t, p, q, r, d);
      t'.Keys == t.Keys == s2.rec.Keys && Local(s2, t', p) && Local(s2, t', q) && Local(s2, t', r)
  {
    hide Turned, Wired;
    KidsApart(s, p, q, r, d);
    DoubleKids(s, s1, s2, p, q, r, d);
  }

  // Where the kids of the three nodes hang after both turns.
  lemma DoubleKids<V>(s: Store<V>, s1: Store<V>, s2: Store<V>, p: Node<V>, q: Node<V>, r: Node<V>, d: Side)
    requires p in s.rec && q in s.rec && r in s.rec && p != q && q != r && p != r
    requires s.rec[p].U != q && s.rec[p].U != r && s.rec[q].U == p
    requires Kid(s.rec[p], d) == q && Kid(s.rec[q], Opposite(d)) == r && Kid(s.rec[p], Opposite(d)) != q
    requires Kid(s.rec[r], d) != p && Kid(s.rec[q], d) != p
    requires Turned(s, s1, q, r, Opposite(d)) && Turned(s1, s2, p, r, d)
    ensures s2.rec.Keys == s.rec.Keys
    ensures var o := Opposite(d);
      && Kid(s2.rec[q], d) == Kid(s.rec[q], d) && Kid(s2.rec[q], o) == Kid(s.rec[r], d)
      && Kid(s2.rec[r], d) == q && Kid(s2.rec[r], o) == p
      && Kid(s2.rec[p], d) == Kid(s.rec[r], o) && Kid(s2.rec[p], o) == Kid(s.rec[p], o)
  {
  }

  ghost predicate OffThree<V>(x: Node?<V>, p: Node<V>, q: Node<V>, r: Node<V>) { x != p && x != q && x != r }

  lemma KidsApart<V>(s: Store<V>, p: Node<V>, q: Node<V>, r: Node<V>, d: Side)
    requires Wired(s) && p in s.rec && q in s.rec && r in s.rec
    requires p != q && q != r && p != r && s.rec[p].U != q && s.rec[p].U != r
    requires Kid(s.rec[p], d) == q && Kid(s.rec[q], Opposite(d)) == r
    ensures s.rec[q].U == p && s.rec[r].U == q
    ensures var o := Opposite(d);
      && OffThree(Kid(s.rec[q], d), p, q, r) && OffThree(Kid(s.rec[r], d), p, q, r)
      && OffThree(Kid(s.rec[r], o), p, q, r) && OffThree(Kid(s.rec[p], o), p, q, r)
  {
    assert Linked(s, p) && Linked(s, q) && Linked(s, r);
  }

  lemma DoubleInserted(a: Tree, p: int, y: Tree, r: int, x: Tree, q: int, c: Tree, was: Tree, d: Side, k: int)
    requires Inserted(was, Mk(d, Mk(d, c, q, Mk(d, x, r, y)), p, a), k)
    ensures Inserted(was, Mk(d, Mk(d, c, q, x), r, Mk(d, y, p, a)), k)
  {
    var o := Opposite(d);
    assert Mk(d, Mk(d, c, q, Mk(d, x, r, y)), p, a).Br?;
    if d == Rt {
      RotatedRight(y, r, x, q, c);
      RotatedLeft(a, p, y, r, Br(x, q, c));
    } else {
      RotatedLeft(c, q, x, r, y);
      RotatedRight(Br(c, q, x), r, y, p, a);
    }
  }

  lemma DoubleTagged<V>(s: Store<V>, t: Trees<V>, path: seq<Node<V>>, q: Node<V>, r: Node<V>, was: Tree, k: int, d: Side)
    requires TooHeavy(s, t, path, q, was, k, d) && q in s.rec && s.rec[q].bal == SideTag(Opposite(d))
    requires r in s.rec && Kid(s.rec[q], Opposite(d)) == r && r !in path && r != q
    ensures var p := path[|path| - 1]; var t', b := DoubleTrees(s, t, p, q, r, d), s.rec[r].bal;
      && p in t' && p in t && t'[p].Br? && t'[q].Br? && t'[r].Br? && Sorted(t'[p]) && Sorted(t'[q]) && Sorted(t'[r])
      && Tag(t'[p].l, t'[p].r) == OuterTag(b, d)
      && Tag(t'[q].l, t'[q].r) == OuterTag(b, Opposite(d))
      && Tag(t'[r].l, t'[r].r) == '='
      && Height(t'[r]) == Height(t[p]) && Inserted(t[p], t'[r], k)
  {
    hide Linked, Inserted, Sorted, Wired, Path, Tag, Height;
    var p, o := path[|path| - 1], Opposite(d);
    DoubleParts(s, t, path, q, r, was, k, d);
    var a, c := Sub(t, Kid(s.rec[p], o)), Sub(t, Kid(s.rec[q], d));
    var x, y := Sub(t, Kid(s.rec[r], d)), Sub(t, Kid(s.rec[r], o));
    DoubleInserted(a, p.key, y, r.key, x, q.key, c, t[p], d, k);
    InsertedParts(t[p], Mk(d, Mk(d, c, q.key, x), r.key, Mk(d, y, p.key, a)), k);
    DoubleHeights(t[p], a, p.key, c, q.key, x, r.key, y, s.rec[r].bal, was, d);
  }

  lemma DoubleParts<V>(s: Store<V>, t: Trees<V>, path: seq<Node<V>>, q: Node<V>, r: Node<V>, was: Tree, k: int, d: Side)
    requires TooHeavy(s, t, path, q, was, k, d) && q in s.rec && s.rec[q].bal == SideTag(Opposite(d))
    requires r in s.rec && Kid(s.rec[q], Opposite(d)) == r && r !in path && r != q
    ensures var p, o := path[|path| - 1], Opposite(d);
      && p in s.rec && p in t && q in t && r in t && q != p && r != p && t.Keys == s.rec.Keys
      && var a, c := Sub(t, Kid(s.rec[p], o)), Sub(t, Kid(s.rec[q], d));
      && var x, y := Sub(t, Kid(s.rec[r], d)), Sub(t, Kid(s.rec[r], o));
      && t[r] == Mk(d, x, r.key, y) && t[q] == Mk(d, c, q.key, t[r]) && t[p] == Mk(d, was, p.key, a)
      && Inserted(t[p], Mk(d, t[q], p.key, a), k) && Height(t[q]) == Height(was) + 1
      && s.rec[r].bal == Tag(t[r].l, t[r].r) != '!' && Tag(t[q].l, t[q].r) == SideTag(o) && Tag(t[p].l, t[p].r) == SideTag(d)
  {
    hide Inserted, Sorted, Tag, Height, Wired;
    PendingAt(s, t, path, q, was, k);
    HeavyRotates(s, t, path, q, was, k, d);
    assert Local(s, t, q) && Tagged(s, t, q) && Local(s, t, r) && Tagged(s, t, r);
  }

  // The heights and tags of the two turns, on the trees themselves.
  lemma DoubleHeights(old0: Tree, a: Tree, p: int, c: Tree, q: int, x: Tree, r: int, y: Tree, b: char, was: Tree, d: Side)
    requires var o, tr := Opposite(d), Mk(d, x, r, y);
      && old0 == Mk(d, was, p, a) && Tag(old0.l, old0.r) == SideTag(d)
      && b == Tag(tr.l, tr.r) != '!' && Tag(Mk(d, c, q, tr).l, Mk(d, c, q, tr).r) == SideTag(o)
      && Height(Mk(d, c, q, tr)) == Height(was) + 1
    ensures var tq, tp := Mk(d, c, q, x), Mk(d, y, p, a);
      && Tag(tp.l, tp.r) == OuterTag(b, d) && Tag(tq.l, tq.r) == OuterTag(b, Opposite(d))
      && Tag(Mk(d, tq, r, tp).l, Mk(d, tq, r, tp).r) == '=' && Height(Mk(d, tq, r, tp)) == Height(old0)
  {
    hide Height, Tag, Mk;
    MkLean(d, was, p, a);
    MkLean(d, x, r, y);
    MkLean(d, c, q, Mk(d, x, r, y));
    MkLean(d, c, q, x);
    MkLean(d, y, p, a);
    MkLean(d, Mk(d, c, q, x), r, Mk(d, y, p, a));
    LeanTwice(Height(was), Height(a), Height(c), Height(x), Height(y), d, b);
  }

  ghost function Higher(m: nat, n: nat): nat { if m < n then n else m }

  // The tag of a node whose subtrees have these heights, the one on side d first.
  ghost function Lean(m: nat, n: nat, d: Side): char {
    if m == n then '=' else if m == n + 1 then SideTag(d) else if m + 1 == n then SideTag(Opposite(d)) else '!'
  }

  lemma MkLean(d: Side, x: Tree, key: int, y: Tree)
    ensures var t := Mk(d, x, key, y);
      t.Br? && Tag(t.l, t.r) == Lean(Height(x), Height(y), d) && Height(t) == 1 + Higher(Height(x), Height(y))
  {
  }

  lemma LeanTwice(w: nat, a: nat, c: nat, x: nat, y: nat, d: Side, b: char)
    requires Lean(w, a, d) == SideTag(d) && b == Lean(x, y, d) != '!'
    requires Lean(c, 1 + Higher(x, y), d) == SideTag(Opposite(d)) && 1 + Higher(c, 1 + Higher(x, y)) == w + 1
    ensures Lean(y, a, d) == OuterTag(b, d) && Lean(c, x, d) == OuterTag(b, Opposite(d))
    ensures Lean(1 + Higher(c, x), 1 + Higher(y, a), d) == '=' && Higher(1 + Higher(c, x), 1 + Higher(y, a)) == Higher(w, a)
  {
  }

  lemma InsertedParts(was: Tree, now: Tree, k: int)
    requires Inserted(was, now, k) && now.Br?
    ensures Sorted(now) && Sorted(now.l) && Sorted(now.r)
  {
  }

  ghost function DoubleStore<V>(s: Store<V>, p: Node<V>, q: Node<V>, r: Node<V>, d: Side): Store<V>
    requires Wired(s) && p in s.rec && q in s.rec && r in s.rec && Kid(s.rec[q], Opposite(d)) == r
    requires var s1 := Rotated(s, q, Opposite(d));
      && s1.rec.Keys == s.rec.Keys && Wired(s1) && Kid(s1.rec[p], d) == r
      && Rotated(s1, p, d).rec.Keys == s.rec.Keys
  {
    var b := s.rec[r].bal;
    var s2 := Rotated(Rotated(s, q, Opposite(d)), p, d);
    SetBal(SetBal(SetBal(s2, p, OuterTag(b, d)), q, OuterTag(b, Opposite(d))), r, '=')
  }

  /** The two rotations of a double step, and the stores they leave. */
  lemma {:induction false} DoubleTurns<V>(s: Store<V>, t: Trees<V>, path: seq<Node<V>>, q: Node<V>, r: Node<V>, was: Tree, k: int, d: Side)
    requires TooHeavy(s, t, path, q, was, k, d) && q in s.rec && s.rec[q].bal == SideTag(Opposite(d)) && r == Inner(s, q, d)
    ensures var p, o := path[|path| - 1], Opposite(d);
      && Wired(s) && p in s.rec && r in s.rec && r !in path && r != q && p != q && p != r
      && Kid(s.rec[p], d) == q && Kid(s.rec[q], o) == r && s.rec[p].U != q && s.rec[p].U != r
      && var s1 := Rotated(s, q, o);
         && Wired(s1) && s1.rec.Keys == s.rec.Keys && Kid(s1.rec[p], d) == r && NotAbove(s1, p, r)
         && var s2 := Rotated(s1, p, d);
            && s2.rec.Keys == s.rec.Keys
            && Turned(s, s1, q, r, o) && Turned(s1, s2, p, r, d)
            && Regrouped(s, s2, p, r, {p, q, r})
  {
    hide Turned, Rotated;
    var p, o := path[|path| - 1], Opposite(d);
    HeavyRotates(s, t, path, q, was, k, d);
    InnerExists(s, t, path, q, was, k, d);
    FirstTurn(s, path, k, q, r, d);
    var s1 := Rotated(s, q, o);
    RegroupedKeys(s, s1, q, r, {q, r});
    RotationRegroups(s1, p, r, d);
    RegroupedKeys(s1, Rotated(s1, p, d), p, r, {p, r});
    assert Linked(s, p) && Linked(s, q);
    TwoTurnsRegroup(s, s1, Rotated(s1, p, d), p, q, r);
  }

  /** When the child is heavy on the other side, turning its inner edge first restores balance and height. */
  lemma {:induction false} DoubleStep<V>(s: Store<V>, t: Trees<V>, path: seq<Node<V>>, q: Node<V>, r: Node<V>, was: Tree, k: int, d: Side)
    requires TooHeavy(s, t, path, q, was, k, d) && q in s.rec && s.rec[q].bal == SideTag(Opposite(d)) && r == Inner(s, q, d)
    ensures var p, o := path[|path| - 1], Opposite(d);
      && Wired(s) && p in s.rec && r in s.rec && r !in path && r != q && p != q && p != r
      && Kid(s.rec[p], d) == q && Kid(s.rec[q], o) == r
      && var s1 := Rotated(s, q, o);
         && Wired(s1) && s1.rec.Keys == s.rec.Keys && Kid(s1.rec[p], d) == r
         && Rotated(s1, p, d).rec.Keys == s.rec.Keys
         && var s', t' := DoubleStore(s, p, q, r, d), DoubleTrees(s, t, p, q, r, d);
            && p in t && r in t' && Pending(s', t', path[..|path| - 1], r, t[p], k)
            && Height(t'[r]) == Height(t[p])
  {
    hide Path, Linked, Sorted, Turned, Rotated, Regrouped, Pending, TooHeavy;
    PendingKeys(s, t, path, q, was, k, d);
    var p, o := path[|path| - 1], Opposite(d);
    DoubleTurns(s, t, path, q, r, was, k, d);
    DoubleTagged(s, t, path, q, r, was, k, d);
    var s1 := Rotated(s, q, o);
    var s2 := Rotated(s1, p, d);
    DoubleLocal(s, t, s1, s2, p, q, r, d);
    var s', t' := DoubleStore(s, p, q, r, d), DoubleTrees(s, t, p, q, r, d);
    var s3 := SetBal(s2, p, OuterTag(s.rec[r].bal, d));
    RetagKeepsRegrouped(s, s2, p, r, {p, q, r}, p, OuterTag(s.rec[r].bal, d));
    var s4 := SetBal(s3, q, OuterTag(s.rec[r].bal, o));
    RetagKeepsRegrouped(s, s3, p, r, {p, q, r}, q, OuterTag(s.rec[r].bal, o));
    RetagKeepsRegrouped(s, s4, p, r, {p, q, r}, r, '=');
    assert Local(s', t', p) && Local(s', t', q) && Local(s', t', r);
    assert Tagged(s', t', p) && Tagged(s', t', q) && Tagged(s', t', r);
    Climb(s, t, path, q, was, k, s', t', r, {p, q, r});
  }

  lemma PendingKeys<V>(s: Store<V>, t: Trees<V>, path: seq<Node<V>>, q: Node<V>, was: Tree, k: int, d: Side)
    requires TooHeavy(s, t, path, q, was, k, d)
    ensures t.Keys == s.rec.Keys && path != [] && Pending(s, t, path, q, was, k)
  {
  }

  // ---- beginning and end of an insertion ----

  /** The store with a new node hung from `parent` on side `d`, or at the head. */
  ghost function Planted<V>(s: Store<V>, parent: Node?<V>, d: Side, x: Node<V>): Store<V>
    requires In(s, parent)
  {
    var s1 := s.(rec := s.rec[x := Rec(null, null, parent, '=')]);
    if parent == null then s1.(head := x) else SetKid(s1, parent, d, x)
  }

  lemma {:induction false} PlantedWired<V>(s: Store<V>, parent: Node?<V>, d: Side, x: Node<V>)
    requires Wired(s) && In(s, parent) && x !in s.rec
    requires if parent == null then s.head == null else Kid(s.rec[parent], d) == null
    ensures Wired(Planted(s, parent, d, x))
  {
    var s' := Planted(s, parent, d, x);
    forall m | m in s'.rec ensures Linked(s', m) {
      if m != x {
        assert Linked(s, m);
      }
    }
  }

  lemma {:induction false} PlantedPath<V>(s: Store<V>, path: seq<Node<V>>, k: int, d: Side, x: Node<V>)
    requires Wired(s) && Path(s, path, k) && x !in s.rec && x.key == k
    requires path == [] ==> s.head == null
    requires path != [] ==> k != path[|path| - 1].key && (d == Lt <==> k < path[|path| - 1].key)
    requires path != [] ==> Kid(s.rec[path[|path| - 1]], d) == null
    ensures In(s, Last(path)) && Path(Planted(s, Last(path), d, x), path, k)
    ensures path != [] ==> Steps(Planted(s, Last(path), d, x), Last(path), x, k)
  {
    var s' := Planted(s, Last(path), d, x);
    forall i | 0 < i < |path| ensures Steps(s', path[i - 1], path[i], k) {
      assert Steps(s, path[i - 1], path[i], k);
    }
    if path != [] {
      assert Linked(s, path[|path| - 1]);
    }
  }

  lemma LeafSorted(k: int)
    ensures Sorted(Br(Leaf, k, Leaf)) && Tag(Leaf, Leaf) == '=' && Keys(Br(Leaf, k, Leaf)) == {k} && Keys(Leaf) == {}
  {
  }

  /** A new leaf at the end of the search path is the first thing its parent does not know. */
  lemma {:induction false} PlantedPends<V>(s: Store<V>, t: Trees<V>, path: seq<Node<V>>, k: int, d: Side, x: Node<V>)
    requires Shaped(s, t) && Path(s, path, k) && x !in s.rec && x.key == k
    requires path == [] ==> s.head == null
    requires path != [] ==> k != path[|path| - 1].key && (d == Lt <==> k < path[|path| - 1].key)
    requires path != [] ==> Kid(s.rec[path[|path| - 1]], d) == null
    ensures In(s, Last(path))
    ensures Pending(Planted(s, Last(path), d, x), t[x := Br(Leaf, k, Leaf)], path, x, Leaf, k)
  {
    hide Sorted, Tag, Keys;
    LeafSorted(k);
    var s', t', p := Planted(s, Last(path), d, x), t[x := Br(Leaf, k, Leaf)], Last(path);
    PlantedWired(s, p, d, x);
    PlantedPath(s, path, k, d, x);
    forall m | m in s'.rec ensures Tagged(s', t', m) {
      assert m == x || Tagged(s, t, m);
    }
    forall m | m in s'.rec && m != p ensures Local(s', t', m) {
      if m != x {
        assert Local(s, t, m) && Linked(s, m);
      }
    }
    if p != null {
      assert Local(s, t, p) && Tagged(s, t, p) && Linked(s, p);
    }
  }

  /** When the subtree grew no higher its parent only has to be told. */
  lemma {:induction false} Lift<V>(s: Store<V>, t: Trees<V>, path: seq<Node<V>>, q: Node<V>, was: Tree, k: int)
    requires Pending(s, t, path, q, was, k) && path != [] && Height(t[q]) == Height(was)
    ensures var p := path[|path| - 1];
      && p in s.rec && p in t && Pending(s, t[p := Refreshed(s, t, p)], path[..|path| - 1], p, t[p], k)
      && Height(Refreshed(s, t, p)) == Height(t[p])
  {
    hide Path, Linked, Inserted, Sorted, Pending;
    var p := path[|path| - 1];
    PendingAt(s, t, path, q, was, k);
    PendingQ(s, t, path, q, was, k);
    TellParent(s, t, path, q, was, k, s.rec[p].bal);
    assert SetBal(s, p, s.rec[p].bal) == s;
  }

  lemma PendingQ<V>(s: Store<V>, t: Trees<V>, path: seq<Node<V>>, q: Node<V>, was: Tree, k: int)
    requires Pending(s, t, path, q, was, k)
    ensures t.Keys == s.rec.Keys && q in t && Wired(s)
  {
  }

  /** Once the head knows, the tree is whole again and holds one more key. */
  lemma {:induction false} AllTold<V>(s: Store<V>, t: Trees<V>, q: Node<V>, was: Tree, k: int)
    requires Pending(s, t, [], q, was, k)
    ensures Shaped(s, t) && s.head == q && Inserted(was, t[q], k)
  {
    assert Linked(s, q);
  }

  /** The pending subtree grew by one level; if its top is even it is the new leaf. */
  ghost predicate Growing<V>(s: Store<V>, t: Trees<V>, path: seq<Node<V>>, q: Node<V>, was: Tree, k: int) {
    && Pending(s, t, path, q, was, k)
    && Height(t[q]) == Height(was) + 1
    && (s.rec[q].bal == '=' ==> was == Leaf)
  }

  lemma {:induction false} GrowStep<V>(s: Store<V>, t: Trees<V>, path: seq<Node<V>>, q: Node<V>, was: Tree, k: int)
    requires Growing(s, t, path, q, was, k) && path != [] && path[|path| - 1] in s.rec
    requires s.rec[path[|path| - 1]].bal == '='
    ensures var p := path[|path| - 1]; var b := if s.rec[p].L == q then 'L' else 'R';
      p in t && Growing(SetBal(s, p, b), t[p := Refreshed(s, t, p)], path[..|path| - 1], p, t[p], k)
  {
    hide Path, Linked, Inserted, Sorted, Pending, Wired;
    var p := path[|path| - 1];
    PendingAt(s, t, path, q, was, k);
    PendingQ(s, t, path, q, was, k);
    PendingDistinct(s, t, path, q, was, k);
    TellParent(s, t, path, q, was, k, if s.rec[p].L == q then 'L' else 'R');
  }

  lemma PendingDistinct<V>(s: Store<V>, t: Trees<V>, path: seq<Node<V>>, q: Node<V>, was: Tree, k: int)
    requires Pending(s, t, path, q, was, k) && path != []
    ensures var p := path[|path| - 1]; p in s.rec && (s.rec[p].L != s.rec[p].R || s.rec[p].L == null)
  {
    assert Linked(s, path[|path| - 1]);
  }

  /** A parent that was light on the side that grew becomes even and does not grow. */
  lemma {:induction false} AbsorbStep<V>(s: Store<V>, t: Trees<V>, path: seq<Node<V>>, q: Node<V>, was: Tree, k: int)
    requires Growing(s, t, path, q, was, k) && path != [] && path[|path| - 1] in s.rec
    requires var r := s.rec[path[|path| - 1]]; r.bal == if r.L == q then 'R' else 'L'
    ensures var p := path[|path| - 1];
      && p in t && Pending(SetBal(s, p, '='), t[p := Refreshed(s, t, p)], path[..|path| - 1], p, t[p], k)
      && Height(Refreshed(s, t, p)) == Height(t[p])
  {
    hide Path, Linked, Inserted, Sorted, Pending, Wired;
    var p := path[|path| - 1];
    PendingAt(s, t, path, q, was, k);
    PendingQ(s, t, path, q, was, k);
    PendingDistinct(s, t, path, q, was, k);
    TellParent(s, t, path, q, was, k, '=');
  }

  /** Otherwise it is too heavy on that side, and its child leans one way or the other. */
  lemma {:induction false} HeavyCase<V>(s: Store<V>, t: Trees<V>, path: seq<Node<V>>, q: Node<V>, was: Tree, k: int)
    requires Growing(s, t, path, q, was, k) && path != [] && path[|path| - 1] in s.rec
    requires var r := s.rec[path[|path| - 1]]; r.bal != '=' && r.bal != if r.L == q then 'R' else 'L'
    ensures var d := if k < path[|path| - 1].key then Lt else Rt;
      && TooHeavy(s, t, path, q, was, k, d)
      && Kid(s.rec[path[|path| - 1]], d) == q && q in s.rec
      && (s.rec[q].bal == SideTag(d) || s.rec[q].bal == SideTag(Opposite(d)))
  {
    PendingAt(s, t, path, q, was, k);
    PendingDistinct(s, t, path, q, was, k);
    assert Tagged(s, t, q);
  }

  /** The trees of the given nodes are as they were. */
  ghost predicate KeptOn<V>(t: Trees<V>, t': Trees<V>, path: seq<Node<V>>) {
    forall m :: m in path ==> m in t && m in t' && t'[m] == t[m]
  }

  lemma SingleKept<V>(s: Store<V>, t: Trees<V>, path: seq<Node<V>>, q: Node<V>, was: Tree, k: int, d: Side)
    requires TooHeavy(s, t, path, q, was, k, d) && q in s.rec
    ensures KeptOn(t, SingleTrees(s, t, path[|path| - 1], q, d), path[..|path| - 1])
  {
    HeavyRotates(s, t, path, q, was, k, d);
  }

  lemma DoubleKept<V>(s: Store<V>, t: Trees<V>, path: seq<Node<V>>, q: Node<V>, r: Node<V>, was: Tree, k: int, d: Side)
    requires TooHeavy(s, t, path, q, was, k, d) && q in s.rec && s.rec[q].bal == SideTag(Opposite(d)) && r == Inner(s, q, d)
    ensures r in s.rec && KeptOn(t, DoubleTrees(s, t, path[|path| - 1], q, r, d), path[..|path| - 1])
    ensures s.rec[r].bal in {'L', 'R', '='}
    ensures var p, o := path[|path| - 1], Opposite(d);
      && Wired(s) && NotAbove(s, q, r) && Kid(s.rec[q], o) == r && p != q && q != r && p != r
      && var s1 := Rotated(s, q, o);
         && Wired(s1) && s1.rec.Keys == s.rec.Keys && Kid(s1.rec[p], d) == r && NotAbove(s1, p, r)
         && Rotated(s1, p, d).rec.Keys == s.rec.Keys && Rotated(s1, p, d).rec[r].bal == s.rec[r].bal
  {
    hide Rotated;
    HeavyRotates(s, t, path, q, was, k, d);
    InnerExists(s, t, path, q, was, k, d);
    DoubleTurns(s, t, path, q, r, was, k, d);
    assert Tagged(s, t, r);
  }

  /** The last node of the path had a subtree put right that is now topped by `top`, as high as before;
      the nodes above are the next to be told. */
  ghost predicate Fixed<V>(s: Store<V>, t0: Trees<V>, t: Trees<V>, path: seq<Node<V>>, top: Node<V>, k: int) {
    && path != [] && path[|path| - 1] in t0 && top in t && top in s.rec
    && Pending(s, t, path[..|path| - 1], top, t0[path[|path| - 1]], k)
    && Height(t[top]) == Height(t0[path[|path| - 1]])
    && KeptOn(t0, t, path[..|path| - 1])
  }

  lemma SingleFixes<V>(s: Store<V>, t: Trees<V>, path: seq<Node<V>>, q: Node<V>, was: Tree, k: int, d: Side)
    requires TooHeavy(s, t, path, q, was, k, d) && q in s.rec && s.rec[q].bal == SideTag(d)
    ensures var p := path[|path| - 1];
      && Wired(s) && p in s.rec && Kid(s.rec[p], d) == q && Rotated(s, p, d).rec.Keys == s.rec.Keys
      && Fixed(SingleStore(s, p, q, d), t, SingleTrees(s, t, p, q, d), path, q, k)
  {
    hide Pending, TooHeavy, KeptOn, Rotated, Path, Wired;
    PendingKeys(s, t, path, q, was, k, d);
    SingleStep(s, t, path, q, was, k, d);
    SingleKept(s, t, path, q, was, k, d);
  }

  lemma DoubleFixes<V>(s: Store<V>, t: Trees<V>, path: seq<Node<V>>, q: Node<V>, r: Node<V>, was: Tree, k: int, d: Side)
    requires TooHeavy(s, t, path, q, was, k, d) && q in s.rec && s.rec[q].bal == SideTag(Opposite(d)) && r == Inner(s, q, d)
    ensures var p, o := path[|path| - 1], Opposite(d);
      && Wired(s) && p in s.rec && r in s.rec && Kid(s.rec[q], o) == r
      && var s1 := Rotated(s, q, o);
         && Wired(s1) && s1.rec.Keys == s.rec.Keys && Kid(s1.rec[p], d) == r
         && Rotated(s1, p, d).rec.Keys == s.rec.Keys
         && Fixed(DoubleStore(s, p, q, r, d), t, DoubleTrees(s, t, p, q, r, d), path, r, k)
  {
    hide Pending, TooHeavy, KeptOn, Rotated, Path, Wired;
    PendingKeys(s, t, path, q, was, k, d);
    DoubleStep(s, t, path, q, r, was, k, d);
    DoubleKept(s, t, path, q, r, was, k, d);
  }

  /** Having come up from the end of `path` to `up`, the trees above are as they were,
      and `was` is the old tree just below. */
  ghost predicate CameUp<V>(t0: Trees<V>, t: Trees<V>, path: seq<Node<V>>, up: seq<Node<V>>, was: Tree) {
    && |up| <= |path| && up == path[..|up|] && KeptOn(t0, t, up)
    && (if |up| == |path| then was == Leaf else path[|up|] in t0 && was == t0[path[|up|]])
  }

  lemma CameUpFurther<V>(t0: Trees<V>, t: Trees<V>, t': Trees<V>, path: seq<Node<V>>, up: seq<Node<V>>, was: Tree)
    requires CameUp(t0, t, path, up, was) && up != [] && KeptOn(t, t', up[..|up| - 1])
    ensures up[|up| - 1] in t && CameUp(t0, t', path, up[..|up| - 1], t[up[|up| - 1]])
  {
  }

  lemma PathDistinctLast<V>(s: Store<V>, path: seq<Node<V>>, k: int, t: Trees<V>, tree: Tree)
    requires Path(s, path, k) && path != [] && s.rec.Keys == t.Keys
    ensures KeptOn(t, t[path[|path| - 1] := tree], path[..|path| - 1])
  {
  }

  lemma StartUp<V>(s: Store<V>, t: Trees<V>, path: seq<Node<V>>, x: Node<V>, k: int)
    requires Growing(s, t, path, x, Leaf, k)
    ensures CameUp(t, t, path, path, Leaf) && x in s.rec && s.rec[x].U == Last(path) && In(s, Last(path))
  {
    assert path[..|path|] == path;
  }

  lemma GrowingParent<V>(s: Store<V>, t: Trees<V>, up: seq<Node<V>>, q: Node<V>, was: Tree, k: int)
    requires Growing(s, t, up, q, was, k)
    ensures q in s.rec && s.rec[q].U == Last(up) && In(s, Last(up))
  {
  }

  lemma GrowKept<V>(s: Store<V>, t: Trees<V>, up: seq<Node<V>>, q: Node<V>, was: Tree, k: int, tree: Tree)
    requires Growing(s, t, up, q, was, k) && up != []
    ensures KeptOn(t, t[up[|up| - 1] := tree], up[..|up| - 1])
  {
    PathDistinctLast(s, up, k, t, tree);
  }

  lemma {:induction false} PlantedGrows<V>(s: Store<V>, t: Trees<V>, path: seq<Node<V>>, k: int, d: Side, x: Node<V>)
    requires Shaped(s, t) && Path(s, path, k) && x !in s.rec && x.key == k
    requires path == [] ==> s.head == null
    requires path != [] ==> path[|path| - 1] in s.rec && k != path[|path| - 1].key && (d == Lt <==> k < path[|path| - 1].key)
    requires path != [] ==> Kid(s.rec[path[|path| - 1]], d) == null
    ensures In(s, Last(path))
    ensures Growing(Planted(s, Last(path), d, x), t[x := Br(Leaf, k, Leaf)], path, x, Leaf, k)
  {
    PlantedPends(s, t, path, k, d, x);
  }

  lemma PathInTrees<V>(s: Store<V>, t: Trees<V>, up: seq<Node<V>>, q: Node<V>, was: Tree, k: int)
    requires Pending(s, t, up, q, was, k)
    ensures forall m :: m in up ==> m in t
  {
  }

  lemma PendingKept<V>(s: Store<V>, t: Trees<V>, up: seq<Node<V>>, q: Node<V>, was: Tree, k: int, tree: Tree)
    requires Pending(s, t, up, q, was, k) && up != []
    ensures KeptOn(t, t[up[|up| - 1] := tree], up[..|up| - 1])
  {
    PathDistinctLast(s, up, k, t, tree);
  }

  lemma AbsorbFixes<V>(s: Store<V>, t: Trees<V>, path: seq<Node<V>>, q: Node<V>, was: Tree, k: int)
    requires Growing(s, t, path, q, was, k) && path != [] && path[|path| - 1] in s.rec
    requires var r := s.rec[path[|path| - 1]]; r.bal == if r.L == q then 'R' else 'L'
    ensures var p := path[|path| - 1]; Fixed(SetBal(s, p, '='), t, t[p := Refreshed(s, t, p)], path, p, k)
  {
    hide Path, Linked, Inserted, Sorted, Pending, Wired;
    AbsorbStep(s, t, path, q, was, k);
    GrowKept(s, t, path, q, was, k, Refreshed(s, t, path[|path| - 1]));
  }

  lemma HeavySide<V>(s: Store<V>, t: Trees<V>, path: seq<Node<V>>, q: Node<V>, was: Tree, k: int)
    requires Growing(s, t, path, q, was, k) && path != [] && path[|path| - 1] in s.rec
    requires var r := s.rec[path[|path| - 1]]; r.bal != '=' && r.bal != if r.L == q then 'R' else 'L'
    ensures var p := path[|path| - 1]; s.rec[p].bal == if k < p.key then 'L' else 'R'
  {
    HeavyCase(s, t, path, q, was, k);
  }

  lemma FixedTop<V>(s: Store<V>, s0: Store<V>, t0: Trees<V>, t: Trees<V>, path: seq<Node<V>>, top: Node<V>, k: int)
    requires Fixed(s, t0, t, path, top, k)
    ensures top in s.rec
  {
  }

  lemma OldTree<V>(s: Store<V>, t: Trees<V>, path: seq<Node<V>>, k: int, x: Node<V>)
    requires Shaped(s, t) && Path(s, path, k) && (path == [] ==> s.head == null) && x !in s.rec
    ensures path != [] ==> path[0] in t && path[0] != x
    ensures Sub(t, s.head) == if path == [] then Leaf else t[path[0]]
  {
  }

  /** If every node up to the head was even, the whole tree grew. */
  lemma TopTold<V>(s: Store<V>, t1: Trees<V>, t: Trees<V>, path: seq<Node<V>>, up: seq<Node<V>>, q: Node<V>, was: Tree, k: int)
    requires Growing(s, t, up, q, was, k) && up == [] && CameUp(t1, t, path, up, was)
    ensures path != [] ==> path[0] in t1
    ensures Shaped(s, t) && Inserted(if path == [] then Leaf else t1[path[0]], Sub(t, s.head), k)
  {
    AllTold(s, t, q, was, k);
  }

  /** After the repair the top of the path still has its old tree on record. */
  lemma FixedOriginal<V>(s: Store<V>, t1: Trees<V>, t2: Trees<V>, t3: Trees<V>, path: seq<Node<V>>, up: seq<Node<V>>, was: Tree, top: Node<V>, k: int)
    requires CameUp(t1, t2, path, up, was) && Fixed(s, t2, t3, up, top, k)
    ensures path != [] && path[0] in t1 && up != [] && up[|up| - 1] in t2 && top in t3 && top in s.rec
    ensures Pending(s, t3, up[..|up| - 1], top, t2[up[|up| - 1]], k) && Height(t3[top]) == Height(t2[up[|up| - 1]])
    ensures var rest := up[..|up| - 1];
      if rest == [] then t2[up[|up| - 1]] == t1[path[0]] else rest[0] in t3 && t3[rest[0]] == t1[path[0]]
  {
    assert up[0] == path[0];
    if |up| > 1 {
      assert up[..|up| - 1][0] == path[0];
    }
  }

  lemma InsertedKeys(was: Tree, now: Tree, k: int)
    requires Inserted(was, now, k)
    ensures Sorted(now) && Keys(now) == Keys(was) + {k}
  {
  }

  // ---- searching ----

  /** Comparing with the key of `p` tells which subtree `k` can be in, and that one is lower. */
  lemma {:induction false} SearchStep<V>(s: Store<V>, t: Trees<V>, p: Node<V>, k: int)
    requires Shaped(s, t) && p in s.rec
    ensures k < p.key ==> (k in Keys(Sub(t, p)) <==> k in Keys(Sub(t, s.rec[p].L)))
    ensures p.key < k ==> (k in Keys(Sub(t, p)) <==> k in Keys(Sub(t, s.rec[p].R)))
    ensures p.key in Keys(Sub(t, p))
    ensures Keys(Leaf) == {} && (s.rec[p].L == null ==> Sub(t, s.rec[p].L) == Leaf) && (s.rec[p].R == null ==> Sub(t, s.rec[p].R) == Leaf)
    ensures Height(Sub(t, s.rec[p].L)) < Height(Sub(t, p)) && Height(Sub(t, s.rec[p].R)) < Height(Sub(t, p))
    ensures (s.rec[p].L != null ==> s.rec[p].L in s.rec) && (s.rec[p].R != null ==> s.rec[p].R in s.rec)
  {
    assert Local(s, t, p) && Tagged(s, t, p) && Linked(s, p);
  }

  lemma ProbesStep<V>(s: Store<V>, t: Trees<V>, p: Node<V>, k: int)
    requires Shaped(s, t) && p in s.rec
    ensures Probes(Sub(t, p), k) == 1 + if k < p.key then Probes(Sub(t, s.rec[p].L), k)
                                        else if p.key < k then Probes(Sub(t, s.rec[p].R), k) else 0
    ensures Probes(Sub(t, null), k) == 0
  {
    assert Local(s, t, p) && Linked(s, p);
  }

  lemma {:induction false} StartPath<V>(s: Store<V>, t: Trees<V>, k: int)
    requires Shaped(s, t)
    ensures s.head != null ==> s.head in s.rec && Path(s, [s.head], k)
  {
  }

  lemma EmptyTree<V>(s: Store<V>, t: Trees<V>, k: int)
    requires Shaped(s, t) && s.head == null
    ensures Keys(Sub(t, s.head)) == {} && Path(s, [], k)
  {
  }

  lemma {:induction false} PathExtends<V>(s: Store<V>, t: Trees<V>, path: seq<Node<V>>, k: int, q: Node<V>)
    requires Shaped(s, t) && Path(s, path, k) && path != [] && path[|path| - 1] in s.rec
    requires var p := path[|path| - 1]; k != p.key && q == Kid(s.rec[p], if k < p.key then Lt else Rt)
    ensures Path(s, path + [q], k)
  {
    var p := path[|path| - 1];
    assert Linked(s, p);
    ChildOffPath(s, path, k, q);
  }
}
