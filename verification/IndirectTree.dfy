/** Trees of indirect blocks as they lie on the volume, and what one allocation does to them. */
module IndirectTree {
  import opened BlockCache

  /** A block of a file together with its height above the data blocks. */
  datatype Node = Node(bno: int, level: nat)

  /** All blocks of the tree at `b`, each indirect block before the blocks it points to. */
  ghost function PreOrder(blocks: seq<Block>, b: int, level: nat): seq<Node>
    decreases level, 0, 0
  {
    if b == 0 then []
    else if level == 0 || !(0 < b < |blocks|) then [Node(b, level)]
    else [Node(b, level)] + Kids(blocks, blocks[b], 0, |blocks[b]|, level - 1)
  }

  ghost function Kids(blocks: seq<Block>, row: Block, lo: nat, hi: nat, level: nat): seq<Node>
    requires lo <= hi <= |row|
    decreases level, 1, hi - lo
  {
    if lo == hi then [] else PreOrder(blocks, row[lo], level) + Kids(blocks, row, lo + 1, hi, level)
  }

  /** The block reached from `b` after `d` steps along `path`; 0 if the walk meets a hole. */
  ghost function At(blocks: seq<Block>, b: int, path: seq<nat>, d: nat): int
    requires d <= |path|
    decreases d
  {
    if b == 0 || d == 0 then b
    else if 0 < b < |blocks| && path[0] < |blocks[b]| then At(blocks, blocks[b][path[0]], path[1..], d - 1)
    else 0
  }

  /** The data block at the end of `path`, or 0 for a hole. */
  ghost function Follow(blocks: seq<Block>, b: int, path: seq<nat>): int {
    At(blocks, b, path, |path|)
  }

  /** No block hangs in the tree at or to the right of `path`, though indirect blocks on the way to it may. */
  ghost predicate Open(blocks: seq<Block>, b: int, path: seq<nat>)
    decreases |path|
  {
    b == 0 ||
    (&& path != [] && 0 < b < |blocks| && path[0] < |blocks[b]|
     && (forall k :: path[0] < k < |blocks[b]| ==> blocks[b][k] == 0)
     && Open(blocks, blocks[b][path[0]], path[1..]))
  }

  /** No block hangs in the tree to the right of `path`. */
  ghost predicate Closed(blocks: seq<Block>, b: int, path: seq<nat>)
    decreases |path|
  {
    b == 0 || path == [] ||
    (&& 0 < b < |blocks| && path[0] < |blocks[b]|
     && (forall k :: path[0] < k < |blocks[b]| ==> blocks[b][k] == 0)
     && Closed(blocks, blocks[b][path[0]], path[1..]))
  }

  ghost predicate LexLess(p: seq<nat>, q: seq<nat>)
    requires |p| == |q|
  {
    p != [] && (p[0] < q[0] || (p[0] == q[0] && LexLess(p[1..], q[1..])))
  }

  ghost predicate Wide(blocks: seq<Block>, width: nat) {
    forall b :: 0 <= b < |blocks| ==> |blocks[b]| == width
  }

  ghost predicate Within(path: seq<nat>, width: nat) {
    forall k :: 0 <= k < |path| ==> path[k] < width
  }

  ghost predicate DistinctNodes(nodes: seq<Node>) {
    forall i, j :: 0 <= i < j < |nodes| ==> nodes[i].bno != nodes[j].bno
  }

  ghost predicate Holds(nodes: seq<Node>, bno: int) {
    exists nd :: nd in nodes && nd.bno == bno
  }

  /** The two volumes agree on every indirect block among the nodes. */
  ghost predicate SameIndirect(was: seq<Block>, now: seq<Block>, nodes: seq<Node>) {
    && |was| == |now|
    && forall nd :: nd in nodes && nd.level > 0 && 0 < nd.bno < |was| ==> now[nd.bno] == was[nd.bno]
  }

  lemma {:induction false} ClosedThenOpen(blocks: seq<Block>, b: int, p: seq<nat>, q: seq<nat>, width: nat)
    requires |p| == |q| && LexLess(p, q) && Closed(blocks, b, p)
    requires Wide(blocks, width) && Within(q, width)
    ensures Open(blocks, b, q)
    decreases |p|
  {
    if b != 0 && p[0] == q[0] {
      ClosedThenOpen(blocks, blocks[b][p[0]], p[1..], q[1..], width);
    }
  }

  lemma {:induction false} OpenThenClosed(blocks: seq<Block>, b: int, q: seq<nat>)
    requires Open(blocks, b, q)
    ensures Closed(blocks, b, q)
    decreases |q|
  {
    if b != 0 {
      OpenThenClosed(blocks, blocks[b][q[0]], q[1..]);
    }
  }

  lemma {:induction false} OpenIsHole(blocks: seq<Block>, b: int, q: seq<nat>)
    requires Open(blocks, b, q)
    ensures Follow(blocks, b, q) == 0
    decreases |q|
  {
    if b != 0 {
      OpenIsHole(blocks, blocks[b][q[0]], q[1..]);
    }
  }

  lemma {:induction false} KidsSplit(blocks: seq<Block>, row: Block, lo: nat, mid: nat, hi: nat, level: nat)
    requires lo <= mid <= hi <= |row|
    ensures Kids(blocks, row, lo, hi, level) == Kids(blocks, row, lo, mid, level) + Kids(blocks, row, mid, hi, level)
    decreases mid - lo
  {
    if lo < mid {
      KidsSplit(blocks, row, lo + 1, mid, hi, level);
    }
  }

  lemma {:induction false} KidsOfZeroes(blocks: seq<Block>, row: Block, lo: nat, hi: nat, level: nat)
    requires lo <= hi <= |row|
    requires forall k :: lo <= k < hi ==> row[k] == 0
    ensures Kids(blocks, row, lo, hi, level) == []
    decreases hi - lo
  {
    if lo < hi {
      KidsOfZeroes(blocks, row, lo + 1, hi, level);
    }
  }

  /** The kids of a block are the trees left of entry `i`, the tree at it, and those right of it. */
  lemma {:induction false} KidsAround(blocks: seq<Block>, row: Block, i: nat, level: nat)
    requires i < |row|
    ensures Kids(blocks, row, 0, |row|, level)
         == Kids(blocks, row, 0, i, level) + PreOrder(blocks, row[i], level) + Kids(blocks, row, i + 1, |row|, level)
  {
    KidsSplit(blocks, row, 0, i, |row|, level);
  }

  lemma {:induction false} KidsFrame(was: seq<Block>, now: seq<Block>, row: Block, row': Block, lo: nat, hi: nat, level: nat)
    requires lo <= hi <= |row| == |row'|
    requires row[lo..hi] == row'[lo..hi]
    requires SameIndirect(was, now, Kids(was, row, lo, hi, level))
    ensures Kids(now, row', lo, hi, level) == Kids(was, row, lo, hi, level)
    decreases level, 1, hi - lo
  {
    if lo < hi {
      assert row[lo] == row[lo..hi][0] == row'[lo];
      assert row[lo + 1..hi] == row[lo..hi][1..] == row'[lo + 1..hi];
      PreOrderFrame(was, now, row[lo], level);
      KidsFrame(was, now, row, row', lo + 1, hi, level);
    }
  }

  lemma {:induction false} PreOrderFrame(was: seq<Block>, now: seq<Block>, b: int, level: nat)
    requires SameIndirect(was, now, PreOrder(was, b, level))
    ensures PreOrder(now, b, level) == PreOrder(was, b, level)
    decreases level, 0, 0
  {
    if b != 0 && level > 0 && 0 < b < |was| {
      assert PreOrder(was, b, level)[0] == Node(b, level);
      KidsFrame(was, now, was[b], now[b], 0, |was[b]|, level - 1);
    }
  }

  /** Following a path never leaves the tree. */
  lemma {:induction false} StaysInside(blocks: seq<Block>, b: int, path: seq<nat>, d: nat, level: nat)
    requires d <= |path| && d <= level && At(blocks, b, path, d) != 0
    ensures Node(At(blocks, b, path, d), level - d) in PreOrder(blocks, b, level)
    decreases d
  {
    if d > 0 {
      StaysInside(blocks, blocks[b][path[0]], path[1..], d - 1, level - 1);
      KidsAround(blocks, blocks[b], path[0], level - 1);
    }
  }

  /** One more step is one more look-up. */
  lemma {:induction false} AtStep(blocks: seq<Block>, b: int, path: seq<nat>, d: nat, width: nat)
    requires d < |path| && Wide(blocks, width) && Within(path, width)
    ensures At(blocks, b, path, d + 1)
         == var p := At(blocks, b, path, d); if 0 < p < |blocks| then blocks[p][path[d]] else 0
    decreases d
  {
    if d > 0 && 0 < b < |blocks| {
      AtStep(blocks, blocks[b][path[0]], path[1..], d - 1, width);
    }
  }

  lemma {:induction false} PathFrame(was: seq<Block>, now: seq<Block>, b: int, path: seq<nat>, level: nat)
    requires |path| <= level && SameIndirect(was, now, PreOrder(was, b, level))
    ensures Follow(now, b, path) == Follow(was, b, path)
    ensures |path| == level ==> Closed(now, b, path) == Closed(was, b, path)
    ensures Open(now, b, path) == Open(was, b, path)
    decreases |path|
  {
    if b != 0 && path != [] && 0 < b < |was| {
      assert PreOrder(was, b, level)[0] == Node(b, level);
      if path[0] < |was[b]| {
        KidsAround(was, was[b], path[0], level - 1);
        PathFrame(was, now, was[b][path[0]], path[1..], level - 1);
      }
    }
  }

  ghost predicate Apart(a: seq<Node>, b: seq<Node>) {
    forall nd :: nd in a ==> !Holds(b, nd.bno)
  }

  lemma {:induction false} DistinctConcat(a: seq<Node>, b: seq<Node>)
    requires DistinctNodes(a + b)
    ensures DistinctNodes(a) && DistinctNodes(b) && Apart(a, b) && Apart(b, a)
  {
    forall i, j | 0 <= i < j < |a| ensures a[i].bno != a[j].bno {
      assert (a + b)[i] == a[i] && (a + b)[j] == a[j];
    }
    forall i, j | 0 <= i < j < |b| ensures b[i].bno != b[j].bno {
      assert (a + b)[|a| + i] == b[i] && (a + b)[|a| + j] == b[j];
    }
    forall i, j | 0 <= i < |a| && 0 <= j < |b| ensures a[i].bno != b[j].bno {
      assert (a + b)[i] == a[i] && (a + b)[|a| + j] == b[j];
    }
  }

  /** In a tree without repetitions the root, the tree at entry `i` and the trees beside it share no block. */
  lemma {:induction false} DistinctAround(blocks: seq<Block>, b: int, i: nat, level: nat)
    requires level > 0 && 0 < b < |blocks| && i < |blocks[b]| && DistinctNodes(PreOrder(blocks, b, level))
    ensures var row := blocks[b]; var kid := PreOrder(blocks, row[i], level - 1);
      var left, right := Kids(blocks, row, 0, i, level - 1), Kids(blocks, row, i + 1, |row|, level - 1);
      && PreOrder(blocks, b, level) == [Node(b, level)] + left + kid + right
      && DistinctNodes(kid) && Apart(kid, left) && Apart(kid, right)
      && !Holds(kid, b) && !Holds(left, b)
  {
    var row, root := blocks[b], [Node(b, level)];
    var left, kid, right := Kids(blocks, row, 0, i, level - 1), PreOrder(blocks, row[i], level - 1), Kids(blocks, row, i + 1, |row|, level - 1);
    KidsAround(blocks, row, i, level - 1);
    assert PreOrder(blocks, b, level) == root + left + kid + right;
    DistinctConcat(root + left + kid, right);
    DistinctConcat(root + left, kid);
    DistinctConcat(root, left);
    assert root[0] in root + left;
    forall nd | nd in kid ensures !Holds(left, nd.bno) && !Holds(right, nd.bno) {
      assert nd in root + left + kid;
      assert forall l :: l in left ==> l in root + left;
    }
  }

  lemma FollowEnters(blocks: seq<Block>, b: int, p: seq<nat>)
    requires Follow(blocks, b, p) != 0 && p != []
    ensures 0 < b < |blocks| && p[0] < |blocks[b]|
  {
  }

  lemma FollowInside(blocks: seq<Block>, b: int, p: seq<nat>)
    requires Follow(blocks, b, p) != 0
    ensures Node(Follow(blocks, b, p), 0) in PreOrder(blocks, b, |p|)
  {
    StaysInside(blocks, b, p, |p|, |p|);
  }

  /** Distinct paths to data blocks end in distinct blocks. */
  lemma {:induction false} FollowInjective(blocks: seq<Block>, b: int, p: seq<nat>, q: seq<nat>)
    requires |p| == |q| && p != q && DistinctNodes(PreOrder(blocks, b, |p|))
    requires Follow(blocks, b, p) != 0 && Follow(blocks, b, q) != 0
    ensures Follow(blocks, b, p) != Follow(blocks, b, q)
    decreases |p|
  {
    hide DistinctNodes, Follow, At, PreOrder, Kids;
    FollowEnters(blocks, b, p);
    FollowEnters(blocks, b, q);
    var row, lv := blocks[b], |p| - 1;
    DistinctAround(blocks, b, p[0], |p|);
    FollowBelow(blocks, b, p);
    FollowBelow(blocks, b, q);
    if p[0] == q[0] {
      assert p == [p[0]] + p[1..] && q == [q[0]] + q[1..];
      FollowInjective(blocks, row[p[0]], p[1..], q[1..]);
    } else {
      FollowInside(blocks, row[p[0]], p[1..]);
      FollowInside(blocks, row[q[0]], q[1..]);
      var lo, hi := if q[0] < p[0] then 0 else p[0] + 1, if q[0] < p[0] then p[0] else |row|;
      KidsSplit(blocks, row, lo, q[0], hi, lv);
      KidOf(blocks, row, q[0], hi, lv);
      var y := Node(Follow(blocks, row[q[0]], q[1..]), 0);
      assert y in PreOrder(blocks, row[q[0]], lv);
      assert y in Kids(blocks, row, lo, hi, lv);
    }
  }

  /** The volume after block `x`, zeroed, is entered at index `i` of indirect block `parent`. */
  ghost function Linked(blocks: seq<Block>, parent: int, i: nat, x: int, zero: Block): seq<Block>
    requires 0 < parent < |blocks| && 0 < x < |blocks| && i < |blocks[parent]|
  {
    blocks[x := zero][parent := blocks[parent][i := x]]
  }

  /** One step of the walk to `q` meets a missing block below depth `d` and hangs a fresh one there. */
  ghost predicate CanGrow(blocks: seq<Block>, b: int, q: seq<nat>, d: nat, x: int, width: nat) {
    && Wide(blocks, width) && Within(q, width)
    && Open(blocks, b, q)
    && DistinctNodes(PreOrder(blocks, b, |q|)) && !Holds(PreOrder(blocks, b, |q|), x) && 0 < x < |blocks|
    && d < |q| && 0 < At(blocks, b, q, d) < |blocks| && At(blocks, b, q, d + 1) == 0
  }

  ghost function Grown(blocks: seq<Block>, b: int, q: seq<nat>, d: nat, x: int, width: nat): seq<Block>
    requires CanGrow(blocks, b, q, d, x, width)
  {
    Linked(blocks, At(blocks, b, q, d), q[d], x, Zeroes(width))
  }

  /** The block that gains an entry is the root, or lies in the tree at the first entry of the path. */
  lemma {:induction false} ParentInside(blocks: seq<Block>, b: int, q: seq<nat>, d: nat, x: int, width: nat)
    requires CanGrow(blocks, b, q, d, x, width)
    ensures 0 < b < |blocks| && b != x
    ensures d == 0 ==> blocks[b][q[0]] == 0
    ensures d > 0 ==> Holds(PreOrder(blocks, blocks[b][q[0]], |q| - 1), At(blocks, b, q, d))
  {
    assert Node(b, |q|) in PreOrder(blocks, b, |q|);
    if d > 0 {
      StaysInside(blocks, blocks[b][q[0]], q[1..], d - 1, |q| - 1);
    }
  }

  /** The trees left of the path do not notice the step. */
  lemma {:induction false} LeftUntouched(blocks: seq<Block>, b: int, q: seq<nat>, d: nat, x: int, width: nat)
    requires CanGrow(blocks, b, q, d, x, width)
    ensures 0 < b < |blocks|
    ensures SameIndirect(blocks, Grown(blocks, b, q, d, x, width), Kids(blocks, blocks[b], 0, q[0], |q| - 1))
  {
    hide DistinctNodes;
    ParentInside(blocks, b, q, d, x, width);
    DistinctAround(blocks, b, q[0], |q|);
    var left := Kids(blocks, blocks[b], 0, q[0], |q| - 1);
    var parent := At(blocks, b, q, d);
    assert forall nd :: nd in left ==> nd in PreOrder(blocks, b, |q|);
    assert !Holds(left, x) && !Holds(left, parent);
  }

  // The walk and the open path, from the child on.
  lemma WalkBelow(blocks: seq<Block>, b: int, q: seq<nat>, d: nat)
    requires Open(blocks, b, q) && b != 0 && 0 < d < |q|
    ensures 0 < b < |blocks| && q[0] < |blocks[b]| && Open(blocks, blocks[b][q[0]], q[1..]) && q[1..][d - 1] == q[d]
    ensures At(blocks, b, q, d) == At(blocks, blocks[b][q[0]], q[1..], d - 1)
    ensures At(blocks, b, q, d + 1) == At(blocks, blocks[b][q[0]], q[1..], d)
  {
  }

  lemma HoldsPart(before: seq<Node>, part: seq<Node>, after: seq<Node>, x: int)
    ensures Holds(part, x) ==> Holds(before + part + after, x)
  {
    assert forall nd :: nd in part ==> nd in before + part + after;
  }

  /** The step seen from the child on the path. */
  lemma {:induction false} GrowBelow(blocks: seq<Block>, b: int, q: seq<nat>, d: nat, x: int, width: nat)
    requires CanGrow(blocks, b, q, d, x, width) && d > 0
    ensures 0 < b < |blocks|
    ensures var c := blocks[b][q[0]];
      CanGrow(blocks, c, q[1..], d - 1, x, width)
      && Grown(blocks, c, q[1..], d - 1, x, width) == Grown(blocks, b, q, d, x, width)
      && Grown(blocks, b, q, d, x, width)[b] == blocks[b]
  {
    hide SameIndirect, Wide, PreOrder, Kids, Holds, DistinctNodes, Open, At, Apart;
    ParentInside(blocks, b, q, d, x, width);
    WalkBelow(blocks, b, q, d);
    var row, lv := blocks[b], |q| - 1;
    DistinctAround(blocks, b, q[0], |q|);
    HoldsPart([Node(b, |q|)] + Kids(blocks, row, 0, q[0], lv), PreOrder(blocks, row[q[0]], lv),
              Kids(blocks, row, q[0] + 1, |row|, lv), x);
  }

  /** The new block comes last in the order of the tree. */
  lemma {:induction false} GrowAppends(blocks: seq<Block>, b: int, q: seq<nat>, d: nat, x: int, width: nat)
    requires CanGrow(blocks, b, q, d, x, width)
    ensures PreOrder(Grown(blocks, b, q, d, x, width), b, |q|) == PreOrder(blocks, b, |q|) + [Node(x, |q| - d - 1)]
    decreases |q|
  {
    hide DistinctNodes, Holds, SameIndirect, PreOrder, Kids, At, Within, Wide;
    var now, row, i, lv := Grown(blocks, b, q, d, x, width), blocks[b], q[0], |q| - 1;
    if d == 0 {
      GrowHere(blocks, b, q, x, width);
    } else {
      GrowBelow(blocks, b, q, d, x, width);
      LastEntry(blocks, row, i, lv);
      LastEntry(now, row, i, lv);
      TreeOfRoot(blocks, b, |q|);
      TreeOfRoot(now, b, |q|);
      GrowAppends(blocks, row[i], q[1..], d - 1, x, width);
      LeftUntouched(blocks, b, q, d, x, width);
      KidsFrame(blocks, now, row, row, 0, i, lv);
    }
  }

  lemma {:induction false} GrowHere(blocks: seq<Block>, b: int, q: seq<nat>, x: int, width: nat)
    requires CanGrow(blocks, b, q, 0, x, width)
    ensures PreOrder(Grown(blocks, b, q, 0, x, width), b, |q|) == PreOrder(blocks, b, |q|) + [Node(x, |q| - 1)]
  {
    hide DistinctNodes, Holds, SameIndirect, Within, PreOrder, Kids, Wide;
    var now, row, i, lv := Grown(blocks, b, q, 0, x, width), blocks[b], q[0], |q| - 1;
    ParentInside(blocks, b, q, 0, x, width);
    LeftUntouched(blocks, b, q, 0, x, width);
    assert now[b] == row[i := x] && now[x] == Zeroes(width);
    LastEntry(blocks, row, i, lv);
    LastEntry(now, now[b], i, lv);
    KidsFrame(blocks, now, row, now[b], 0, i, lv);
    FreshLeaf(now, x, lv);
    NothingAt(blocks, row[i], lv);
    TreeOfRoot(blocks, b, |q|);
    TreeOfRoot(now, b, |q|);
  }

  // With nothing right of an entry, its tree comes last.
  lemma LastEntry(blocks: seq<Block>, row: Block, i: nat, level: nat)
    requires i < |row| && forall k :: i < k < |row| ==> row[k] == 0
    ensures Kids(blocks, row, 0, |row|, level) == Kids(blocks, row, 0, i, level) + PreOrder(blocks, row[i], level)
  {
    KidsAround(blocks, row, i, level);
    KidsOfZeroes(blocks, row, i + 1, |row|, level);
  }

  lemma FreshLeaf(blocks: seq<Block>, x: int, level: nat)
    requires 0 < x < |blocks| && forall k :: 0 <= k < |blocks[x]| ==> blocks[x][k] == 0
    ensures PreOrder(blocks, x, level) == [Node(x, level)]
  {
    if level > 0 {
      KidsOfZeroes(blocks, blocks[x], 0, |blocks[x]|, level - 1);
    }
  }

  lemma NothingAt(blocks: seq<Block>, b: int, level: nat)
    requires b == 0
    ensures PreOrder(blocks, b, level) == []
  {
  }

  lemma TreeOfRoot(blocks: seq<Block>, b: int, level: nat)
    requires level > 0 && 0 < b < |blocks|
    ensures PreOrder(blocks, b, level) == [Node(b, level)] + Kids(blocks, blocks[b], 0, |blocks[b]|, level - 1)
  {
  }

  /** Every other path still leads where it led; the path grown leads to the new block. */
  lemma {:induction false} GrowFollows(blocks: seq<Block>, b: int, q: seq<nat>, d: nat, x: int, width: nat, p: seq<nat>)
    requires CanGrow(blocks, b, q, d, x, width) && |p| == |q| && Within(p, width)
    ensures Follow(Grown(blocks, b, q, d, x, width), b, p) == if d + 1 == |q| && p == q then x else Follow(blocks, b, p)
    decreases |q|
  {
    var now, row := Grown(blocks, b, q, d, x, width), blocks[b];
    ParentInside(blocks, b, q, d, x, width);
    if p[0] != q[0] {
      BesideFrame(blocks, b, q, d, x, width, p);
    } else if d == 0 {
      if |q| == 1 {
        assert p == q;
      } else {
        assert now[x] == Zeroes(width) && p[1..][0] < width;
        assert Follow(now, b, p) == Follow(now, x, p[1..]) == At(now, 0, p[1..][1..], |p| - 2);
        assert Follow(blocks, b, p) == Follow(blocks, 0, p[1..]);
      }
    } else {
      GrowBelow(blocks, b, q, d, x, width);
      GrowFollows(blocks, row[q[0]], q[1..], d - 1, x, width, p[1..]);
      assert p == [p[0]] + p[1..] && q == [q[0]] + q[1..];
    }
  }

  lemma {:induction false} BesideFrame(blocks: seq<Block>, b: int, q: seq<nat>, d: nat, x: int, width: nat, p: seq<nat>)
    requires CanGrow(blocks, b, q, d, x, width) && |p| == |q| && Within(p, width) && p[0] != q[0]
    ensures Follow(Grown(blocks, b, q, d, x, width), b, p) == Follow(blocks, b, p)
  {
    hide PreOrder, Kids, DistinctNodes, Holds, Follow, At;
    var now, row := Grown(blocks, b, q, d, x, width), blocks[b];
    ParentInside(blocks, b, q, d, x, width);
    if d > 0 {
      GrowBelow(blocks, b, q, d, x, width);
    } else {
      RootGrown(blocks, b, q, x, width);
    }
    assert now[b][p[0]] == row[p[0]];
    FollowBelow(now, b, p);
    FollowBelow(blocks, b, p);
    if p[0] < q[0] {
      LeftUntouched(blocks, b, q, d, x, width);
      KidsSplit(blocks, row, 0, p[0], q[0], |q| - 1);
      KidOf(blocks, row, p[0], q[0], |q| - 1);
      PathFrame(blocks, now, row[p[0]], p[1..], |q| - 1);
    } else {
      assert row[p[0]] == 0;
      FollowHole(now, blocks, p[1..]);
    }
  }

  lemma RootGrown(blocks: seq<Block>, b: int, q: seq<nat>, x: int, width: nat)
    requires CanGrow(blocks, b, q, 0, x, width)
    ensures 0 < b < |blocks| && b != x && q[0] < |blocks[b]|
    ensures Grown(blocks, b, q, 0, x, width)[b] == blocks[b][q[0] := x]
  {
    hide PreOrder, DistinctNodes, Holds;
    ParentInside(blocks, b, q, 0, x, width);
  }

  lemma FollowBelow(blocks: seq<Block>, b: int, p: seq<nat>)
    requires p != [] && 0 < b < |blocks| && p[0] < |blocks[b]|
    ensures Follow(blocks, b, p) == Follow(blocks, blocks[b][p[0]], p[1..])
  {
  }

  lemma FollowHole(was: seq<Block>, now: seq<Block>, p: seq<nat>)
    ensures Follow(was, 0, p) == Follow(now, 0, p) == 0
  {
  }

  lemma KidOf(blocks: seq<Block>, row: Block, i: nat, hi: nat, level: nat)
    requires i < hi <= |row|
    ensures Kids(blocks, row, i, hi, level) == PreOrder(blocks, row[i], level) + Kids(blocks, row, i + 1, hi, level)
  {
  }

  /** The walk itself: the new block is reached, and the tree is still empty to the right. */
  lemma {:induction false} GrowKeepsOpen(blocks: seq<Block>, b: int, q: seq<nat>, d: nat, x: int, width: nat)
    requires CanGrow(blocks, b, q, d, x, width)
    ensures var now := Grown(blocks, b, q, d, x, width);
      && At(now, b, q, d + 1) == x
      && Closed(now, b, q) && (d + 1 < |q| ==> Open(now, b, q))
    decreases |q|
  {
    var now, row := Grown(blocks, b, q, d, x, width), blocks[b];
    ParentInside(blocks, b, q, d, x, width);
    if d > 0 {
      GrowBelow(blocks, b, q, d, x, width);
      GrowKeepsOpen(blocks, row[q[0]], q[1..], d - 1, x, width);
    }
  }

  // An indirect block 2 that holds 5, a hole and 7, and block 3 that holds 2.
  lemma SmallTree()
    ensures var empty: Block := [0, 0, 0];
      var blocks := [empty, empty, [5, 0, 7], [2, 0, 0], empty, empty, empty, empty];
      && PreOrder(blocks, 2, 1) == [Node(2, 1), Node(5, 0), Node(7, 0)]
      && PreOrder(blocks, 3, 2) == [Node(3, 2), Node(2, 1), Node(5, 0), Node(7, 0)]
      && Follow(blocks, 3, [0, 2]) == 7 && Follow(blocks, 3, [0, 1]) == 0 && Follow(blocks, 3, [1, 1]) == 0
  {
    var empty: Block := [0, 0, 0];
    var blocks := [empty, empty, [5, 0, 7], [2, 0, 0], empty, empty, empty, empty];
    var two := blocks[2];
    assert Kids(blocks, two, 3, 3, 0) == [];
    assert Kids(blocks, two, 2, 3, 0) == [Node(7, 0)];
    assert Kids(blocks, two, 1, 3, 0) == [Node(7, 0)];
    assert Kids(blocks, two, 0, 3, 0) == [Node(5, 0), Node(7, 0)];
    var three := blocks[3];
    assert Kids(blocks, three, 3, 3, 1) == [];
    assert Kids(blocks, three, 2, 3, 1) == [];
    assert Kids(blocks, three, 1, 3, 1) == [];
    assert Kids(blocks, three, 0, 3, 1) == PreOrder(blocks, 2, 1);
    assert [0, 2][1..] == [2] && [2][1..] == [] && [0, 1][1..] == [1] && [1][1..] == [] && [1, 1][1..] == [1];
    assert At(blocks, 2, [2], 1) == At(blocks, 7, [], 0) == 7;
    assert At(blocks, 2, [1], 1) == At(blocks, 0, [], 0) == 0;
  }
}
