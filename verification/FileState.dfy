/** The state of a volume with one file on it: free blocks and file blocks together make up a fixed pool. */
module FileState {
  import opened Options
  import opened BlockCache
  import opened IndirectTree
  import opened Inode

  /** Volume contents, inode addresses, and the free blocks in the order they were freed. */
  datatype State = State(blocks: seq<Block>, ia: seq<int>, free: seq<int>)

  /** Block numbers of the nodes, last first: the order in which truncation frees them. */
  ghost function Released(nodes: seq<Node>): (r: seq<int>)
    ensures |r| == |nodes|
  {
    seq(|nodes|, i requires 0 <= i < |nodes| => nodes[|nodes| - 1 - i].bno)
  }

  lemma ReleasedConcat(a: seq<Node>, b: seq<Node>)
    ensures Released(a + b) == Released(b) + Released(a)
  {
  }

  ghost predicate Usable(pool: seq<int>, volume: nat) {
    && (forall i :: 0 <= i < |pool| ==> 0 < pool[i] < volume)
    && (forall i, j :: 0 <= i < j < |pool| ==> pool[i] != pool[j])
  }

  ghost predicate Sound(s: State, k: nat) {
    && k > 0 && |s.ia| == NADDR && Wide(s.blocks, k)
    && Usable(s.free + Released(Nodes(s.blocks, s.ia)), |s.blocks|)
  }

  ghost predicate IsIndirect(nodes: seq<Node>, b: int) {
    exists nd :: nd in nodes && nd.bno == b && nd.level > 0
  }

  /** Blocks that are neither newly taken nor indirect blocks of the file keep their contents. */
  ghost predicate Spares(was: seq<Block>, now: seq<Block>, nodes: seq<Node>, taken: seq<Node>) {
    && |now| == |was|
    && forall b :: 0 <= b < |was| && !Holds(taken, b) && !IsIndirect(nodes, b) ==> now[b] == was[b]
  }

  ghost predicate MapsAlikeBut(s: State, t: State, n: nat, k: nat)
    requires k > 0 && |s.ia| == |t.ia| == NADDR
  {
    forall m: nat :: m != n ==> BlockOf(t.blocks, t.ia, m, k) == BlockOf(s.blocks, s.ia, m, k)
  }

  ghost predicate Moves(s: State, t: State, taken: seq<Node>) {
    Nodes(t.blocks, t.ia) == Nodes(s.blocks, s.ia) + taken && s.free == t.free + Released(taken)
  }

  /** From `s` to `t` the blocks `taken` moved from the free list to the end of the file,
      on behalf of file block `n`; everything else is as it was. */
  ghost predicate Extends(s: State, t: State, taken: seq<Node>, n: nat, k: nat) {
    && k > 0 && |s.ia| == |t.ia| == NADDR
    && Moves(s, t, taken)
    && MapsAlikeBut(s, t, n, k)
    && Spares(s.blocks, t.blocks, Nodes(s.blocks, s.ia), taken)
  }

  /** What it means for a node list and a free list to share a pool without repetition. */
  lemma {:induction false} PoolParts(free: seq<int>, nodes: seq<Node>, volume: nat)
    requires Usable(free + Released(nodes), volume)
    ensures Usable(free, volume)
    ensures DistinctNodes(nodes)
    ensures forall nd :: nd in nodes ==> 0 < nd.bno < volume && nd.bno !in free
  {
    var pool, f, n := free + Released(nodes), |free|, |nodes|;
    assert forall i :: 0 <= i < f ==> pool[i] == free[i];
    forall i | 0 <= i < n ensures pool[f + n - 1 - i] == nodes[i].bno {
      assert Released(nodes)[n - 1 - i] == nodes[i].bno;
    }
    forall i, j | 0 <= i < j < n ensures nodes[i].bno != nodes[j].bno {
      assert pool[f + n - 1 - j] != pool[f + n - 1 - i];
    }
    forall i | 0 <= i < n ensures 0 < nodes[i].bno < volume && nodes[i].bno !in free {
      assert 0 < pool[f + n - 1 - i] < volume;
      assert forall j :: 0 <= j < f ==> pool[j] != pool[f + n - 1 - i];
    }
  }

  lemma {:induction false} PoolShift(free: seq<int>, nodes: seq<Node>, level: nat)
    requires free != []
    ensures var x, rest := free[|free| - 1], free[..|free| - 1];
      && free == rest + Released([Node(x, level)])
      && rest + Released(nodes + [Node(x, level)]) == free + Released(nodes)
  {
    var x := free[|free| - 1];
    ReleasedConcat(nodes, [Node(x, level)]);
    assert Released([Node(x, level)]) == [x];
  }

  lemma {:induction false} SparesTransitive(b0: seq<Block>, b1: seq<Block>, b2: seq<Block>, nodes: seq<Node>, x: seq<Node>, y: seq<Node>)
    requires Spares(b0, b1, nodes, x) && Spares(b1, b2, nodes + x, y)
    ensures Spares(b0, b2, nodes, x + y)
  {
    forall c | 0 <= c < |b0| && !Holds(x + y, c) && !IsIndirect(nodes, c) ensures b2[c] == b0[c] {
      assert forall nd :: nd in x || nd in y ==> nd in x + y;
      assert !Holds(x, c) && !Holds(y, c);
    }
  }

  lemma {:induction false} MovesTransitive(s: State, t: State, u: State, a: seq<Node>, b: seq<Node>)
    requires Moves(s, t, a) && Moves(t, u, b)
    ensures Moves(s, u, a + b)
  {
    ReleasedConcat(a, b);
    assert s.free == u.free + Released(a + b);
    assert Nodes(u.blocks, u.ia) == Nodes(s.blocks, s.ia) + (a + b);
  }

  lemma {:induction false} ExtendsTransitive(s: State, t: State, u: State, a: seq<Node>, b: seq<Node>, n: nat, k: nat)
    requires Extends(s, t, a, n, k) && Extends(t, u, b, n, k)
    ensures Extends(s, u, a + b, n, k)
  {
    MovesTransitive(s, t, u, a, b);
    SparesTransitive(s.blocks, t.blocks, u.blocks, Nodes(s.blocks, s.ia), a, b);
  }

  lemma {:induction false} ExtendsReflexive(s: State, n: nat, k: nat)
    requires k > 0 && |s.ia| == NADDR
    ensures Extends(s, s, [], n, k)
  {
    assert s.free == s.free + Released([]);
  }

  lemma {:induction false} WideExtended(blocks: seq<Block>, ia: seq<int>, p: Pos, d: nat, x: int, k: nat)
    requires CanExtend(blocks, ia, p, d, x, k)
    ensures Wide(ExtendedVolume(blocks, ia, p, d, x, k), k) && |ExtendedVolume(blocks, ia, p, d, x, k)| == |blocks|
  {
  }

  lemma {:induction false} ExtendSpares(blocks: seq<Block>, ia: seq<int>, p: Pos, d: nat, x: int, k: nat)
    requires CanExtend(blocks, ia, p, d, x, k)
    ensures Spares(blocks, ExtendedVolume(blocks, ia, p, d, x, k), Nodes(blocks, ia), [Node(x, |p.path| - d)])
  {
    assert Node(x, |p.path| - d) in [Node(x, |p.path| - d)];
    if d > 0 {
      StaysInside(blocks, ia[p.slot], p.path, d - 1, |p.path|);
      NodesAround(blocks, ia, p.slot);
      assert IsIndirect(Nodes(blocks, ia), At(blocks, ia[p.slot], p.path, d - 1));
    }
  }

  ghost function AfterAllocation(s: State, p: Pos, d: nat, x: int, k: nat): State
    requires CanExtend(s.blocks, s.ia, p, d, x, k) && s.free != []
  {
    State(ExtendedVolume(s.blocks, s.ia, p, d, x, k), ExtendedInode(s.ia, p, d, x), s.free[..|s.free| - 1])
  }

  lemma {:induction false} AllocationMaps(s: State, p: Pos, d: nat, x: int, n: nat, k: nat)
    requires k > 0 && |s.ia| == NADDR && s.free != []
    requires CanExtend(s.blocks, s.ia, p, d, x, k) && Locate(n, k) == Some(p)
    ensures MapsAlikeBut(s, AfterAllocation(s, p, d, x, k), n, k)
  {
    var t := AfterAllocation(s, p, d, x, k);
    forall m: nat | m != n ensures BlockOf(t.blocks, t.ia, m, k) == BlockOf(s.blocks, s.ia, m, k) {
      if m < Capacity(k) {
        LocateInjective(m, n, k);
        ExtendMaps(s.blocks, s.ia, p, d, x, k, Locate(m, k).value);
      }
    }
  }

  lemma {:induction false} AllocationMoves(s: State, p: Pos, d: nat, x: int, k: nat)
    requires Sound(s, k) && s.free != [] && x == s.free[|s.free| - 1]
    requires CanExtend(s.blocks, s.ia, p, d, x, k)
    ensures Moves(s, AfterAllocation(s, p, d, x, k), [Node(x, |p.path| - d)])
    ensures Sound(AfterAllocation(s, p, d, x, k), k)
  {
    hide CanGrow, Nodes, Grown, Released, DistinctNodes, Holds;
    ExtendAppends(s.blocks, s.ia, p, d, x, k);
    PoolShift(s.free, Nodes(s.blocks, s.ia), |p.path| - d);
    WideExtended(s.blocks, s.ia, p, d, x, k);
  }

  /** Hanging the top free block into the file keeps the pool and disturbs nothing else. */
  lemma {:induction false} AllocationExtends(s: State, p: Pos, d: nat, x: int, n: nat, k: nat)
    requires Sound(s, k) && s.free != [] && x == s.free[|s.free| - 1]
    requires CanExtend(s.blocks, s.ia, p, d, x, k) && Locate(n, k) == Some(p)
    ensures Sound(AfterAllocation(s, p, d, x, k), k)
    ensures Extends(s, AfterAllocation(s, p, d, x, k), [Node(x, |p.path| - d)], n, k)
  {
    AllocationMoves(s, p, d, x, k);
    AllocationMaps(s, p, d, x, n, k);
    ExtendSpares(s.blocks, s.ia, p, d, x, k);
  }

  lemma {:induction false} UsablePrefix(a: seq<int>, b: seq<int>, volume: nat)
    requires Usable(a + b, volume)
    ensures Usable(a, volume)
  {
    assert forall i :: 0 <= i < |a| ==> (a + b)[i] == a[i];
  }

  lemma {:induction false} AtNode(blocks: seq<Block>, ia: seq<int>, p: Pos, d: nat)
    requires p.slot < |ia| && |p.path| == Height(p.slot) && d <= |p.path|
    requires At(blocks, ia[p.slot], p.path, d) != 0
    ensures Node(At(blocks, ia[p.slot], p.path, d), |p.path| - d) in Nodes(blocks, ia)
  {
    StaysInside(blocks, ia[p.slot], p.path, d, |p.path|);
    NodesAround(blocks, ia, p.slot);
  }

  lemma {:induction false} SoundParts(s: State, k: nat)
    requires Sound(s, k)
    ensures Usable(s.free, |s.blocks|) && DistinctNodes(Nodes(s.blocks, s.ia))
    ensures forall nd :: nd in Nodes(s.blocks, s.ia) ==> 0 < nd.bno < |s.blocks|
    ensures forall b :: b in s.free ==> 0 < b < |s.blocks| && !Holds(Nodes(s.blocks, s.ia), b)
  {
    PoolParts(s.free, Nodes(s.blocks, s.ia), |s.blocks|);
  }

  /** One missing block on the way to a file block can be filled from the top of the free list. */
  lemma {:induction false} Allocatable(s: State, p: Pos, d: nat, x: int, k: nat)
    requires Sound(s, k) && s.free != [] && x == s.free[|s.free| - 1]
    requires p.slot < NADDR && |p.path| == Height(p.slot) && Within(p.path, k) && d <= |p.path|
    requires OpenFrom(s.blocks, s.ia, p) && At(s.blocks, s.ia[p.slot], p.path, d) == 0
    requires d > 0 ==> At(s.blocks, s.ia[p.slot], p.path, d - 1) != 0
    ensures CanExtend(s.blocks, s.ia, p, d, x, k)
  {
    SoundParts(s, k);
    ParentOnVolume(s.blocks, s.ia, p, d);
    MayExtend(s.blocks, s.ia, p, d, x, k);
  }

  lemma {:induction false} ParentOnVolume(blocks: seq<Block>, ia: seq<int>, p: Pos, d: nat)
    requires p.slot < |ia| && |p.path| == Height(p.slot) && d <= |p.path|
    requires forall nd :: nd in Nodes(blocks, ia) ==> 0 < nd.bno < |blocks|
    requires d > 0 ==> At(blocks, ia[p.slot], p.path, d - 1) != 0
    ensures d > 0 ==> 0 < At(blocks, ia[p.slot], p.path, d - 1) < |blocks|
  {
    if d > 0 {
      AtNode(blocks, ia, p, d - 1);
    }
  }

  /** The walk to `p` has come to block `v` at depth `d`, and nothing lies beyond the walk. */
  ghost predicate Reached(s: State, p: Pos, d: nat, v: int) {
    && p.slot < |s.ia| && d <= |p.path| && v != 0 && At(s.blocks, s.ia[p.slot], p.path, d) == v
    && ClosedAfter(s.blocks, s.ia, p)
    && (d < |p.path| ==> OpenFrom(s.blocks, s.ia, p))
  }

  /** From `s` to `t` the walk to file block `n` came to block `v` at depth `d`, taking the blocks `taken`;
      if that is the data block, it was taken last. */
  ghost predicate Walked(s: State, t: State, taken: seq<Node>, d: nat, v: int, n: nat, k: nat) {
    && Sound(t, k) && n < Capacity(k)
    && Reached(t, Locate(n, k).value, d, v)
    && Extends(s, t, taken, n, k)
    && (d == |Locate(n, k).value.path| ==> taken != [] && taken[|taken| - 1] == Node(v, 0))
  }

  lemma {:induction false} WalkedFurther(s: State, t: State, u: State, a: seq<Node>, b: seq<Node>, d: nat, v: int, e: nat, w: int, n: nat, k: nat)
    requires Walked(s, t, a, d, v, n, k) && Walked(t, u, b, e, w, n, k)
    ensures Walked(s, u, a + b, e, w, n, k)
  {
    ExtendsTransitive(s, t, u, a, b, n, k);
  }

  /** Where nothing is mapped yet the walk is open and its end missing. */
  lemma {:induction false} EmptyOpens(s: State, n: nat, k: nat)
    requires k > 0 && |s.ia| == NADDR && n < Capacity(k) && EmptyFrom(s.blocks, s.ia, n, k)
    ensures var p := Locate(n, k).value;
      OpenFrom(s.blocks, s.ia, p) && At(s.blocks, s.ia[p.slot], p.path, |p.path|) == 0
  {
    var p := Locate(n, k).value;
    OpenIsHole(s.blocks, s.ia[p.slot], p.path);
  }

  lemma {:induction false} AllocationReaches(s: State, p: Pos, d: nat, x: int, k: nat)
    requires CanExtend(s.blocks, s.ia, p, d, x, k) && s.free != []
    ensures Reached(AfterAllocation(s, p, d, x, k), p, d, x)
  {
    ExtendKeepsOpen(s.blocks, s.ia, p, d, x, k);
  }

  lemma {:induction false} EmptyDirect(s: State, n: nat, k: nat)
    requires k > 0 && |s.ia| == NADDR && n < DIRECT && EmptyFrom(s.blocks, s.ia, n, k)
    ensures n < Capacity(k) && Locate(n, k) == Some(Pos(n, [])) && s.ia[n] == 0
  {
    EmptyOpens(s, n, k);
  }

  /** Filling a missing block takes the walk there. */
  lemma {:induction false} AllocationWalks(s: State, d: nat, x: int, n: nat, k: nat)
    requires k > 0 && Sound(s, k) && s.free != [] && x == s.free[|s.free| - 1] && n < Capacity(k)
    requires var p := Locate(n, k).value;
      && d <= |p.path| && OpenFrom(s.blocks, s.ia, p) && At(s.blocks, s.ia[p.slot], p.path, d) == 0
      && (d > 0 ==> At(s.blocks, s.ia[p.slot], p.path, d - 1) != 0)
    ensures var p := Locate(n, k).value;
      && CanExtend(s.blocks, s.ia, p, d, x, k)
      && Walked(s, AfterAllocation(s, p, d, x, k), [Node(x, |p.path| - d)], d, x, n, k)
  {
    hide Capacity, Locate, AfterAllocation, Extends, Sound, OpenFrom, CanExtend, At, Reached;
    var p := Locate(n, k).value;
    Allocatable(s, p, d, x, k);
    AllocationExtends(s, p, d, x, n, k);
    AllocationReaches(s, p, d, x, k);
  }

  /** An indirect block found in place. */
  lemma {:induction false} PresentWalks(s: State, d: nat, n: nat, k: nat)
    requires Sound(s, k) && n < Capacity(k)
    requires var p := Locate(n, k).value;
      d <= |p.path| && OpenFrom(s.blocks, s.ia, p) && At(s.blocks, s.ia[p.slot], p.path, d) != 0
    ensures var p := Locate(n, k).value;
      Walked(s, s, [], d, At(s.blocks, s.ia[p.slot], p.path, d), n, k)
  {
    var p := Locate(n, k).value;
    ExtendsReflexive(s, n, k);
    OpenThenClosed(s.blocks, s.ia[p.slot], p.path);
    OpenIsHole(s.blocks, s.ia[p.slot], p.path);
  }

  /** An entry found in place. */
  lemma {:induction false} FoundWalks(s: State, nb: int, i: nat, d: nat, n: nat, k: nat)
    requires Sound(s, k) && n < Capacity(k)
    requires d < |Locate(n, k).value.path| && i == Locate(n, k).value.path[d]
    requires Reached(s, Locate(n, k).value, d, nb)
    requires 0 < nb < |s.blocks| && i < |s.blocks[nb]| && s.blocks[nb][i] != 0
    ensures Walked(s, s, [], d + 1, s.blocks[nb][i], n, k)
  {
    var p := Locate(n, k).value;
    AtStep(s.blocks, s.ia[p.slot], p.path, d, k);
    PresentWalks(s, d + 1, n, k);
  }

  /** Filling the inode address itself. */
  lemma {:induction false} AddressWalks(s: State, slot: nat, x: int, n: nat, k: nat)
    requires k > 0 && |s.ia| == NADDR && Sound(s, k) && s.free != [] && x == s.free[|s.free| - 1]
    requires n < Capacity(k) && EmptyFrom(s.blocks, s.ia, n, k)
    requires slot == Locate(n, k).value.slot && s.ia[slot] == 0
    ensures 0 < x < |s.blocks|
    ensures var t := State(s.blocks[x := Zeroes(k)], s.ia[slot := x], s.free[..|s.free| - 1]);
      Walked(s, t, [Node(x, |Locate(n, k).value.path|)], 0, x, n, k)
  {
    hide Walked, Sound, Capacity, Locate, OpenFrom, EmptyFrom, Nodes, CanGrow, DistinctNodes, Holds;
    var p := Locate(n, k).value;
    EmptyOpens(s, n, k);
    AllocationWalks(s, 0, x, n, k);
    assert State(s.blocks[x := Zeroes(k)], s.ia[slot := x], s.free[..|s.free| - 1]) == AfterAllocation(s, p, 0, x, k);
  }

  /** Filling an entry of indirect block `nb`. */
  lemma {:induction false} EntryWalks(s: State, nb: int, i: nat, d: nat, x: int, n: nat, k: nat)
    requires k > 0 && Wide(s.blocks, k) && Sound(s, k) && s.free != [] && x == s.free[|s.free| - 1] && n < Capacity(k)
    requires d < |Locate(n, k).value.path| && i == Locate(n, k).value.path[d]
    requires Reached(s, Locate(n, k).value, d, nb)
    requires 0 < nb < |s.blocks| && i < |s.blocks[nb]| && s.blocks[nb][i] == 0
    ensures 0 < x < |s.blocks|
    ensures var t := State(s.blocks[x := Zeroes(k)][nb := s.blocks[nb][i := x]], s.ia, s.free[..|s.free| - 1]);
      Walked(s, t, [Node(x, |Locate(n, k).value.path| - d - 1)], d + 1, x, n, k)
  {
    hide Walked, Sound, Capacity, Locate, OpenFrom, ClosedAfter, Nodes, CanGrow, DistinctNodes, Holds, At;
    var p := Locate(n, k).value;
    AtStep(s.blocks, s.ia[p.slot], p.path, d, k);
    AllocationWalks(s, d + 1, x, n, k);
    assert State(s.blocks[x := Zeroes(k)][nb := s.blocks[nb][i := x]], s.ia, s.free[..|s.free| - 1]) == AfterAllocation(s, p, d + 1, x, k);
  }

  /** What the walk knows of the block it has come to. */
  lemma {:induction false} ReachedBlock(s: State, d: nat, nb: int, n: nat, k: nat)
    requires Sound(s, k) && n < Capacity(k) && Reached(s, Locate(n, k).value, d, nb)
    ensures 0 < nb < |s.blocks| && nb !in s.free && |s.blocks[nb]| == k
    ensures var p := Locate(n, k).value;
      d < |p.path| ==> At(s.blocks, s.ia[p.slot], p.path, d + 1) == s.blocks[nb][p.path[d]]
  {
    var p := Locate(n, k).value;
    SoundParts(s, k);
    AtNode(s.blocks, s.ia, p, d);
    assert Holds(Nodes(s.blocks, s.ia), nb);
    if d < |p.path| {
      AtStep(s.blocks, s.ia[p.slot], p.path, d, k);
    }
  }

  /** At the end of the walk the file block is mapped. */
  lemma {:induction false} WalkEnds(s: State, t: State, taken: seq<Node>, v: int, n: nat, k: nat)
    requires k > 0 && n < Capacity(k) && Walked(s, t, taken, |Locate(n, k).value.path|, v, n, k)
    ensures Mapped(s, t, taken, v, n, k)
  {
    forall m: nat | m > n ensures EmptyFrom(t.blocks, t.ia, m, k) {
      EmptyFromLater(t.blocks, t.ia, n, m, k);
    }
  }

  /** From `s` to `t` file block `n` was mapped to block `v`, beyond all others. */
  ghost predicate Mapped(s: State, t: State, taken: seq<Node>, v: int, n: nat, k: nat) {
    && Sound(t, k) && Extends(s, t, taken, n, k)
    && taken != [] && taken[|taken| - 1] == Node(v, 0)
    && BlockOf(t.blocks, t.ia, n, k) == v
    && forall m: nat :: m > n ==> EmptyFrom(t.blocks, t.ia, m, k)
  }
}
