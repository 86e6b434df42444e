/** What it takes to give the blocks of a file back, last block first. */
module Truncate {
  import opened BlockCache
  import opened IndirectTree
  import opened Inode
  import opened FileState

  /** Only the blocks of `nodes` may differ. */
  ghost predicate Untouched(was: seq<Block>, now: seq<Block>, nodes: seq<Node>) {
    && |now| == |was|
    && forall b :: 0 <= b < |was| && !Holds(nodes, b) ==> now[b] == was[b]
  }

  lemma {:induction false} UntouchedTransitive(a: seq<Block>, b: seq<Block>, c: seq<Block>, x: seq<Node>, rest: seq<Node>)
    requires Untouched(a, b, rest) && Untouched(b, c, x)
    ensures Untouched(a, c, x + rest)
  {
    forall i | 0 <= i < |a| && !Holds(x + rest, i) ensures c[i] == a[i] {
      assert forall nd :: nd in x || nd in rest ==> nd in x + rest;
      assert !Holds(x, i) && !Holds(rest, i);
    }
  }

  lemma {:induction false} UntouchedSelf(a: seq<Block>, nodes: seq<Node>)
    ensures Untouched(a, a, nodes)
  {
  }

  lemma {:induction false} OneTouched(a: seq<Block>, b: seq<Block>, nd: Node)
    requires |b| == |a| && forall i :: 0 <= i < |a| && i != nd.bno ==> b[i] == a[i]
    ensures Untouched(a, b, [nd])
  {
    assert nd in [nd];
  }

  /** With everything after `x` freed already, `x` is intact and can be freed next. */
  lemma {:induction false} NextToFree(was: seq<Block>, now: seq<Block>, free: seq<int>, before: seq<Node>, x: seq<Node>, rest: seq<Node>)
    requires Usable(free + Released(before + (x + rest)), |was|)
    requires Untouched(was, now, rest)
    ensures SameIndirect(was, now, x)
    ensures Usable(free + Released(rest) + Released(x), |was|)
    ensures free + Released(rest) + Released(x) == free + Released(x + rest)
  {
    ReleasedConcat(before, x + rest);
    ReleasedConcat(x, rest);
    assert free + Released(before + (x + rest)) == (free + Released(rest) + Released(x)) + Released(before);
    UsablePrefix(free + Released(rest) + Released(x), Released(before), |was|);
    assert free + Released(rest) + Released(x) == free + Released(x + rest);
    PoolParts(free, x + rest, |was|);
    DistinctConcat(x, rest);
  }

  /** The tree at entry `i`, with what comes before and after it in the order of the whole tree. */
  lemma {:induction false} KidNext(blocks: seq<Block>, b: int, i: nat, level: nat)
    requires 0 < b < |blocks| && i < |blocks[b]|
    ensures var row := blocks[b]; var kid, rest := PreOrder(blocks, row[i], level), Kids(blocks, row, i + 1, |row|, level);
      && Kids(blocks, row, i, |row|, level) == kid + rest
      && PreOrder(blocks, b, level + 1) == ([Node(b, level + 1)] + Kids(blocks, row, 0, i, level)) + (kid + rest)
  {
    KidsSplit(blocks, blocks[b], 0, i, |blocks[b]|, level);
  }

  /** The tree at address `s`, with what comes before and after it in the order of the file. */
  lemma {:induction false} SlotNext(blocks: seq<Block>, ia: seq<int>, s: nat)
    requires s < |ia|
    ensures var here, rest := PreOrder(blocks, ia[s], Height(s)), Slots(blocks, ia, s + 1, |ia|);
      && Slots(blocks, ia, s, |ia|) == here + rest
      && Nodes(blocks, ia) == Slots(blocks, ia, 0, s) + (here + rest)
  {
    SlotsSplit(blocks, ia, 0, s, |ia|);
  }

  /** A tree's root can be freed after its kids. */
  lemma {:induction false} RootLast(blocks: seq<Block>, free: seq<int>, b: int, level: nat)
    requires b != 0 && Usable(free + Released(PreOrder(blocks, b, level + 1)), |blocks|)
    ensures 0 < b < |blocks|
    ensures var kids := Kids(blocks, blocks[b], 0, |blocks[b]|, level);
      && PreOrder(blocks, b, level + 1) == [Node(b, level + 1)] + kids
      && Released(PreOrder(blocks, b, level + 1)) == Released(kids) + [b]
      && b !in free + Released(kids)
  {
    var nodes := PreOrder(blocks, b, level + 1);
    PoolParts(free, nodes, |blocks|);
    assert Node(b, level + 1) in nodes;
    var kids := Kids(blocks, blocks[b], 0, |blocks[b]|, level);
    ReleasedConcat([Node(b, level + 1)], kids);
    assert Released([Node(b, level + 1)]) == [b];
    var pool := free + Released(nodes);
    assert pool == (free + Released(kids)) + [b];
    assert forall i :: 0 <= i < |pool| - 1 ==> (free + Released(kids))[i] == pool[i] != pool[|pool| - 1] == b;
  }

  lemma {:induction false} OneNode(free: seq<int>, nb: int, level: nat, volume: nat)
    requires Usable(free + Released([Node(nb, level)]), volume)
    ensures Released([Node(nb, level)]) == [nb]
    ensures 0 < nb < volume && nb !in free
  {
    PoolParts(free, [Node(nb, level)], volume);
    assert Node(nb, level) in [Node(nb, level)];
  }

  lemma HoleFreesNothing(blocks: seq<Block>, level: nat)
    ensures PreOrder(blocks, 0, level) == [] && Released([]) == []
  {
  }
}
