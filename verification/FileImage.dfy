/** A restored file as its reader sees it: the contents of each file block, holes included. */
module FileImage {
  import opened Options
  import opened BlockCache
  import opened IndirectTree
  import opened Inode
  import opened FileState
  import opened Truncate

  /** All blocks at the file system's disposal, free or in the file. */
  ghost function Pool(s: State): seq<int> {
    s.free + Released(Nodes(s.blocks, s.ia))
  }

  /** What reading file block `n` through the inode yields; None is a hole. */
  ghost function Content(s: State, n: nat, k: nat): Option<Block>
    requires k > 0 && |s.ia| == NADDR
  {
    var b := BlockOf(s.blocks, s.ia, n, k);
    if 0 < b < |s.blocks| then Some(s.blocks[b]) else None
  }

  ghost predicate EmptyAtAndAfter(s: State, n: nat, k: nat)
    requires k > 0 && |s.ia| == NADDR
  {
    forall m: nat :: m >= n ==> EmptyFrom(s.blocks, s.ia, m, k)
  }

  ghost predicate SameOutside(was: seq<Block>, now: seq<Block>, pool: seq<int>) {
    && |now| == |was|
    && forall b :: 0 <= b < |was| && b !in pool ==> now[b] == was[b]
  }

  /** File block `n` now holds `b`; no other file block and no block outside the pool changed,
      and the pool itself is the same sequence as before. */
  ghost predicate Stored(s: State, t: State, n: nat, b: Block, k: nat)
    requires k > 0 && |s.ia| == |t.ia| == NADDR
  {
    && Sound(t, k) && Pool(t) == Pool(s)
    && Content(t, n, k) == Some(b)
    && (forall m: nat :: m != n ==> Content(t, m, k) == Content(s, m, k))
    && EmptyAtAndAfter(t, n + 1, k)
    && SameOutside(s.blocks, t.blocks, Pool(s))
  }

  lemma {:induction false} ReleasedMember(nodes: seq<Node>, nd: Node)
    requires nd in nodes
    ensures nd.bno in Released(nodes)
  {
    var i :| 0 <= i < |nodes| && nodes[i] == nd;
    assert Released(nodes)[|nodes| - 1 - i] == nd.bno;
  }

  /** Taking blocks from the free list into the file leaves the pool as it is. */
  lemma {:induction false} MovesKeepPool(s: State, t: State, taken: seq<Node>)
    requires Moves(s, t, taken)
    ensures Pool(t) == Pool(s)
  {
    ReleasedConcat(Nodes(s.blocks, s.ia), taken);
  }

  /** A data block is not an indirect block. */
  lemma {:induction false} DataIsNotIndirect(nodes: seq<Node>, v: int)
    requires DistinctNodes(nodes) && Node(v, 0) in nodes
    ensures !IsIndirect(nodes, v)
  {
  }

  /** Writing a block that is not an indirect block of the file changes no mapping. */
  lemma {:induction false} WriteFrame(t: State, v: int, b: Block, k: nat)
    requires Sound(t, k) && 0 <= v < |t.blocks| && !IsIndirect(Nodes(t.blocks, t.ia), v) && |b| == k
    ensures var u := t.(blocks := t.blocks[v := b]);
      && Sound(u, k) && Pool(u) == Pool(t)
      && (forall m: nat :: BlockOf(u.blocks, u.ia, m, k) == BlockOf(t.blocks, t.ia, m, k))
      && (forall m: nat :: EmptyFrom(u.blocks, u.ia, m, k) == EmptyFrom(t.blocks, t.ia, m, k))
  {
    hide Nodes, BlockOf, EmptyFrom, Usable;
    assert SameIndirect(t.blocks, t.blocks[v := b], Nodes(t.blocks, t.ia));
    InodeFrame(t.blocks, t.blocks[v := b], t.ia, k);
  }

  lemma {:induction false} DataWriteFrame(t: State, v: int, b: Block, k: nat)
    requires Sound(t, k) && Node(v, 0) in Nodes(t.blocks, t.ia) && |b| == k
    ensures 0 < v < |t.blocks| && v !in t.free
    ensures var u := t.(blocks := t.blocks[v := b]);
      && Sound(u, k) && Pool(u) == Pool(t)
      && (forall m: nat :: BlockOf(u.blocks, u.ia, m, k) == BlockOf(t.blocks, t.ia, m, k))
      && (forall m: nat :: EmptyFrom(u.blocks, u.ia, m, k) == EmptyFrom(t.blocks, t.ia, m, k))
  {
    hide Nodes, BlockOf, EmptyFrom, Usable, Sound;
    SoundParts(t, k);
    assert Holds(Nodes(t.blocks, t.ia), v);
    DataIsNotIndirect(Nodes(t.blocks, t.ia), v);
    WriteFrame(t, v, b, k);
  }

  lemma {:induction false} OldBlockKept(was: seq<Block>, now: seq<Block>, nodes: seq<Node>, taken: seq<Node>, y: int)
    requires DistinctNodes(nodes + taken) && Node(y, 0) in nodes && 0 <= y < |was|
    requires Spares(was, now, nodes, taken)
    ensures now[y] == was[y]
  {
    DistinctConcat(nodes, taken);
    DataIsNotIndirect(nodes, y);
    assert !Holds(taken, y);
  }

  lemma SoundDistinct(t: State, k: nat)
    requires Sound(t, k)
    ensures k > 0 && |t.ia| == NADDR && DistinctNodes(Nodes(t.blocks, t.ia))
  {
    SoundParts(t, k);
  }

  /** Blocks mapped before are neither taken later nor rewritten as indirect blocks. */
  lemma {:induction false} OldContentKept(s: State, t: State, taken: seq<Node>, n: nat, m: nat, k: nat)
    requires Sound(s, k) && Sound(t, k) && Extends(s, t, taken, n, k) && m != n
    ensures Content(t, m, k) == Content(s, m, k)
    ensures |t.blocks| == |s.blocks|
  {
    hide Sound, Nodes, DistinctNodes, BlockOf, IsIndirect, Holds;
    SoundDistinct(t, k);
    var y := BlockOf(s.blocks, s.ia, m, k);
    assert BlockOf(t.blocks, t.ia, m, k) == y;
    if 0 < y < |s.blocks| {
      BlockOfInside(s.blocks, s.ia, m, k);
      OldBlockKept(s.blocks, t.blocks, Nodes(s.blocks, s.ia), taken, y);
    }
  }

  /** The block just mapped is the data block of no other file block. */
  lemma {:induction false} FreshIsUnshared(t: State, n: nat, m: nat, k: nat)
    requires Sound(t, k) && m != n && BlockOf(t.blocks, t.ia, n, k) != 0
    ensures BlockOf(t.blocks, t.ia, m, k) != BlockOf(t.blocks, t.ia, n, k)
  {
    SoundParts(t, k);
    if BlockOf(t.blocks, t.ia, m, k) != 0 {
      BlockOfInjective(t.blocks, t.ia, m, n, k);
    }
  }

  lemma {:induction false} OutsidePool(nodes: seq<Node>, free: seq<int>, b: int)
    requires b !in free + Released(nodes)
    ensures !Holds(nodes, b) && b !in free
  {
    forall nd | nd in nodes ensures nd.bno != b {
      ReleasedMember(nodes, nd);
    }
  }

  lemma {:induction false} ExtendsSameOutside(s: State, t: State, taken: seq<Node>, n: nat, k: nat)
    requires Extends(s, t, taken, n, k)
    ensures SameOutside(s.blocks, t.blocks, Pool(s))
  {
    hide Nodes, BlockOf, MapsAlikeBut;
    forall b | 0 <= b < |s.blocks| && b !in Pool(s) ensures t.blocks[b] == s.blocks[b] {
      OutsidePool(Nodes(s.blocks, s.ia), s.free, b);
      OutsidePool(taken, t.free, b);
    }
  }

  /** Mapping a file block beyond all others and then writing its data block stores it. */
  lemma {:induction false} MappedThenWritten(s: State, t: State, taken: seq<Node>, v: int, n: nat, b: Block, k: nat)
    requires Sound(s, k) && Mapped(s, t, taken, v, n, k) && |b| == k
    ensures 0 < v < |t.blocks| && v !in t.free
    ensures Stored(s, t.(blocks := t.blocks[v := b]), n, b, k)
  {
    hide Sound, Nodes, EmptyFrom, BlockOf, Spares, MapsAlikeBut;
    MovesKeepPool(s, t, taken);
    assert Node(v, 0) in Nodes(t.blocks, t.ia);
    DataWriteFrame(t, v, b, k);
    var u := t.(blocks := t.blocks[v := b]);
    ExtendsSameOutside(s, t, taken, n, k);
    ReleasedMember(Nodes(t.blocks, t.ia), Node(v, 0));
    assert v in Pool(s);
    forall m: nat | m != n ensures Content(u, m, k) == Content(s, m, k) {
      OldContentKept(s, t, taken, n, m, k);
      FreshIsUnshared(t, n, m, k);
    }
  }

  /** Block 0 belongs to no file, so overwriting it changes no file. */
  lemma {:induction false} BootWriteFrame(t: State, b: Block, k: nat)
    requires Sound(t, k) && |t.blocks| > 0 && |b| == k
    ensures var u := t.(blocks := t.blocks[0 := b]);
      && Sound(u, k) && Pool(u) == Pool(t)
      && (forall m: nat :: Content(u, m, k) == Content(t, m, k))
      && (forall m: nat :: EmptyFrom(u.blocks, u.ia, m, k) == EmptyFrom(t.blocks, t.ia, m, k))
  {
    hide Nodes, BlockOf, EmptyFrom, Usable;
    SoundParts(t, k);
    WriteFrame(t, 0, b, k);
  }

  /** The file holds exactly the first `c` records, as far as an inode can address them. */
  ghost predicate Image(s: State, records: seq<Option<Block>>, c: nat, k: nat)
    requires k > 0 && |s.ia| == NADDR && c <= |records|
  {
    && EmptyAtAndAfter(s, c, k)
    && forall m: nat :: Content(s, m, k) == if m < c && m < Capacity(k) then records[m] else None
  }

  /** What the first `c` records leave in block 0: the last one too far out to be addressed ends up there. */
  ghost function BootAfter(boot: Block, records: seq<Option<Block>>, c: nat, k: nat): Block
    requires c <= |records|
  {
    if c == 0 then boot
    else if records[c - 1].Some? && c - 1 >= Capacity(k) then records[c - 1].value
    else BootAfter(boot, records, c - 1, k)
  }

  lemma {:induction false} ImageStored(s: State, t: State, records: seq<Option<Block>>, c: nat, k: nat)
    requires k > 0 && |s.ia| == |t.ia| == NADDR && c < |records| && c < Capacity(k) && records[c].Some?
    requires Image(s, records, c, k) && Stored(s, t, c, records[c].value, k)
    ensures Image(t, records, c + 1, k)
  {
    hide BlockOf, EmptyFrom, Sound, Pool, Content, SameOutside;
  }

  lemma {:induction false} ImageSkipped(s: State, records: seq<Option<Block>>, c: nat, k: nat)
    requires k > 0 && |s.ia| == NADDR && c < |records| && (records[c].None? || c >= Capacity(k))
    requires Image(s, records, c, k)
    ensures Image(s, records, c + 1, k)
  {
    hide BlockOf, EmptyFrom, Content;
  }

  lemma SameImage(s: State, t: State, records: seq<Option<Block>>, c: nat, k: nat)
    requires k > 0 && |s.ia| == |t.ia| == NADDR && c <= |records| && Image(s, records, c, k)
    requires forall m: nat :: Content(t, m, k) == Content(s, m, k)
    requires forall m: nat :: EmptyFrom(t.blocks, t.ia, m, k) == EmptyFrom(s.blocks, s.ia, m, k)
    ensures Image(t, records, c, k)
  {
    hide Content, EmptyFrom, Capacity;
  }

  lemma {:induction false} ImageOfEmpty(s: State, records: seq<Option<Block>>, k: nat)
    requires k > 0 && |s.ia| == NADDR && forall i :: 0 <= i < NADDR ==> s.ia[i] == 0
    ensures Image(s, records, 0, k) && Nodes(s.blocks, s.ia) == []
  {
    EmptyInode(s.blocks, s.ia, k);
  }

  /** Apart from the boot block, only blocks of the pool may differ. */
  ghost predicate KeptOutside(was: seq<Block>, now: seq<Block>, pool: seq<int>) {
    && |now| == |was|
    && forall b :: 0 < b < |was| && b !in pool ==> now[b] == was[b]
  }

  /** Truncation stays within the blocks of the file. */
  lemma {:induction false} TruncatedOutside(s: State, now: seq<Block>)
    requires Untouched(s.blocks, now, Nodes(s.blocks, s.ia))
    ensures SameOutside(s.blocks, now, Pool(s))
  {
    forall b | 0 <= b < |s.blocks| && b !in Pool(s) ensures now[b] == s.blocks[b] {
      OutsidePool(Nodes(s.blocks, s.ia), s.free, b);
    }
  }

  lemma {:induction false} EmptyFileSound(s: State, records: seq<Option<Block>>, k: nat)
    requires k > 0 && |s.ia| == NADDR && forall i :: 0 <= i < NADDR ==> s.ia[i] == 0
    requires Wide(s.blocks, k) && Usable(s.free, |s.blocks|)
    ensures Sound(s, k) && Pool(s) == s.free && Image(s, records, 0, k)
  {
    ImageOfEmpty(s, records, k);
    assert s.free + Released([]) == s.free;
  }

  lemma BlockZeroOutside(s: State, k: nat)
    requires Sound(s, k)
    ensures 0 !in Pool(s)
  {
  }

  /** Every record is one that an inode can address. */
  ghost predicate AllAddressable(records: seq<Option<Block>>, k: nat)
    requires k > 0
  {
    forall m :: Capacity(k) <= m < |records| ==> records[m].None?
  }

  /** The file comes back whole exactly when every record can be addressed. */
  lemma RestoredWhole(s: State, records: seq<Option<Block>>, k: nat)
    requires k > 0 && |s.ia| == NADDR && Image(s, records, |records|, k)
    ensures (forall m: nat :: m < |records| ==> Content(s, m, k) == records[m]) <==> AllAddressable(records, k)
  {
    hide BlockOf, EmptyFrom, Capacity, Content;
    if forall m: nat :: m < |records| ==> Content(s, m, k) == records[m] {
      forall m | Capacity(k) <= m < |records|
        ensures records[m].None?
      {
        assert Content(s, m, k) == records[m];
      }
    }
  }

  lemma {:induction false} BootUntouched(boot: Block, records: seq<Option<Block>>, c: nat, k: nat)
    requires k > 0 && c <= |records| && AllAddressable(records, k)
    ensures BootAfter(boot, records, c, k) == boot
  {
    hide Capacity;
    if c > 0 {
      BootUntouched(boot, records, c - 1, k);
    }
  }

  lemma {:induction false} BootForgotten(boot: Block, other: Block, records: seq<Option<Block>>, c: nat, m: nat, k: nat)
    requires k > 0 && m < c <= |records| && Capacity(k) <= m && records[m].Some?
    ensures BootAfter(boot, records, c, k) == BootAfter(other, records, c, k)
  {
    hide Capacity;
    if m < c - 1 {
      BootForgotten(boot, other, records, c - 1, m, k);
    }
  }

  /** The boot block survives, whatever it holds, under exactly the same condition. */
  lemma BootKept(records: seq<Option<Block>>, k: nat)
    requires k > 0
    ensures (forall boot: Block :: BootAfter(boot, records, |records|, k) == boot) <==> AllAddressable(records, k)
  {
    hide Capacity, BootAfter;
    if AllAddressable(records, k) {
      forall boot: Block {
        BootUntouched(boot, records, |records|, k);
      }
    } else {
      var m :| Capacity(k) <= m < |records| && records[m].Some?;
      BootForgotten([], [0], records, |records|, m, k);
    }
  }

  // One block just past the last that an inode can address: it takes the boot block's place.
  lemma BootLost(boot: Block, b: Block, k: nat)
    requires k > 0
    ensures var records := seq(Capacity(k), _ => None) + [Some(b)]; BootAfter(boot, records, |records|, k) == b
  {
    hide Capacity;
    var records := seq(Capacity(k), _ => None) + [Some(b)];
    assert records[Capacity(k)] == Some(b);
  }

  /** That is: every block but those of the pool is as it was, and every one but those and the first. */
  lemma KeptInNumbers(was: seq<Block>, now: seq<Block>, pool: seq<int>)
    ensures SameOutside(was, now, pool)
      <==> |now| == |was| && forall b :: 0 <= b < |was| && b !in pool ==> now[b] == was[b]
    ensures KeptOutside(was, now, pool)
      <==> |now| == |was| && forall b :: 1 <= b < |was| && b !in pool ==> now[b] == was[b]
  {
  }
}
