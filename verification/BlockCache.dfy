/** The volume being restored and the small write-through block cache in front of it. */
module BlockCache {
  import opened Options

  /** A disk block, read as machine words. */
  type Block = seq<int>

  /** One slot of the cache: the block number it holds, its age, and the bytes. */
  datatype Slot = Slot(bno: int, time: int, block: Block)

  function Zeroes(width: nat): (b: Block)
    ensures |b| == width
    ensures forall i :: 0 <= i < width ==> b[i] == 0
  {
    seq(width, i => 0)
  }

  class Disk {
    const width: nat
    var blocks: seq<Block>
    const cache: array<Slot>
    var curcache: int

    /** Nonzero block numbers are cached at most once and never stale. */
    ghost predicate Valid()
      reads this, cache
    {
      && 0 <= curcache < cache.Length
      && (forall b :: 0 <= b < |blocks| ==> |blocks[b]| == width)
      && (forall i :: 0 <= i < cache.Length ==> |cache[i].block| == width)
      && (forall i :: 0 <= i < cache.Length && cache[i].bno != 0 ==>
            0 < cache[i].bno < |blocks| && cache[i].block == blocks[cache[i].bno])
      && (forall i, j :: 0 <= i < j < cache.Length && cache[i].bno == cache[j].bno ==> cache[i].bno == 0)
    }

    /** All slots start out tagged with block number 0 and holding zeroes. */
    constructor (width: nat, blocks: seq<Block>, ncache: nat)
      requires ncache > 0
      requires forall b :: 0 <= b < |blocks| ==> |blocks[b]| == width
      ensures Valid() && fresh(cache)
      ensures this.width == width && this.blocks == blocks && cache.Length == ncache
      ensures forall i :: 0 <= i < ncache ==> cache[i] == Slot(0, 0, Zeroes(width))
    {
      this.width := width;
      this.blocks := blocks;
      cache := new Slot[ncache](i => Slot(0, 0, Zeroes(width)));
      curcache := 0;
    }

    /** Steps from `from` to `k`, counted the way the ring scan visits them. */
    static ghost function Steps(from: int, k: int, n: int): int {
      if k > from then k - from - 1 else k - from - 1 + n
    }

    // The scan from `from` comes to slot k before slot j.
    static ghost predicate Earlier(from: int, k: int, j: int, n: int) { Steps(from, k, n) < Steps(from, j, n) }

    // The slot at which the pointer stands after i of the scan's steps.
    static ghost function Standing(from: int, i: int, n: int): int { if from + i < n then from + i else from + i - n }

    static lemma StepsOn(from: int, i: int, n: int)
      requires 0 <= from < n && 0 <= i < n
      ensures var c := Standing(from, i, n); Standing(from, i + 1, n) == if c + 1 >= n then 0 else c + 1
      ensures 0 <= Standing(from, i + 1, n) < n && Steps(from, Standing(from, i + 1, n), n) == i
      ensures forall k :: 0 <= k < n ==> (Steps(from, k, n) < i + 1 <==> Steps(from, k, n) < i || k == Standing(from, i + 1, n))
    {
    }

    static lemma StepsAround(from: int, n: int)
      requires 0 <= from < n
      ensures Standing(from, 0, n) == Standing(from, n, n) == from
      ensures forall k :: 0 <= k < n ==> 0 <= Steps(from, k, n) < n
    {
    }

    /** The scan steps on by one slot and starts over after the last; here is what ages in three slots. */
    static lemma ThreeSlots(a: Slot, b: Slot, c: Slot, bno: int, data: Block)
      ensures forall from, k :: 0 <= from < 3 && 0 <= k < 3 ==>
                0 <= Steps(from, k, 3) < 3 && (from + 1 + Steps(from, k, 3)) % 3 == k
      ensures Aged(a, true) == Slot(a.bno, a.time + 1, a.block)
      ensures a.bno != bno == b.bno ==>
                && Touched([a, b, c], 0, bno, data) == Slot(a.bno, a.time + 1, a.block)
                && Touched([a, b, c], 1, bno, data) == Slot(bno, 0, data)
                && Touched([a, b, c], 2, bno, data) == c
    {
      if a.bno != bno == b.bno {
        assert !Reached([a, b, c], 2, bno) by {
          assert [a, b, c][1].bno == bno;
        }
      }
    }

    ghost predicate Cached(bno: int)
      reads this, cache
    {
      exists i :: 0 <= i < cache.Length && cache[i].bno == bno
    }

    // The scan gets to a slot when none before it matches.
    static ghost predicate Reached(slots: seq<Slot>, k: nat, bno: int)
      requires k <= |slots|
    {
      forall i :: 0 <= i < k ==> slots[i].bno != bno
    }

    /** A slot after a write: the first that matches is overwritten, and those before it age. */
    static ghost function Touched(slots: seq<Slot>, k: nat, bno: int, b: Block): Slot
      requires k < |slots|
    {
      if !Reached(slots, k, bno) then slots[k]
      else if slots[k].bno == bno then Slot(bno, 0, b)
      else Aged(slots[k], true)
    }

    /** Writes a block through the cache; false is the exit on a write error. */
    method DWrite(bno: int, b: Block) returns (ok: bool)
      requires Valid() && |b| == width
      modifies this`blocks, cache
      ensures ok <==> 0 <= bno < |old(blocks)|
      ensures ok ==> Valid() && blocks == old(blocks)[bno := b]
      ensures !ok ==> blocks == old(blocks)
      ensures forall k :: 0 <= k < cache.Length ==> cache[k] == Touched(old(cache[..]), k, bno, b)
    {
      ghost var was := cache[..];
      Touch(bno, b);
      ok := 0 <= bno < |blocks|;
      if ok {
        blocks := blocks[bno := b];
        forall k | 0 <= k < cache.Length
          ensures cache[k].bno == was[k].bno && |cache[k].block| == width
          ensures cache[k].bno != 0 ==> 0 < cache[k].bno < |blocks| && cache[k].block == blocks[cache[k].bno]
        {
          assert bno != 0 && was[k].bno == bno ==> Reached(was, k, bno);
        }
      }
    }

    // The write's scan of the cache.
    method Touch(bno: int, b: Block)
      modifies cache
      ensures forall k :: 0 <= k < cache.Length ==> cache[k] == Touched(old(cache[..]), k, bno, b)
    {
      ghost var was := cache[..];
      var i := 0;
      while i < cache.Length
        invariant 0 <= i <= cache.Length
        invariant forall k :: 0 <= k < cache.Length ==> cache[k] == Aged(was[k], k < i)
        invariant Reached(was, i, bno)
      {
        if cache[i].bno == bno {
          cache[i] := cache[i].(block := b);
          cache[i] := cache[i].(time := 0);
          break;
        } else {
          cache[i] := cache[i].(time := cache[i].time + 1);
        }
        i := i + 1;
      }
    }

    static function Aged(s: Slot, visited: bool): Slot {
      if visited then s.(time := s.time + 1) else s
    }

    /** The scan of `DRead`: advances the ring pointer over the slots, ageing each one that does not
        match.  On a hit `j` is the first slot that matches; otherwise all were aged and `j` is the first of
        greatest age. */
    method Scan(bno: int) returns (hit: bool, j: int)
      requires 0 <= curcache < cache.Length
      modifies this`curcache, cache
      ensures 0 <= j < cache.Length && curcache == if hit then j else old(curcache)
      ensures hit ==> cache[j].bno == bno
      ensures forall k :: 0 <= k < cache.Length ==> cache[k].bno == old(cache[k].bno) && cache[k].block == old(cache[k].block)
      ensures forall k :: 0 <= k < cache.Length ==>
                && cache[k] == Aged(old(cache[k]), !hit || Earlier(old(curcache), k, j, cache.Length))
                && (!hit || Earlier(old(curcache), k, j, cache.Length) ==> old(cache[k]).bno != bno)
      ensures !hit ==> forall k :: 0 <= k < cache.Length ==>
                && old(cache[k]).time <= old(cache[j]).time
                && (Earlier(old(curcache), k, j, cache.Length) ==> old(cache[k]).time < old(cache[j]).time)
    {
      hide Steps, Standing;
      ghost var from, n, was := curcache, cache.Length, cache[..];
      StepsAround(from, n);
      j := 0;
      var i := 0;
      while i < cache.Length
        invariant 0 <= i <= n && 0 <= j < n && n == cache.Length
        invariant 0 <= curcache < n && curcache == Standing(from, i, n)
        invariant forall k :: 0 <= k < n ==> cache[k] == Aged(was[k], Steps(from, k, n) < i)
        invariant forall k :: 0 <= k < n && Steps(from, k, n) < i ==> was[k].bno != bno
        invariant was[0].time <= was[j].time
        invariant forall k :: 0 <= k < n && Steps(from, k, n) < i ==> was[k].time + 1 <= cache[j].time
        invariant j == 0 || Steps(from, j, n) < i
        invariant forall k :: 0 <= k < n && Steps(from, k, n) < i && Earlier(from, k, j, n) ==> was[k].time < was[j].time
      {
        StepsOn(from, i, n);
        curcache := curcache + 1;
        if curcache >= cache.Length {
          curcache := 0;
        }
        if cache[curcache].bno == bno {
          return true, curcache;
        } else {
          cache[curcache] := cache[curcache].(time := cache[curcache].time + 1);
          if cache[j].time < cache[curcache].time {
            j := curcache;
          }
        }
        i := i + 1;
      }
      hit := false;
    }

    /** Reads a block through the cache; None is the exit on a read error.  `slot` is the cache
        slot that served the read: on a hit the one holding the block, on a miss one of greatest age. */
    method DRead(bno: int) returns (r: Option<Block>, ghost slot: int)
      requires Valid()
      modifies this`curcache, cache
      ensures 0 <= slot < cache.Length
      ensures r.Some? <==> (0 <= bno < |blocks| || old(Cached(bno)))
      ensures r.Some? ==> Valid() && |r.value| == width
      ensures bno != 0 && r.Some? ==> 0 < bno < |blocks| && r.value == blocks[bno]
      ensures bno == 0 && r.Some? && !old(Cached(0)) ==> r.value == blocks[0]
      ensures old(Cached(bno)) ==> r.Some? && old(cache[slot].bno) == bno && r.value == old(cache[slot].block) && curcache == slot
      ensures old(Cached(bno)) ==> forall i :: 0 <= i < cache.Length ==>
                if i == slot then cache[i] == Slot(bno, 0, r.value)
                else cache[i] == Aged(old(cache[i]), Earlier(old(curcache), i, slot, cache.Length))
                     && (Earlier(old(curcache), i, slot, cache.Length) ==> old(cache[i].bno) != bno)
      ensures r.Some? && !old(Cached(bno)) ==> curcache == old(curcache) && forall i :: 0 <= i < cache.Length ==>
                && cache[i] == (if i == slot then Slot(bno, 0, r.value) else Aged(old(cache[i]), true))
                && old(cache[i].time) <= old(cache[slot].time)
                && (Earlier(old(curcache), i, slot, cache.Length) ==> old(cache[i].time) < old(cache[slot].time))
    {
      hide Earlier, Aged;
      var hit, j := Scan(bno);
      slot := j;
      if hit {
        r := Some(cache[j].block);
        cache[j] := cache[j].(time := 0);
        return;
      }
      if !(0 <= bno < |blocks|) {
        return None, slot;
      }
      cache[j] := Slot(bno, 0, blocks[bno]);
      r := Some(cache[j].block);
    }
  }

  /** Block number 0 is the tag of an unused slot, so a first read gives what the volume holds exactly
      when it is of another block, or block 0 is zero anyway. */
  method FreshRead(width: nat, blocks: seq<Block>, ncache: nat, bno: nat) returns (b: Block)
    requires ncache > 0 && bno < |blocks|
    requires forall i :: 0 <= i < |blocks| ==> |blocks[i]| == width
    ensures b == if bno == 0 then Zeroes(width) else blocks[bno]
    ensures b == blocks[bno] <==> bno != 0 || blocks[0] == Zeroes(width)
  {
    var d := new Disk(width, blocks, ncache);
    assert d.cache[0].bno == 0;
    var r, slot := d.DRead(bno);
    b := r.value;
  }

  datatype Op = Read(bno: int) | Write(bno: int, data: Block)

  /** The same operations on the bare volume: what it comes to hold, and what the reads give. */
  function BareVolume(blocks: seq<Block>, ops: seq<Op>): (after: seq<Block>)
    requires forall i :: 0 <= i < |ops| ==> 0 <= ops[i].bno < |blocks|
    ensures |after| == |blocks|
  {
    if ops == [] then blocks
    else
      var before, op := BareVolume(blocks, ops[..|ops| - 1]), ops[|ops| - 1];
      if op.Write? then before[op.bno := op.data] else before
  }

  function BareReads(blocks: seq<Block>, ops: seq<Op>): seq<Block>
    requires forall i :: 0 <= i < |ops| ==> 0 <= ops[i].bno < |blocks|
  {
    if ops == [] then []
    else
      var rest, op := ops[..|ops| - 1], ops[|ops| - 1];
      BareReads(blocks, rest) + if op.Read? then [BareVolume(blocks, rest)[op.bno]] else []
  }

  /** Apart from block 0 the cache is invisible: any run of reads and writes gives what the bare
      volume would, however small the cache. */
  method CachedRun(width: nat, blocks: seq<Block>, ncache: nat, ops: seq<Op>) returns (got: seq<Block>, after: seq<Block>)
    requires ncache > 0 && forall b :: 0 <= b < |blocks| ==> |blocks[b]| == width
    requires forall i :: 0 <= i < |ops| ==> 0 < ops[i].bno < |blocks|
    requires forall i :: 0 <= i < |ops| && ops[i].Write? ==> |ops[i].data| == width
    ensures got == BareReads(blocks, ops) && after == BareVolume(blocks, ops)
  {
    var d := new Disk(width, blocks, ncache);
    got := [];
    var i := 0;
    while i < |ops|
      invariant 0 <= i <= |ops| && d.Valid() && fresh(d) && fresh(d.cache) && d.width == width
      invariant d.blocks == BareVolume(blocks, ops[..i]) && got == BareReads(blocks, ops[..i])
    {
      assert ops[..i + 1][..i] == ops[..i];
      match ops[i] {
        case Read(bno) =>
          var r, slot := d.DRead(bno);
          got := got + [r.value];
        case Write(bno, data) =>
          var ok := d.DWrite(bno, data);
      }
      i := i + 1;
    }
    assert ops[..i] == ops;
    after := d.blocks;
  }
}
