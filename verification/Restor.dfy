/** Block allocation and file restoration on an old-format volume. */
module Restor {
  import opened Options
  import opened BlockCache
  import opened IndirectTree
  import opened Radix
  import opened Inode
  import opened FileState
  import opened FreeList
  import opened Truncate
  import opened FileImage

  datatype Format = NoFile | Directory | Regular | Special

  // The addresses that lead to blocks of the file: a free inode and a special file have none.
  function Owned(format: Format, ia: seq<int>): seq<int> {
    if format == Directory || format == Regular then ia else seq(NADDR, i => 0)
  }

  class FileSystem {
    const disk: Disk
    const nshift: nat
    var sNfree: int
    const sFree: array<int>
    const taddr: array<int>
    var curbno: nat
    ghost var free: seq<int>

    /** A volume whose super block holds the group `super`, at the head of the chain for `stack`. */
    constructor (disk: Disk, nshift: nat, super: seq<int>, nicfree: nat, ghost stack: seq<int>)
      requires disk.Valid() && disk.width == Pow2(nshift) && |disk.blocks| > 0
      requires |super| <= nicfree < disk.width
      requires Usable(stack, |disk.blocks|) && Chain(disk.blocks, super, stack, nicfree)
      ensures Valid() && fresh(sFree) && fresh(taddr) && this.disk == disk && this.nshift == nshift
      ensures free == stack && curbno == 0 && taddr[..] == seq(NADDR, i => 0)
    {
      this.disk, this.nshift := disk, nshift;
      sNfree := |super|;
      sFree := new int[nicfree](i requires 0 <= i < nicfree => if i < |super| then super[i] else 0);
      taddr := new int[NADDR](i => 0);
      curbno, free := 0, stack;
      new;
      assert sFree[..sNfree] == super;
    }

    /** The in-core group and the groups chained on the volume make up the stack `free`. */
    ghost predicate Valid()
      reads this, sFree, disk, disk.cache
    {
      && disk.Valid() && disk.width == Pow2(nshift) && |disk.blocks| > 0
      && sFree != taddr && taddr.Length == NADDR && sFree.Length < disk.width && 1 <= sNfree <= sFree.Length
      && Usable(free, |disk.blocks|)
      && Chain(disk.blocks, sFree[..sNfree], free, sFree.Length)
    }

    ghost function Snap(iaddr: seq<int>): State
      reads this, disk
    {
      State(disk.blocks, iaddr, free)
    }

    /** Writes the in-core group, which is full, into the first words of block `bn`;
        the rest of the block is whatever the buffer held. */
    method SpillGroup(bn: int)
      requires disk.Valid() && 0 < bn < |disk.blocks| && 1 <= sNfree == sFree.Length < disk.width
      modifies disk, disk.cache
      ensures disk.Valid() && |disk.blocks| == |old(disk.blocks)|
      ensures disk.blocks == old(disk.blocks)[bn := disk.blocks[bn]]
      ensures HoldsGroup(disk.blocks[bn], sFree.Length) && GroupIn(disk.blocks[bn], sFree.Length) == sFree[..]
    {
      var fbuf := new int[disk.width];
      fbuf[0] := sNfree;
      for i := 0 to sFree.Length
        invariant fbuf[0] == sNfree
        invariant fbuf[1..1 + i] == sFree[..i]
        modifies fbuf
      {
        fbuf[1 + i] := sFree[i];
      }
      assert fbuf[..][1..1 + sNfree] == sFree[..];
      var ok := disk.DWrite(bn, fbuf[..]);
    }

    /** Reads the group held by block `bno` into core. */
    method RefillGroup(bno: int)
      requires disk.Valid() && 0 < bno < |disk.blocks| && HoldsGroup(disk.blocks[bno], sFree.Length)
      modifies this`sNfree, sFree, disk`curcache, disk.cache
      ensures disk.Valid() && 1 <= sNfree <= sFree.Length
      ensures sFree[..sNfree] == GroupIn(disk.blocks[bno], sFree.Length)
    {
      hide Disk.Valid;
      ThereAndWide(bno);
      var fbuf, slot := disk.DRead(bno);
      sNfree := fbuf.value[0];
      CopyGroup(fbuf.value);
    }

    lemma ThereAndWide(bno: int)
      requires disk.Valid() && 0 < bno < |disk.blocks| && HoldsGroup(disk.blocks[bno], sFree.Length)
      ensures |disk.blocks[bno]| == disk.width && sFree.Length < |disk.blocks[bno]|
      ensures 1 <= disk.blocks[bno][0] <= sFree.Length
    {
    }

    method CopyGroup(frees: seq<int>)
      requires sFree.Length < |frees| && 1 <= frees[0] <= sFree.Length
      modifies sFree
      ensures sFree[..frees[0]] == frees[1..1 + frees[0]]
    {
      for i := 0 to sFree.Length
        invariant forall k :: 0 <= k < i ==> sFree[k] == frees[1 + k]
      {
        sFree[i] := frees[1 + i];
      }
    }

    /** Frees a block: it becomes the top of the free stack. */
    method BFree(bn: int)
      requires Valid() && 0 < bn < |disk.blocks| && bn !in free
      modifies this`sNfree, this`free, sFree, disk, disk.cache
      ensures Valid() && free == old(free) + [bn]
      ensures |disk.blocks| == |old(disk.blocks)|
      ensures forall b :: 0 <= b < |disk.blocks| && b != bn ==> disk.blocks[b] == old(disk.blocks)[b]
      ensures old(sNfree) < sFree.Length ==> disk.blocks == old(disk.blocks)
    {
      hide Chain, HoldsGroup;
      ghost var group, was, n := sFree[..sNfree], disk.blocks, sFree.Length;
      if sNfree >= sFree.Length {
        SpillGroup(bn);
        ChainSpill(was, group, free, bn, disk.blocks[bn], n);
        sNfree := 0;
      } else {
        ChainPush(was, group, free, bn, n);
      }
      sFree[sNfree] := bn;
      sNfree := sNfree + 1;
      free := free + [bn];
      assert sFree[..sNfree] == if |group| < n then group + [bn] else [bn];
    }

    /** Takes the top of the free stack and zeroes it; None is the exit when out of space. */
    method BAlloc() returns (r: Option<int>)
      requires Valid()
      modifies this`sNfree, this`free, sFree, disk, disk.cache
      ensures r.None? <==> old(free) == []
      ensures r.None? ==> free == [] && disk.blocks == old(disk.blocks)
      ensures r.Some? ==>
        && Valid() && r.value == old(free)[|old(free)| - 1] && free == old(free)[..|old(free)| - 1]
        && 0 < r.value < |disk.blocks| && r.value !in free
        && disk.blocks == old(disk.blocks)[r.value := Zeroes(disk.width)]
    {
      hide Chain, HoldsGroup;
      ghost var group, was, nic := sFree[..sNfree], disk.blocks, sFree.Length;
      ChainPop(was, group, free, Zeroes(disk.width), nic);
      if sNfree == 0 {
        return None;
      }
      sNfree := sNfree - 1;
      var bno := sFree[sNfree];
      if bno == 0 {
        return None;
      }
      if sNfree == 0 {
        RefillGroup(bno);
      }
      assert sFree[..sNfree] == Popped(was, group, nic);
      free := free[..|free| - 1];
      var ok := disk.DWrite(bno, Zeroes(disk.width));
      r := Some(bno);
    }

    /** Writing a block that is not on the free list leaves the free list in place. */
    method WriteInUse(bno: int, b: Block)
      requires Valid() && 0 <= bno < |disk.blocks| && bno !in free && |b| == disk.width
      modifies disk`blocks, disk.cache
      ensures Valid() && disk.blocks == old(disk.blocks)[bno := b]
    {
      ghost var was := disk.blocks;
      var ok := disk.DWrite(bno, b);
      ChainFrame(was, disk.blocks, sFree[..sNfree], free, sFree.Length);
    }

    /** Reading a block off the volume disturbs nothing. */
    method ReadInUse(bno: int) returns (b: Block)
      requires Valid() && 0 < bno < |disk.blocks|
      modifies disk`curcache, disk.cache
      ensures Valid() && b == disk.blocks[bno]
    {
      var r, slot := disk.DRead(bno);
      b := r.value;
    }

    /** Which inode address leads to file block `bn`: `j` counts it from the end, `m` is the block's
        number within its tree and `sh` the shift of the tree's height.  `j` is 0 if there is none. */
    method Levels(bn: nat) returns (j: nat, sh: nat, m: nat)
      requires bn >= DIRECT
      ensures j <= 3 && (j == 0 <==> bn >= Capacity(Pow2(nshift)))
      ensures j > 0 ==> sh == (4 - j) * nshift
      ensures j > 0 ==> Locate(bn, Pow2(nshift)) == Some(Pos(NADDR - j, Digits(m, 4 - j, Pow2(nshift))))
      ensures j == 3 ==> m == bn - 10 < Pow2(nshift)
      ensures j == 2 ==> m == bn - 10 - Pow2(nshift) < Pow2(nshift) * Pow2(nshift)
      ensures j == 1 ==>
        m == bn - 10 - Pow2(nshift) - Pow2(nshift) * Pow2(nshift) < Pow2(nshift) * Pow2(nshift) * Pow2(nshift)
    {
      hide Pow, Span, Locate, TreeOf, Digits, Capacity, Pow2;
      var nb := 1;
      j, sh, m := 3, 0, bn - DIRECT;
      ghost var h, k := 0, Pow2(nshift);
      LevelsStart(bn, k);
      while j > 0
        invariant 0 <= j <= 3 && h == 3 - j && sh == h * nshift && nb == Pow(k, h)
        invariant m == bn - DIRECT - Span(k, h) && Locate(bn, k) == TreeOf(bn - DIRECT, h + 1, k)
      {
        LevelsStep(bn - DIRECT, h, k);
        PowStep(k, h);
        TimesStep(h, nshift);
        sh := sh + nshift;
        nb := nb * Pow2(nshift);
        if m < nb {
          PowersInNumbers(k);
          return;
        }
        m := m - nb;
        j, h := j - 1, h + 1;
      }
      LevelsEnd(bn, k);
    }

    static lemma LevelsStart(bn: nat, k: nat)
      requires bn >= DIRECT && k > 0
      ensures Pow(k, 0) == 1 && Span(k, 0) == 0 && Locate(bn, k) == TreeOf(bn - DIRECT, 1, k)
    {
    }

    // Whether block m lies in the tree of height h + 1, having passed the lower ones.
    static lemma LevelsStep(m: nat, h: nat, k: nat)
      requires h < 3 && k > 0 && Span(k, h) <= m
      ensures Span(k, h + 1) == Span(k, h) + Pow(k, h + 1)
      ensures TreeOf(m, h + 1, k)
        == if m < Span(k, h + 1) then Some(Pos(DIRECT + h, Digits(m - Span(k, h), h + 1, k))) else TreeOf(m, h + 2, k)
      ensures m < Span(k, h + 1) ==> DIRECT + m < Capacity(k)
    {
      hide Pow, Digits;
      SpanMonotone(k, h + 1, 3);
    }

    static lemma LevelsEnd(bn: nat, k: nat)
      requires bn >= DIRECT && k > 0 && Span(k, 3) <= bn - DIRECT
      ensures bn >= Capacity(k)
    {
    }

    /** Fills inode address `slot` from the free list, whatever it held. */
    method AllocAddress(iaddr: array<int>, slot: nat, ghost n: nat) returns (r: Option<int>, ghost taken: seq<Node>)
      requires Valid() && iaddr != sFree && iaddr.Length == NADDR && slot < NADDR
      requires Sound(Snap(iaddr[..][slot := 0]), Pow2(nshift))
      requires n < Capacity(Pow2(nshift)) && EmptyFrom(disk.blocks, iaddr[..][slot := 0], n, Pow2(nshift))
      requires slot == Locate(n, Pow2(nshift)).value.slot
      modifies this`sNfree, this`free, sFree, disk, disk.cache, iaddr
      ensures r.None? ==> free == []
      ensures r.Some? ==>
        Valid() && Walked(old(Snap(iaddr[..][slot := 0])), Snap(iaddr[..]), taken, 0, r.value, n, Pow2(nshift))
      ensures r.Some? ==> iaddr[slot] == r.value && |taken| == 1
    {
      hide Sound, Locate, EmptyFrom, Walked, Chain, Usable;
      ghost var s := Snap(iaddr[..][slot := 0]);
      taken := [];
      r := BAlloc();
      if r.Some? {
        AddressWalks(s, slot, r.value, n, Pow2(nshift));
        taken := [Node(r.value, |Locate(n, Pow2(nshift)).value.path|)];
        iaddr[slot] := r.value;
        assert iaddr[..] == s.ia[slot := r.value];
      }
    }

    /** One step down: the block entered at index `i` of indirect block `nb`, allocated if missing. */
    method Fetch(ia: seq<int>, nb: int, i: nat, ghost d: nat, ghost n: nat) returns (r: Option<int>, ghost taken: seq<Node>)
      requires Valid() && Sound(Snap(ia), Pow2(nshift)) && n < Capacity(Pow2(nshift))
      requires d < |Locate(n, Pow2(nshift)).value.path| && i == Locate(n, Pow2(nshift)).value.path[d]
      requires Reached(Snap(ia), Locate(n, Pow2(nshift)).value, d, nb)
      modifies this`sNfree, this`free, sFree, disk, disk.cache
      ensures r.None? ==> free == []
      ensures r.Some? ==> Valid() && Walked(old(Snap(ia)), Snap(ia), taken, d + 1, r.value, n, Pow2(nshift))
    {
      hide Sound, Locate, Reached, Walked, Chain, Usable, OpenFrom, ClosedAfter, Capacity;
      ghost var s := Snap(ia);
      ReachedBlock(s, d, nb, n, Pow2(nshift));
      if s.blocks[nb][i] != 0 {
        FoundWalks(s, nb, i, d, n, Pow2(nshift));
      }
      var indir := ReadInUse(nb);
      r, taken := Some(indir[i]), [];
      if indir[i] == 0 {
        r := BAlloc();
        if r.Some? {
          EntryWalks(s, nb, i, d, r.value, n, Pow2(nshift));
          WriteInUse(nb, indir[i := r.value]);
          taken := [Node(r.value, |Locate(n, Pow2(nshift)).value.path| - d - 1)];
        }
      }
    }

    /** The walk of `BMap` from the indirect block `nb0` at inode address `NADDR - j0` down to the data. */
    method Walk(ia: seq<int>, j0: nat, nb0: int, sh0: nat, m: nat, ghost taken0: seq<Node>, ghost s: State, ghost n: nat)
        returns (r: Option<int>, ghost taken: seq<Node>)
      requires Valid() && n < Capacity(Pow2(nshift)) && 1 <= j0 <= 3 && sh0 == (4 - j0) * nshift
      requires Locate(n, Pow2(nshift)).value.path == Digits(m, 4 - j0, Pow2(nshift))
      requires Walked(s, Snap(ia), taken0, 0, nb0, n, Pow2(nshift))
      modifies this`sNfree, this`free, sFree, disk, disk.cache
      ensures r.None? ==> free == []
      ensures r.Some? ==> Valid() && Walked(s, Snap(ia), taken, 4 - j0, r.value, n, Pow2(nshift))
    {
      hide Valid, Locate, Digits, Pow2, Capacity, Extends, Sound;
      ghost var k, e, h := Pow2(nshift), 4 - j0, 4 - j0;
      var j, sh, nb := j0, sh0, nb0;
      taken := taken0;
      while j <= 3
        invariant 1 <= j <= 4 && e == 4 - j <= h && sh == e * nshift
        invariant Valid() && Walked(s, Snap(ia), taken, h - e, nb, n, k)
      {
        TimesStep(e - 1, nshift);
        ShiftMaskIsDigit(m, h, nshift, e - 1);
        sh := sh - nshift;
        var i := m / Pow2(sh) % Pow2(nshift);
        ghost var t, more := Snap(ia), [];
        r, more := Fetch(ia, nb, i, h - e, n);
        if r.None? {
          return;
        }
        WalkedFurther(s, t, Snap(ia), taken, more, h - e, nb, h - e + 1, r.value, n, k);
        nb, taken := r.value, taken + more;
        j, e := j + 1, e - 1;
      }
      r := Some(nb);
    }

    /** The inode addresses, without that of a direct block about to be mapped. */
    static function Blanked(ia: seq<int>, bn: nat): (blanked: seq<int>)
      requires |ia| == NADDR
      ensures |blanked| == NADDR
    {
      if bn < DIRECT then ia[bn := 0] else ia
    }

    /** Maps file block `bn`, beyond which the file has no block yet, to a fresh disk block, allocating
        the indirect blocks on the way; a direct block's address is overwritten.  None is the exit when
        out of space; 0 means that no inode address leads to `bn`. */
    method BMap(iaddr: array<int>, bn: nat) returns (r: Option<int>, ghost taken: seq<Node>)
      requires Valid() && iaddr != sFree && iaddr.Length == NADDR
      requires Sound(Snap(Blanked(iaddr[..], bn)), Pow2(nshift))
      requires EmptyFrom(disk.blocks, Blanked(iaddr[..], bn), bn, Pow2(nshift))
      modifies this`sNfree, this`free, sFree, disk, disk.cache, iaddr
      ensures r.None? ==> bn < Capacity(Pow2(nshift)) && free == []
      ensures r.Some? ==> Valid()
      ensures r.Some? && bn >= Capacity(Pow2(nshift)) ==> r.value == 0 && Snap(iaddr[..]) == old(Snap(iaddr[..]))
      ensures r.Some? && bn < Capacity(Pow2(nshift)) ==>
                Mapped(old(Snap(Blanked(iaddr[..], bn))), Snap(iaddr[..]), taken, r.value, bn, Pow2(nshift))
      ensures r.Some? && bn < 10 ==> iaddr[bn] == r.value && |taken| == 1
    {
      hide Valid, Sound, EmptyFrom, Walked, Mapped, Digits, Pow2, Span, TreeOf, Capacity;
      ghost var s, k := Snap(Blanked(iaddr[..], bn)), Pow2(nshift);
      taken := [];
      if bn < DIRECT {
        EmptyDirect(s, bn, k);
        r, taken := AllocAddress(iaddr, bn, bn);
        if r.Some? {
          WalkEnds(s, Snap(iaddr[..]), taken, r.value, bn, k);
        }
        return;
      }
      var j, sh, m := Levels(bn);
      if j == 0 {
        return Some(0), taken;
      }
      if iaddr[NADDR - j] == 0 {
        assert iaddr[..][NADDR - j := 0] == iaddr[..];
        r, taken := AllocAddress(iaddr, NADDR - j, bn);
        if r.None? {
          return;
        }
      } else {
        EmptyOpens(s, bn, k);
        PresentWalks(s, 0, bn, k);
      }
      r, taken := Walk(iaddr[..], j, iaddr[NADDR - j], sh, m, taken, s, bn);
      if r.Some? {
        WalkEnds(s, Snap(iaddr[..]), taken, r.value, bn, k);
      }
    }

    /** The height of the tree that `TLoop` is told to tear down. */
    static function Rank(f1: bool, f2: bool): nat {
      if f1 then if f2 then 3 else 2 else 1
    }

    /** Frees the tree below indirect block `bn`, last entry first, and then `bn` itself. */
    method TLoop(bn: int, f1: bool, f2: bool)
      requires Valid() && bn != 0
      requires Usable(free + Released(PreOrder(disk.blocks, bn, Rank(f1, f2))), |disk.blocks|)
      modifies this`sNfree, this`free, sFree, disk, disk.cache
      ensures Valid() && free == old(free) + Released(PreOrder(old(disk.blocks), bn, Rank(f1, f2)))
      ensures |disk.blocks| == |old(disk.blocks)|
      ensures Untouched(old(disk.blocks), disk.blocks, PreOrder(old(disk.blocks), bn, Rank(f1, f2)))
      decreases Rank(f1, f2)
    {
      hide Valid, Untouched, Usable, SameIndirect;
      ghost var was, free0, lv := disk.blocks, free, Rank(f1, f2) - 1;
      RootLast(was, free0, bn, lv);
      var ibuf := ReadInUse(bn);
      var i := |ibuf| - 1;
      UntouchedSelf(was, []);
      while i >= 0
        invariant -1 <= i < |ibuf| && Valid() && |disk.blocks| == |was|
        invariant free == free0 + Released(Kids(was, ibuf, i + 1, |ibuf|, lv))
        invariant Untouched(was, disk.blocks, Kids(was, ibuf, i + 1, |ibuf|, lv))
      {
        var nb := ibuf[i];
        ghost var x, rest, now := PreOrder(was, nb, lv), Kids(was, ibuf, i + 1, |ibuf|, lv), disk.blocks;
        KidNext(was, bn, i, lv);
        NextToFree(was, now, free0, [Node(bn, lv + 1)] + Kids(was, ibuf, 0, i, lv), x, rest);
        PreOrderFrame(was, now, nb, lv);
        if nb != 0 {
          if f1 {
            TLoop(nb, f2, false);
          } else {
            OneNode(free, nb, 0, |was|);
            BFree(nb);
            OneTouched(now, disk.blocks, Node(nb, 0));
          }
        } else {
          UntouchedSelf(now, x);
        }
        UntouchedTransitive(was, now, disk.blocks, x, rest);
        i := i - 1;
      }
      ghost var now := disk.blocks;
      BFree(bn);
      OneTouched(now, disk.blocks, Node(bn, lv + 1));
      UntouchedTransitive(was, now, disk.blocks, [Node(bn, lv + 1)], Kids(was, ibuf, 0, |ibuf|, lv));
    }

    /** Frees what inode address `i`, holding `bn`, leads to. */
    method FreeAddress(bn: int, i: nat)
      requires Valid() && bn != 0 && i < NADDR
      requires Usable(free + Released(PreOrder(disk.blocks, bn, Height(i))), |disk.blocks|)
      modifies this`sNfree, this`free, sFree, disk, disk.cache
      ensures Valid() && free == old(free) + Released(PreOrder(old(disk.blocks), bn, Height(i)))
      ensures |disk.blocks| == |old(disk.blocks)|
      ensures Untouched(old(disk.blocks), disk.blocks, PreOrder(old(disk.blocks), bn, Height(i)))
      ensures i < 10 ==> free == old(free) + [bn]
      ensures i >= 10 ==> free == old(free) + Released(PreOrder(old(disk.blocks), bn, i - 9))
    {
      hide Valid, Untouched, Usable, Kids;
      if i == NADDR - 3 {
        TLoop(bn, false, false);
      } else if i == NADDR - 2 {
        TLoop(bn, true, false);
      } else if i == NADDR - 1 {
        TLoop(bn, true, true);
      } else {
        ghost var now := disk.blocks;
        OneNode(free, bn, 0, |now|);
        BFree(bn);
        OneTouched(now, disk.blocks, Node(bn, 0));
      }
    }

    /** Frees everything that the addresses of a regular file or directory lead to, last address first. */
    method ITrunc(format: Format, iaddr: seq<int>)
      requires Valid() && Sound(Snap(Owned(format, iaddr)), Pow2(nshift))
      modifies this`sNfree, this`free, sFree, disk, disk.cache
      ensures Valid() && |disk.blocks| == |old(disk.blocks)|
      ensures free == old(free) + Released(Nodes(old(disk.blocks), Owned(format, iaddr)))
      ensures Untouched(old(disk.blocks), disk.blocks, Nodes(old(disk.blocks), Owned(format, iaddr)))
      ensures format == NoFile || format == Special ==> free == old(free) && disk.blocks == old(disk.blocks)
      ensures format == Directory || format == Regular ==>
                free == old(free) + Released(Nodes(old(disk.blocks), iaddr))
    {
      hide Valid, Untouched, Usable, SameIndirect, PreOrder, Height, Released, Slots, Wide;
      NothingOwned(disk.blocks, format, iaddr);
      if format == NoFile {
        return;
      }
      if format != Directory && format != Regular {
        return;
      }
      ghost var was, free0 := disk.blocks, free;
      var i := NADDR - 1;
      NoSlots(was, iaddr);
      while i >= 0
        invariant -1 <= i < NADDR && Valid() && |disk.blocks| == |was|
        invariant free == free0 + Released(Slots(was, iaddr, i + 1, NADDR))
        invariant Untouched(was, disk.blocks, Slots(was, iaddr, i + 1, NADDR))
      {
        FreeSlot(iaddr, i, was, free0);
        i := i - 1;
      }
    }

    static lemma NothingOwned(blocks: seq<Block>, format: Format, ia: seq<int>)
      ensures !(format == Directory || format == Regular) ==>
                Nodes(blocks, Owned(format, ia)) == [] && Released([]) == [] && Untouched(blocks, blocks, [])
    {
      EmptyInode(blocks, seq(NADDR, i => 0), 1);
      UntouchedSelf(blocks, []);
    }

    static lemma NoSlots(blocks: seq<Block>, ia: seq<int>)
      requires |ia| == NADDR
      ensures Slots(blocks, ia, NADDR, NADDR) == [] && Released([]) == [] && Untouched(blocks, blocks, [])
    {
      HoleFreesNothing(blocks, 0);
      UntouchedSelf(blocks, []);
    }

    // One address of those being freed, from the last down.
    method FreeSlot(iaddr: seq<int>, i: nat, ghost was: seq<Block>, ghost free0: seq<int>)
      requires Valid() && i < NADDR == |iaddr| && |disk.blocks| == |was|
      requires Usable(free0 + Released(Nodes(was, iaddr)), |was|)
      requires free == free0 + Released(Slots(was, iaddr, i + 1, NADDR))
      requires Untouched(was, disk.blocks, Slots(was, iaddr, i + 1, NADDR))
      modifies this`sNfree, this`free, sFree, disk, disk.cache
      ensures Valid() && |disk.blocks| == |was|
      ensures free == free0 + Released(Slots(was, iaddr, i, NADDR))
      ensures Untouched(was, disk.blocks, Slots(was, iaddr, i, NADDR))
    {
      hide Valid, Untouched, Usable, SameIndirect, PreOrder, Height, Released, Slots, Nodes;
      var bn := iaddr[i];
      ghost var x, rest, now := PreOrder(was, bn, Height(i)), Slots(was, iaddr, i + 1, NADDR), disk.blocks;
      SlotNext(was, iaddr, i);
      NextToFree(was, now, free0, Slots(was, iaddr, 0, i), x, rest);
      PreOrderFrame(was, now, bn, Height(i));
      if bn == 0 {
        HoleFreesNothing(now, Height(i));
        UntouchedSelf(now, x);
      } else {
        FreeAddress(bn, i);
      }
      UntouchedTransitive(was, now, disk.blocks, x, rest);
    }

    /** Stores the next block of the file being restored; false is the exit when out of space. */
    method RstrFile(b: Block) returns (ok: bool)
      requires Valid() && |b| == disk.width && Sound(Snap(Blanked(taddr[..], curbno)), Pow2(nshift))
      requires EmptyFrom(disk.blocks, Blanked(taddr[..], curbno), curbno, Pow2(nshift))
      modifies this`sNfree, this`free, this`curbno, sFree, disk, disk.cache, taddr
      ensures !ok ==> free == []
      ensures ok ==> Valid() && curbno == old(curbno) + 1
      ensures ok && old(curbno) < Capacity(Pow2(nshift)) ==>
                Stored(old(Snap(Blanked(taddr[..], curbno))), Snap(taddr[..]), old(curbno), b, Pow2(nshift))
      ensures ok && old(curbno) >= Capacity(Pow2(nshift)) ==>
                Snap(taddr[..]) == old(Snap(taddr[..])).(blocks := old(disk.blocks)[0 := b])
    {
      hide Chain, Sound, EmptyFrom, Mapped, Stored, Capacity;
      ghost var s, k := Snap(Blanked(taddr[..], curbno)), Pow2(nshift);
      var d, taken := BMap(taddr, curbno);
      ok := d.Some?;
      if ok {
        if curbno < Capacity(k) {
          MappedThenWritten(s, Snap(taddr[..]), taken, d.value, curbno, b, k);
        }
        WriteInUse(d.value, b);
        curbno := curbno + 1;
      }
    }

    method RstrSkip()
      modifies this`curbno
      ensures curbno == old(curbno) + 1
    {
      curbno := curbno + 1;
    }

    /** Replaces the file at the addresses `prev` by the one whose blocks come from the dump:
        one record per file block, None where the dump has a hole. The first address starts out as
        the dumped inode's, which is zero where the dump has no first block. */
    method Restore(format: Format, prev: seq<int>, first: int, records: seq<Option<Block>>) returns (ok: bool)
      requires first == 0 || (records != [] && records[0].Some?)
      requires Valid() && Sound(Snap(Owned(format, prev)), Pow2(nshift))
      requires forall i :: 0 <= i < |records| && records[i].Some? ==> |records[i].value| == disk.width
      modifies this`sNfree, this`free, this`curbno, sFree, disk, disk.cache, taddr
      ensures !ok ==> free == []
      ensures ok ==> Valid() && Sound(Snap(taddr[..]), Pow2(nshift))
      ensures ok ==> Image(Snap(taddr[..]), records, |records|, Pow2(nshift))
      ensures ok ==> Pool(Snap(taddr[..])) == old(Pool(Snap(Owned(format, prev))))
      ensures ok && (format == NoFile || format == Special) ==> Pool(Snap(taddr[..])) == old(free)
      ensures ok ==> KeptOutside(old(disk.blocks), disk.blocks, old(Pool(Snap(Owned(format, prev)))))
      ensures ok ==> disk.blocks[0] == BootAfter(old(disk.blocks)[0], records, |records|, Pow2(nshift))
    {
      hide Chain, EmptyFrom, Capacity, Image, Content, Nodes;
      ghost var was, s, k := disk.blocks, Snap(Owned(format, prev)), Pow2(nshift);
      NothingOwned(was, format, prev);
      curbno := 0;
      BlockZeroOutside(s, k);
      ITrunc(format, prev);
      TruncatedOutside(s, disk.blocks);
      ClearAddresses();
      taddr[0] := first;
      assert taddr[..][0 := 0] == seq(NADDR, i => 0);
      EmptyFileSound(Snap(taddr[..][0 := 0]), records, k);
      ok := FillFile(records);
    }

    method ClearAddresses()
      requires taddr.Length == NADDR
      modifies taddr
      ensures taddr[..] == seq(NADDR, i => 0)
    {
      for i := 0 to NADDR
        invariant forall j :: 0 <= j < i ==> taddr[j] == 0
      {
        taddr[i] := 0;
      }
    }

    static lemma StillBlank(s: State, ia: seq<int>, records: seq<Option<Block>>, c: nat, k: nat)
      requires k > 0 && |ia| == |s.ia| == NADDR && c < |records| && Image(s, records, c, k)
      requires s.ia == ia || (c == 0 && s.ia == ia[0 := 0])
      ensures s.ia == Blanked(ia, c) && (c < DIRECT ==> c < Capacity(k))
    {
      hide EmptyFrom, Content;
      if c < DIRECT {
        EmptyDirect(s, c, k);
        assert ia[c := 0] == s.ia;
      }
    }

    /** Runs the tape records of one file through `RstrFile` and `RstrSkip`. */
    method FillFile(records: seq<Option<Block>>) returns (ok: bool)
      requires Valid() && Sound(Snap(taddr[..][0 := 0]), Pow2(nshift)) && curbno == 0
      requires Image(Snap(taddr[..][0 := 0]), records, 0, Pow2(nshift))
      requires taddr[0] == 0 || (records != [] && records[0].Some?)
      requires forall i :: 0 <= i < |records| && records[i].Some? ==> |records[i].value| == disk.width
      modifies this`sNfree, this`free, this`curbno, sFree, disk, disk.cache, taddr
      ensures !ok ==> free == []
      ensures ok ==> Valid() && Sound(Snap(taddr[..]), Pow2(nshift))
      ensures ok ==> Image(Snap(taddr[..]), records, |records|, Pow2(nshift))
      ensures ok ==> Pool(Snap(taddr[..])) == old(Pool(Snap(taddr[..][0 := 0])))
      ensures ok ==> KeptOutside(old(disk.blocks), disk.blocks, old(Pool(Snap(taddr[..][0 := 0]))))
      ensures ok ==> disk.blocks[0] == BootAfter(old(disk.blocks)[0], records, |records|, Pow2(nshift))
    {
      hide Chain, Capacity, EmptyFrom, Content, Nodes, Image, BootAfter, KeptOutside, Sound, Pool;
      ghost var ia := taddr[..][0 := 0];
      assert taddr[0] == 0 ==> ia == taddr[..];
      ghost var was, pool, k := disk.blocks, Pool(Snap(ia)), Pow2(nshift);
      NothingRestored(was, pool, records, k);
      for i := 0 to |records|
        invariant Valid() && Filling(ia, records, i, was, pool)
        invariant ia == taddr[..] || (i == 0 && ia == taddr[..][0 := 0] && records != [] && records[0].Some?)
      {
        ok, ia := NextRecord(records, i, ia, was, pool);
        if !ok {
          return;
        }
      }
      ok := true;
    }

    static lemma NothingRestored(was: seq<Block>, pool: seq<int>, records: seq<Option<Block>>, k: nat)
      requires |was| > 0 && k > 0
      ensures KeptOutside(was, was, pool) && was[0] == BootAfter(was[0], records, 0, k)
    {
    }

    // The first records have been restored.
    ghost predicate Filling(ia: seq<int>, records: seq<Option<Block>>, i: nat, was: seq<Block>, pool: seq<int>)
      reads this, disk
    {
      && |ia| == NADDR && |was| > 0 && |disk.blocks| > 0 && i <= |records| && curbno == i
      && Sound(Snap(ia), Pow2(nshift)) && Image(Snap(ia), records, i, Pow2(nshift))
      && Pool(Snap(ia)) == pool && KeptOutside(was, disk.blocks, pool)
      && disk.blocks[0] == BootAfter(was[0], records, i, Pow2(nshift))
    }

    // A block is stored, or passed over where the dump has a hole.
    method NextRecord(records: seq<Option<Block>>, i: nat, ghost ia: seq<int>, ghost was: seq<Block>, ghost pool: seq<int>)
      returns (ok: bool, ghost now: seq<int>)
      requires Valid() && i < |records| && Filling(ia, records, i, was, pool)
      requires records[i].Some? ==> |records[i].value| == disk.width
      requires ia == taddr[..] || (i == 0 && ia == taddr[..][0 := 0] && records[0].Some?)
      modifies this`sNfree, this`free, this`curbno, sFree, disk, disk.cache, taddr
      ensures !ok ==> free == []
      ensures ok ==> Valid() && now == taddr[..] && Filling(now, records, i + 1, was, pool)
    {
      hide Chain, Capacity, EmptyFrom, Content, Nodes, Image;
      ghost var s, k := Snap(ia), Pow2(nshift);
      BlockZeroOutside(s, k);
      match records[i]
      case Some(b) =>
        StillBlank(s, taddr[..], records, i, k);
        NextIsEmpty(s, records, i, k);
        ok := RstrFile(b);
        now := taddr[..];
        if !ok {
          return;
        }
        if i < Capacity(k) {
          ImageStored(s, Snap(taddr[..]), records, i, k);
        } else {
          BootWriteFrame(s, b, k);
          ImageSkipped(s, records, i, k);
          SameImage(s, Snap(taddr[..]), records, i + 1, k);
        }
      case None =>
        RstrSkip();
        ImageSkipped(s, records, i, k);
        ok, now := true, taddr[..];
    }

    static lemma NextIsEmpty(s: State, records: seq<Option<Block>>, c: nat, k: nat)
      requires k > 0 && |s.ia| == NADDR && c <= |records| && Image(s, records, c, k)
      ensures EmptyFrom(s.blocks, s.ia, c, k)
    {
      hide EmptyFrom, Content;
    }

    /** Restoring a file and truncating it again gives back the free list, in its old order. */
    method RestoreThenTruncate(records: seq<Option<Block>>) returns (ok: bool)
      requires Valid()
      requires forall i :: 0 <= i < |records| && records[i].Some? ==> |records[i].value| == disk.width
      modifies this`sNfree, this`free, this`curbno, sFree, disk, disk.cache, taddr
      ensures ok ==> Valid() && free == old(free)
      ensures ok ==> KeptOutside(old(disk.blocks), disk.blocks, free)
    {
      hide Chain, Capacity, EmptyFrom, Content, Nodes, Image;
      var none := seq(NADDR, i => 0);
      EmptyFileSound(Snap(none), records, Pow2(nshift));
      ghost var s := Snap(none);
      ok := Restore(Regular, none, 0, records);
      if ok {
        ghost var t := Snap(taddr[..]);
        ITrunc(Regular, taddr[..]);
        TruncatedOutside(t, disk.blocks);
      }
    }
  }
}
