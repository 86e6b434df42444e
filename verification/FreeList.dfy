/** The free list: one group of block numbers in core, the others chained through the free blocks themselves. */
module FreeList {
  import opened BlockCache
  import opened FileState

  /** The block holds a group in its first words: a count, then that many block numbers. */
  ghost predicate HoldsGroup(b: Block, nicfree: nat) {
    |b| > nicfree && 1 <= b[0] <= nicfree
  }

  ghost function GroupIn(b: Block, nicfree: nat): seq<int>
    requires HoldsGroup(b, nicfree)
  {
    b[1..1 + b[0]]
  }

  /** `group` and the groups chained below it spell out `stack`, whose top is the last number of `group`.
      The first number of a group is the block that holds the next one, or 0 at the bottom. */
  ghost predicate Chain(blocks: seq<Block>, group: seq<int>, stack: seq<int>, nicfree: nat)
    decreases |stack|
  {
    && 1 <= |group| <= nicfree
    && if group[0] == 0 then stack == group[1..]
       else
         && |group| <= |stack| && stack[|stack| - |group|..] == group
         && 0 < group[0] < |blocks| && HoldsGroup(blocks[group[0]], nicfree)
         && Chain(blocks, GroupIn(blocks[group[0]], nicfree), stack[..|stack| - |group|], nicfree)
  }

  lemma {:induction false} ChainFrame(was: seq<Block>, now: seq<Block>, group: seq<int>, stack: seq<int>, nicfree: nat)
    requires Chain(was, group, stack, nicfree) && |now| == |was|
    requires forall b :: b in stack && 0 <= b < |was| ==> now[b] == was[b]
    ensures Chain(now, group, stack, nicfree)
    decreases |stack|
  {
    if group[0] != 0 {
      var cut := |stack| - |group|;
      assert stack[cut..][0] == stack[cut];
      assert forall b :: b in stack[..cut] ==> b in stack;
      ChainFrame(was, now, GroupIn(was[group[0]], nicfree), stack[..cut], nicfree);
    }
  }

  /** The blocks on the volume determine the stack. */
  lemma {:induction false} ChainUnique(blocks: seq<Block>, group: seq<int>, s: seq<int>, t: seq<int>, nicfree: nat)
    requires Chain(blocks, group, s, nicfree) && Chain(blocks, group, t, nicfree)
    ensures s == t
    decreases |s|
  {
    if group[0] != 0 {
      ChainUnique(blocks, GroupIn(blocks[group[0]], nicfree), s[..|s| - |group|], t[..|t| - |group|], nicfree);
      assert s == s[..|s| - |group|] + group;
      assert t == t[..|t| - |group|] + group;
    }
  }

  /** Freeing into a group that has room. */
  lemma {:induction false} ChainPush(blocks: seq<Block>, group: seq<int>, stack: seq<int>, bn: int, nicfree: nat)
    requires Chain(blocks, group, stack, nicfree) && |group| < nicfree
    ensures Chain(blocks, group + [bn], stack + [bn], nicfree)
  {
    if group[0] == 0 {
      assert (group + [bn])[1..] == group[1..] + [bn];
    } else {
      var cut := |stack| - |group|;
      assert (stack + [bn])[cut..] == group + [bn];
      assert (stack + [bn])[..cut] == stack[..cut];
    }
  }

  /** Freeing into a full group: it spills into the block freed, which starts a new group. */
  lemma {:induction false} ChainSpill(blocks: seq<Block>, group: seq<int>, stack: seq<int>, bn: int, b: Block, nicfree: nat)
    requires Chain(blocks, group, stack, nicfree) && 0 < bn < |blocks| && bn !in stack
    requires HoldsGroup(b, nicfree) && GroupIn(b, nicfree) == group
    ensures Chain(blocks[bn := b], [bn], stack + [bn], nicfree)
  {
    ChainFrame(blocks, blocks[bn := b], group, stack, nicfree);
    assert (stack + [bn])[|stack|..] == [bn];
    assert (stack + [bn])[..|stack|] == stack;
  }

  /** The group left in core when the top is taken: its last group is replaced by the one it holds. */
  ghost function Popped(blocks: seq<Block>, group: seq<int>, nicfree: nat): seq<int>
    requires group != []
  {
    var top := group[|group| - 1];
    if |group| > 1 then group[..|group| - 1]
    else if 0 <= top < |blocks| && HoldsGroup(blocks[top], nicfree) then GroupIn(blocks[top], nicfree)
    else []
  }

  lemma {:induction false} ChainBelow(blocks: seq<Block>, group: seq<int>, stack: seq<int>, nicfree: nat)
    requires Chain(blocks, group, stack, nicfree) && stack != []
    ensures group[|group| - 1] == stack[|stack| - 1]
    ensures |group| == 1 ==> HoldsGroup(blocks[stack[|stack| - 1]], nicfree)
    ensures Chain(blocks, Popped(blocks, group, nicfree), stack[..|stack| - 1], nicfree)
  {
    hide HoldsGroup, GroupIn;
    if |group| > 1 {
      ChainShortens(blocks, group, stack, nicfree);
    } else {
      var cut := |stack| - 1;
      assert stack[cut..][0] == stack[cut];
      assert group == [stack[cut]];
    }
  }

  lemma {:induction false} ChainShortens(blocks: seq<Block>, group: seq<int>, stack: seq<int>, nicfree: nat)
    requires Chain(blocks, group, stack, nicfree) && |group| > 1
    ensures stack != [] && group[|group| - 1] == stack[|stack| - 1]
    ensures Chain(blocks, group[..|group| - 1], stack[..|stack| - 1], nicfree)
  {
    hide HoldsGroup, GroupIn;
    var shorter, n := group[..|group| - 1], |stack|;
    assert shorter[0] == group[0];
    if group[0] == 0 {
      assert shorter[1..] == stack[..n - 1];
    } else {
      TailShortens(stack, n - |group|);
    }
  }

  lemma TailShortens(stack: seq<int>, cut: nat)
    requires cut < |stack|
    ensures stack[cut..][|stack| - cut - 1] == stack[|stack| - 1]
    ensures stack[..|stack| - 1][cut..] == stack[cut..][..|stack| - cut - 1]
    ensures stack[..|stack| - 1][..cut] == stack[..cut]
  {
  }

  /** Taking the top block and overwriting it leaves the rest of the stack in place. */
  lemma {:induction false} ChainPop(blocks: seq<Block>, group: seq<int>, stack: seq<int>, b: Block, nicfree: nat)
    requires Chain(blocks, group, stack, nicfree) && Usable(stack, |blocks|)
    ensures stack == [] ==> group == [0]
    ensures stack != [] ==>
      var top, rest := stack[|stack| - 1], stack[..|stack| - 1];
      && top == group[|group| - 1] && 0 < top < |blocks| && top !in rest && Usable(rest, |blocks|)
      && (|group| == 1 ==> HoldsGroup(blocks[top], nicfree))
      && Chain(blocks[top := b], Popped(blocks, group, nicfree), rest, nicfree)
  {
    if stack != [] {
      var top, rest := stack[|stack| - 1], stack[..|stack| - 1];
      ChainBelow(blocks, group, stack, nicfree);
      ChainFrame(blocks, blocks[top := b], Popped(blocks, group, nicfree), rest, nicfree);
    }
  }

  // The in-core group [5, 7] with block 5 holding the count two and the group [0, 4]: 7 goes out first, then
  // 5, then 4.
  lemma ThreeFree()
    ensures var empty: Block := [0, 0, 0];
      Chain([empty, empty, empty, empty, empty, [2, 0, 4], empty, empty], [5, 7], [4, 5, 7], 2)
  {
    var empty: Block := [0, 0, 0];
    var blocks := [empty, empty, empty, empty, empty, [2, 0, 4], empty, empty];
    assert GroupIn(blocks[5], 2) == [0, 4];
    assert Chain(blocks, [0, 4], [4], 2);
  }

  /** Of the groups that chain into a stack, the last in core is on top and an indirect one begins with
      the block that held it. */
  lemma ChainInNumbers(blocks: seq<Block>, group: seq<int>, stack: seq<int>, nicfree: nat)
    requires Chain(blocks, group, stack, nicfree) && group[0] != 0
    ensures 0 < group[0] < |blocks| && |blocks[group[0]]| > nicfree && 1 <= blocks[group[0]][0] <= nicfree
    ensures var b, n := blocks[group[0]], |stack| - |group|;
      n >= 0 && stack[n..] == group && Chain(blocks, b[1..1 + b[0]], stack[..n], nicfree)
  {
  }
}
