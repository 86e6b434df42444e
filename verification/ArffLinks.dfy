/** What becomes of the links between directory segments when an end mark falls on one of them. */
module ArffLinks {
  import opened Options
  import opened Floppy
  import opened Extents
  import opened Arff

  // Where a segment first stands in the chain of links, or the chain's length.
  function Where(chain: seq<nat>, s: nat): (t: nat)
    ensures t <= |chain| && (t < |chain| ==> chain[t] == s) && s !in chain[..t]
    ensures t < |chain| <==> s in chain
  {
    if chain == [] || chain[0] == s then 0
    else
      assert chain == [chain[0]] + chain[1..];
      1 + Where(chain[1..], s)
  }

  lemma {:induction false} LinkedAlike(heads: seq<Head>, after: seq<Head>, segnum: int, chain: seq<nat>)
    requires Linked(heads, segnum, chain) && |after| == |heads|
    requires forall t :: 0 <= t < |heads| && t in chain ==> after[t] == heads[t]
    ensures Linked(after, segnum, chain)
    decreases |chain|
  {
    if chain != [] {
      assert chain == [chain[0]] + chain[1..];
      LinkedAlike(heads, after, heads[segnum].nxtseg - 1, chain[1..]);
    }
  }

  /** Two directories with the same links up to a segment have chains that agree up to it. */
  lemma {:induction false} ChainsAgree(heads: seq<Head>, after: seq<Head>, segnum: int, chain: seq<nat>, later: seq<nat>, s: nat)
    requires Linked(heads, segnum, chain) && Linked(after, segnum, later) && |after| == |heads| && s in chain
    requires forall t :: 0 <= t < |heads| && t != s ==> after[t] == heads[t]
    ensures chain[..Where(chain, s) + 1] <= later
    decreases |chain|
  {
    assert later != [] && later == [later[0]] + later[1..] && chain == [chain[0]] + chain[1..];
    if chain[0] != s {
      ChainsAgree(heads, after, heads[segnum].nxtseg - 1, chain[1..], later[1..], s);
      assert chain[..Where(chain, s) + 1] == [chain[0]] + chain[1..][..Where(chain[1..], s) + 1];
    }
  }

  lemma LinkAfter(heads: seq<Head>, chain: seq<nat>, t: nat)
    requires Linked(heads, 0, chain) && t < |chain|
    ensures chain[t] < |heads| && heads[chain[t]].nxtseg - 1 == if t + 1 < |chain| then chain[t + 1] else -1
  {
    LinkedFrom(heads, 0, chain, t);
    assert chain[t..][1..] == chain[t + 1..];
  }

  /** The links after the link of segment s+1 has been overwritten. Nothing changes exactly when there
      is no such segment or it had that link; and the chain is the same exactly when that segment was
      not in it or had that link. Up to that segment it is the same in any case. */
  lemma RelinkedChain(heads: seq<Head>, chain: seq<nat>, s: nat, link: int, later: seq<nat>)
    requires Linked(heads, 0, chain) && Linked(Relinked(heads, s, link), 0, later)
    ensures Relinked(heads, s, link) == heads <==> s + 1 >= |heads| || link == heads[s + 1].nxtseg
    ensures later == chain <==> s + 1 !in chain || (s + 1 < |heads| && link == heads[s + 1].nxtseg)
    ensures s + 1 in chain ==> chain[..Where(chain, s + 1) + 1] <= later
  {
    var after := Relinked(heads, s, link);
    if s + 1 in chain {
      var t := Where(chain, s + 1);
      LinkAfter(heads, chain, t);
      ChainsAgree(heads, after, 0, chain, later, s + 1);
      assert later[t] == chain[..t + 1][t] == s + 1;
      LinkAfter(after, later, t);
      if link == heads[s + 1].nxtseg {
        assert after == heads;
        OneChain(heads, 0, chain, later);
      }
    } else {
      LinkedAlike(heads, after, 0, chain);
      OneChain(after, 0, chain, later);
    }
  }

  // The chain up to a segment, or all of it.
  function UpTo(chain: seq<nat>, s: nat): seq<nat> {
    if s in chain then chain[..Where(chain, s) + 1] else chain
  }

  /** A mark of length zero cuts the chain behind that segment. */
  lemma {:induction false} CutByZero(heads: seq<Head>, segnum: int, chain: seq<nat>, s: nat)
    requires Linked(heads, segnum, chain)
    ensures Linked(Relinked(heads, s, 0), segnum, UpTo(chain, s + 1))
    decreases |chain|
  {
    if chain != [] {
      var after := Relinked(heads, s, 0);
      assert chain == [chain[0]] + chain[1..];
      if chain[0] == s + 1 {
        assert UpTo(chain, s + 1) == [s + 1] && [s + 1][1..] == [];
        assert Linked(after, -1, []);
      } else {
        CutByZero(heads, heads[segnum].nxtseg - 1, chain[1..], s);
        assert UpTo(chain, s + 1) == [chain[0]] + UpTo(chain[1..], s + 1);
      }
    }
  }

  /** The links still end after any creation when the end marks have length zero, and then no segment
      comes into the chain that was not there. */
  lemma ZeroMarksEnd(d: Dir, heads: seq<Head>, marks: seq<int>, chain: seq<nat>, rname: seq<nat>, size: nat, later: seq<nat>)
    requires |d| == |heads| == |marks| && InDir(d, chain) && Linked(heads, 0, chain)
    requires forall s :: 0 <= s < |marks| ==> marks[s] == 0
    ensures LinksEnd(NewHeads(d, heads, marks, chain, rname, size))
    ensures Linked(NewHeads(d, heads, marks, chain, rname, size), 0, later) ==> later <= chain
  {
    hide Found, FirstFit, Linked, CountFor, Relinked;
    var after := NewHeads(d, heads, marks, chain, rname, size);
    if after == heads {
      assert Linked(heads, 0, chain);
      if Linked(after, 0, later) {
        OneChain(heads, 0, chain, later);
      }
    } else {
      var s := FirstFit(d, chain, size).value.0;
      CutByZero(heads, 0, chain, s);
      if Linked(after, 0, later) {
        OneChain(after, 0, UpTo(chain, s + 1), later);
      }
    }
  }

  // A new entry is made, at the first hole that is big enough.
  predicate Enters(d: Dir, heads: seq<Head>, chain: seq<nat>, rname: seq<nat>, size: nat)
    requires |d| == |heads| && InDir(d, chain)
  {
    var was := Found(d, heads, chain, rname);
    !(was.Some? && size <= was.value.count) && FirstFit(d, chain, size).Some?
  }

  /** A creation leaves the links as they were exactly when its end mark stays inside the segment's
      slots, no next segment is in use, or the mark's length is the link that was there. */
  lemma CreationKeepsLinks(d: Dir, heads: seq<Head>, marks: seq<int>, chain: seq<nat>, rname: seq<nat>, size: nat, later: seq<nat>)
    requires |d| == |heads| == |marks| && InDir(d, chain) && Enters(d, heads, chain, rname, size)
    requires Linked(heads, 0, chain) && Linked(NewHeads(d, heads, marks, chain, rname, size), 0, later)
    ensures var (s, k) := FirstFit(d, chain, size).value;
      && (NewHeads(d, heads, marks, chain, rname, size) == heads
          <==> !MarkLeaves(d[s], k, size) || s + 1 >= |heads| || marks[s] == heads[s + 1].nxtseg)
      && (later == chain
          <==> !MarkLeaves(d[s], k, size) || s + 1 !in chain || (s + 1 < |heads| && marks[s] == heads[s + 1].nxtseg))
      && (s + 1 in chain ==> chain[..Where(chain, s + 1) + 1] <= later)
  {
    hide Found, FirstFit, Linked, MarkLeaves, Relinked;
    var (s, k) := FirstFit(d, chain, size).value;
    if MarkLeaves(d[s], k, size) {
      RelinkedChain(heads, chain, s, marks[s], later);
    } else {
      OneChain(heads, 0, chain, later);
      assert chain[..|chain|] == chain;
    }
  }
}
