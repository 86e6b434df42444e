/** The RT-11 archiver's directory: lookup, first-fit creation, deletion and compaction over
    directory segments held in memory and written back one segment at a time. */
module Arff {
  import opened Options
  import opened Arithmetic
  import opened Floppy
  import opened Extents

  // Entry slots of a segment, and the slot past the end at which the search for the end mark stops.
  const SLOTS: nat := 72

  datatype Head = Head(nxtseg: int, stfile: int)

  datatype Dope = Dope(startad: int, count: int, segnum: nat, index: nat)

  type Dir = seq<seq<Ent>>

  /** The segments in the order in which they are linked; the source needs the links to end. */
  ghost predicate Linked(heads: seq<Head>, segnum: int, chain: seq<nat>)
    decreases |chain|
  {
    if chain == [] then segnum == -1
    else segnum == chain[0] < |heads| && Linked(heads, heads[segnum].nxtseg - 1, chain[1..])
  }

  function Match(es: seq<Ent>, rname: seq<nat>): (k: nat)
    ensures k <= |es|
    ensures k < |es| ==> Taken(es[k]) && es[k].name == rname
    ensures forall i :: 0 <= i < k ==> !(Taken(es[i]) && es[i].name == rname)
  {
    if es == [] then 0 else if Taken(es[0]) && es[0].name == rname then 0 else 1 + Match(es[1..], rname)
  }

  function Fit(es: seq<Ent>, size: nat): (k: nat)
    ensures k <= |es|
    ensures k < |es| ==> Hole(es[k]) && size <= es[k].len * RT_BLOCK
    ensures forall i :: 0 <= i < k ==> !(Hole(es[i]) && size <= es[i].len * RT_BLOCK)
  {
    if es == [] then 0 else if Hole(es[0]) && size <= es[0].len * RT_BLOCK then 0 else 1 + Fit(es[1..], size)
  }

  function DopeAt(d: Dir, heads: seq<Head>, s: nat, k: nat): Dope
    requires s < |d| == |heads| && k < |d[s]|
  {
    Dope(RT_BLOCK * (heads[s].stfile + Sum(d[s][..k])), d[s][k].len * RT_BLOCK, s, k)
  }

  predicate At(d: Dir, dope: Dope) { dope.segnum < |d| && dope.index < |d[dope.segnum]| }

  /** The first entry of that name, in link order. */
  function Found(d: Dir, heads: seq<Head>, chain: seq<nat>, rname: seq<nat>): (f: Option<Dope>)
    requires |d| == |heads| && InDir(d, chain)
    ensures f.Some? ==> At(d, f.value) && f.value == DopeAt(d, heads, f.value.segnum, f.value.index)
  {
    if chain == [] then None
    else
      var s := chain[0];
      var k := Match(d[s], rname);
      if k < |d[s]| then Some(DopeAt(d, heads, s, k)) else Found(d, heads, chain[1..], rname)
  }

  lemma FoundStep(d: Dir, heads: seq<Head>, chain: seq<nat>, rname: seq<nat>)
    requires |d| == |heads| && InDir(d, chain) && chain != []
    ensures var s, k := chain[0], Match(d[chain[0]], rname);
      Found(d, heads, chain, rname) == if k < |d[s]| then Some(DopeAt(d, heads, s, k)) else Found(d, heads, chain[1..], rname)
  {
    hide Sum;
  }

  lemma FoundNowhere(d: Dir, heads: seq<Head>, rname: seq<nat>)
    requires |d| == |heads|
    ensures Found(d, heads, [], rname) == None
  {
  }

  lemma FirstFitStep(d: Dir, chain: seq<nat>, size: nat)
    requires InDir(d, chain)
    ensures FirstFit(d, chain, size)
      == if chain == [] then None
         else if Fit(d[chain[0]], size) < |d[chain[0]]| then Some((chain[0], Fit(d[chain[0]], size)))
         else FirstFit(d, chain[1..], size)
  {
  }

  lemma LinkStep(heads: seq<Head>, segnum: int, chain: seq<nat>)
    requires Linked(heads, segnum, chain) && segnum != -1
    ensures chain != [] && segnum == chain[0] < |heads| && Linked(heads, heads[segnum].nxtseg - 1, chain[1..])
  {
  }

  lemma LinkEnds(heads: seq<Head>, segnum: int, chain: seq<nat>)
    requires Linked(heads, segnum, chain) && segnum < 0
    ensures segnum == -1 && chain == []
  {
  }

  predicate InDir(d: Dir, chain: seq<nat>) { forall t :: 0 <= t < |chain| ==> chain[t] < |d| }

  predicate Fits(d: Dir, s: nat, k: nat, size: nat) {
    s < |d| && k < |d[s]| && Hole(d[s][k]) && size <= d[s][k].len * RT_BLOCK
  }

  function FirstFit(d: Dir, chain: seq<nat>, size: nat): (fit: Option<(nat, nat)>)
    requires InDir(d, chain)
    ensures fit.Some? ==> Fits(d, fit.value.0, fit.value.1, size)
    ensures fit.None? ==> forall t, k :: 0 <= t < |chain| ==> !Fits(d, chain[t], k, size)
  {
    if chain == [] then None
    else
      var k := Fit(d[chain[0]], size);
      if k < |d[chain[0]]| then Some((chain[0], k)) else FirstFit(d, chain[1..], size)
  }

  datatype Created = Made(dope: Dope) | NoSpace | SegmentFull | Lost

  // One entry is copied a place up for each entry from `de` to the end mark.
  method ShiftUp(a: array<Ent>, de: nat, last: nat)
    requires de <= last < a.Length
    modifies a
    ensures forall k :: 0 <= k < a.Length ==> a[k] == old(if de < k <= last then a[k - 1] else a[k])
  {
    var workp := last;
    while workp > de
      invariant de <= workp <= last
      invariant forall k :: 0 <= k < a.Length ==> a[k] == old(if workp < k <= last then a[k - 1] else a[k])
    {
      a[workp] := a[workp - 1];
      workp := workp - 1;
    }
  }

  method ShiftDown(a: array<Ent>, de: nat, last: nat)
    requires de <= last < a.Length
    modifies a
    ensures forall k :: 0 <= k < a.Length ==> a[k] == old(if de <= k < last then a[k + 1] else a[k])
  {
    var workp := de;
    while workp < last
      invariant de <= workp <= last
      invariant forall k :: 0 <= k < a.Length ==> a[k] == old(if de <= k < workp then a[k + 1] else a[k])
    {
      a[workp] := a[workp + 1];
      workp := workp + 1;
    }
  }

  // The entries before the end mark at `end`, and no end mark among them.
  ghost predicate Marked(a: array<Ent>, end: nat)
    reads a
  {
    && a.Length == SLOTS + 1 && end <= SLOTS && a[end].stat == RT_ESEG
    && forall k :: 0 <= k < end ==> a[k].stat != RT_ESEG
  }

  lemma EndMark(a: array<Ent>, end: nat)
    requires Marked(a, end)
    ensures a.Length == SLOTS + 1 && end <= SLOTS && !Hole(a[end])
  {
  }

  // The holes at de and de+1 run together and everything after them moves down a place.
  function JoinedAt(es: seq<Ent>, de: nat): seq<Ent>
    requires de + 1 < |es|
  {
    es[..de] + [es[de + 1].(len := es[de + 1].len + es[de].len)] + es[de + 2..]
  }

  method JoinHoles(a: array<Ent>, de: nat, end: nat)
    requires Marked(a, end) && de + 1 < end
    modifies a
    ensures Marked(a, end - 1) && a[..end - 1] == JoinedAt(old(a[..end]), de) && a[end - 1] == old(a[end])
  {
    a[de + 1] := a[de + 1].(len := a[de + 1].len + a[de].len);
    ShiftDown(a, de, end);
  }

  /** Compaction has got as far as `de`: what is before it is final. */
  ghost predicate Compacted(was: seq<Ent>, es: seq<Ent>, de: nat) {
    de <= |es| && Merged(was) == es[..de] + Merged(es[de..])
  }

  lemma CompactJoin(was: seq<Ent>, es: seq<Ent>, de: nat)
    requires Compacted(was, es, de) && de + 1 < |es| && Hole(es[de]) && Hole(es[de + 1])
    ensures Compacted(was, JoinedAt(es, de), de)
  {
    var tail := es[de..];
    assert JoinedAt(es, de)[de..] == [tail[1].(len := tail[1].len + tail[0].len)] + tail[2..];
    assert JoinedAt(es, de)[..de] == es[..de];
  }

  lemma CompactPass(was: seq<Ent>, es: seq<Ent>, de: nat)
    requires Compacted(was, es, de) && de < |es| && !(de + 1 < |es| && Hole(es[de]) && Hole(es[de + 1]))
    ensures Compacted(was, es, de + 1)
  {
    var tail := es[de..];
    assert Merged(tail) == [tail[0]] + Merged(tail[1..]);
    assert tail[1..] == es[de + 1..] && es[..de + 1] == es[..de] + [es[de]];
  }

  lemma CompactEnds(was: seq<Ent>, es: seq<Ent>)
    ensures Compacted(was, was, 0)
    ensures Compacted(was, es, |es|) ==> Merged(was) == es
  {
    assert was[0..] == was;
  }

  method CompactOnce(a: array<Ent>, de: nat, end: nat, ghost was: seq<Ent>) returns (next: nat, newend: nat)
    requires Marked(a, end) && de <= end && Compacted(was, a[..end], de)
    modifies a
    ensures Marked(a, newend) && a[newend] == old(a[end]) && Compacted(was, a[..newend], Min(next, newend))
    ensures (next == de && newend == end - 1) || (next == de + 1 && newend == end)
  {
    hide Merged, Compacted, JoinedAt, Marked;
    EndMark(a, end);
    ghost var es := a[..end];
    if Hole(a[de]) && Hole(a[de + 1]) {
      CompactJoin(was, es, de);
      JoinHoles(a, de, end);
      next, newend := de, end - 1;
    } else {
      if de < end {
        CompactPass(was, es, de);
      }
      next, newend := de + 1, end;
    }
  }

  /** Compaction of one segment in place; it reports whether anything was merged. */
  method ScrunchSegment(a: array<Ent>, end: nat) returns (newend: nat, merged: bool)
    requires Marked(a, end)
    modifies a
    ensures newend <= end && Marked(a, newend) && a[newend] == old(a[end])
    ensures a[..newend] == Merged(old(a[..end]))
    ensures merged <==> !NoTwoHoles(old(a[..end]))
  {
    hide Merged, NoTwoHoles, Compacted, Marked;
    EndMark(a, end);
    ghost var was := a[..end];
    newend, merged := end, false;
    CompactEnds(was, was);
    var de := 0;
    while de <= newend
      invariant 0 <= de <= newend + 1 && newend <= end <= SLOTS && a.Length == SLOTS + 1
      invariant Marked(a, newend) && a[newend] == old(a[end]) && merged == (newend < end)
      invariant Compacted(was, a[..newend], Min(de, newend))
      decreases newend - de + newend
    {
      var next, last := CompactOnce(a, de, newend, was);
      if last < newend {
        merged := true;
      }
      de, newend := next, last;
    }
    CompactEnds(was, a[..newend]);
    MergedChanges(was);
  }

  method SplitHole(a: array<Ent>, end: nat, de: nat, count: int)
    requires Marked(a, end) && de < end < SLOTS
    modifies a
    ensures Marked(a, end + 1) && a[end + 1] == old(a[end])
    ensures var es := old(a[..end]);
      a[..end + 1] == es[..de] + [es[de].(len := count), es[de].(len := es[de].len - count)] + es[de + 1..]
  {
    ShiftUp(a, de, end + 1);
    a[de + 1] := a[de + 1].(len := a[de + 1].len - count);
    a[de] := a[de].(len := count);
  }

  /** A file takes the hole at de; what is left of the hole needs a slot of its own. */
  method TakeHole(a: array<Ent>, end: nat, de: nat, size: nat, rname: seq<nat>, date: int)
    returns (newend: nat, full: bool)
    requires Marked(a, end) && de < end
    modifies a
    ensures full <==> old(a[de].len) != CountFor(size) && end == SLOTS
    ensures full ==> newend == end && a[..] == old(a[..])
    ensures !full ==> newend == if old(a[de].len) == CountFor(size) then end else end + 1
    ensures Marked(a, newend) && a[newend] == old(a[end])
    ensures !full ==> a[..newend] == Split(old(a[..end]), de, CountFor(size), rname, date)
  {
    hide CountFor;
    var count := CountFor(size);
    newend, full := end, false;
    if a[de].len != count {
      if end == SLOTS {
        full := true;
        return;
      }
      SplitHole(a, end, de, count);
      newend := end + 1;
    }
    ghost var es := a[..newend];
    a[de] := Ent(RT_FILE, rname, a[de].len, date);
    assert a[..newend] == es[de := Ent(RT_FILE, rname, count, date)];
  }

  function WithoutOld(d: Dir, was: Option<Dope>): (after: Dir)
    requires was.Some? ==> At(d, was.value)
    ensures |after| == |d|
  {
    match was
    case None => d
    case Some(dope) => d[dope.segnum := Deleted(d[dope.segnum], dope.index)]
  }

  lemma FoundIn(d: Dir, heads: seq<Head>, chain: seq<nat>, rname: seq<nat>)
    requires |d| == |heads| && InDir(d, chain)
    ensures var f := Found(d, heads, chain, rname);
      && (f.Some? ==> f.value.segnum in chain && f.value.index == Match(d[f.value.segnum], rname) < |d[f.value.segnum]|
                      && f.value == DopeAt(d, heads, f.value.segnum, f.value.index)
                      && Taken(d[f.value.segnum][f.value.index]) && d[f.value.segnum][f.value.index].name == rname)
      && (f.None? ==> forall t :: 0 <= t < |chain| ==> Match(d[chain[t]], rname) == |d[chain[t]]|)
  {
  }

  class Directory {
    const ents: seq<array<Ent>>
    const curend: array<nat>
    var heads: seq<Head>
    // The image of each segment last written to the floppy.
    var saved: Dir
    var dirdirty: bool
    ghost var chain: seq<nat>
    // The length field of each segment's end mark, which moves with the mark.
    ghost const marks: seq<int>

    /** The slot past a segment's last one lies over the header of the next segment in memory, so an
        end mark there has that segment's link for its length. */
    ghost predicate Structured()
      reads this`heads, this`saved, curend, ents
    {
      && |ents| == |heads| == curend.Length == |saved| == |marks|
      && (forall s, t :: 0 <= s < t < |ents| ==> ents[s] != ents[t])
      && (forall s :: 0 <= s < |ents| ==> Marked(ents[s], curend[s]) && ents[s][curend[s]].len == marks[s])
      && forall s :: 0 <= s < |ents| && curend[s] == SLOTS ==> Overlaps(heads, s, marks[s])
    }

    ghost predicate Valid()
      reads this`heads, this`saved, this`chain, curend, ents
    {
      && Structured()
      && Linked(heads, 0, chain)
      && forall t, u :: 0 <= t < u < |chain| ==> chain[t] != chain[u]
    }

    ghost function Live(): (d: Dir)
      reads this`heads, this`saved, curend, ents
      requires Structured()
      ensures |d| == |ents| && forall s :: 0 <= s < |ents| ==> d[s] == ents[s][..curend[s]]
    {
      seq(|ents|, s requires 0 <= s < |ents| == curend.Length && curend[s] <= ents[s].Length reads curend, ents =>
        ents[s][..curend[s]])
    }

    // The links still end when a file of that size has been made.
    ghost predicate StillEnds(rname: seq<nat>, size: nat)
      reads this, curend, ents
      requires Valid()
    {
      LiveInside();
      LinksEnd(NewHeads(Live(), heads, marks, chain, rname, size))
    }

    lemma LiveInside()
      requires Valid()
      ensures InDir(Live(), chain)
    {
      LinkedInside(heads, 0, chain);
    }

    lemma LiveSegment(s: nat)
      requires Structured() && s < |ents|
      ensures Marked(ents[s], curend[s]) && Live()[s] == ents[s][..curend[s]] && ents[s][curend[s]].len == marks[s]
    {
    }

    lemma Parts(s: nat)
      requires Structured() && s < |ents|
      ensures |ents| == |saved| == curend.Length == |heads| == |marks|
      ensures curend[s] == SLOTS ==> Overlaps(heads, s, marks[s])
      ensures forall t :: 0 <= t < |ents| && t != s ==> ents[t] != ents[s]
    {
    }

    twostate lemma OneSegmentChanged(s: nat)
      requires old(Structured()) && s < |ents| == |saved| && Marked(ents[s], curend[s])
      requires ents[s][curend[s]].len == marks[s]
      requires heads == old(heads) || heads == Relinked(old(heads), s, marks[s])
      requires curend[s] == SLOTS ==> Overlaps(heads, s, marks[s])
      requires forall t :: 0 <= t < |ents| && t != s ==> unchanged(ents[t]) && curend[t] == old(curend[t])
      ensures Structured() && Live() == old(Live())[s := ents[s][..curend[s]]]
    {
      forall t | 0 <= t < |ents|
        ensures Marked(ents[t], curend[t]) && ents[t][curend[t]].len == marks[t]
        ensures curend[t] == SLOTS ==> Overlaps(heads, t, marks[t])
      {
        assert old(Marked(ents[t], curend[t]) && ents[t][curend[t]].len == marks[t]);
      }
      assert Structured();
      forall t | 0 <= t < |ents| && t != s
        ensures Live()[t] == old(Live())[t]
      {
        assert old(ents[t][..curend[t]]) == ents[t][..curend[t]];
      }
    }

    constructor (ents: seq<array<Ent>>, heads: seq<Head>, curend: array<nat>, saved: Dir, dirdirty: bool,
                 ghost chain: seq<nat>, ghost marks: seq<int>)
      ensures this.ents == ents && this.heads == heads && this.curend == curend && this.saved == saved
      ensures this.dirdirty == dirdirty && this.chain == chain && this.marks == marks
    {
      this.ents, this.heads, this.curend := ents, heads, curend;
      this.saved, this.dirdirty, this.chain, this.marks := saved, dirdirty, chain, marks;
    }

    // What the segments read in make of a directory that holds them.
    lemma InitDirectory(images: seq<Segment>)
      requires AllHeld(ents, curend, images) && |images| == |saved| && heads == Heads(images) && Slotted(images)
      requires marks == MarkLengths(images)
      requires LinksEnd(heads) ==> Linked(heads, 0, chain)
      ensures Valid() <==> Sound(images)
      ensures Valid() ==> Live() == Entries(images)
    {
      hide EndOf, Linked;
      forall s | 0 <= s < |ents|
        ensures Marked(ents[s], curend[s]) <==> EndOf(images[s].slots) < |images[s].slots|
        ensures Marked(ents[s], curend[s]) ==> ents[s][curend[s]].len == marks[s]
        ensures Marked(ents[s], curend[s]) && curend[s] == SLOTS ==> Overlaps(heads, s, marks[s])
        ensures ents[s][..curend[s]] == images[s].slots[..EndOf(images[s].slots)]
      {
      }
      if Linked(heads, 0, chain) {
        LinkedDistinct(heads, chain);
      }
    }

    method LookupSegment(segnum: nat, rname: seq<nat>) returns (k: nat, index: int)
      requires Valid() && segnum < |ents|
      ensures k == Match(Live()[segnum], rname) && index == Sum(Live()[segnum][..k])
    {
      hide Linked, Match;
      LiveSegment(segnum);
      var a := ents[segnum];
      ghost var es := Live()[segnum];
      k, index := 0, 0;
      while a[k].stat != RT_ESEG
        invariant k <= |es| && index == Sum(es[..k])
        invariant forall i :: 0 <= i < k ==> !(Taken(es[i]) && es[i].name == rname)
        decreases |es| - k
      {
        if Taken(a[k]) && a[k].name == rname {
          break;
        }
        index := index + Blocks(a[k]);
        SumStep(es, k);
        k := k + 1;
      }
      MatchIs(es, rname, k);
    }

    method Lookup(rname: seq<nat>) returns (dope: Option<Dope>)
      requires Valid()
      ensures InDir(Live(), chain) && dope == Found(Live(), heads, chain, rname)
    {
      hide Match, Marked, Structured, Live, Linked, Found, Sum;
      LiveInside();
      StartOfChain();
      var segnum := 0;
      ghost var rest := chain;
      while segnum >= 0
        invariant Linked(heads, segnum, rest) && InDir(Live(), rest)
        invariant Found(Live(), heads, chain, rname) == Found(Live(), heads, rest, rname)
        decreases |rest|
      {
        LinkStep(heads, segnum, rest);
        FoundStep(Live(), heads, rest, rname);
        var k, index := LookupSegment(segnum, rname);
        Parts(segnum);
        LiveSegment(segnum);
        EndMark(ents[segnum], curend[segnum]);
        if k < curend[segnum] {
          var count := ents[segnum][k].len * RT_BLOCK;
          return Some(Dope(RT_BLOCK * (heads[segnum].stfile + index), count, segnum, k));
        }
        segnum := heads[segnum].nxtseg - 1;
        rest := rest[1..];
      }
      LinkEnds(heads, segnum, rest);
      FoundNowhere(Live(), heads, rname);
      return None;
    }

    lemma StartOfChain()
      requires Valid()
      ensures Linked(heads, 0, chain) && |Live()| == |heads| == |ents| == |saved| && Structured()
      ensures forall t, u :: 0 <= t < u < |chain| ==> chain[t] != chain[u]
    {
    }

    method FindHole(size: nat) returns (fit: Option<(nat, nat)>)
      requires Valid()
      ensures InDir(Live(), chain) && fit == FirstFit(Live(), chain, size)
    {
      hide Fit, Linked, FirstFit, Structured, Live;
      LiveInside();
      StartOfChain();
      var segnum := 0;
      ghost var rest := chain;
      while segnum != -1
        invariant Linked(heads, segnum, rest) && InDir(Live(), rest)
        invariant FirstFit(Live(), chain, size) == FirstFit(Live(), rest, size)
        decreases |rest|
      {
        LinkStep(heads, segnum, rest);
        FirstFitStep(Live(), rest, size);
        Parts(segnum);
        LiveSegment(segnum);
        ghost var es := Live()[segnum];
        var de := 0;
        while ents[segnum][de].stat != RT_ESEG
          invariant de <= |es|
          invariant forall i :: 0 <= i < de ==> !(Hole(es[i]) && size <= es[i].len * RT_BLOCK)
          decreases |es| - de
        {
          if Hole(ents[segnum][de]) && size <= ents[segnum][de].len * RT_BLOCK {
            FitIs(es, size, de);
            return Some((segnum, de));
          }
          de := de + 1;
        }
        FitIs(es, size, de);
        segnum := heads[segnum].nxtseg - 1;
        rest := rest[1..];
      }
      LinkEnds(heads, segnum, rest);
      FirstFitStep(Live(), [], size);
      return None;
    }

    method Delete(dope: Dope)
      requires Valid() && At(Live(), dope)
      modifies this`dirdirty, ents[dope.segnum]
      ensures Valid() && dirdirty
      ensures Live() == old(Live())[dope.segnum := Deleted(old(Live())[dope.segnum], dope.index)]
    {
      hide Linked;
      var a := ents[dope.segnum];
      a[dope.index] := Cleared(a[dope.index]);
      dirdirty := true;
    }

    /** The entry is made in its segment, which is written back. An end mark moved past the last slot
        falls on the next segment's link. */
    method MkEnt(segnum: nat, de: nat, size: nat, rname: seq<nat>, date: int) returns (full: bool)
      requires Structured() && segnum < |ents| && de < |Live()[segnum]|
      modifies this`saved, this`heads, curend, ents[segnum]
      ensures Structured() && heads == SplitHeads(old(heads), marks, segnum, old(Live())[segnum], de, size)
      ensures var es := old(Live())[segnum];
        full == (es[de].len != CountFor(size) && |es| == SLOTS)
      ensures full ==> Live() == old(Live()) && saved == old(saved)
      ensures !full ==> Live() == old(Live())[segnum := Split(old(Live())[segnum], de, CountFor(size), rname, date)]
      ensures !full ==> saved == old(saved)[segnum := Live()[segnum]]
    {
      hide Linked, Split, CountFor, Marked, Live, Structured;
      Parts(segnum);
      LiveSegment(segnum);
      EndMark(ents[segnum], curend[segnum]);
      var newend: nat;
      newend, full := TakeHole(ents[segnum], curend[segnum], de, size, rname, date);
      if !full {
        EndMark(ents[segnum], newend);
        if newend == SLOTS && curend[segnum] < SLOTS {
          heads := Relinked(heads, segnum, ents[segnum][SLOTS].len);
        }
        curend[segnum] := newend;
        saved := saved[segnum := ents[segnum][..newend]];
      }
      OneSegmentChanged(segnum);
    }

    // The old entry is deleted and the hole at k of segment s taken.
    method TakePlace(was: Option<Dope>, s: nat, k: nat, size: nat, rname: seq<nat>, date: int) returns (r: Created)
      requires Valid() && (was.Some? ==> At(Live(), was.value)) && s < |ents| && k < |Live()[s]|
      requires LinksEnd(SplitHeads(heads, marks, s, Live()[s], k, size))
      modifies this, curend, ents
      ensures Valid() && InDir(Live(), chain) && heads == SplitHeads(old(heads), marks, s, old(Live())[s], k, size)
      ensures var cleared := WithoutOld(old(Live()), was);
        if HasRoom(cleared[s], k, size)
        then Live() == Placed(old(Live()), was, s, k, size, rname, date) && saved == old(saved)[s := Live()[s]]
             && r == match Found(Live(), heads, chain, rname) case Some(dope) => Made(dope) case None => Lost
        else Live() == cleared && saved == old(saved) && r == SegmentFull
    {
      hide Linked, Marked, Split, CountFor, Found, Live, Structured, Sum, LinksEnd;
      if was.Some? {
        Delete(was.value);
      }
      var full := MkEnt(s, k, size, rname, date);
      chain := Chain(heads);
      LinkedDistinct(heads, chain);
      LiveInside();
      if full {
        return SegmentFull;
      }
      var dope := Lookup(rname);
      r := match dope case Some(x) => Made(x) case None => Lost;
    }

    method FlCreat(rname: seq<nat>, size: nat, date: int) returns (r: Created)
      requires Valid() && StillEnds(rname, size)
      modifies this, curend, ents
      ensures Valid() && InDir(old(Live()), old(chain)) && InDir(old(Live()), chain)
      ensures heads == NewHeads(old(Live()), old(heads), marks, old(chain), rname, size)
      ensures Creation(old(Live()), old(saved), old(heads), old(chain), chain, rname, size, date) == (Live(), saved, r)
    {
      hide Linked, Marked, Split, CountFor, Found, FirstFit, Sum, Placed, HasRoom, WithoutOld, Structured, Live;
      LiveInside();
      ghost var d := Live();
      var was := Lookup(rname);
      if was.Some? {
        Parts(was.value.segnum);
        LiveSegment(was.value.segnum);
        EndMark(ents[was.value.segnum], curend[was.value.segnum]);
        if size <= ents[was.value.segnum][was.value.index].len * RT_BLOCK {
          return Made(was.value);
        }
      }
      var fit := FindHole(size);
      match fit
      case None => return NoSpace;
      case Some(at) =>
        r := TakePlace(was, at.0, at.1, size, rname, date);
        StartOfChain();
        SameStarts(Live(), old(heads), heads, chain, rname);
    }

    method Scrunch()
      requires Valid()
      modifies this`saved, this`dirdirty, curend, ents
      ensures Valid()
      ensures Live() == Scrunched(old(Live()), chain) && saved == ScrunchSaved(old(Live()), old(saved), chain)
    {
      hide Merged, NoTwoHoles, Marked, Scrunched, ScrunchSaved, Live, Structured, Valid, Linked;
      StartOfChain();
      LiveInside();
      ghost var d, s0 := Live(), saved;
      ScrunchNone(d, s0);
      var segnum := 0;
      ghost var t := 0;
      assert chain[0..] == chain && chain[..0] == [];
      while segnum != -1
        invariant Valid() && Structured() && 0 <= t <= |chain| && Linked(heads, segnum, chain[t..])
        invariant Live() == Scrunched(d, chain[..t]) && saved == ScrunchSaved(d, s0, chain[..t])
        decreases |chain| - t
      {
        LinkStep(heads, segnum, chain[t..]);
        ChainStep(chain, t);
        ScrunchOneMore(d, s0, chain[..t], segnum);
        dirdirty := false;
        ScrunchOne(segnum);
        StartOfChain();
        segnum := heads[segnum].nxtseg - 1;
        t := t + 1;
      }
      LinkEnds(heads, segnum, chain[t..]);
      assert chain[..t] == chain;
    }

    method ScrunchOne(segnum: nat)
      requires Valid() && segnum < |ents| && !dirdirty
      modifies this`saved, this`dirdirty, curend, ents[segnum]
      ensures Valid()
      ensures Live() == old(Live())[segnum := Merged(old(Live())[segnum])]
      ensures saved == if NoTwoHoles(old(Live())[segnum]) then old(saved) else old(saved)[segnum := Live()[segnum]]
    {
      hide Merged, NoTwoHoles, Linked, Marked, Live, Structured;
      Parts(segnum);
      LiveSegment(segnum);
      var newend: nat;
      newend, dirdirty := ScrunchSegment(ents[segnum], curend[segnum]);
      EndMark(ents[segnum], newend);
      curend[segnum] := newend;
      if dirdirty {
        saved := saved[segnum := ents[segnum][..newend]];
      }
      OneSegmentChanged(segnum);
    }

    /** The delete command; the names it did not find are left for the final complaint. */
    method DCmd(names: seq<seq<nat>>) returns (missing: seq<bool>)
      requires Valid()
      modifies this`saved, this`dirdirty, curend, ents
      ensures Valid() && InDir(old(Live()), chain)
      ensures missing == Missing(old(Live()), heads, chain, names)
      ensures var d := Removed(old(Live()), heads, chain, names);
        if old(dirdirty) || false in missing
        then Live() == Scrunched(d, chain) && saved == ScrunchSaved(d, old(saved), chain)
        else Live() == d && saved == old(saved)
    {
      hide Linked, Marked, Scrunched, ScrunchSaved, Found, Deleted, Removed, Missing, Live, Structured;
      LiveInside();
      StartOfChain();
      ghost var d := Live();
      missing := [];
      RemovedNone(d, heads, chain);
      assert names[..0] == [];
      var i := 0;
      while i < |names|
        invariant Valid() && 0 <= i <= |names| && saved == old(saved)
        invariant Live() == Removed(d, heads, chain, names[..i]) && missing == Missing(d, heads, chain, names[..i])
        invariant dirdirty == (old(dirdirty) || false in missing)
      {
        RemovedOneMore(d, heads, chain, names, i);
        var dope := Lookup(names[i]);
        if dope.Some? {
          Delete(dope.value);
        }
        missing := missing + [dope.None?];
        i := i + 1;
      }
      assert names[..i] == names;
      if dirdirty {
        Scrunch();
      }
    }
  }

  function Removed(d: Dir, heads: seq<Head>, chain: seq<nat>, names: seq<seq<nat>>): (after: Dir)
    requires |d| == |heads| && InDir(d, chain)
    ensures |after| == |d|
  {
    if names == [] then d
    else
      var before := Removed(d, heads, chain, names[..|names| - 1]);
      WithoutOld(before, Found(before, heads, chain, names[|names| - 1]))
  }

  function Missing(d: Dir, heads: seq<Head>, chain: seq<nat>, names: seq<seq<nat>>): (missing: seq<bool>)
    requires |d| == |heads| && InDir(d, chain)
  {
    if names == [] then []
    else
      var rest := names[..|names| - 1];
      Missing(d, heads, chain, rest) + [Found(Removed(d, heads, chain, rest), heads, chain, names[|names| - 1]).None?]
  }

  lemma RemovedNone(d: Dir, heads: seq<Head>, chain: seq<nat>)
    requires |d| == |heads| && InDir(d, chain)
    ensures Removed(d, heads, chain, []) == d && Missing(d, heads, chain, []) == []
  {
  }

  lemma RemovedOneMore(d: Dir, heads: seq<Head>, chain: seq<nat>, names: seq<seq<nat>>, i: nat)
    requires |d| == |heads| && InDir(d, chain) && i < |names|
    ensures var before := Removed(d, heads, chain, names[..i]);
      var found := Found(before, heads, chain, names[i]);
      && Removed(d, heads, chain, names[..i + 1]) == WithoutOld(before, found)
      && Missing(d, heads, chain, names[..i + 1]) == Missing(d, heads, chain, names[..i]) + [found.None?]
  {
    hide Found, WithoutOld;
    assert names[..i + 1][..i] == names[..i];
  }

  function Scrunched(d: Dir, chain: seq<nat>): Dir {
    seq(|d|, s requires 0 <= s < |d| => if s in chain then Merged(d[s]) else d[s])
  }

  // A segment reaches the floppy only when two of its holes ran together.
  function ScrunchSaved(d: Dir, saved: Dir, chain: seq<nat>): Dir
    requires |d| == |saved|
  {
    seq(|d|, s requires 0 <= s < |d| => if s in chain && !NoTwoHoles(d[s]) then Merged(d[s]) else saved[s])
  }

  lemma ScrunchOneMore(d: Dir, saved: Dir, chain: seq<nat>, s: nat)
    requires |d| == |saved| && s < |d| && s !in chain
    ensures Scrunched(d, chain)[s] == d[s] && ScrunchSaved(d, saved, chain)[s] == saved[s]
    ensures Scrunched(d, chain + [s]) == Scrunched(d, chain)[s := Merged(d[s])]
    ensures ScrunchSaved(d, saved, chain + [s])
      == if NoTwoHoles(d[s]) then ScrunchSaved(d, saved, chain) else ScrunchSaved(d, saved, chain)[s := Merged(d[s])]
  {
    hide Merged, NoTwoHoles;
  }

  lemma ChainStep(chain: seq<nat>, t: nat)
    requires t < |chain| && forall i, j :: 0 <= i < j < |chain| ==> chain[i] != chain[j]
    ensures chain[t..] == [chain[t]] + chain[t + 1..] && chain[t..][1..] == chain[t + 1..]
    ensures chain[..t + 1] == chain[..t] + [chain[t]] && chain[t] !in chain[..t]
  {
  }

  lemma ScrunchNone(d: Dir, saved: Dir)
    requires |d| == |saved|
    ensures Scrunched(d, []) == d && ScrunchSaved(d, saved, []) == saved
  {
  }

  // An end mark in the slot past the last is one with the link of the segment that follows.
  predicate Overlaps(heads: seq<Head>, s: nat, link: int) { s + 1 < |heads| ==> heads[s + 1].nxtseg == link }

  function Relinked(heads: seq<Head>, s: nat, link: int): (after: seq<Head>)
    ensures |after| == |heads| && Overlaps(after, s, link)
    ensures forall t :: 0 <= t < |heads| ==> after[t].stfile == heads[t].stfile
    ensures forall t :: 0 <= t < |heads| && t != s + 1 ==> after[t] == heads[t]
  {
    if s + 1 < |heads| then heads[s + 1 := heads[s + 1].(nxtseg := link)] else heads
  }

  // A hole split in a segment of seventy-one entries moves its end mark past the last slot.
  predicate MarkLeaves(es: seq<Ent>, k: nat, size: nat)
    requires k < |es|
  {
    es[k].len != CountFor(size) && |es| + 1 == SLOTS
  }

  function SplitHeads(heads: seq<Head>, marks: seq<int>, s: nat, es: seq<Ent>, k: nat, size: nat): (after: seq<Head>)
    requires s < |heads| == |marks| && k < |es|
    ensures |after| == |heads| && forall t :: 0 <= t < |heads| ==> after[t].stfile == heads[t].stfile
  {
    if MarkLeaves(es, k, size) then Relinked(heads, s, marks[s]) else heads
  }

  /** The links after a creation. */
  function NewHeads(d: Dir, heads: seq<Head>, marks: seq<int>, chain: seq<nat>, rname: seq<nat>, size: nat): (after: seq<Head>)
    requires |d| == |heads| == |marks| && InDir(d, chain)
    ensures |after| == |heads| && forall t :: 0 <= t < |heads| ==> after[t].stfile == heads[t].stfile
  {
    var was, fit := Found(d, heads, chain, rname), FirstFit(d, chain, size);
    if (was.Some? && size <= was.value.count) || fit.None? then heads
    else SplitHeads(heads, marks, fit.value.0, d[fit.value.0], fit.value.1, size)
  }

  lemma {:induction false} SameStarts(d: Dir, heads: seq<Head>, after: seq<Head>, chain: seq<nat>, rname: seq<nat>)
    requires |d| == |heads| == |after| && InDir(d, chain)
    requires forall t :: 0 <= t < |heads| ==> after[t].stfile == heads[t].stfile
    ensures Found(d, after, chain, rname) == Found(d, heads, chain, rname)
  {
    hide Match, Sum;
    if chain != [] {
      SameStarts(d, heads, after, chain[1..], rname);
    }
  }

  /** The four ends of a request for a file of `size` bytes: an old entry big enough, no hole big
      enough, a directory segment with no slot for the rest of the hole, or a new entry, looked up
      along the links there are afterwards. Only the segment of the new entry is written back. */
  function Creation(d: Dir, saved: Dir, heads: seq<Head>, chain: seq<nat>, later: seq<nat>,
                    rname: seq<nat>, size: nat, date: int)
    : (c: (Dir, Dir, Created))
    requires |d| == |heads| == |saved| && InDir(d, chain) && InDir(d, later)
    ensures |c.0| == |c.1| == |d|
  {
    var was, fit := Found(d, heads, chain, rname), FirstFit(d, chain, size);
    if was.Some? && size <= was.value.count then (d, saved, Made(was.value))
    else if fit.None? then (d, saved, NoSpace)
    else
      var (s, k) := fit.value;
      var cleared := WithoutOld(d, was);
      if HasRoom(cleared[s], k, size) then
        var after := Placed(d, was, s, k, size, rname, date);
        (after, saved[s := after[s]],
         match Found(after, heads, later, rname) case Some(dope) => Made(dope) case None => Lost)
      else (cleared, saved, SegmentFull)
  }

  // The search for a slot compares with the slot past the last one.
  predicate HasRoom(es: seq<Ent>, k: nat, size: nat)
    requires k < |es|
  {
    es[k].len == CountFor(size) || |es| != SLOTS
  }

  function Placed(d: Dir, was: Option<Dope>, s: nat, k: nat, size: nat, rname: seq<nat>, date: int): Dir
    requires was.Some? ==> At(d, was.value)
    requires s < |d| && k < |d[s]|
  {
    var d := WithoutOld(d, was);
    d[s := Split(d[s], k, CountFor(size), rname, date)]
  }

  lemma {:induction false} LinkedInside(heads: seq<Head>, segnum: int, chain: seq<nat>)
    requires Linked(heads, segnum, chain)
    ensures forall t :: 0 <= t < |chain| ==> chain[t] < |heads|
    decreases |chain|
  {
    if chain != [] {
      LinkedInside(heads, heads[segnum].nxtseg - 1, chain[1..]);
    }
  }

  lemma SumStep(es: seq<Ent>, k: nat)
    requires k < |es|
    ensures Sum(es[..k + 1]) == Sum(es[..k]) + Blocks(es[k])
  {
    assert es[..k + 1] == es[..k] + [es[k]];
    SumOfParts(es[..k], [es[k]]);
  }

  lemma MatchIs(es: seq<Ent>, rname: seq<nat>, k: nat)
    requires k <= |es| && forall i :: 0 <= i < k ==> !(Taken(es[i]) && es[i].name == rname)
    requires k < |es| ==> Taken(es[k]) && es[k].name == rname
    ensures Match(es, rname) == k
  {
  }

  lemma FitIs(es: seq<Ent>, size: nat, k: nat)
    requires k <= |es| && forall i :: 0 <= i < k ==> !(Hole(es[i]) && size <= es[i].len * RT_BLOCK)
    requires k < |es| ==> Hole(es[k]) && size <= es[k].len * RT_BLOCK
    ensures Fit(es, size) == k
  {
  }

  const RT_DIRSIZE: nat := 31

  /** A directory segment as it lies on the floppy: its header, its entry slots and the slot past
      the end. */
  datatype Segment = Segment(numseg: int, nxtseg: int, lstseg: int, stfile: int, slots: seq<Ent>)

  // Seventy-two slots and the one past the end, whose length field is the next segment's link.
  ghost predicate Slotted(images: seq<Segment>) {
    forall s :: 0 <= s < |images| ==>
      |images[s].slots| == SLOTS + 1 && (s + 1 < |images| ==> images[s].slots[SLOTS].len == images[s + 1].nxtseg)
  }

  function MarkLengths(images: seq<Segment>): seq<int> {
    seq(|images|, s requires 0 <= s < |images| =>
      var end := EndOf(images[s].slots); if end < |images[s].slots| then images[s].slots[end].len else 0)
  }

  // The directory that a clobbered floppy starts with: one hole.
  function Blank(): (image: Segment)
    ensures |image.slots| == SLOTS + 1
  {
    Segment(4, 0, 1, 14, [Ent(RT_NULL, [0, 0, 0], 494, 0), Ent(RT_ESEG, [0, 0, 0], 0, 0)]
                       + seq(SLOTS - 1, _ => Ent(0, [0, 0, 0], 0, 0)))
  }

  function EndOf(slots: seq<Ent>): (end: nat)
    ensures end <= |slots| && (end < |slots| ==> slots[end].stat == RT_ESEG)
    ensures forall k :: 0 <= k < end ==> slots[k].stat != RT_ESEG
  {
    if slots == [] || slots[0].stat == RT_ESEG then 0 else 1 + EndOf(slots[1..])
  }

  lemma EndOfIs(slots: seq<Ent>, end: nat)
    requires end <= |slots| && (end < |slots| ==> slots[end].stat == RT_ESEG)
    requires forall k :: 0 <= k < end ==> slots[k].stat != RT_ESEG
    ensures EndOf(slots) == end
  {
  }

  function Entries(images: seq<Segment>): Dir {
    seq(|images|, s requires 0 <= s < |images| => images[s].slots[..EndOf(images[s].slots)])
  }

  function Heads(images: seq<Segment>): seq<Head> {
    seq(|images|, s requires 0 <= s < |images| => Head(images[s].nxtseg, images[s].stfile))
  }

  ghost predicate LinksEnd(heads: seq<Head>) { exists chain: seq<nat> :: Linked(heads, 0, chain) }

  /** What the program takes for granted of the floppy: every segment has an end mark, and the links
      lead through segments in use to an end. */
  ghost predicate Sound(images: seq<Segment>) {
    && (forall s :: 0 <= s < |images| ==> EndOf(images[s].slots) < |images[s].slots|)
    && LinksEnd(Heads(images))
  }

  lemma {:induction false} OneChain(heads: seq<Head>, segnum: int, c: seq<nat>, e: seq<nat>)
    requires Linked(heads, segnum, c) && Linked(heads, segnum, e)
    ensures c == e
    decreases |c|
  {
    if c != [] && e != [] {
      OneChain(heads, heads[segnum].nxtseg - 1, c[1..], e[1..]);
      assert c == [c[0]] + c[1..] && e == [e[0]] + e[1..];
    }
  }

  lemma {:induction false} LinkedFrom(heads: seq<Head>, segnum: int, chain: seq<nat>, t: nat)
    requires Linked(heads, segnum, chain) && t < |chain|
    ensures Linked(heads, chain[t], chain[t..])
    decreases t
  {
    if t > 0 {
      LinkedFrom(heads, heads[segnum].nxtseg - 1, chain[1..], t - 1);
      assert chain[1..][t - 1..] == chain[t..];
    }
  }

  /** Links that end never come to a segment twice. */
  lemma LinkedDistinct(heads: seq<Head>, chain: seq<nat>)
    requires Linked(heads, 0, chain)
    ensures forall t, u :: 0 <= t < u < |chain| ==> chain[t] != chain[u]
  {
    forall t, u | 0 <= t < u < |chain|
      ensures chain[t] != chain[u]
    {
      if chain[t] == chain[u] {
        LinkedFrom(heads, 0, chain, t);
        LinkedFrom(heads, 0, chain, u);
        OneChain(heads, chain[t], chain[t..], chain[u..]);
      }
    }
  }

  predicate AwfulLinks(image: Segment) { image.nxtseg >= RT_DIRSIZE || image.lstseg >= RT_DIRSIZE }

  datatype Opened = Ready(dir: Directory) | TooManySegments | AwfulLinkage

  // The segments that are read: as many as the first one's header says.
  function InUse(floppy: seq<Segment>): seq<Segment>
    requires |floppy| == RT_DIRSIZE && floppy[0].numseg <= RT_DIRSIZE
  {
    if floppy[0].numseg < 0 then [] else floppy[..floppy[0].numseg]
  }

  // The segments an open starts from, and those that are on the floppy then.
  function Wanted(clobber: bool, floppy: seq<Segment>): seq<Segment>
    requires |floppy| == RT_DIRSIZE && (clobber || floppy[0].numseg <= RT_DIRSIZE)
  {
    if clobber then [Blank()] else InUse(floppy)
  }

  /** Reading the directory in, or starting a blank one over the floppy's. It is fit for use exactly
      when the segments are sound, and then holds their entries up to the end marks. */
  method RtInit(clobber: bool, floppy: seq<Segment>) returns (r: Opened)
    requires |floppy| == RT_DIRSIZE && Slotted(floppy)
    ensures r == TooManySegments <==> !clobber && floppy[0].numseg > RT_DIRSIZE
    ensures r != TooManySegments ==>
      (r == AwfulLinkage <==> exists image :: image in Wanted(clobber, floppy) && AwfulLinks(image))
    ensures r.Ready? ==> var dir, images := r.dir, Wanted(clobber, floppy);
      && fresh(dir) && fresh(dir.curend) && (forall a :: a in dir.ents ==> fresh(a))
      && dir.heads == Heads(images) && dir.marks == MarkLengths(images) && dir.dirdirty == clobber
      && dir.saved == Entries(if clobber then [floppy[0]] else images)
      && (dir.Valid() <==> Sound(images))
      && (Sound(images) ==> dir.Live() == Entries(images))
    ensures r.Ready? ==> |r.dir.heads| == if clobber then 1 else if floppy[0].numseg < 0 then 0 else floppy[0].numseg
    ensures r.Ready? && !clobber ==> forall s :: 0 <= s < |r.dir.heads| ==>
      && r.dir.heads[s] == Head(floppy[s].nxtseg, floppy[s].stfile)
      && floppy[s].nxtseg < 31 && floppy[s].lstseg < 31
    ensures r == TooManySegments ==> floppy[0].numseg > 31
  {
    hide Linked, Blank, EndOf, AwfulLinks, Sound, LinksEnd, Directory.Valid, Directory.Live, InUse;
    if !clobber && floppy[0].numseg > RT_DIRSIZE {
      return TooManySegments;
    }
    var images := Wanted(clobber, floppy);
    WantedSlotted(clobber, floppy);
    var awful, ents, curend := ReadSegments(images);
    if awful {
      return AwfulLinkage;
    }
    WantedInNumbers(clobber, floppy);
    ghost var chain := Chain(Heads(images));
    var there := Entries(if clobber then [floppy[0]] else images);
    var dir := new Directory(ents, Heads(images), curend, there, clobber, chain, MarkLengths(images));
    dir.InitDirectory(images);
    r := Ready(dir);
  }

  // The segments there are, and what having no awful links means.
  lemma WantedInNumbers(clobber: bool, floppy: seq<Segment>)
    requires |floppy| == RT_DIRSIZE && (clobber || floppy[0].numseg <= RT_DIRSIZE)
    ensures var images := Wanted(clobber, floppy);
      && |images| == (if clobber then 1 else if floppy[0].numseg < 0 then 0 else floppy[0].numseg)
      && (!clobber ==> forall s :: 0 <= s < |images| ==> images[s] == floppy[s])
      && forall s :: 0 <= s < |images| && !AwfulLinks(images[s]) ==> images[s].nxtseg < 31 && images[s].lstseg < 31
  {
  }

  ghost function Chain(heads: seq<Head>): (chain: seq<nat>)
    ensures LinksEnd(heads) ==> Linked(heads, 0, chain)
  {
    if LinksEnd(heads) then var chain: seq<nat> :| Linked(heads, 0, chain); chain else []
  }

  lemma WantedSlotted(clobber: bool, floppy: seq<Segment>)
    requires |floppy| == RT_DIRSIZE && Slotted(floppy) && (clobber || floppy[0].numseg <= RT_DIRSIZE)
    ensures Slotted(Wanted(clobber, floppy))
  {
  }

  method ReadSegments(images: seq<Segment>) returns (awful: bool, ents: seq<array<Ent>>, curend: array<nat>)
    requires Slotted(images)
    ensures fresh(curend) && forall a :: a in ents ==> fresh(a)
    ensures awful <==> exists image :: image in images && AwfulLinks(image)
    ensures !awful ==> AllHeld(ents, curend, images)
  {
    hide EndOf, AwfulLinks, Holds;
    awful, ents, curend := false, [], new nat[|images|];
    while |ents| < |images|
      invariant |ents| <= |images| == curend.Length && fresh(curend)
      invariant forall s :: 0 <= s < |ents| ==> !AwfulLinks(images[s])
      invariant forall s :: 0 <= s < |ents| ==> fresh(ents[s]) && Holds(ents[s], images[s].slots)
      invariant forall s :: 0 <= s < |ents| ==> curend[s] == EndOf(images[s].slots)
      invariant forall s, t :: 0 <= s < t < |ents| ==> ents[s] != ents[t]
      decreases |images| - |ents|
    {
      var image := images[|ents|];
      if AwfulLinks(image) {
        awful := true;
        return;
      }
      var a, end := ReadSegment(image.slots);
      curend[|ents|] := end;
      ents := ents + [a];
    }
  }

  ghost predicate AllHeld(ents: seq<array<Ent>>, curend: array<nat>, images: seq<Segment>)
    reads ents, curend
  {
    && |ents| == |images| == curend.Length
    && (forall s :: 0 <= s < |ents| ==> Holds(ents[s], images[s].slots) && curend[s] == EndOf(images[s].slots))
    && forall s, t :: 0 <= s < t < |ents| ==> ents[s] != ents[t]
  }

  ghost predicate Holds(a: array<Ent>, slots: seq<Ent>)
    reads a
  {
    a.Length == SLOTS + 1 && a[..] == slots
  }

  method ReadSegment(slots: seq<Ent>) returns (a: array<Ent>, end: nat)
    requires |slots| == SLOTS + 1
    ensures fresh(a) && Holds(a, slots) && end == EndOf(slots)
  {
    a := new Ent[SLOTS + 1](k requires 0 <= k < SLOTS + 1 => slots[k]);
    end := 0;
    while end < a.Length && a[end].stat != RT_ESEG
      invariant end <= a.Length && forall k :: 0 <= k < end ==> slots[k].stat != RT_ESEG
    {
      end := end + 1;
    }
    EndOfIs(slots, end);
  }

  /** The directory of a clobbered floppy has its end mark, and links that end. */
  lemma BlankSound()
    ensures Sound([Blank()])
  {
    var heads := Heads([Blank()]);
    assert [0][1..] == [];
    assert Linked(heads, -1, []);
    assert Linked(heads, 0, [0]);
    assert Blank().slots[1].stat == RT_ESEG;
  }

  lemma BlankInNumbers()
    ensures Heads([Blank()]) == [Head(0, 14)] && Blank().numseg == 4 && Blank().lstseg == 1
    ensures Blank().slots[0] == Ent(2, [0, 0, 0], 494, 0) && Blank().slots[1] == Ent(8, [0, 0, 0], 0, 0)
    ensures forall k :: 2 <= k < 73 ==> Blank().slots[k] == Ent(0, [0, 0, 0], 0, 0)
  {
  }
}
