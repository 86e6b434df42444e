/** What creating, deleting and compacting keep of the other files, and exactly when the archiver
    leaves the floppy's directory behind its own. */
module ArffLaws {
  import opened Options
  import opened Floppy
  import opened Extents
  import opened Arff
  import opened ArffLinks

  lemma InParts(xs: seq<Extent>, ys: seq<Extent>, mid: seq<Extent>, x: Extent)
    ensures x in xs + mid + ys <==> x in xs || x in mid || x in ys
    ensures x in xs + ys <==> x in xs || x in ys
  {
  }

  lemma DeletedKeeps(es: seq<Ent>, k: nat, base: int, x: Extent)
    requires k < |es| && Taken(es[k]) && x.ent.name != es[k].name
    ensures x in Files(Deleted(es, k), base) <==> x in Files(es, base)
  {
    DeletedExtents(es, k, base);
    InParts(Files(es[..k], base), Files(es[k + 1..], base + Sum(es[..k]) + Blocks(es[k])),
            [Extent(es[k], base + Sum(es[..k]))], x);
  }

  lemma SplitKeeps(es: seq<Ent>, k: nat, count: int, rname: seq<nat>, date: int, base: int, x: Extent)
    requires k < |es| && Hole(es[k]) && x.ent.name != rname
    ensures x in Files(Split(es, k, count, rname, date), base) <==> x in Files(es, base)
  {
    SplitExtents(es, k, count, rname, date, base);
    InParts(Files(es[..k], base), Files(es[k + 1..], base + Sum(es[..k]) + Blocks(es[k])),
            [Extent(Ent(RT_FILE, rname, count, date), base + Sum(es[..k]))], x);
  }

  /** Whatever a creation ends in, every file of another name is still in its segment, at the same
      address, and no such file has appeared; and no segment has grown or shrunk. */
  lemma CreationKeepsOthers(d: Dir, saved: Dir, heads: seq<Head>, chain: seq<nat>, later: seq<nat>,
                            rname: seq<nat>, size: nat, date: int, t: nat, base: int, x: Extent)
    requires |d| == |heads| == |saved| && InDir(d, chain) && InDir(d, later) && t < |d| && x.ent.name != rname
    ensures var after := Creation(d, saved, heads, chain, later, rname, size, date).0;
      |after| == |d| && (x in Files(after[t], base) <==> x in Files(d[t], base)) && Sum(after[t]) == Sum(d[t])
  {
    hide Files, Split, CountFor, Found, FirstFit;
    FoundIn(d, heads, chain, rname);
    var was, fit := Found(d, heads, chain, rname), FirstFit(d, chain, size);
    var cleared := WithoutOld(d, was);
    if was.Some? {
      var o := was.value;
      DeletedKeeps(d[o.segnum], o.index, base, x);
      DeletedExtents(d[o.segnum], o.index, base);
    }
    if fit.Some? {
      var (s, k) := fit.value;
      SplitKeeps(cleared[s], k, CountFor(size), rname, date, base, x);
      SplitExtents(cleared[s], k, CountFor(size), rname, date, base);
    }
  }

  /** Compaction after any deletions leaves every remaining file at its address and no two holes
      side by side. */
  lemma DeleteCommandKeepsOthers(d: Dir, heads: seq<Head>, chain: seq<nat>, names: seq<seq<nat>>, t: nat, base: int, x: Extent)
    requires |d| == |heads| && InDir(d, chain) && t < |d| && x.ent.name !in names
    ensures var after := Scrunched(Removed(d, heads, chain, names), chain);
      && (x in Files(after[t], base) <==> x in Files(d[t], base)) && Sum(after[t]) == Sum(d[t])
      && (t in chain ==> NoTwoHoles(after[t]))
  {
    var removed := Removed(d, heads, chain, names);
    RemovedKeeps(d, heads, chain, names, t, base, x);
    MergedExtents(removed[t], base);
    MergedApart(removed[t]);
  }

  lemma {:induction false} RemovedKeeps(d: Dir, heads: seq<Head>, chain: seq<nat>, names: seq<seq<nat>>, t: nat, base: int, x: Extent)
    requires |d| == |heads| && InDir(d, chain) && t < |d| && x.ent.name !in names
    ensures var after := Removed(d, heads, chain, names);
      (x in Files(after[t], base) <==> x in Files(d[t], base)) && Sum(after[t]) == Sum(d[t])
  {
    hide Files, Found;
    if names != [] {
      var rest, name := names[..|names| - 1], names[|names| - 1];
      RemovedKeeps(d, heads, chain, rest, t, base, x);
      var before := Removed(d, heads, chain, rest);
      FoundIn(before, heads, chain, name);
      var found := Found(before, heads, chain, name);
      if found.Some? {
        DeletedKeeps(before[found.value.segnum], found.value.index, base, x);
        DeletedExtents(before[found.value.segnum], found.value.index, base);
      }
    }
  }

  // The entry at (s, k) is the first of its name in link order; `chain` is cut at s.
  predicate FirstOfName(d: Dir, heads: seq<Head>, before: seq<nat>, s: nat, k: nat, rname: seq<nat>)
    requires |d| == |heads| && InDir(d, before) && s < |d| && k <= |d[s]|
  {
    Found(d, heads, before, rname).None? && Match(d[s][..k], rname) == k
  }

  lemma {:induction false} FoundThrough(d: Dir, heads: seq<Head>, before: seq<nat>, rest: seq<nat>, rname: seq<nat>)
    requires |d| == |heads| && InDir(d, before + rest)
    ensures InDir(d, before) && InDir(d, rest)
    ensures Found(d, heads, before + rest, rname)
      == if Found(d, heads, before, rname).Some? then Found(d, heads, before, rname) else Found(d, heads, rest, rname)
  {
    hide Match;
    InDirParts(d, before, rest);
    if before != [] {
      assert (before + rest)[1..] == before[1..] + rest;
      FoundThrough(d, heads, before[1..], rest, rname);
    } else {
      assert before + rest == rest;
    }
  }

  lemma InDirParts(d: Dir, before: seq<nat>, rest: seq<nat>)
    requires InDir(d, before + rest)
    ensures InDir(d, before) && InDir(d, rest)
  {
    forall t | 0 <= t < |before|
      ensures before[t] < |d|
    {
      assert (before + rest)[t] == before[t];
    }
    forall t | 0 <= t < |rest|
      ensures rest[t] < |d|
    {
      assert (before + rest)[|before| + t] == rest[t];
    }
  }

  lemma {:induction false} FoundSame(d: Dir, e: Dir, heads: seq<Head>, chain: seq<nat>, rname: seq<nat>)
    requires |d| == |e| == |heads| && InDir(d, chain) && forall t :: 0 <= t < |chain| ==> d[chain[t]] == e[chain[t]]
    ensures InDir(e, chain) && Found(d, heads, chain, rname) == Found(e, heads, chain, rname)
  {
    hide Match;
    if chain != [] {
      FoundSame(d, e, heads, chain[1..], rname);
    }
  }

  lemma MatchPrefix(es: seq<Ent>, k: nat, rname: seq<nat>)
    requires k < |es| && Taken(es[k]) && es[k].name == rname
    ensures Match(es, rname) == k <==> Match(es[..k], rname) == k
    ensures Match(es, rname) <= k
  {
    var m, p := Match(es, rname), Match(es[..k], rname);
    if p < k {
      assert es[..k][p] == es[p];
    }
    if m < k {
      assert es[..k][m] == es[m];
    }
  }

  /** A file just created is found again, with room for its size, exactly when its segment is still
      linked and no other entry of its name comes before it; and it is lost exactly when its segment
      is no longer linked and there is no other entry of its name. */
  lemma CreatedIsFound(d: Dir, saved: Dir, heads: seq<Head>, chain: seq<nat>, later: seq<nat>,
                       rname: seq<nat>, size: nat, date: int)
    requires |d| == |heads| == |saved| && InDir(d, chain) && InDir(d, later) && Enters(d, heads, chain, rname, size)
    requires var (s, k) := FirstFit(d, chain, size).value; HasRoom(WithoutOld(d, Found(d, heads, chain, rname))[s], k, size)
    ensures var (s, k) := FirstFit(d, chain, size).value;
      var cleared := WithoutOld(d, Found(d, heads, chain, rname));
      var (made, _, r) := Creation(d, saved, heads, chain, later, rname, size, date);
      && InDir(cleared, later) && InDir(cleared, later[..Where(later, s)]) && k < |cleared[s]| && k < |made[s]|
      && (r == Made(DopeAt(made, heads, s, k))
          <==> s in later && FirstOfName(cleared, heads, later[..Where(later, s)], s, k, rname))
      && (r == Lost <==> s !in later && Found(cleared, heads, later, rname) == None)
      && DopeAt(made, heads, s, k).count == CountFor(size) * RT_BLOCK >= size
      && DopeAt(made, heads, s, k).startad == RT_BLOCK * (heads[s].stfile + Sum(d[s][..k]))
  {
    hide CountFor, Match, Sum, Found, FirstFit, FirstOfName, InDir, Placed, WithoutOld, HasRoom, Creation;
    var (s, k) := FirstFit(d, chain, size).value;
    var was := Found(d, heads, chain, rname);
    FoundIn(d, heads, chain, rname);
    CreationIs(d, saved, heads, chain, later, rname, size, date);
    var made := Placed(d, was, s, k, size, rname, date);
    PlacedEntry(d, was, s, k, size, rname, date);
    FoundAfter(d, WithoutOld(d, was), made, heads, later, s, k, rname);
    RoomForSize(size);
    SumBefore(d, was, s, k);
  }

  lemma CreationIs(d: Dir, saved: Dir, heads: seq<Head>, chain: seq<nat>, later: seq<nat>,
                   rname: seq<nat>, size: nat, date: int)
    requires |d| == |heads| == |saved| && InDir(d, chain) && InDir(d, later) && Enters(d, heads, chain, rname, size)
    requires var (s, k) := FirstFit(d, chain, size).value; HasRoom(WithoutOld(d, Found(d, heads, chain, rname))[s], k, size)
    ensures var was, (s, k) := Found(d, heads, chain, rname), FirstFit(d, chain, size).value;
      var made := Placed(d, was, s, k, size, rname, date);
      && |made| == |d| && InDir(made, later)
      && Creation(d, saved, heads, chain, later, rname, size, date)
         == (made, saved[s := made[s]],
             match Found(made, heads, later, rname) case Some(dope) => Made(dope) case None => Lost)
  {
    hide CountFor, Match, Sum, Found, FirstFit, Split, WithoutOld, HasRoom;
  }

  // What is found where the new entry has been made.
  lemma FoundAfter(d: Dir, cleared: Dir, made: Dir, heads: seq<Head>, later: seq<nat>, s: nat, k: nat, rname: seq<nat>)
    requires |d| == |cleared| == |made| == |heads| && InDir(d, later) && s < |d|
    requires made == cleared[s := made[s]] && k < |made[s]| && k < |cleared[s]| && made[s][..k] == cleared[s][..k]
    requires Taken(made[s][k]) && made[s][k].name == rname
    ensures InDir(cleared, later) && InDir(made, later) && InDir(cleared, later[..Where(later, s)])
    ensures var f := Found(made, heads, later, rname);
      && (f == Some(DopeAt(made, heads, s, k))
          <==> s in later && FirstOfName(cleared, heads, later[..Where(later, s)], s, k, rname))
      && (f == None <==> s !in later && Found(cleared, heads, later, rname) == None)
  {
    hide Match, Sum, Found, FirstOfName, InDir, Taken, Where;
    InDirSame(d, cleared, later);
    InDirSame(d, made, later);
    InDirPrefix(cleared, later, Where(later, s));
    if s in later {
      FoundLinked(cleared, made, heads, later, s, k, rname);
    } else {
      FoundElsewhere(cleared, made, heads, later, s, rname);
    }
  }

  lemma InDirPrefix(d: Dir, chain: seq<nat>, t: nat)
    requires InDir(d, chain) && t <= |chain|
    ensures InDir(d, chain[..t])
  {
  }

  lemma FoundLinked(cleared: Dir, made: Dir, heads: seq<Head>, later: seq<nat>, s: nat, k: nat, rname: seq<nat>)
    requires |cleared| == |made| == |heads| && InDir(made, later) && InDir(cleared, later) && s < |made| && s in later
    requires made == cleared[s := made[s]] && k < |made[s]| && k < |cleared[s]| && made[s][..k] == cleared[s][..k]
    requires Taken(made[s][k]) && made[s][k].name == rname
    ensures InDir(cleared, later[..Where(later, s)])
    ensures var f := Found(made, heads, later, rname);
      f.Some? && (f.value == DopeAt(made, heads, s, k) <==> FirstOfName(cleared, heads, later[..Where(later, s)], s, k, rname))
  {
    hide Match, Sum, Found, FirstOfName, InDir, Taken, Where;
    var t := Where(later, s);
    var before, after := later[..t], later[t + 1..];
    InDirPrefix(cleared, later, t);
    assert before + [s] + after == later;
    FoundWhenPlaced(cleared, made, heads, before, s, after, k, rname);
  }

  lemma PlacedEntry(d: Dir, was: Option<Dope>, s: nat, k: nat, size: nat, rname: seq<nat>, date: int)
    requires (was.Some? ==> At(d, was.value)) && s < |d| && k < |d[s]|
    ensures var cleared, made := WithoutOld(d, was), Placed(d, was, s, k, size, rname, date);
      && |made| == |d| && |cleared[s]| == |d[s]| && k < |made[s]| && made == cleared[s := made[s]]
      && made[s][..k] == cleared[s][..k] && made[s][k] == Ent(RT_FILE, rname, CountFor(size), date)
  {
    hide CountFor;
  }

  // A segment that is not linked does not matter to the search.
  lemma FoundElsewhere(d: Dir, made: Dir, heads: seq<Head>, later: seq<nat>, s: nat, rname: seq<nat>)
    requires |d| == |made| == |heads| && InDir(d, later) && s < |d| && s !in later && made == d[s := made[s]]
    ensures InDir(made, later) && Found(made, heads, later, rname) == Found(d, heads, later, rname)
    ensures var f := Found(made, heads, later, rname); f.Some? ==> f.value.segnum != s
  {
    hide Match;
    FoundSame(d, made, heads, later, rname);
    FoundInBefore(made, heads, later, s, rname);
  }

  lemma InDirSame(d: Dir, e: Dir, chain: seq<nat>)
    requires InDir(d, chain) && |e| == |d|
    ensures InDir(e, chain)
  {
  }

  lemma FoundWhenPlaced(d: Dir, made: Dir, heads: seq<Head>, before: seq<nat>, s: nat, after: seq<nat>, k: nat, rname: seq<nat>)
    requires |d| == |made| == |heads| && InDir(made, before + [s] + after) && InDir(d, before) && s < |d| && s !in before
    requires made == d[s := made[s]] && k < |made[s]| && k <= |d[s]| && made[s][..k] == d[s][..k]
    requires Taken(made[s][k]) && made[s][k].name == rname
    ensures var f := Found(made, heads, before + [s] + after, rname);
      f.Some? && (f.value == DopeAt(made, heads, s, k) <==> FirstOfName(d, heads, before, s, k, rname))
  {
    hide Match;
    InDirParts(made, before + [s], after);
    InDirParts(made, before, [s]);
    assert before + [s] + after == before + ([s] + after);
    FoundThrough(made, heads, before, [s] + after, rname);
    assert forall t :: 0 <= t < |before| ==> made[before[t]] == d[before[t]];
    FoundSame(made, d, heads, before, rname);
    MatchPrefix(made[s], k, rname);
    assert ([s] + after)[0] == s;
    FoundInBefore(made, heads, before, s, rname);
  }

  lemma FoundInBefore(d: Dir, heads: seq<Head>, before: seq<nat>, s: nat, rname: seq<nat>)
    requires |d| == |heads| && InDir(d, before) && s !in before
    ensures var f := Found(d, heads, before, rname); f.Some? ==> f.value.segnum != s
  {
    FoundIn(d, heads, before, rname);
  }

  lemma RoomForSize(size: nat)
    ensures CountFor(size) * RT_BLOCK >= size && CountFor(size) >= 1
    ensures size > 0 ==> (CountFor(size) - 1) * RT_BLOCK < size
  {
  }

  lemma SumBefore(d: Dir, was: Option<Dope>, s: nat, k: nat)
    requires was.Some? ==> At(d, was.value) && Taken(d[was.value.segnum][was.value.index])
    requires s < |d| && k < |d[s]|
    ensures Sum(WithoutOld(d, was)[s][..k]) == Sum(d[s][..k])
  {
    if was.Some? && was.value.segnum == s && was.value.index < k {
      var o := was.value.index;
      assert WithoutOld(d, was)[s][..k] == Deleted(d[s][..k], o);
      DeletedExtents(d[s][..k], o, 0);
    } else {
      assert WithoutOld(d, was)[s][..k] == d[s][..k];
    }
  }

  /** With the name in the directory at most once, the new entry is the one found as long as its
      segment is linked, and otherwise it is lost. */
  lemma UniqueNameIsFound(d: Dir, saved: Dir, heads: seq<Head>, chain: seq<nat>, later: seq<nat>,
                          rname: seq<nat>, size: nat, date: int)
    requires |d| == |heads| == |saved| && InDir(d, chain) && InDir(d, later) && Enters(d, heads, chain, rname, size)
    requires Single(d, chain, later, rname)
    requires var (s, k) := FirstFit(d, chain, size).value; HasRoom(WithoutOld(d, Found(d, heads, chain, rname))[s], k, size)
    ensures var (s, k) := FirstFit(d, chain, size).value;
      var (made, _, r) := Creation(d, saved, heads, chain, later, rname, size, date);
      s < |made| && k < |made[s]| && r == if s in later then Made(DopeAt(made, heads, s, k)) else Lost
  {
    hide Found, Match, InDir, Once, FirstFit, Sum, CountFor, Split;
    var (s, k) := FirstFit(d, chain, size).value;
    CreatedIsFound(d, saved, heads, chain, later, rname, size, date);
    var cleared := WithoutOld(d, Found(d, heads, chain, rname));
    forall c: nat, i: nat | c in later
      ensures !Named(cleared, c, i, rname)
    {
      NameGone(d, heads, chain, later, c, i, rname);
    }
    var before := later[..Where(later, s)];
    NothingNamed(cleared, heads, later, rname);
    NothingNamed(cleared, heads, before, rname);
    if s in later {
      NoneBefore(cleared, s, k, rname);
    }
  }

  lemma NoneBefore(d: Dir, s: nat, k: nat, rname: seq<nat>)
    requires s < |d| && k <= |d[s]| && forall i: nat :: !Named(d, s, i, rname)
    ensures Match(d[s][..k], rname) == k
  {
    forall i: nat | i < k
      ensures !(Taken(d[s][..k][i]) && d[s][..k][i].name == rname)
    {
      assert !Named(d, s, i, rname);
    }
    MatchIs(d[s][..k], rname, k);
  }

  lemma NothingNamed(d: Dir, heads: seq<Head>, chain: seq<nat>, rname: seq<nat>)
    requires |d| == |heads| && InDir(d, chain) && forall c: nat, i: nat | c in chain :: !Named(d, c, i, rname)
    ensures Found(d, heads, chain, rname) == None
  {
    hide Found, Match;
    FoundIn(d, heads, chain, rname);
    var f := Found(d, heads, chain, rname);
    assert f.Some? ==> Named(d, f.value.segnum, f.value.index, rname);
  }

  lemma NameGone(d: Dir, heads: seq<Head>, chain: seq<nat>, later: seq<nat>, c: nat, i: nat, rname: seq<nat>)
    requires |d| == |heads| && InDir(d, chain) && Single(d, chain, later, rname) && c in later
    ensures !Named(WithoutOld(d, Found(d, heads, chain, rname)), c, i, rname)
  {
    hide Found, Once;
    FoundIn(d, heads, chain, rname);
    if c in chain {
      NamedStays(d, heads, chain, c, i, rname);
    } else {
      assert Named(WithoutOld(d, Found(d, heads, chain, rname)), c, i, rname) ==> Named(d, c, i, rname);
    }
  }

  /** The name is in the linked segments at most once, and in none that comes to be linked. */
  ghost predicate Single(d: Dir, chain: seq<nat>, later: seq<nat>, rname: seq<nat>) {
    Once(d, chain, rname) && forall c: nat, i: nat | c in later && Named(d, c, i, rname) :: c in chain
  }

  predicate Named(d: Dir, c: nat, i: nat, rname: seq<nat>) {
    c < |d| && i < |d[c]| && Taken(d[c][i]) && d[c][i].name == rname
  }

  ghost predicate Once(d: Dir, chain: seq<nat>, rname: seq<nat>) {
    forall b, e, i, j | b in chain && e in chain && Named(d, b, i, rname) && Named(d, e, j, rname) :: b == e && i == j
  }

  // An entry of that name left after the first has been cleared would be a second one.
  lemma NamedStays(d: Dir, heads: seq<Head>, chain: seq<nat>, c: nat, i: nat, rname: seq<nat>)
    requires |d| == |heads| && InDir(d, chain) && c in chain
    requires Once(d, chain, rname)
    ensures !Named(WithoutOld(d, Found(d, heads, chain, rname)), c, i, rname)
  {
    hide Found, Match;
    FoundIn(d, heads, chain, rname);
    var was := Found(d, heads, chain, rname);
    var cleared := WithoutOld(d, was);
    assert was.Some? ==> Named(d, was.value.segnum, was.value.index, rname);
    assert Named(cleared, c, i, rname) ==> Named(d, c, i, rname);
  }

  /** After a creation in a directory that was all on the floppy, the floppy is up to date exactly
      when no old entry of the name was cleared in another segment. */
  lemma CreationWritten(d: Dir, heads: seq<Head>, chain: seq<nat>, later: seq<nat>, rname: seq<nat>, size: nat, date: int)
    requires |d| == |heads| && InDir(d, chain) && InDir(d, later) && Enters(d, heads, chain, rname, size)
    requires Creation(d, d, heads, chain, later, rname, size, date).2 != SegmentFull
    ensures var was, fit := Found(d, heads, chain, rname), FirstFit(d, chain, size);
      var (made, saved, _) := Creation(d, d, heads, chain, later, rname, size, date);
      saved == made <==> was.None? || was.value.segnum == fit.value.0
  {
    hide Found, FirstFit, Split, CountFor;
    FoundIn(d, heads, chain, rname);
    var was, fit := Found(d, heads, chain, rname), FirstFit(d, chain, size);
    var (made, saved, _) := Creation(d, d, heads, chain, later, rname, size, date);
    if was.Some? && was.value.segnum != fit.value.0 {
      var o := was.value;
      assert made[o.segnum][o.index] == Cleared(d[o.segnum][o.index]);
      assert saved[o.segnum] == d[o.segnum];
    }
  }

  lemma OldEntryStays()
    ensures var d := [[Ent(RT_FILE, [1, 0, 0], 1, 0)], [Ent(RT_NULL, [0, 0, 0], 2, 0)]];
      var (made, saved, _) := Creation(d, d, [Head(2, 14), Head(0, 15)], [0, 1], [0, 1], [1, 0, 0], 1024, 0);
      made[0] == [Ent(RT_NULL, [0, 0, 0], 1, 0)] && saved[0] == d[0] && made[1] == saved[1] == [Ent(RT_FILE, [1, 0, 0], 2, 0)]
  {
    var d := [[Ent(RT_FILE, [1, 0, 0], 1, 0)], [Ent(RT_NULL, [0, 0, 0], 2, 0)]];
    var heads, chain, rname: seq<nat> := [Head(2, 14), Head(0, 15)], [0, 1], [1, 0, 0];
    assert Match(d[0], rname) == 0 && Fit(d[0], 1024) == 1 && Fit(d[1], 1024) == 0;
    var dope := DopeAt(d, heads, 0, 0);
    assert Found(d, heads, chain, rname) == Some(dope);
    assert chain[1..] == [1];
    assert FirstFit(d, [1], 1024) == Some((1, 0)) == FirstFit(d, chain, 1024);
    assert WithoutOld(d, Some(dope))[0] == [Ent(RT_NULL, [0, 0, 0], 1, 0)];
    assert Split(d[1], 0, 2, rname, 0) == [Ent(RT_FILE, [1, 0, 0], 2, 0)];
    assert CountFor(1024) == 2;
  }

  // Deletions are made in the linked segments only.
  lemma {:induction false} RemovedInChain(d: Dir, heads: seq<Head>, chain: seq<nat>, names: seq<seq<nat>>, t: nat)
    requires |d| == |heads| && InDir(d, chain) && t < |d| && t !in chain
    ensures Removed(d, heads, chain, names)[t] == d[t]
    decreases |names|
  {
    hide Found, Deleted;
    if names != [] {
      var rest := names[..|names| - 1];
      RemovedInChain(d, heads, chain, rest, t);
      var before := Removed(d, heads, chain, rest);
      InDirSame(d, before, chain);
      FoundIn(before, heads, chain, names[|names| - 1]);
    }
  }

  /** Deletions from a directory that was all on the floppy reach it exactly when each segment they
      changed then has two holes side by side: compaction rewrites no other segment. */
  lemma DeletionWritten(d: Dir, heads: seq<Head>, chain: seq<nat>, names: seq<seq<nat>>)
    requires |d| == |heads| && InDir(d, chain)
    ensures var removed := Removed(d, heads, chain, names);
      ScrunchSaved(removed, d, chain) == Scrunched(removed, chain)
      <==> forall t :: 0 <= t < |d| && removed[t] != d[t] ==> !NoTwoHoles(removed[t])
  {
    hide Removed, NoTwoHoles, Merged;
    var removed := Removed(d, heads, chain, names);
    forall t | 0 <= t < |d|
      ensures ScrunchSaved(removed, d, chain)[t] == Scrunched(removed, chain)[t]
        <==> (removed[t] != d[t] ==> !NoTwoHoles(removed[t]))
    {
      MergedChanges(removed[t]);
      if t !in chain {
        RemovedInChain(d, heads, chain, names, t);
      }
    }
  }

  /** In a segment without neighbouring holes, that means a hole on one side of the file. */
  lemma HoleBesideDeleted(es: seq<Ent>, k: nat)
    requires k < |es| && NoTwoHoles(es)
    ensures NoTwoHoles(Deleted(es, k)) <==> !(k > 0 && Hole(es[k - 1])) && !(k + 1 < |es| && Hole(es[k + 1]))
  {
    var after := Deleted(es, k);
    if NoTwoHoles(after) {
      assert k > 0 ==> after[k - 1] == es[k - 1] && !(Hole(after[k - 1]) && Hole(after[k]));
      var next := k + 1;
      assert next < |es| ==> after[next] == es[next] && !(Hole(after[next - 1]) && Hole(after[next]));
    }
  }

  // Three files in a row, the middle one deleted: the floppy still lists it.
  lemma LostDeletion()
    ensures var es := [Ent(RT_FILE, [1, 0, 0], 2, 0), Ent(RT_FILE, [2, 0, 0], 3, 0), Ent(RT_FILE, [3, 0, 0], 4, 0)];
      var removed := Removed([es], [Head(0, 14)], [0], [[2, 0, 0]]);
      removed == [Deleted(es, 1)] && ScrunchSaved(removed, [es], [0]) == [es]
  {
    var es := [Ent(RT_FILE, [1, 0, 0], 2, 0), Ent(RT_FILE, [2, 0, 0], 3, 0), Ent(RT_FILE, [3, 0, 0], 4, 0)];
    assert es[1..] == [es[1], es[2]];
    assert Match(es, [2, 0, 0]) == 1 + Match(es[1..], [2, 0, 0]) == 1;
    var names: seq<seq<nat>> := [[2, 0, 0]];
    assert names[..0] == [];
    assert Removed([es], [Head(0, 14)], [0], names[..0]) == [es];
    assert HoleAlone(Deleted(es, 1));
  }

  predicate HoleAlone(es: seq<Ent>)
    ensures HoleAlone(es) ==> NoTwoHoles(es)
  {
    |es| == 3 && !Hole(es[0]) && !Hole(es[2])
  }

  /** A creation keeps the end mark within the segment's own slots exactly when the hole fits or
      two slots are free: the check for a full segment comes one slot too late. */
  lemma EndMarkStaysInside(es: seq<Ent>, k: nat, size: nat, rname: seq<nat>, date: int)
    requires k < |es| < SLOTS
    ensures HasRoom(es, k, size)
    ensures |Split(es, k, CountFor(size), rname, date)| < SLOTS <==> es[k].len == CountFor(size) || |es| + 1 < SLOTS
    ensures |Split(es, k, CountFor(size), rname, date)| < SLOTS <==> !MarkLeaves(es, k, size)
  {
  }

  /** A segment is full at seventy-two entries, and its end mark is past the last slot then. */
  lemma SegmentInNumbers(es: seq<Ent>, k: nat, size: nat)
    requires k < |es|
    ensures HasRoom(es, k, size) <==> es[k].len == CountFor(size) || |es| != 72
    ensures MarkLeaves(es, k, size) <==> es[k].len != CountFor(size) && |es| == 71
  {
  }

  /** The address of an entry in bytes, and its length. */
  lemma AddressInNumbers(d: Dir, heads: seq<Head>, s: nat, k: nat)
    requires s < |d| == |heads| && k < |d[s]|
    ensures DopeAt(d, heads, s, k) == Dope(512 * (heads[s].stfile + Sum(d[s][..k])), 512 * d[s][k].len, s, k)
  {
    hide Sum;
  }

  /** What is found is in the first of the linked segments that has an entry of that name, and its first
      there. */
  lemma {:induction false} FoundIsFirst(d: Dir, heads: seq<Head>, chain: seq<nat>, rname: seq<nat>, t: nat)
    requires |d| == |heads| && InDir(d, chain) && t < |chain|
    requires forall u, i: nat | 0 <= u < t && i < |d[chain[u]]| :: !(Taken(d[chain[u]][i]) && d[chain[u]][i].name == rname)
    requires exists i: nat :: Named(d, chain[t], i, rname)
    ensures var f := Found(d, heads, chain, rname);
      && f.Some? && f.value.segnum == chain[t] && Named(d, chain[t], f.value.index, rname)
      && forall i: nat | i < f.value.index :: !Named(d, chain[t], i, rname)
  {
    hide Match;
    if t > 0 {
      MatchIs(d[chain[0]], rname, |d[chain[0]]|);
      forall u, i: nat | 0 <= u < t - 1 && i < |d[chain[1..][u]]|
        ensures !(Taken(d[chain[1..][u]][i]) && d[chain[1..][u]][i].name == rname)
      {
        assert chain[1..][u] == chain[u + 1];
      }
      FoundIsFirst(d, heads, chain[1..], rname, t - 1);
    }
  }

  /** The hole taken is in the first of the linked segments that has one big enough, and the first there. */
  lemma {:induction false} FitIsFirst(d: Dir, chain: seq<nat>, size: nat, t: nat, k: nat)
    requires InDir(d, chain) && t < |chain| && Fits(d, chain[t], k, size)
    requires forall i: nat | i < k :: !Fits(d, chain[t], i, size)
    requires forall u, i: nat | 0 <= u < t :: !Fits(d, chain[u], i, size)
    ensures FirstFit(d, chain, size) == Some((chain[t], k))
  {
    hide Fit;
    var es := d[chain[0]];
    if t > 0 {
      forall i: nat | i < |es|
        ensures !(Hole(es[i]) && size <= es[i].len * RT_BLOCK)
      {
        assert !Fits(d, chain[0], i, size);
      }
      FitIs(es, size, |es|);
      forall u, i: nat | 0 <= u < t - 1
        ensures !Fits(d, chain[1..][u], i, size)
      {
        assert chain[1..][u] == chain[u + 1];
      }
      FitIsFirst(d, chain[1..], size, t - 1, k);
    } else {
      forall i: nat | i < k
        ensures !(Hole(es[i]) && size <= es[i].len * RT_BLOCK)
      {
        assert !Fits(d, chain[0], i, size);
      }
      FitIs(es, size, k);
    }
  }

  /** An old entry that is big enough serves again, and a smaller one is cleared only for a new entry. */
  lemma OldEntryServes(d: Dir, saved: Dir, heads: seq<Head>, chain: seq<nat>, later: seq<nat>,
                       rname: seq<nat>, size: nat, date: int)
    requires |d| == |heads| == |saved| && InDir(d, chain) && InDir(d, later)
    ensures var was := Found(d, heads, chain, rname);
      && (was.Some? && size <= was.value.count ==>
            Creation(d, saved, heads, chain, later, rname, size, date) == (d, saved, Made(was.value)))
      && (!(was.Some? && size <= was.value.count) && (forall s, k: nat | s in chain :: !Fits(d, s, k, size)) ==>
            Creation(d, saved, heads, chain, later, rname, size, date) == (d, saved, NoSpace))
  {
    hide Found, FirstFit, Placed, HasRoom, WithoutOld;
    var fit := FirstFit(d, chain, size);
    if fit.Some? && forall s, k: nat | s in chain :: !Fits(d, s, k, size) {
      FirstFitLinked(d, chain, size);
    }
  }

  lemma {:induction false} FirstFitLinked(d: Dir, chain: seq<nat>, size: nat)
    requires InDir(d, chain) && FirstFit(d, chain, size).Some?
    ensures FirstFit(d, chain, size).value.0 in chain
  {
    hide Fit;
    if Fit(d[chain[0]], size) == |d[chain[0]]| {
      FirstFitLinked(d, chain[1..], size);
    }
  }

  // A segment of seventy-one holes with one split: the end mark goes into the slot after the last.
  lemma EndMarkOutside()
    ensures var es := seq(SLOTS - 1, _ => Ent(RT_NULL, [0, 0, 0], 2, 0));
      HasRoom(es, 0, RT_BLOCK) && |Split(es, 0, CountFor(RT_BLOCK), [1, 0, 0], 0)| == SLOTS
  {
    assert CountFor(RT_BLOCK) == 1;
  }

  // An empty file put into an empty hole.
  lemma NegativeHole()
    ensures var es := [Ent(RT_NULL, [0, 0, 0], 0, 0)];
      Fit(es, 0) == 0
      && Split(es, 0, CountFor(0), [1, 0, 0], 0) == [Ent(RT_FILE, [1, 0, 0], 1, 0), Ent(RT_NULL, [0, 0, 0], -1, 0)]
  {
    var es := [Ent(RT_NULL, [0, 0, 0], 0, 0)];
    assert es[..0] == [] && es[1..] == [];
  }

  // Seventy-one holes of two blocks.
  function Holes(): (es: seq<Ent>)
    ensures |es| == SLOTS - 1 && forall k :: 0 <= k < |es| ==> es[k] == Ent(RT_NULL, [0, 0, 0], 2, 0)
  {
    seq(SLOTS - 1, _ => Ent(RT_NULL, [0, 0, 0], 2, 0))
  }

  lemma FullOfHoles(rname: seq<nat>)
    ensures Match(Holes(), rname) == SLOTS - 1 && Fit(Holes(), RT_BLOCK) == 0 && Match([], rname) == 0 && Fit([], RT_BLOCK) == 0
    ensures MarkLeaves(Holes(), 0, RT_BLOCK) && HasRoom(Holes(), 0, RT_BLOCK)
  {
  }

  // Three segments, the first with seventy-one entries and the last with a file.
  function Far(): (d: Dir)
    ensures |d| == 3
  {
    [Holes(), [], [Ent(RT_FILE, [1, 0, 0], 3, 0)]]
  }

  // A creation in the first of three segments linked in order: the third is then out of reach, and its
  // file with it.
  lemma FileOutOfReach()
    ensures var d := Far();
      var heads := [Head(2, 14), Head(3, 200), Head(0, 300)];
      var after := NewHeads(d, heads, [0, 0, 0], [0, 1, 2], [2, 0, 0], RT_BLOCK);
      var made := Creation(d, d, heads, [0, 1, 2], [0, 1], [2, 0, 0], RT_BLOCK, 0).0;
      && Linked(heads, 0, [0, 1, 2]) && after == heads[1 := Head(0, 200)] && Linked(after, 0, [0, 1])
      && Found(d, heads, [0, 1, 2], [1, 0, 0]).Some? && made[2] == d[2] && Found(made, after, [0, 1], [1, 0, 0]) == None
  {
    hide Holes, Match, Fit, Sum, Split, MarkLeaves;
    var d, old1, new1 := Far(), [1, 0, 0], [2, 0, 0];
    var heads, chain: seq<nat>, later: seq<nat> := [Head(2, 14), Head(3, 200), Head(0, 300)], [0, 1, 2], [0, 1];
    FullOfHoles(old1);
    FullOfHoles(new1);
    ThreeLinks(heads, 0, 1, 2);
    OneFile(old1, new1);
    FoundOver3(d, heads, 0, 1, 2, old1);
    FoundOver3(d, heads, 0, 1, 2, new1);
    FirstFitStep(d, chain, RT_BLOCK);
    var after := NewHeads(d, heads, [0, 0, 0], chain, new1, RT_BLOCK);
    assert after == heads[1 := Head(0, 200)];
    TwoLinks(after, 0, 1);
    var made := Creation(d, d, heads, chain, later, new1, RT_BLOCK, 0).0;
    assert made[0] == Split(Holes(), 0, CountFor(RT_BLOCK), new1, 0);
    NotInSplit(old1, new1);
    FoundOver2(made, after, 0, 1, old1);
  }

  // And in the last of three linked out of order: its own segment is out of reach, and the entry just
  // made is lost.
  lemma EntryLost()
    ensures var d: Dir := [[], Holes(), []];
      var heads := [Head(3, 14), Head(0, 200), Head(2, 300)];
      var after := NewHeads(d, heads, [0, 0, 0], [0, 2, 1], [2, 0, 0], RT_BLOCK);
      && Linked(heads, 0, [0, 2, 1]) && after == heads[2 := Head(0, 300)] && Linked(after, 0, [0, 2])
      && Creation(d, d, heads, [0, 2, 1], [0, 2], [2, 0, 0], RT_BLOCK, 0).2 == Lost
  {
    hide Holes, Match, Fit, Sum, Split, MarkLeaves;
    var d: Dir, name := [[], Holes(), []], [2, 0, 0];
    var heads, chain: seq<nat>, later: seq<nat> := [Head(3, 14), Head(0, 200), Head(2, 300)], [0, 2, 1], [0, 2];
    FullOfHoles(name);
    ThreeLinks(heads, 0, 2, 1);
    FoundOver3(d, heads, 0, 2, 1, name);
    FirstFitStep(d, chain, RT_BLOCK);
    FirstFitStep(d, [2, 1], RT_BLOCK);
    FirstFitStep(d, [1], RT_BLOCK);
    assert chain[1..] == [2, 1] && [2, 1][1..] == [1];
    var after := NewHeads(d, heads, [0, 0, 0], chain, name, RT_BLOCK);
    TwoLinks(after, 0, 2);
    var made := Creation(d, d, heads, chain, later, name, RT_BLOCK, 0).0;
    FoundOver2(made, heads, 0, 2, name);
  }

  lemma ThreeLinks(heads: seq<Head>, a: nat, b: nat, c: nat)
    requires a < |heads| && b < |heads| && c < |heads|
    requires heads[a].nxtseg == b + 1 && heads[b].nxtseg == c + 1 && heads[c].nxtseg == 0
    ensures Linked(heads, a, [a, b, c])
  {
    assert [a, b, c][1..] == [b, c];
    TwoLinks(heads, b, c);
  }

  lemma TwoLinks(heads: seq<Head>, b: nat, c: nat)
    requires b < |heads| && c < |heads| && heads[b].nxtseg == c + 1 && heads[c].nxtseg == 0
    ensures Linked(heads, b, [b, c])
  {
    assert [b, c][1..] == [c] && [c][1..] == [];
    assert Linked(heads, -1, []);
    assert Linked(heads, c, [c]);
  }

  lemma FoundOver3(d: Dir, heads: seq<Head>, a: nat, b: nat, c: nat, rname: seq<nat>)
    requires |d| == |heads| && a < |d| && b < |d| && c < |d|
    ensures Found(d, heads, [a, b, c], rname) == None
      <==> Match(d[a], rname) == |d[a]| && Match(d[b], rname) == |d[b]| && Match(d[c], rname) == |d[c]|
  {
    hide Match, Sum;
    FoundStep(d, heads, [a, b, c], rname);
    assert [a, b, c][1..] == [b, c];
    FoundOver2(d, heads, b, c, rname);
  }

  lemma FoundOver2(d: Dir, heads: seq<Head>, b: nat, c: nat, rname: seq<nat>)
    requires |d| == |heads| && b < |d| && c < |d|
    ensures Found(d, heads, [b, c], rname) == None <==> Match(d[b], rname) == |d[b]| && Match(d[c], rname) == |d[c]|
  {
    hide Match, Sum;
    FoundStep(d, heads, [b, c], rname);
    assert [b, c][1..] == [c] && [c][1..] == [];
    FoundStep(d, heads, [c], rname);
    FoundNowhere(d, heads, rname);
  }

  lemma OneFile(name: seq<nat>, other: seq<nat>)
    requires name != other
    ensures var es := [Ent(RT_FILE, name, 3, 0)]; Match(es, name) == 0 && Match(es, other) == 1
  {
  }

  lemma NotInSplit(name: seq<nat>, other: seq<nat>)
    requires name != other
    ensures var es := Split(Holes(), 0, CountFor(RT_BLOCK), other, 0); Match(es, name) == |es|
  {
    var es := Split(Holes(), 0, CountFor(RT_BLOCK), other, 0);
    assert forall k :: 0 <= k < |es| ==> es[k].name == other || Hole(es[k]);
  }
}
