/** A run of the replace command over a list of files, and what extracting gives for every name
    afterwards. */
module ArffRun {
  import opened Options
  import opened Floppy
  import opened Extents
  import opened Arff
  import opened ArffLinks
  import opened ArffLaws
  import opened ArffStore

  // The first file of that name in a list of extents.
  function First(xs: seq<Extent>, rname: seq<nat>): (f: Option<Extent>)
    ensures f.Some? ==> f.value in xs && f.value.ent.name == rname
  {
    if xs == [] then None else if xs[0].ent.name == rname then Some(xs[0]) else First(xs[1..], rname)
  }

  lemma {:induction false} FirstParts(xs: seq<Extent>, ys: seq<Extent>, rname: seq<nat>)
    ensures First(xs + ys, rname) == if First(xs, rname).Some? then First(xs, rname) else First(ys, rname)
  {
    if xs == [] {
      assert xs + ys == ys;
    } else {
      assert (xs + ys)[1..] == xs[1..] + ys;
      FirstParts(xs[1..], ys, rname);
    }
  }

  lemma OtherBetween(xs: seq<Extent>, x: Extent, ys: seq<Extent>, rname: seq<nat>)
    requires x.ent.name != rname
    ensures First(xs + [x] + ys, rname) == First(xs + ys, rname)
  {
    FirstParts(xs + [x], ys, rname);
    FirstParts(xs, [x], rname);
    FirstParts(xs, ys, rname);
  }

  lemma {:induction false} MatchIsFirst(es: seq<Ent>, base: int, rname: seq<nat>)
    ensures var k := Match(es, rname);
      First(Files(es, base), rname) == if k < |es| then Some(Extent(es[k], base + Sum(es[..k]))) else None
  {
    hide Files, Sum, Blocks;
    NoneOf(base);
    if es != [] {
      var e, rest := es[0], es[1..];
      var k := Match(es, rname);
      assert es == [e] + rest;
      FirstOf(e, rest, base);
      FirstParts(Listed(e, base), Files(rest, base + Blocks(e)), rname);
      MatchIsFirst(rest, base + Blocks(e), rname);
      if k > 0 {
        assert es[..k] == [e] + rest[..k - 1];
        FirstOf(e, rest[..k - 1], base);
      }
    }
  }

  /** The file of that name that comes first in the order of the links, and where it lies. */
  function Place(d: Dir, heads: seq<Head>, chain: seq<nat>, rname: seq<nat>): (p: Option<Extent>)
    requires |d| == |heads| && InDir(d, chain)
    ensures p.Some? ==> exists s: nat :: s < |d| && p.value in Files(d[s], heads[s].stfile) && p.value.ent.name == rname
  {
    if chain == [] then None
    else
      var f := First(Files(d[chain[0]], heads[chain[0]].stfile), rname);
      if f.Some? then f else Place(d, heads, chain[1..], rname)
  }

  /** Looking a name up finds that file. */
  lemma {:induction false} FoundAtPlace(d: Dir, heads: seq<Head>, chain: seq<nat>, rname: seq<nat>)
    requires |d| == |heads| && InDir(d, chain)
    ensures match Found(d, heads, chain, rname)
      case None => Place(d, heads, chain, rname) == None
      case Some(dope) =>
        && At(d, dope)
        && Place(d, heads, chain, rname)
           == Some(Extent(d[dope.segnum][dope.index], StartOf(d, heads, dope.segnum, dope.index)))
  {
    hide Match, Sum, Files, First;
    if chain != [] {
      FoundStep(d, heads, chain, rname);
      MatchIsFirst(d[chain[0]], heads[chain[0]].stfile, rname);
      FoundAtPlace(d, heads, chain[1..], rname);
    }
  }

  lemma {:induction false} SamePlaces(d: Dir, heads: seq<Head>, e: Dir, after: seq<Head>, chain: seq<nat>, rname: seq<nat>)
    requires |d| == |heads| == |e| == |after| && InDir(d, chain)
    requires forall t :: 0 <= t < |d| ==> after[t].stfile == heads[t].stfile
    requires forall t :: 0 <= t < |d| ==>
      First(Files(e[t], heads[t].stfile), rname) == First(Files(d[t], heads[t].stfile), rname)
    ensures InDir(e, chain) && Place(e, after, chain, rname) == Place(d, heads, chain, rname)
  {
    hide First, Files;
    if chain != [] {
      SamePlaces(d, heads, e, after, chain[1..], rname);
    }
  }

  /** Creating a file leaves every other name's first file where it is. */
  lemma CreationKeepsPlaces(d: Dir, saved: Dir, heads: seq<Head>, after: seq<Head>, chain: seq<nat>, later: seq<nat>,
                            rname: seq<nat>, size: nat, date: int, other: seq<nat>)
    requires |d| == |heads| == |saved| == |after| && InDir(d, chain) && InDir(d, later) && other != rname
    requires forall t :: 0 <= t < |d| ==> after[t].stfile == heads[t].stfile
    ensures var made := Creation(d, saved, heads, chain, later, rname, size, date).0;
      InDir(made, chain) && Place(made, after, chain, other) == Place(d, heads, chain, other)
  {
    hide Files, Split, CountFor, Found, FirstFit, First, HasRoom, Place;
    FoundIn(d, heads, chain, rname);
    var was, fit := Found(d, heads, chain, rname), FirstFit(d, chain, size);
    var cleared := WithoutOld(d, was);
    var made := Creation(d, saved, heads, chain, later, rname, size, date).0;
    forall t | 0 <= t < |d|
      ensures First(Files(made[t], heads[t].stfile), other) == First(Files(d[t], heads[t].stfile), other)
    {
      var base := heads[t].stfile;
      if was.Some? {
        FirstAfterDeletion(d[was.value.segnum], was.value.index, base, other);
      }
      if fit.Some? {
        var (s, k) := fit.value;
        FirstAfterSplit(cleared[s], k, CountFor(size), rname, date, base, other);
      }
    }
    SamePlaces(d, heads, made, after, chain, other);
  }

  lemma FirstAfterDeletion(es: seq<Ent>, k: nat, base: int, other: seq<nat>)
    requires k < |es| && Taken(es[k]) && es[k].name != other
    ensures First(Files(Deleted(es, k), base), other) == First(Files(es, base), other)
  {
    hide Files, First;
    DeletedExtents(es, k, base);
    OtherBetween(Files(es[..k], base), Extent(es[k], base + Sum(es[..k])),
                 Files(es[k + 1..], base + Sum(es[..k]) + Blocks(es[k])), other);
  }

  lemma FirstAfterSplit(es: seq<Ent>, k: nat, count: int, rname: seq<nat>, date: int, base: int, other: seq<nat>)
    requires k < |es| && Hole(es[k]) && other != rname
    ensures First(Files(Split(es, k, count, rname, date), base), other) == First(Files(es, base), other)
  {
    hide Files, First;
    SplitExtents(es, k, count, rname, date, base);
    OtherBetween(Files(es[..k], base), Extent(Ent(RT_FILE, rname, count, date), base + Sum(es[..k])),
                 Files(es[k + 1..], base + Sum(es[..k]) + Blocks(es[k])), other);
  }

  // Where an entry was before the hole at k was split.
  function Origin(es: seq<Ent>, k: nat, count: int, i: nat): nat
    requires k < |es|
  {
    if es[k].len == count || i <= k then i else i - 1
  }

  lemma SplitNames(es: seq<Ent>, k: nat, count: int, rname: seq<nat>, date: int, i: nat)
    requires k < |es| && Hole(es[k])
    ensures var after := Split(es, k, count, rname, date);
      && (i < |after| && Taken(after[i]) ==>
            (i == k && after[i].name == rname)
            || (i != k && (es[k].len != count ==> i != k + 1)
                && Origin(es, k, count, i) < |es| && after[i] == es[Origin(es, k, count, i)]))
  {
  }

  /** A name that is in the linked segments at most once still is after a creation. */
  lemma OnceKept(d: Dir, saved: Dir, heads: seq<Head>, chain: seq<nat>, later: seq<nat>,
                 rname: seq<nat>, size: nat, date: int, other: seq<nat>)
    requires |d| == |heads| == |saved| && InDir(d, chain) && InDir(d, later)
    requires Once(d, chain, rname) && Once(d, chain, other)
    ensures Once(Creation(d, saved, heads, chain, later, rname, size, date).0, chain, other)
  {
    hide Split, CountFor, Found, FirstFit, HasRoom, WithoutOld, Match, Once;
    FoundIn(d, heads, chain, rname);
    var was, fit := Found(d, heads, chain, rname), FirstFit(d, chain, size);
    var cleared := WithoutOld(d, was);
    ClearedOnce(d, heads, chain, rname, other);
    if fit.Some? && !(was.Some? && size <= was.value.count) {
      var (s, k) := fit.value;
      StillHole(d, was, s, k);
      if HasRoom(cleared[s], k, size) {
        SplitOnce(cleared, chain, s, k, CountFor(size), rname, date, other);
      }
    }
  }

  lemma StillHole(d: Dir, was: Option<Dope>, s: nat, k: nat)
    requires (was.Some? ==> At(d, was.value)) && s < |d| && k < |d[s]| && Hole(d[s][k])
    ensures var cleared := WithoutOld(d, was); |cleared[s]| == |d[s]| && Hole(cleared[s][k]) && cleared[s][k].len == d[s][k].len
  {
  }

  lemma ClearedOnce(d: Dir, heads: seq<Head>, chain: seq<nat>, rname: seq<nat>, other: seq<nat>)
    requires |d| == |heads| && InDir(d, chain) && Once(d, chain, rname) && Once(d, chain, other)
    ensures var cleared := WithoutOld(d, Found(d, heads, chain, rname));
      Once(cleared, chain, other) && forall c: nat, i: nat | c in chain :: !Named(cleared, c, i, rname)
  {
    hide Found, Match;
    FoundIn(d, heads, chain, rname);
    var cleared := WithoutOld(d, Found(d, heads, chain, rname));
    forall c: nat, i: nat, n | Named(cleared, c, i, n)
      ensures Named(d, c, i, n)
    {
    }
    forall c: nat, i: nat | c in chain
      ensures !Named(cleared, c, i, rname)
    {
      NamedStays(d, heads, chain, c, i, rname);
    }
  }

  lemma SplitOnce(d: Dir, chain: seq<nat>, s: nat, k: nat, count: int, rname: seq<nat>, date: int, other: seq<nat>)
    requires s < |d| && k < |d[s]| && Hole(d[s][k])
    requires Once(d, chain, other) && forall c: nat, i: nat | c in chain :: !Named(d, c, i, rname)
    ensures Once(d[s := Split(d[s], k, count, rname, date)], chain, other)
  {
    hide Split;
    var made := d[s := Split(d[s], k, count, rname, date)];
    forall b, e, i, j | b in chain && e in chain && Named(made, b, i, other) && Named(made, e, j, other)
      ensures b == e && i == j
    {
      SplitNames(d[s], k, count, rname, date, i);
      SplitNames(d[s], k, count, rname, date, j);
      var p := if b == s then Origin(d[s], k, count, i) else i;
      var q := if e == s then Origin(d[s], k, count, j) else j;
      assert (b == s && i == k) || Named(d, b, p, other);
      assert (e == s && j == k) || Named(d, e, q, other);
    }
  }

  // What extracting a name gives.
  datatype Held = Absent | PastEnd | Bytes(bytes: seq<Byte>)

  ghost function HeldAt(v: seq<Byte>, p: Option<Extent>): Held {
    match p
    case None => Absent
    case Some(x) =>
      if 0 <= x.start && 0 <= x.ent.len && RT_BLOCK * (x.start + x.ent.len) <= |v| then Bytes(Contents(v, x)) else PastEnd
  }

  ghost function Reads(v: seq<Byte>, d: Dir, heads: seq<Head>, chain: seq<nat>, rname: seq<nat>): Held
    requires |d| == |heads| && InDir(d, chain)
  {
    HeldAt(v, Place(d, heads, chain, rname))
  }

  lemma ReadsWhere(v: seq<Byte>, d: Dir, heads: seq<Head>, chain: seq<nat>, rname: seq<nat>)
    requires Laid(d, heads) && InDir(d, chain)
    ensures match Found(d, heads, chain, rname)
      case None => Reads(v, d, heads, chain, rname) == Absent
      case Some(dope) =>
        && 0 <= dope.startad && 0 <= dope.count
        && Reads(v, d, heads, chain, rname)
           == if dope.startad + dope.count <= |v| then Bytes(v[dope.startad..dope.startad + dope.count]) else PastEnd
  {
    hide Found, Place, Sum;
    FoundAtPlace(d, heads, chain, rname);
    var f := Found(d, heads, chain, rname);
    if f.Some? {
      FoundPlace(d, heads, chain, rname);
      DopePlace(d, heads, f.value.segnum, f.value.index);
    }
  }

  /** Extracting gives what is held under the name. */
  method Extract(dir: Directory, drive: Drive, rname: seq<nat>) returns (r: Option<seq<Byte>>)
    requires dir.Valid() && drive.Valid() && Laid(dir.Live(), dir.heads) && InDir(dir.Live(), dir.chain)
    requires Reads(drive.View(), dir.Live(), dir.heads, dir.chain, rname) != PastEnd
    ensures match Reads(drive.View(), dir.Live(), dir.heads, dir.chain, rname)
      case Absent => r == None
      case Bytes(bytes) => r == Some(bytes)
      case PastEnd => false
  {
    hide Found, Reads, Laid, Drive.View, Directory.Live, Directory.Structured;
    DirectoryParts(dir);
    ReadsWhere(drive.View(), dir.Live(), dir.heads, dir.chain, rname);
    r := Rtx(dir, drive, rname);
  }

  datatype NamedFile = NamedFile(rname: seq<nat>, data: seq<Byte>, date: int)

  /** The file, and zeros behind it unless it is of whole blocks. */
  predicate Stored(out: seq<Byte>, data: seq<Byte>) {
    data <= out && Whole(|out|) && (!Whole(|data|) ==> out == data + Zeros(|out| - |data|))
  }

  /** What one request does to what is held under a name. */
  ghost predicate Effect(was: Held, f: NamedFile, r: Created, rname: seq<nat>, now: Held) {
    if f.rname != rname || r == NoSpace then now == was
    else if r.Made? then now.Bytes? && Stored(now.bytes, f.data)
    else now == Absent
  }

  // With the links as they were, a creation of a name that is there at most once ends in one of three ways.
  lemma NeverLost(d: Dir, saved: Dir, heads: seq<Head>, chain: seq<nat>, rname: seq<nat>, size: nat, date: int)
    requires |d| == |heads| == |saved| && InDir(d, chain) && Once(d, chain, rname)
    ensures var (made, _, r) := Creation(d, saved, heads, chain, chain, rname, size, date);
      && r != Lost && InDir(made, chain)
      && (r == NoSpace ==> made == d)
      && (r == SegmentFull ==> Place(made, heads, chain, rname) == None)
      && (r.Made? ==> Found(made, heads, chain, rname) == Some(r.dope))
  {
    hide Found, FirstFit, Split, CountFor, HasRoom, WithoutOld, Once, Place;
    if Enters(d, heads, chain, rname, size) {
      var (s, k) := FirstFit(d, chain, size).value;
      var cleared := WithoutOld(d, Found(d, heads, chain, rname));
      FirstFitLinked(d, chain, size);
      FoundIn(d, heads, chain, rname);
      StillHole(d, Found(d, heads, chain, rname), s, k);
      if HasRoom(cleared[s], k, size) {
        UniqueNameIsFound(d, saved, heads, chain, chain, rname, size, date);
      } else {
        ClearedOnce(d, heads, chain, rname, rname);
        NothingNamed(cleared, heads, chain, rname);
        FoundAtPlace(cleared, heads, chain, rname);
      }
    }
    MadeIsFound(d, saved, heads, chain, chain, rname, size, date);
  }

  // Every other name still reads as it did.
  lemma OthersRead(d: Dir, heads: seq<Head>, chain: seq<nat>, f: NamedFile, v: seq<Byte>, w: seq<Byte>, rname: seq<nat>)
    requires |d| == |heads| && InDir(d, chain) && rname != f.rname && |w| == |v|
    requires OthersKept(d, v, Creation(d, d, heads, chain, chain, f.rname, |f.data|, f.date).0, w, heads, f.rname)
    ensures var made := Creation(d, d, heads, chain, chain, f.rname, |f.data|, f.date).0;
      InDir(made, chain) && Reads(w, made, heads, chain, rname) == Reads(v, d, heads, chain, rname)
  {
    hide Creation, Files, Place, Contents;
    CreationKeepsPlaces(d, d, heads, heads, chain, chain, f.rname, |f.data|, f.date, rname);
  }

  // The file just stored reads back, with zeros behind it unless it is of whole blocks.
  lemma StoredReads(d: Dir, heads: seq<Head>, chain: seq<nat>, f: NamedFile, v: seq<Byte>, w: seq<Byte>)
    requires |d| == |heads| && Laid(d, heads) && InDir(d, chain) && Once(d, chain, f.rname)
    requires !Squeezed(d, heads, chain, f.rname, |f.data|) && OnFloppy(d, heads, chain, f.rname, |f.data|, |v|)
    requires var (made, _, r) := Creation(d, d, heads, chain, chain, f.rname, |f.data|, f.date);
      r.Made? && Fills(v, w, f.data, made, r.dope)
    ensures var made := Creation(d, d, heads, chain, chain, f.rname, |f.data|, f.date).0;
      && InDir(made, chain) && |made| == |heads|
      && var now := Reads(w, made, heads, chain, f.rname); now.Bytes? && Stored(now.bytes, f.data)
  {
    hide Creation, Once, Laid, Found, OnFloppy, Squeezed, Fills, Reads, Stored, Behind, InDir;
    var (made, _, r) := Creation(d, d, heads, chain, chain, f.rname, |f.data|, f.date);
    NeverLost(d, d, heads, chain, f.rname, |f.data|, f.date);
    LaidAfter(d, heads, chain, f.rname, |f.data|, f.date);
    CreationWhatever(d, d, heads, chain, chain, f.rname, |f.data|, f.date);
    CreatedOnFloppy(d, heads, chain, chain, f.rname, |f.data|, f.date, |v|);
    FilledReads(v, w, f.data, made, r.dope);
    ReadsWhere(w, made, heads, chain, f.rname);
    StoredBehind(v, r.dope.startad, f.data, made[r.dope.segnum][r.dope.index].len);
  }

  lemma StoredBehind(v: seq<Byte>, startad: nat, data: seq<Byte>, len: int)
    requires |data| <= len * RT_BLOCK && startad + len * RT_BLOCK <= |v|
    ensures Stored(data + Behind(v, startad, data, len), data)
  {
    BlockStart(len);
    hide Whole;
    var out := data + Behind(v, startad, data, len);
    assert |out| == len * RT_BLOCK;
  }

  /** One request: under its own name the file is held, or nothing is when its segment was full; under
      every other name what was held. */
  lemma StoreStep(d: Dir, heads: seq<Head>, chain: seq<nat>, f: NamedFile, v: seq<Byte>, w: seq<Byte>, rname: seq<nat>)
    requires |d| == |heads| && Laid(d, heads) && InDir(d, chain) && Once(d, chain, f.rname) && |w| == |v|
    requires !Squeezed(d, heads, chain, f.rname, |f.data|) && OnFloppy(d, heads, chain, f.rname, |f.data|, |v|)
    requires var (made, _, r) := Creation(d, d, heads, chain, chain, f.rname, |f.data|, f.date);
      && (r.Made? ==> Fills(v, w, f.data, made, r.dope)) && (!r.Made? ==> w == v)
      && OthersKept(d, v, made, w, heads, f.rname)
    ensures var (made, _, r) := Creation(d, d, heads, chain, chain, f.rname, |f.data|, f.date);
      && InDir(made, chain) && |made| == |heads|
      && Effect(Reads(v, d, heads, chain, rname), f, r, rname, Reads(w, made, heads, chain, rname))
  {
    hide Creation, Once, Laid, OnFloppy, Squeezed, Fills, Stored, Place, OthersKept;
    NeverLost(d, d, heads, chain, f.rname, |f.data|, f.date);
    if rname != f.rname {
      OthersRead(d, heads, chain, f, v, w, rname);
    } else if Creation(d, d, heads, chain, chain, f.rname, |f.data|, f.date).2.Made? {
      StoredReads(d, heads, chain, f, v, w);
    }
  }

  /** The floppy has room for what each request in turn will write, none of them puts an empty file
      into an empty hole, and none changes the chain of links. */
  ghost predicate RunFits(d: Dir, heads: seq<Head>, marks: seq<int>, chain: seq<nat>, files: seq<NamedFile>, capacity: nat)
    requires |d| == |heads| == |marks| && InDir(d, chain)
    decreases |files|
  {
    files == [] ||
    (var (f, size) := (files[0], |files[0].data|);
     var after := NewHeads(d, heads, marks, chain, f.rname, size);
     && OnFloppy(d, heads, chain, f.rname, size, capacity) && !Squeezed(d, heads, chain, f.rname, size)
     && Linked(after, 0, chain)
     && var (made, _, r) := Creation(d, d, heads, chain, chain, f.rname, size, f.date);
        InDir(made, chain) && (r == SegmentFull || RunFits(made, after, marks, chain, files[1..], capacity)))
  }

  /** A request that gets its file made or changes nothing, and clears no old entry but in the segment
      that is written back. */
  predicate Rewritten(d: Dir, heads: seq<Head>, chain: seq<nat>, f: NamedFile)
    requires |d| == |heads| && InDir(d, chain)
  {
    var was, fit := Found(d, heads, chain, f.rname), FirstFit(d, chain, |f.data|);
    Enters(d, heads, chain, f.rname, |f.data|) ==>
      HasRoom(WithoutOld(d, was)[fit.value.0], fit.value.1, |f.data|) && (was.None? || was.value.segnum == fit.value.0)
  }

  ghost predicate AllRewritten(d: Dir, heads: seq<Head>, marks: seq<int>, chain: seq<nat>, files: seq<NamedFile>)
    requires |d| == |heads| == |marks| && InDir(d, chain)
    decreases |files|
  {
    files == [] ||
    (var f := files[0];
     var made := Creation(d, d, heads, chain, chain, f.rname, |f.data|, f.date).0;
     && Rewritten(d, heads, chain, f) && InDir(made, chain)
     && AllRewritten(made, NewHeads(d, heads, marks, chain, f.rname, |f.data|), marks, chain, files[1..]))
  }

  /** Such a request leaves the floppy's entries up to date. */
  lemma RewrittenSaved(d: Dir, heads: seq<Head>, chain: seq<nat>, f: NamedFile)
    requires |d| == |heads| && InDir(d, chain) && Rewritten(d, heads, chain, f)
    ensures var (made, saved, _) := Creation(d, d, heads, chain, chain, f.rname, |f.data|, f.date); saved == made
  {
    hide Found, FirstFit, Split, CountFor, HasRoom, WithoutOld;
    MadeIsFound(d, d, heads, chain, chain, f.rname, |f.data|, f.date);
    if Enters(d, heads, chain, f.rname, |f.data|) {
      CreationIs(d, d, heads, chain, chain, f.rname, |f.data|, f.date);
      CreationWritten(d, heads, chain, chain, f.rname, |f.data|, f.date);
    }
  }

  /** What a run does to what is held under a name: the requests made under it, one after another. */
  ghost predicate Outcome(was: Held, files: seq<NamedFile>, done: seq<Created>, rname: seq<nat>, now: Held)
    requires |done| <= |files|
  {
    if done == [] then now == was
    else
      var i := |done| - 1;
      if files[i].rname != rname || done[i] == NoSpace then Outcome(was, files, done[..i], rname, now)
      else Effect(was, files[i], done[i], rname, now)
  }

  lemma OutcomeStep(was: Held, files: seq<NamedFile>, done: seq<Created>, rname: seq<nat>, mid: Held, r: Created, now: Held)
    requires |done| < |files| && Outcome(was, files, done, rname, mid) && Effect(mid, files[|done|], r, rname, now)
    ensures Outcome(was, files, done + [r], rname, now)
  {
    assert (done + [r])[..|done|] == done;
  }

  /** A name holds the last file that was made under it: one after which no request of that name found
      a hole. */
  lemma {:induction false} LastMade(was: Held, files: seq<NamedFile>, done: seq<Created>, rname: seq<nat>, now: Held, i: nat)
    requires |done| <= |files| && Outcome(was, files, done, rname, now)
    requires i < |done| && files[i].rname == rname && done[i].Made?
    requires forall j :: i < j < |done| && files[j].rname == rname ==> done[j] == NoSpace
    ensures now.Bytes? && Stored(now.bytes, files[i].data)
    decreases |done|
  {
    hide Stored;
    var last := |done| - 1;
    if files[last].rname != rname || done[last] == NoSpace {
      LastMade(was, files, done[..last], rname, now, i);
    }
  }

  /** And what it held before when no request named it or none of those found a hole. */
  lemma {:induction false} NotAsked(was: Held, files: seq<NamedFile>, done: seq<Created>, rname: seq<nat>, now: Held)
    requires |done| <= |files| && Outcome(was, files, done, rname, now)
    requires forall j :: 0 <= j < |done| && files[j].rname == rname ==> done[j] == NoSpace
    ensures now == was
    decreases |done|
  {
    if done != [] {
      NotAsked(was, files, done[..|done| - 1], rname, now);
    }
  }

  ghost predicate AllOnce(d: Dir, chain: seq<nat>, files: seq<NamedFile>) {
    forall f :: f in files ==> Once(d, chain, f.rname)
  }

  lemma AllOnceKept(d: Dir, heads: seq<Head>, chain: seq<nat>, f: NamedFile, files: seq<NamedFile>)
    requires |d| == |heads| && InDir(d, chain) && AllOnce(d, chain, files) && f in files
    ensures AllOnce(Creation(d, d, heads, chain, chain, f.rname, |f.data|, f.date).0, chain, files)
  {
    hide Creation, Once;
    forall g | g in files
      ensures Once(Creation(d, d, heads, chain, chain, f.rname, |f.data|, f.date).0, chain, g.rname)
    {
      OnceKept(d, d, heads, chain, chain, f.rname, |f.data|, f.date, g.rname);
    }
  }

  lemma OnceSingle(d: Dir, chain: seq<nat>, rname: seq<nat>)
    requires Once(d, chain, rname)
    ensures Single(d, chain, chain, rname)
  {
  }

  /** One request of a run, after which the rest of the run can go on. */
  method RunOne(dir: Directory, drive: Drive, f: NamedFile, ghost files: seq<NamedFile>, ghost rest: seq<NamedFile>)
    returns (r: Created)
    requires dir.Valid() && drive.Valid() && Laid(dir.Live(), dir.heads) && InDir(dir.Live(), dir.chain)
    requires f in files && AllOnce(dir.Live(), dir.chain, files)
    requires RunFits(dir.Live(), dir.heads, dir.marks, dir.chain, [f] + rest, drive.Capacity())
    modifies dir, dir.curend, dir.ents, drive.bytes
    ensures dir.Valid() && Laid(dir.Live(), dir.heads) && dir.chain == old(dir.chain) && InDir(dir.Live(), dir.chain)
    ensures r != Lost && AllOnce(dir.Live(), dir.chain, files)
    ensures r != SegmentFull ==> RunFits(dir.Live(), dir.heads, dir.marks, dir.chain, rest, drive.Capacity())
    ensures old(dir.saved == dir.Live() && AllRewritten(dir.Live(), dir.heads, dir.marks, dir.chain, [f] + rest)) ==>
              dir.saved == dir.Live() && AllRewritten(dir.Live(), dir.heads, dir.marks, dir.chain, rest)
    ensures forall rname :: Effect(old(Reads(drive.View(), dir.Live(), dir.heads, dir.chain, rname)), f, r, rname,
                                   Reads(drive.View(), dir.Live(), dir.heads, dir.chain, rname))
  {
    hide *;
    DirectoryParts(dir);
    ghost var d, heads, chain, v, saved := dir.Live(), dir.heads, dir.chain, drive.View(), dir.saved;
    RunStep(d, heads, dir.marks, chain, f, rest, |v|);
    BeforeStore(dir, f, files);
    OnFloppyWritten(d, heads, chain, f.rname, f.data, |v|);
    r := Rtr(dir, drive, f.rname, f.data, f.date);
    DirectoryParts(dir);
    CreationWhatever(d, saved, heads, chain, chain, f.rname, |f.data|, f.date);
    AfterStore(d, heads, dir.heads, chain, f, files, v, drive.View());
    if saved == d && AllRewritten(d, heads, dir.marks, chain, [f] + rest) {
      RewrittenStep(d, heads, dir.marks, chain, f, rest);
    }
    forall rname
      ensures Effect(Reads(v, d, heads, chain, rname), f, r, rname, Reads(drive.View(), dir.Live(), dir.heads, chain, rname))
    {
      StoreStep(d, heads, chain, f, v, drive.View(), rname);
      ReadsSame(drive.View(), dir.Live(), heads, dir.heads, chain, rname);
    }
  }

  lemma RunStep(d: Dir, heads: seq<Head>, marks: seq<int>, chain: seq<nat>, f: NamedFile, rest: seq<NamedFile>, capacity: nat)
    requires |d| == |heads| == |marks| && InDir(d, chain) && RunFits(d, heads, marks, chain, [f] + rest, capacity)
    ensures OnFloppy(d, heads, chain, f.rname, |f.data|, capacity) && !Squeezed(d, heads, chain, f.rname, |f.data|)
    ensures var after := NewHeads(d, heads, marks, chain, f.rname, |f.data|);
      && Linked(after, 0, chain)
      && var (made, _, r) := Creation(d, d, heads, chain, chain, f.rname, |f.data|, f.date);
         InDir(made, chain) && (r == SegmentFull || RunFits(made, after, marks, chain, rest, capacity))
  {
    hide OnFloppy, Squeezed, Linked, Creation, NewHeads, InDir;
    assert ([f] + rest)[1..] == rest;
  }

  lemma RewrittenStep(d: Dir, heads: seq<Head>, marks: seq<int>, chain: seq<nat>, f: NamedFile, rest: seq<NamedFile>)
    requires |d| == |heads| == |marks| && InDir(d, chain) && AllRewritten(d, heads, marks, chain, [f] + rest)
    ensures var (made, saved, _) := Creation(d, d, heads, chain, chain, f.rname, |f.data|, f.date);
      && InDir(made, chain) && saved == made
      && AllRewritten(made, NewHeads(d, heads, marks, chain, f.rname, |f.data|), marks, chain, rest)
  {
    hide Rewritten, Creation, NewHeads, InDir;
    assert ([f] + rest)[1..] == rest;
    RewrittenSaved(d, heads, chain, f);
  }

  lemma BeforeStore(dir: Directory, f: NamedFile, files: seq<NamedFile>)
    requires dir.Valid() && InDir(dir.Live(), dir.chain) && f in files && AllOnce(dir.Live(), dir.chain, files)
    requires Linked(NewHeads(dir.Live(), dir.heads, dir.marks, dir.chain, f.rname, |f.data|), 0, dir.chain)
    ensures dir.StillEnds(f.rname, |f.data|) && Later(dir, f.rname, |f.data|) == dir.chain
    ensures Single(dir.Live(), dir.chain, Later(dir, f.rname, |f.data|), f.rname)
  {
    hide NewHeads, Linked, Once;
    var after := NewHeads(dir.Live(), dir.heads, dir.marks, dir.chain, f.rname, |f.data|);
    OneChain(after, 0, dir.chain, Chain(after));
    OnceSingle(dir.Live(), dir.chain, f.rname);
  }

  lemma AfterStore(d: Dir, heads: seq<Head>, after: seq<Head>, chain: seq<nat>, f: NamedFile, files: seq<NamedFile>,
                   v: seq<Byte>, w: seq<Byte>)
    requires |d| == |heads| == |after| && InDir(d, chain) && Laid(d, heads) && f in files && AllOnce(d, chain, files)
    requires !Squeezed(d, heads, chain, f.rname, |f.data|)
    requires forall t :: 0 <= t < |heads| ==> after[t].stfile == heads[t].stfile
    ensures var (made, _, r) := Creation(d, d, heads, chain, chain, f.rname, |f.data|, f.date);
      r != Lost && InDir(made, chain) && AllOnce(made, chain, files) && Laid(made, after) && Once(d, chain, f.rname)
  {
    hide Creation, Once, Laid, Squeezed;
    AllOnceKept(d, heads, chain, f, files);
    NeverLost(d, d, heads, chain, f.rname, |f.data|, f.date);
    LaidAfter(d, heads, chain, f.rname, |f.data|, f.date);
    CreationWhatever(d, d, heads, chain, chain, f.rname, |f.data|, f.date);
    SameLayout(Creation(d, d, heads, chain, chain, f.rname, |f.data|, f.date).0, heads, after);
  }

  lemma ReadsSame(v: seq<Byte>, d: Dir, heads: seq<Head>, after: seq<Head>, chain: seq<nat>, rname: seq<nat>)
    requires |d| == |heads| == |after| && InDir(d, chain)
    requires forall t :: 0 <= t < |heads| ==> after[t].stfile == heads[t].stfile
    ensures Reads(v, d, after, chain, rname) == Reads(v, d, heads, chain, rname)
  {
    hide Place;
    SamePlaces(d, heads, d, after, chain, rname);
  }

  /** The replace command. A full segment ends the program; otherwise every request is made, and
      afterwards each name holds the last file made under it and every other name what it held. */
  method RCmd(dir: Directory, drive: Drive, files: seq<NamedFile>) returns (done: seq<Created>)
    requires dir.Valid() && drive.Valid() && Laid(dir.Live(), dir.heads) && InDir(dir.Live(), dir.chain)
    requires AllOnce(dir.Live(), dir.chain, files)
    requires RunFits(dir.Live(), dir.heads, dir.marks, dir.chain, files, drive.Capacity())
    modifies dir, dir.curend, dir.ents, drive.bytes
    ensures dir.Valid() && Laid(dir.Live(), dir.heads) && dir.chain == old(dir.chain) && InDir(dir.Live(), dir.chain)
    ensures |done| <= |files| && forall i :: 0 <= i < |done| ==> done[i] != Lost
    ensures |done| == |files| || (done != [] && done[|done| - 1] == SegmentFull)
    ensures forall i :: 0 <= i < |done| - 1 ==> done[i] != SegmentFull
    ensures old(dir.saved == dir.Live() && AllRewritten(dir.Live(), dir.heads, dir.marks, dir.chain, files)) ==>
              dir.saved == dir.Live()
    ensures forall rname ::
      Outcome(old(Reads(drive.View(), dir.Live(), dir.heads, dir.chain, rname)), files, done, rname,
              Reads(drive.View(), dir.Live(), dir.heads, dir.chain, rname))
  {
    hide Reads, Outcome, Effect, RunFits, AllRewritten, AllOnce, Laid, InDir, Linked, Drive.View, Directory.Live, Directory.Structured;
    DirectoryParts(dir);
    ghost var v0, d0, heads0, chain := drive.View(), dir.Live(), dir.heads, dir.chain;
    ghost var current := dir.saved == d0 && AllRewritten(d0, heads0, dir.marks, chain, files);
    done := [];
    NoneDone(files);
    assert files[0..] == files;
    while |done| < |files|
      invariant dir.Valid() && |dir.Live()| == |dir.heads| == |dir.marks|
      invariant Laid(dir.Live(), dir.heads) && dir.chain == chain && InDir(dir.Live(), chain)
      invariant AllOnce(dir.Live(), chain, files)
      invariant |done| <= |files| && forall i :: 0 <= i < |done| ==> done[i] != Lost && done[i] != SegmentFull
      invariant RunFits(dir.Live(), dir.heads, dir.marks, chain, files[|done|..], drive.Capacity())
      invariant current ==>
        dir.saved == dir.Live() && AllRewritten(dir.Live(), dir.heads, dir.marks, chain, files[|done|..])
      invariant forall rname ::
        Outcome(Reads(v0, d0, heads0, chain, rname), files, done, rname, Reads(drive.View(), dir.Live(), dir.heads, chain, rname))
      decreases |files| - |done|
    {
      ghost var v, d, heads := drive.View(), dir.Live(), dir.heads;
      var f := files[|done|];
      assert files[|done|..] == [f] + files[|done| + 1..];
      var r := RunOne(dir, drive, f, files, files[|done| + 1..]);
      DirectoryParts(dir);
      forall rname
        ensures Outcome(Reads(v0, d0, heads0, chain, rname), files, done + [r], rname,
                        Reads(drive.View(), dir.Live(), dir.heads, chain, rname))
      {
        OutcomeStep(Reads(v0, d0, heads0, chain, rname), files, done, rname, Reads(v, d, heads, chain, rname), r,
                    Reads(drive.View(), dir.Live(), dir.heads, chain, rname));
      }
      done := done + [r];
      if r == SegmentFull {
        return;
      }
    }
  }

  lemma NoneDone(files: seq<NamedFile>)
    ensures forall was, rname :: Outcome(was, files, [], rname, was)
  {
  }

  // The linked segments have a slot to spare for each of n more files, and their areas are on the floppy.
  ghost predicate Roomy(d: Dir, heads: seq<Head>, chain: seq<nat>, n: nat, capacity: nat)
    requires |d| == |heads| && InDir(d, chain)
  {
    forall s :: s in chain ==> |d[s]| + n < SLOTS && RT_BLOCK * (heads[s].stfile + Sum(d[s])) <= capacity
  }

  lemma AreaOnFloppy(d: Dir, heads: seq<Head>, chain: seq<nat>, rname: seq<nat>, size: nat, capacity: nat)
    requires |d| == |heads| && Laid(d, heads) && InDir(d, chain) && Roomy(d, heads, chain, 0, capacity) && size > 0
    ensures OnFloppy(d, heads, chain, rname, size, capacity)
  {
    hide Found, FirstFit, Sum, CountFor, HasRoom, WithoutOld, Files;
    FoundIn(d, heads, chain, rname);
    var was, fit := Found(d, heads, chain, rname), FirstFit(d, chain, size);
    if was.Some? {
      EntryInFiles(d[was.value.segnum], was.value.index, heads[was.value.segnum].stfile);
    }
    if fit.Some? {
      var (s, k) := fit.value;
      FirstFitLinked(d, chain, size);
      RoomForSize(size);
      Around(d[s], k, 0);
      SumNotNegative(d[s][k + 1..]);
    }
  }

  lemma RoomyStep(d: Dir, heads: seq<Head>, marks: seq<int>, chain: seq<nat>, f: NamedFile, n: nat, capacity: nat)
    requires |d| == |heads| == |marks| && InDir(d, chain) && Roomy(d, heads, chain, n + 1, capacity)
    ensures NewHeads(d, heads, marks, chain, f.rname, |f.data|) == heads
    ensures var made := Creation(d, d, heads, chain, chain, f.rname, |f.data|, f.date).0;
      InDir(made, chain) && Roomy(made, heads, chain, n, capacity)
  {
    hide Found, FirstFit, Sum, CountFor;
    var made := Creation(d, d, heads, chain, chain, f.rname, |f.data|, f.date).0;
    if FirstFit(d, chain, |f.data|).Some? {
      FirstFitLinked(d, chain, |f.data|);
    }
    forall s | s in chain
      ensures |made[s]| <= |d[s]| + 1 && Sum(made[s]) == Sum(d[s])
    {
      CreationSums(d, heads, chain, f.rname, |f.data|, f.date, s);
      CreationWhatever(d, d, heads, chain, chain, f.rname, |f.data|, f.date);
    }
  }

  /** A run over files that are not empty can be made when every linked segment has a slot to spare for
      each of them and its area is on the floppy. */
  lemma {:induction false} RoomyFits(d: Dir, heads: seq<Head>, marks: seq<int>, chain: seq<nat>, files: seq<NamedFile>, capacity: nat)
    requires |d| == |heads| == |marks| && InDir(d, chain) && Laid(d, heads) && Linked(heads, 0, chain)
    requires Roomy(d, heads, chain, |files|, capacity) && forall f :: f in files ==> f.data != []
    ensures RunFits(d, heads, marks, chain, files, capacity)
    decreases |files|
  {
    hide Creation, NewHeads, OnFloppy, Squeezed, Laid, Linked;
    if files != [] {
      var f := files[0];
      RoomyStep(d, heads, marks, chain, f, |files| - 1, capacity);
      AreaOnFloppy(d, heads, chain, f.rname, |f.data|, capacity);
      NotSqueezed(d, heads, chain, f.rname, |f.data|);
      LaidAfter(d, heads, chain, f.rname, |f.data|, f.date);
      CreationWhatever(d, d, heads, chain, chain, f.rname, |f.data|, f.date);
      RoomyFits(Creation(d, d, heads, chain, chain, f.rname, |f.data|, f.date).0, heads, marks, chain, files[1..], capacity);
    }
  }
}
