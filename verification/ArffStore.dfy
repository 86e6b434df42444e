/** Copying files onto the floppy and off it again, over the directory and the sector map. */
module ArffStore {
  import opened Options
  import opened Floppy
  import opened Extents
  import opened Arff
  import opened ArffLinks
  import opened ArffLaws

  function Zeros(n: nat): (z: seq<Byte>)
    ensures |z| == n
  {
    seq(n, _ => 0)
  }

  lemma ZerosAdd(m: nat, n: nat)
    ensures Zeros(m) + Zeros(n) == Zeros(m + n)
  {
  }

  // Whole blocks.
  predicate Whole(n: int) { Multiple(n, RT_BLOCK) }

  lemma WholeSums(a: nat, b: nat)
    requires Whole(a) && Whole(b)
    ensures Whole(a + b) && Whole(a + RT_BLOCK) && (a < b ==> a + RT_BLOCK <= b)
  {
    hide Multiple;
    MultiplesFit(a, b, RT_BLOCK);
  }

  lemma WholeAligned(drive: Drive, a: nat)
    requires Whole(a)
    ensures drive.Aligned(a)
  {
  }

  /** What a copy writes over an extent of `len` blocks: a last part block is filled up and the
      blocks after it cleared, but a file of whole blocks is all that is written. */
  function Image(data: seq<Byte>, len: int): (image: seq<Byte>)
    requires |data| <= len * RT_BLOCK
    ensures data <= image && |image| <= len * RT_BLOCK && Whole(|image|)
  {
    if Whole(|data|) then data else data + Zeros(len * RT_BLOCK - |data|)
  }

  /** The whole extent is written unless the file is of whole blocks and leaves some over. */
  lemma ImageFills(data: seq<Byte>, len: int)
    requires |data| <= len * RT_BLOCK
    ensures |Image(data, len)| == len * RT_BLOCK <==> !Whole(|data|) || |data| == len * RT_BLOCK
  {
    hide Whole;
  }

  /** Behind the stored file its extent reads zero exactly when the file ends inside a block or
      there were zeros already. */
  lemma ClearedBehind(v: seq<Byte>, startad: nat, data: seq<Byte>, len: int)
    requires |data| <= len * RT_BLOCK && startad + len * RT_BLOCK <= |v|
    ensures var (from, to) := (startad + |data|, startad + len * RT_BLOCK);
      Overlaid(v, startad, Image(data, len))[from..to] == Zeros(to - from)
      <==> !Whole(|data|) || v[from..to] == Zeros(to - from)
  {
    hide Whole;
    ReadBack(v, startad, data, len);
  }

  // A file of one block in an extent of two: the second block keeps what it had.
  lemma OldBlockStays()
    ensures var v, data: seq<Byte> := seq(1024, _ => 1), seq(512, _ => 2);
      |Image(data, 2)| <= |v| && Overlaid(v, 0, Image(data, 2))[512..1024] == v[512..1024] != Zeros(512)
  {
    var v, data: seq<Byte> := seq(1024, _ => 1), seq(512, _ => 2);
    assert Image(data, 2) == data;
    assert v[512..1024][0] == 1 && Zeros(512)[0] == 0;
  }

  // What is behind the file in its extent, once it is stored there.
  ghost function Behind(v: seq<Byte>, startad: nat, data: seq<Byte>, len: int): seq<Byte>
    requires |data| <= len * RT_BLOCK && startad + len * RT_BLOCK <= |v|
  {
    if Whole(|data|) then v[startad + |data|..startad + len * RT_BLOCK] else Zeros(len * RT_BLOCK - |data|)
  }

  lemma OverlaidAt(v: seq<Byte>, start: nat, data: seq<Byte>)
    requires start + |data| <= |v|
    ensures var w := Overlaid(v, start, data);
      |w| == |v| && forall k :: 0 <= k < |v| ==> w[k] == if start <= k < start + |data| then data[k - start] else v[k]
  {
  }

  // Where the image ends before the extent does.
  lemma BehindReads(v: seq<Byte>, startad: nat, data: seq<Byte>, len: int)
    requires |data| <= len * RT_BLOCK && startad + len * RT_BLOCK <= |v|
    ensures Overlaid(v, startad, Image(data, len))[startad + |data|..startad + len * RT_BLOCK] == Behind(v, startad, data, len)
  {
    hide Overlaid, Zeros, Whole;
    var end := len * RT_BLOCK;
    var w, zeros := Overlaid(v, startad, Image(data, len)), Zeros(end - |data|);
    OverlaidAt(v, startad, Image(data, len));
    if Whole(|data|) {
      assert w[startad + |data|..startad + end] == v[startad + |data|..startad + end];
    } else {
      assert forall k :: 0 <= k < |zeros| ==> (data + zeros)[|data| + k] == zeros[k];
      assert w[startad + |data|..startad + end] == zeros;
    }
  }

  lemma ReadBack(v: seq<Byte>, startad: nat, data: seq<Byte>, len: int)
    requires |data| <= len * RT_BLOCK && startad + len * RT_BLOCK <= |v|
    ensures Overlaid(v, startad, Image(data, len))[startad..startad + len * RT_BLOCK] == data + Behind(v, startad, data, len)
    ensures Overlaid(v, startad, Image(data, len))[startad + |data|..startad + len * RT_BLOCK] == Behind(v, startad, data, len)
  {
    hide Whole, Overlaid, Behind, Zeros;
    var w, from, to := Overlaid(v, startad, Image(data, len)), startad + |data|, startad + len * RT_BLOCK;
    BehindReads(v, startad, data, len);
    OverlaidAt(v, startad, Image(data, len));
    assert w[startad..from] == data;
    assert w[startad..to] == w[startad..from] + w[from..to];
  }

  method ToFlop(drive: Drive, data: seq<Byte>, startad: nat, len: int)
    requires drive.Valid() && |data| <= len * RT_BLOCK
    requires Whole(startad) && startad + |Image(data, len)| <= drive.Capacity()
    modifies drive.bytes
    ensures drive.View() == Overlaid(old(drive.View()), startad, Image(data, len))
  {
    hide Drive.View, Overlaid, Whole, Zeros;
    ghost var was := drive.View();
    var done := WriteWholeBlocks(drive, data, startad);
    var count := |data| - done;
    WholeParts(done, count);
    if count <= 0 {
      assert data[..done] == data;
      return;
    }
    WriteRest(drive, was, data, startad, len, done);
  }

  // The last part block, filled up, and the blocks after it.
  method WriteRest(drive: Drive, ghost was: seq<Byte>, data: seq<Byte>, startad: nat, len: int, done: nat)
    requires drive.Valid() && Whole(startad) && Whole(done) && done < |data| < done + RT_BLOCK && |data| <= len * RT_BLOCK
    requires |was| == drive.Capacity() && startad + len * RT_BLOCK <= drive.Capacity()
    requires drive.View() == Overlaid(was, startad, data[..done])
    modifies drive.bytes
    ensures drive.View() == Overlaid(was, startad, data + Zeros(len * RT_BLOCK - |data|))
  {
    hide Drive.View, Overlaid, Whole, Zeros;
    var count := |data| - done;
    BlocksLeft(len, done, count);
    var last := data[done..] + Zeros(RT_BLOCK - count);
    WriteBlock(drive, was, startad, data[..done], done, last);
    assert data[..done] + last == data + Zeros(RT_BLOCK - count);
    ZeroWhole();
    WholeSums(done, 0);
    ClearBlocks(drive, was, startad, data, done + RT_BLOCK, (len * RT_BLOCK - |data|) / RT_BLOCK);
  }

  method ClearBlocks(drive: Drive, ghost was: seq<Byte>, startad: nat, ghost data: seq<Byte>, at: nat, count: nat)
    requires drive.Valid() && |was| == drive.Capacity() && Whole(startad) && Whole(at) && |data| <= at
    requires startad + at + count * RT_BLOCK <= drive.Capacity()
    requires drive.View() == Overlaid(was, startad, data + Zeros(at - |data|))
    modifies drive.bytes
    ensures drive.View() == Overlaid(was, startad, data + Zeros(at + count * RT_BLOCK - |data|))
  {
    hide Drive.View, Overlaid, Whole, Zeros;
    var left, after := count, at;
    while left > 0
      invariant 0 <= left <= count && Whole(after) && after + left * RT_BLOCK == at + count * RT_BLOCK && |data| <= after
      invariant drive.View() == Overlaid(was, startad, data + Zeros(after - |data|))
    {
      WriteBlock(drive, was, startad, data + Zeros(after - |data|), after, Zeros(RT_BLOCK));
      ZerosAdd(after - |data|, RT_BLOCK);
      assert data + Zeros(after - |data|) + Zeros(RT_BLOCK) == data + Zeros(after + RT_BLOCK - |data|);
      ZeroWhole();
      WholeSums(after, 0);
      after := after + RT_BLOCK;
      left := left - 1;
    }
  }

  lemma WholeParts(done: nat, count: nat)
    requires Whole(done) && count < RT_BLOCK
    ensures Whole(done + count) <==> count == 0
  {
  }

  lemma BlocksLeft(len: int, done: nat, count: nat)
    requires Whole(done) && 0 < count < RT_BLOCK && done + count <= len * RT_BLOCK
    ensures done + RT_BLOCK <= len * RT_BLOCK
    ensures done + RT_BLOCK + (len * RT_BLOCK - (done + count)) / RT_BLOCK * RT_BLOCK == len * RT_BLOCK
  {
  }

  method WriteWholeBlocks(drive: Drive, data: seq<Byte>, startad: nat) returns (done: nat)
    requires drive.Valid() && Whole(startad) && startad + |data| <= drive.Capacity()
    modifies drive.bytes
    ensures done <= |data| < done + RT_BLOCK && Whole(done)
    ensures drive.View() == Overlaid(old(drive.View()), startad, data[..done])
  {
    hide Drive.View, Overlaid, Whole;
    ghost var was := drive.View();
    drive.OverlaidNothing(was, startad);
    ZeroWhole();
    done := 0;
    while |data| - done >= RT_BLOCK
      invariant 0 <= done <= |data| && Whole(done)
      invariant drive.View() == Overlaid(was, startad, data[..done])
    {
      WriteBlock(drive, was, startad, data[..done], done, data[done..done + RT_BLOCK]);
      assert data[..done + RT_BLOCK] == data[..done] + data[done..done + RT_BLOCK];
      WholeSums(done, 0);
      done := done + RT_BLOCK;
    }
  }

  lemma ZeroWhole()
    ensures Whole(0) && Whole(RT_BLOCK)
  {
  }

  method WriteBlock(drive: Drive, ghost was: seq<Byte>, startad: nat, ghost written: seq<Byte>, at: nat, block: seq<Byte>)
    requires drive.Valid() && |block| == RT_BLOCK && |was| == drive.Capacity()
    requires Whole(startad) && Whole(at) && at == |written| && startad + at + RT_BLOCK <= drive.Capacity()
    requires drive.View() == Overlaid(was, startad, written)
    modifies drive.bytes
    ensures drive.View() == Overlaid(was, startad, written + block)
  {
    hide Drive.View, Overlaid, Whole, Drive.Aligned;
    ZeroWhole();
    WholeSums(startad, at);
    WholeAligned(drive, startad + at);
    WholeAligned(drive, RT_BLOCK);
    drive.LWrite(startad + at, block);
    drive.OverlaidTwice(was, startad, written, block);
  }

  // The extraction loop: whole blocks up to the extent's length.
  method FromFlop(drive: Drive, startad: nat, count: nat) returns (data: seq<Byte>)
    requires drive.Valid() && Whole(startad) && Whole(count) && startad + count <= drive.Capacity()
    ensures data == drive.View()[startad..startad + count]
  {
    hide Drive.View, Whole, Drive.Aligned;
    ZeroWhole();
    WholeAligned(drive, RT_BLOCK);
    data := [];
    while |data| < count
      invariant |data| <= count && Whole(|data|)
      invariant data == drive.View()[startad..startad + |data|]
    {
      WholeSums(|data|, count);
      WholeSums(startad, |data|);
      WholeAligned(drive, startad + |data|);
      var block := drive.LRead(startad + |data|, RT_BLOCK);
      data := data + block;
    }
  }

  function StartOf(d: Dir, heads: seq<Head>, s: nat, k: nat): int
    requires s < |d| == |heads| && k <= |d[s]|
  {
    heads[s].stfile + Sum(d[s][..k])
  }

  /** No length is negative, and the areas of the segments lie apart. */
  ghost predicate Laid(d: Dir, heads: seq<Head>) {
    && |d| == |heads|
    && (forall s :: 0 <= s < |d| ==> Sized(d[s]) && 0 <= heads[s].stfile)
    && forall s, t | 0 <= s < |d| && 0 <= t < |d| && s != t ::
         heads[s].stfile + Sum(d[s]) <= heads[t].stfile || heads[t].stfile + Sum(d[t]) <= heads[s].stfile
  }

  lemma SumOfTwo(e: Ent, f: Ent)
    ensures Sum([]) == 0 && Sum([e]) == Blocks(e) && Sum([e, f]) == Blocks(e) + Blocks(f)
  {
    assert [e, f][1..] == [f] && [f][1..] == [] && [e][1..] == [];
  }

  // Two segments one behind the other, whichever of them is linked first, and an empty one.
  lemma TwoAreas()
    ensures var es, fs := [Ent(RT_NULL, [0, 0, 0], 2, 0)], [Ent(RT_FILE, [1, 0, 0], 0, 0), Ent(RT_FILE, [2, 0, 0], 3, 0)];
      && Laid([es, fs, []], [Head(2, 14), Head(0, 16), Head(0, 0)])
      && Laid([fs, es, []], [Head(2, 16), Head(0, 14), Head(0, 19)])
      && !Laid([es, fs], [Head(2, 14), Head(0, 15)])
  {
    hide Sum;
    var e, f, g := Ent(RT_NULL, [0, 0, 0], 2, 0), Ent(RT_FILE, [1, 0, 0], 0, 0), Ent(RT_FILE, [2, 0, 0], 3, 0);
    var es, fs := [e], [f, g];
    SumOfTwo(f, g);
    SumOfTwo(e, e);
    assert Sized(es) && Sized(fs);
    var d, heads := [es, fs], [Head(2, 14), Head(0, 15)];
    assert heads[0].stfile + Sum(d[0]) > heads[1].stfile && heads[1].stfile + Sum(d[1]) > heads[0].stfile;
  }

  lemma EntryInFiles(es: seq<Ent>, k: nat, base: int)
    requires k < |es| && Taken(es[k]) && Sized(es)
    ensures Extent(es[k], base + Sum(es[..k])) in Files(es, base)
    ensures base <= base + Sum(es[..k]) && base + Sum(es[..k]) + es[k].len <= base + Sum(es)
  {
    Around(es, k, base);
    var x := Extent(es[k], base + Sum(es[..k]));
    InParts(Files(es[..k], base), Files(es[k + 1..], base + Sum(es[..k]) + Blocks(es[k])), [x], x);
    SumNotNegative(es[..k]);
    SumNotNegative(es[k + 1..]);
  }

  /** The extents of two files, wherever their entries are, do not overlap. */
  lemma FilesApart(d: Dir, heads: seq<Head>, s: nat, k: nat, t: nat, x: Extent)
    requires Laid(d, heads) && s < |d| && k < |d[s]| && t < |d| && Taken(d[s][k])
    requires x in Files(d[t], heads[t].stfile) && !(s == t && x == Extent(d[s][k], StartOf(d, heads, s, k)))
    ensures x.start + x.ent.len <= StartOf(d, heads, s, k) || StartOf(d, heads, s, k) + d[s][k].len <= x.start
    ensures 0 <= x.start && x.ent.len >= 0 && 0 <= StartOf(d, heads, s, k)
  {
    hide Files, Sum;
    EntryInFiles(d[s], k, heads[s].stfile);
    ExtentsInOrder(d[t], heads[t].stfile);
    var xs := Files(d[t], heads[t].stfile);
    var i :| 0 <= i < |xs| && xs[i] == x;
    FileIsEntry(d[t], heads[t].stfile, x);
    if s == t {
      var y := Extent(d[s][k], StartOf(d, heads, s, k));
      var j :| 0 <= j < |xs| && xs[j] == y;
    }
  }

  lemma {:induction false} FileIsEntry(es: seq<Ent>, base: int, x: Extent)
    requires x in Files(es, base)
    ensures x.ent in es && Taken(x.ent)
  {
    if !(Taken(es[0]) && x == Extent(es[0], base)) {
      FileIsEntry(es[1..], base + Blocks(es[0]), x);
    }
  }

  ghost function Contents(v: seq<Byte>, x: Extent): seq<Byte> {
    if 0 <= x.start && x.ent.len >= 0 && RT_BLOCK * (x.start + x.ent.len) <= |v|
    then v[RT_BLOCK * x.start..RT_BLOCK * (x.start + x.ent.len)] else []
  }

  /** Writing over one extent leaves the contents of a file apart from it alone. */
  lemma ContentsKept(v: seq<Byte>, start: nat, data: seq<Byte>, len: int, x: Extent)
    requires |data| <= RT_BLOCK * len && RT_BLOCK * start + |data| <= |v|
    requires x.start + x.ent.len <= start || start + len <= x.start
    ensures Contents(Overlaid(v, RT_BLOCK * start, data), x) == Contents(v, x)
  {
    var w := Overlaid(v, RT_BLOCK * start, data);
    var low, high := RT_BLOCK * x.start, RT_BLOCK * (x.start + x.ent.len);
    if 0 <= x.start && x.ent.len >= 0 && high <= |v| {
      forall a | low <= a < high
        ensures w[a] == v[a]
      {
        if high <= RT_BLOCK * start {
        } else {
          assert RT_BLOCK * start + |data| <= low;
        }
      }
      assert w[low..high] == v[low..high];
    }
  }

  lemma CreationSums(d: Dir, heads: seq<Head>, chain: seq<nat>, rname: seq<nat>, size: nat, date: int, t: nat)
    requires |d| == |heads| && InDir(d, chain) && t < |d|
    ensures var made := Creation(d, d, heads, chain, [], rname, size, date).0; |made| == |d| && Sum(made[t]) == Sum(d[t])
  {
    hide Creation, Sum;
    CreationKeepsOthers(d, d, heads, chain, [], rname, size, date, t, 0, Extent(Ent(0, rname + [0], 0, 0), 0));
  }

  /** The extent that a request for a file will get, its first byte and its length in blocks: that of
      an old entry big enough, or the beginning of the first hole big enough. */
  function Target(d: Dir, heads: seq<Head>, chain: seq<nat>, rname: seq<nat>, size: nat): (t: Option<(int, int)>)
    requires |d| == |heads| && InDir(d, chain)
    ensures t.Some? ==> size <= t.value.1 * RT_BLOCK
  {
    var was, fit := Found(d, heads, chain, rname), FirstFit(d, chain, size);
    if was.Some? && size <= was.value.count then Some((was.value.startad, d[was.value.segnum][was.value.index].len))
    else if fit.None? then None
    else
      var (s, k) := fit.value;
      RoomForSize(size);
      if HasRoom(WithoutOld(d, was)[s], k, size) then Some((RT_BLOCK * StartOf(d, heads, s, k), CountFor(size))) else None
  }

  /** That extent lies on the floppy. */
  predicate OnFloppy(d: Dir, heads: seq<Head>, chain: seq<nat>, rname: seq<nat>, size: nat, capacity: nat)
    requires |d| == |heads| && InDir(d, chain)
  {
    var t := Target(d, heads, chain, rname, size);
    t.Some? ==> t.value.0 + t.value.1 * RT_BLOCK <= capacity
  }

  /** What is written over it does. */
  predicate WrittenOn(d: Dir, heads: seq<Head>, chain: seq<nat>, rname: seq<nat>, data: seq<Byte>, capacity: nat)
    requires |d| == |heads| && InDir(d, chain)
  {
    var t := Target(d, heads, chain, rname, |data|);
    t.Some? ==> t.value.0 + |Image(data, t.value.1)| <= capacity
  }

  /** In a directory that names a file at most once, what a creation answers is an entry of that
      name with room for the file, in the extent foreseen. */
  lemma MadeHasRoom(d: Dir, heads: seq<Head>, chain: seq<nat>, later: seq<nat>, rname: seq<nat>, size: nat, date: int)
    requires |d| == |heads| && InDir(d, chain) && InDir(d, later) && Single(d, chain, later, rname)
    requires Creation(d, d, heads, chain, later, rname, size, date).2.Made?
    ensures var (made, _, r) := Creation(d, d, heads, chain, later, rname, size, date);
      && At(made, r.dope) && r.dope == DopeAt(made, heads, r.dope.segnum, r.dope.index) && size <= r.dope.count
      && Taken(made[r.dope.segnum][r.dope.index]) && made[r.dope.segnum][r.dope.index].name == rname
      && At(d, r.dope) && Sum(made[r.dope.segnum][..r.dope.index]) == Sum(d[r.dope.segnum][..r.dope.index])
      && Target(d, heads, chain, rname, size) == Some((r.dope.startad, made[r.dope.segnum][r.dope.index].len))
  {
    hide Found, FirstFit, Split, CountFor, Once, InDir, FirstOfName, Sum, WithoutOld, HasRoom;
    FoundIn(d, heads, chain, rname);
    var was, fit := Found(d, heads, chain, rname), FirstFit(d, chain, size);
    if !(was.Some? && size <= was.value.count) {
      var (s, k) := fit.value;
      CreatedIsFound(d, d, heads, chain, later, rname, size, date);
      UniqueNameIsFound(d, d, heads, chain, later, rname, size, date);
      PlacedEntry(d, was, s, k, size, rname, date);
      SumBefore(d, was, s, k);
    }
  }

  /** A file just made lies on the floppy exactly when the place foreseen for it does: for a new entry,
      when the area's beginning, the entries before the hole and the file's own blocks add up to no
      more than the floppy holds. */
  lemma CreatedOnFloppy(d: Dir, heads: seq<Head>, chain: seq<nat>, later: seq<nat>, rname: seq<nat>, size: nat, date: int,
                        capacity: nat)
    requires |d| == |heads| && InDir(d, chain) && InDir(d, later) && Single(d, chain, later, rname)
    requires Creation(d, d, heads, chain, later, rname, size, date).2.Made?
    ensures var dope := Creation(d, d, heads, chain, later, rname, size, date).2.dope;
      && (dope.startad + dope.count <= capacity <==> OnFloppy(d, heads, chain, rname, size, capacity))
      && (Enters(d, heads, chain, rname, size) ==>
            var (s, k) := FirstFit(d, chain, size).value;
            dope.startad + dope.count <= capacity
            <==> RT_BLOCK * (heads[s].stfile + Sum(d[s][..k]) + CountFor(size)) <= capacity)
  {
    hide Found, FirstFit, Split, CountFor, Once, InDir, Sum, WithoutOld, HasRoom;
    MadeHasRoom(d, heads, chain, later, rname, size, date);
  }

  // The directory that a clobbered floppy starts with.
  lemma BlankEntries()
    ensures Entries([Blank()]) == [[Ent(RT_NULL, [0, 0, 0], 494, 0)]] && Heads([Blank()]) == [Head(0, 14)]
  {
    EndOfIs(Blank().slots, 1);
    assert Entries([Blank()])[0] == [Ent(RT_NULL, [0, 0, 0], 494, 0)];
  }

  /** Its one hole is as long as the floppy of 77 tracks and starts at block 14: the program makes a
      file of 481 to 494 blocks there, and its extent runs past the end. */
  lemma BlankPastEnd(rname: seq<nat>, size: nat, date: int)
    ensures var d, heads, capacity := Entries([Blank()]), Heads([Blank()]), 76 * TRACK;
      && |d| == |heads| == 1 && Linked(heads, 0, [0]) && Laid(d, heads) && Single(d, [0], [0], rname)
      && (Creation(d, d, heads, [0], [0], rname, size, date).2.Made? <==> size <= 494 * RT_BLOCK)
      && (OnFloppy(d, heads, [0], rname, size, capacity) <==> size <= 480 * RT_BLOCK || size > 494 * RT_BLOCK)
      && Creation(d, d, heads, [0], [0], rname, 481 * RT_BLOCK, date).2 == Made(Dope(14 * RT_BLOCK, 481 * RT_BLOCK, 0, 0))
      && 14 * RT_BLOCK + 481 * RT_BLOCK > capacity
  {
    BlankEntries();
    var d, heads := Entries([Blank()]), Heads([Blank()]);
    BlankCreation(d, heads, rname, size, date);
    BlankCreation(d, heads, rname, 481 * RT_BLOCK, date);
  }

  lemma BlankCreation(d: Dir, heads: seq<Head>, rname: seq<nat>, size: nat, date: int)
    requires d == [[Ent(RT_NULL, [0, 0, 0], 494, 0)]] && heads == [Head(0, 14)]
    ensures Creation(d, d, heads, [0], [0], rname, size, date).2
      == if size <= 494 * RT_BLOCK then Made(Dope(14 * RT_BLOCK, CountFor(size) * RT_BLOCK, 0, 0)) else NoSpace
    ensures Target(d, heads, [0], rname, size)
      == if size <= 494 * RT_BLOCK then Some((14 * RT_BLOCK, CountFor(size))) else None
    ensures CountFor(size) * RT_BLOCK + 14 * RT_BLOCK <= 76 * TRACK <==> size <= 480 * RT_BLOCK
  {
    assert [0][1..] == [];
    MatchIs(d[0], rname, 1);
    FitIs(d[0], size, if size <= 494 * RT_BLOCK then 0 else 1);
    RoomForSize(size);
    FirstFitStep(d, [0], size);
    FirstFitStep(d, [], size);
    FoundStep(d, heads, [0], rname);
    FoundNowhere(d, heads, rname);
    if size <= 494 * RT_BLOCK {
      assert Linked(heads, 0, [0]);
      UniqueNameIsFound(d, d, heads, [0], [0], rname, size, date);
    }
  }

  /** The creation that puts an empty file into an empty hole. */
  predicate Squeezed(d: Dir, heads: seq<Head>, chain: seq<nat>, rname: seq<nat>, size: nat)
    requires |d| == |heads| && InDir(d, chain)
  {
    var was, fit := Found(d, heads, chain, rname), FirstFit(d, chain, size);
    && size == 0 && !(was.Some? && size <= was.value.count)
    && fit.Some? && d[fit.value.0][fit.value.1].len == 0 && |d[fit.value.0]| != SLOTS
  }

  /** The layout holds after a creation exactly when it is not that one. */
  lemma LaidAfter(d: Dir, heads: seq<Head>, chain: seq<nat>, rname: seq<nat>, size: nat, date: int)
    requires Laid(d, heads) && InDir(d, chain)
    ensures Laid(Creation(d, d, heads, chain, [], rname, size, date).0, heads)
      <==> !Squeezed(d, heads, chain, rname, size)
  {
    hide Found, FirstFit, Sum, CountFor, Split;
    var made := Creation(d, d, heads, chain, [], rname, size, date).0;
    forall t | 0 <= t < |d|
      ensures Sum(made[t]) == Sum(d[t])
    {
      CreationSums(d, heads, chain, rname, size, date, t);
    }
    FoundIn(d, heads, chain, rname);
    var was, fit := Found(d, heads, chain, rname), FirstFit(d, chain, size);
    var cleared := WithoutOld(d, was);
    if fit.Some? && !(was.Some? && size <= was.value.count) {
      var (s, k) := fit.value;
      assert |cleared[s]| == |d[s]| && Hole(cleared[s][k]) && cleared[s][k].len == d[s][k].len;
      SplitKeepsSizes(cleared[s], k, size, rname, date);
      CountForEmpty(size);
      assert HasRoom(cleared[s], k, size) ==> made[s] == Split(cleared[s], k, CountFor(size), rname, date);
    }
  }

  lemma CountForEmpty(size: nat)
    ensures size == 0 ==> CountFor(size) == 1
  {
  }

  /** Every file of another name has the entry, the address and the contents it had. */
  ghost predicate OthersKept(d: Dir, v: seq<Byte>, e: Dir, w: seq<Byte>, heads: seq<Head>, rname: seq<nat>) {
    && |d| == |e| == |heads|
    && forall t: nat, x: Extent | t < |d| && x.ent.name != rname && x in Files(d[t], heads[t].stfile) ::
         x in Files(e[t], heads[t].stfile) && Contents(w, x) == Contents(v, x)
  }

  /** The extent of an entry has been written over with the image of the file, and nothing else. */
  ghost predicate Fills(v: seq<Byte>, w: seq<Byte>, data: seq<Byte>, d: Dir, dope: Dope) {
    && At(d, dope)
    && var len := d[dope.segnum][dope.index].len;
    && dope.count == len * RT_BLOCK && |data| <= dope.count
    && 0 <= dope.startad && dope.startad + |Image(data, len)| <= |v|
    && w == Overlaid(v, dope.startad, Image(data, len))
  }

  // What is made does not depend on what the floppy holds, nor on how the entry is then found.
  lemma CreationWhatever(d: Dir, saved: Dir, heads: seq<Head>, chain: seq<nat>, later: seq<nat>,
                         rname: seq<nat>, size: nat, date: int)
    requires |d| == |heads| == |saved| && InDir(d, chain) && InDir(d, later)
    ensures Creation(d, saved, heads, chain, later, rname, size, date).0 == Creation(d, d, heads, chain, [], rname, size, date).0
    ensures Creation(d, saved, heads, chain, later, rname, size, date).0
      == Creation(d, d, heads, chain, later, rname, size, date).0
    ensures Creation(d, saved, heads, chain, later, rname, size, date).2
      == Creation(d, d, heads, chain, later, rname, size, date).2
  {
    hide Found, FirstFit, Split, CountFor, WithoutOld;
  }

  lemma DopePlace(d: Dir, heads: seq<Head>, s: nat, k: nat)
    requires Laid(d, heads) && s < |d| && k < |d[s]|
    ensures 0 <= StartOf(d, heads, s, k)
  {
    SumNotNegative(d[s][..k]);
  }

  lemma StoreKeeps(d: Dir, heads: seq<Head>, chain: seq<nat>, later: seq<nat>, rname: seq<nat>, data: seq<Byte>,
                   date: int, v: seq<Byte>)
    requires Laid(d, heads) && InDir(d, chain) && InDir(d, later) && Single(d, chain, later, rname)
    requires WrittenOn(d, heads, chain, rname, data, |v|)
    requires Creation(d, d, heads, chain, later, rname, |data|, date).2.Made?
    ensures var (made, _, r) := Creation(d, d, heads, chain, later, rname, |data|, date);
      && At(made, r.dope) && r.dope == DopeAt(made, heads, r.dope.segnum, r.dope.index)
      && var len := made[r.dope.segnum][r.dope.index].len;
      && |data| <= len * RT_BLOCK && 0 <= r.dope.startad && Whole(r.dope.startad)
      && r.dope.startad + |Image(data, len)| <= |v|
      && OthersKept(d, v, made, Overlaid(v, r.dope.startad, Image(data, len)), heads, rname)
  {
    hide Creation, Once, InDir, Sum, Files, Contents, Overlaid, Image, Squeezed, Target, Single;
    var size := |data|;
    var (made, _, r) := Creation(d, d, heads, chain, later, rname, size, date);
    MadeHasRoom(d, heads, chain, later, rname, size, date);
    CreationWhatever(d, d, heads, chain, later, rname, size, date);
    CreationSums(d, heads, chain, rname, size, date, r.dope.segnum);
    var s, k := r.dope.segnum, r.dope.index;
    var start, len := StartOf(made, heads, s, k), made[s][k].len;
    DopePlace(d, heads, s, k);
    var image := Image(data, len);
    BlockStart(start);
    if size > 0 {
      LaidAfter(d, heads, chain, rname, size, date);
      NotSqueezed(d, heads, chain, rname, size);
      EntryInFiles(made[s], k, heads[s].stfile);
    } else {
      EmptyImage(data, len, v, r.dope.startad);
    }
    forall t: nat, x: Extent | t < |d| && x.ent.name != rname && x in Files(d[t], heads[t].stfile)
      ensures x in Files(made[t], heads[t].stfile) && Contents(Overlaid(v, r.dope.startad, image), x) == Contents(v, x)
    {
      CreationKeepsOthers(d, d, heads, chain, later, rname, size, date, t, heads[t].stfile, x);
      if size > 0 {
        FilesApart(made, heads, s, k, t, x);
        ContentsKept(v, start, image, len, x);
      }
    }
  }

  lemma NotSqueezed(d: Dir, heads: seq<Head>, chain: seq<nat>, rname: seq<nat>, size: nat)
    requires |d| == |heads| && InDir(d, chain) && size > 0
    ensures !Squeezed(d, heads, chain, rname, size)
  {
    hide Found, FirstFit;
  }

  lemma BlockStart(start: int)
    ensures Whole(RT_BLOCK * start)
  {
  }

  lemma EmptyImage(data: seq<Byte>, len: int, v: seq<Byte>, at: nat)
    requires data == [] && 0 <= len && at <= |v|
    ensures Image(data, len) == [] && Overlaid(v, at, []) == v
  {
  }

  /** The chain of links that there will be after a file of that size has been made. */
  ghost function Later(dir: Directory, rname: seq<nat>, size: nat): seq<nat>
    reads dir, dir.curend, dir.ents
    requires dir.Valid()
  {
    dir.LiveInside();
    Chain(NewHeads(dir.Live(), dir.heads, dir.marks, dir.chain, rname, size))
  }

  /** Storing a file that the floppy has room for: its extent is written over with its image, and every
      file of another name has the entry, the address and the contents it had. */
  method Rtr(dir: Directory, drive: Drive, rname: seq<nat>, data: seq<Byte>, date: int) returns (r: Created)
    requires dir.Valid() && drive.Valid() && dir.StillEnds(rname, |data|) && Laid(dir.Live(), dir.heads)
    requires InDir(dir.Live(), dir.chain) && Single(dir.Live(), dir.chain, Later(dir, rname, |data|), rname)
    requires WrittenOn(dir.Live(), dir.heads, dir.chain, rname, data, drive.Capacity())
    modifies dir, dir.curend, dir.ents, drive.bytes
    ensures dir.Valid() && dir.heads == NewHeads(old(dir.Live()), old(dir.heads), dir.marks, old(dir.chain), rname, |data|)
    ensures dir.chain == old(Later(dir, rname, |data|)) && InDir(old(dir.Live()), dir.chain)
    ensures Creation(old(dir.Live()), old(dir.saved), old(dir.heads), old(dir.chain), dir.chain, rname, |data|, date)
      == (dir.Live(), dir.saved, r)
    ensures r.Made? ==> Fills(old(drive.View()), drive.View(), data, dir.Live(), r.dope)
    ensures !r.Made? ==> drive.View() == old(drive.View())
    ensures OthersKept(old(dir.Live()), old(drive.View()), dir.Live(), drive.View(), old(dir.heads), rname)
  {
    hide Creation, Single, Laid, Drive.View, Drive.Valid, Contents, Files, Image, Overlaid, Whole, NewHeads, LinksEnd, Linked;
    ghost var d, saved, v, heads, chain := dir.Live(), dir.saved, drive.View(), dir.heads, dir.chain;
    r := dir.FlCreat(rname, |data|, date);
    OneChain(dir.heads, 0, dir.chain, Chain(dir.heads));
    CreationWhatever(d, saved, heads, chain, dir.chain, rname, |data|, date);
    if r.Made? {
      StoreKeeps(d, heads, chain, dir.chain, rname, data, date, v);
      dir.LiveSegment(r.dope.segnum);
      var len := dir.ents[r.dope.segnum][r.dope.index].len;
      ToFlop(drive, data, r.dope.startad, len);
    } else {
      forall t: nat, x: Extent | t < |d| && x.ent.name != rname && x in Files(d[t], heads[t].stfile)
        ensures x in Files(dir.Live()[t], heads[t].stfile)
      {
        CreationKeepsOthers(d, d, heads, chain, dir.chain, rname, |data|, date, t, heads[t].stfile, x);
      }
    }
  }

  /** The place of an entry that is found. */
  lemma FoundPlace(d: Dir, heads: seq<Head>, chain: seq<nat>, rname: seq<nat>)
    requires Laid(d, heads) && InDir(d, chain) && Found(d, heads, chain, rname).Some?
    ensures var dope := Found(d, heads, chain, rname).value;
      && 0 <= dope.startad && 0 <= dope.count && Whole(dope.startad) && Whole(dope.count)
  {
    hide Found, Sum;
    FoundIn(d, heads, chain, rname);
    var dope := Found(d, heads, chain, rname).value;
    var s, k := dope.segnum, dope.index;
    EntryInFiles(d[s], k, heads[s].stfile);
    BlockStart(heads[s].stfile + Sum(d[s][..k]));
    BlockStart(d[s][k].len);
  }

  /** The extent found is on the floppy. */
  predicate FoundOn(d: Dir, heads: seq<Head>, chain: seq<nat>, rname: seq<nat>, capacity: nat)
    requires |d| == |heads| && InDir(d, chain)
  {
    var f := Found(d, heads, chain, rname);
    f.Some? ==> f.value.startad + f.value.count <= capacity
  }

  /** Extracting gives the whole extent of the first entry of that name. */
  method Rtx(dir: Directory, drive: Drive, rname: seq<nat>) returns (r: Option<seq<Byte>>)
    requires dir.Valid() && drive.Valid() && Laid(dir.Live(), dir.heads) && InDir(dir.Live(), dir.chain)
    requires FoundOn(dir.Live(), dir.heads, dir.chain, rname, drive.Capacity())
    ensures match Found(dir.Live(), dir.heads, dir.chain, rname)
      case None => r == None
      case Some(dope) =>
        && 0 <= dope.startad && 0 <= dope.count && dope.startad + dope.count <= |drive.View()|
        && r == Some(drive.View()[dope.startad..dope.startad + dope.count])
  {
    hide Found, Laid, Whole, Drive.View, Directory.Live, Directory.Structured;
    var dope := dir.Lookup(rname);
    if dope.None? {
      return None;
    }
    FoundPlace(dir.Live(), dir.heads, dir.chain, rname);
    var data := FromFlop(drive, dope.value.startad, dope.value.count);
    return Some(data);
  }

  lemma MadeIsFound(d: Dir, saved: Dir, heads: seq<Head>, chain: seq<nat>, later: seq<nat>,
                    rname: seq<nat>, size: nat, date: int)
    requires |d| == |heads| == |saved| && InDir(d, chain) && InDir(d, later)
    ensures var (made, _, r) := Creation(d, saved, heads, chain, later, rname, size, date);
      && InDir(made, later)
      && (r.Made? && Enters(d, heads, chain, rname, size) ==> Found(made, heads, later, rname) == Some(r.dope))
      && (!Enters(d, heads, chain, rname, size) ==> made == d)
      && (r.Made? && !Enters(d, heads, chain, rname, size) ==> Found(d, heads, chain, rname) == Some(r.dope))
  {
    hide Found, FirstFit, Split, CountFor, WithoutOld;
  }

  /** The entry that a creation answers is the one found afterwards. */
  lemma StoredIsFound(d: Dir, saved: Dir, heads: seq<Head>, after: seq<Head>, chain: seq<nat>, later: seq<nat>,
                      rname: seq<nat>, size: nat, date: int)
    requires |d| == |heads| == |saved| == |after| && InDir(d, chain) && InDir(d, later)
    requires forall t :: 0 <= t < |heads| ==> after[t].stfile == heads[t].stfile
    requires !Enters(d, heads, chain, rname, size) ==> later == chain
    ensures var (made, _, r) := Creation(d, saved, heads, chain, later, rname, size, date);
      InDir(made, later) && (r.Made? ==> Found(made, after, later, rname) == Some(r.dope))
  {
    hide Found, Creation, Enters, InDir;
    MadeIsFound(d, saved, heads, chain, later, rname, size, date);
    SameStarts(Creation(d, saved, heads, chain, later, rname, size, date).0, heads, after, later, rname);
  }

  /** After a file has been made on the floppy, it is found there. */
  lemma StoredIsThere(d: Dir, saved: Dir, heads: seq<Head>, after: seq<Head>, marks: seq<int>, chain: seq<nat>, later: seq<nat>,
                      rname: seq<nat>, size: nat, date: int, capacity: nat)
    requires |d| == |heads| == |saved| == |marks| && InDir(d, chain) && InDir(d, later) && Laid(d, heads)
    requires Linked(heads, 0, chain) && Linked(after, 0, later) && after == NewHeads(d, heads, marks, chain, rname, size)
    requires Single(d, chain, later, rname) && OnFloppy(d, heads, chain, rname, size, capacity)
    requires !Squeezed(d, heads, chain, rname, size)
    ensures var (made, _, r) := Creation(d, saved, heads, chain, later, rname, size, date);
      && |after| == |made| && InDir(made, later) && Laid(made, after)
      && (r.Made? ==> Found(made, after, later, rname) == Some(r.dope) && FoundOn(made, after, later, rname, capacity))
  {
    hide Found, Creation, Enters, InDir, Laid, Single, OnFloppy, Squeezed, Linked, NewHeads;
    LaidAfter(d, heads, chain, rname, size, date);
    CreationWhatever(d, saved, heads, chain, later, rname, size, date);
    LinksKept(d, heads, after, marks, chain, later, rname, size);
    StoredIsFound(d, saved, heads, after, chain, later, rname, size, date);
    var (made, _, r) := Creation(d, saved, heads, chain, later, rname, size, date);
    SameLayout(made, heads, after);
    if r.Made? {
      CreatedOnFloppy(d, heads, chain, later, rname, size, date, capacity);
    }
  }

  /** Storing a file and extracting it gives the file, and after it zeros or, behind a file of whole
      blocks, what was there before, up to the extent's length. */
  method StoreThenExtract(dir: Directory, drive: Drive, rname: seq<nat>, data: seq<Byte>, date: int)
    returns (r: Created, out: Option<seq<Byte>>)
    requires dir.Valid() && drive.Valid() && dir.StillEnds(rname, |data|) && Laid(dir.Live(), dir.heads)
    requires InDir(dir.Live(), dir.chain) && Single(dir.Live(), dir.chain, Later(dir, rname, |data|), rname)
    requires OnFloppy(dir.Live(), dir.heads, dir.chain, rname, |data|, drive.Capacity())
    requires !Squeezed(dir.Live(), dir.heads, dir.chain, rname, |data|)
    modifies dir, dir.curend, dir.ents, drive.bytes
    ensures dir.Valid() && Laid(dir.Live(), dir.heads)
    ensures r.Made? ==>
      && At(dir.Live(), r.dope)
      && var len := dir.Live()[r.dope.segnum][r.dope.index].len;
      && |data| <= len * RT_BLOCK && 0 <= r.dope.startad && r.dope.startad + len * RT_BLOCK <= drive.Capacity()
      && out == Some(data + Behind(old(drive.View()), r.dope.startad, data, len))
  {
    hide *;
    DirectoryParts(dir);
    ghost var d, saved, v, heads, chain := dir.Live(), dir.saved, drive.View(), dir.heads, dir.chain;
    OnFloppyWritten(d, heads, chain, rname, data, |v|);
    r := Rtr(dir, drive, rname, data, date);
    DirectoryParts(dir);
    StoredIsThere(d, saved, heads, dir.heads, dir.marks, chain, dir.chain, rname, |data|, date, |v|);
    out := None;
    if r.Made? {
      out := Rtx(dir, drive, rname);
      FilledReads(v, drive.View(), data, dir.Live(), r.dope);
    }
  }

  // No new entry, no change of links.
  lemma LinksKept(d: Dir, heads: seq<Head>, after: seq<Head>, marks: seq<int>, chain: seq<nat>, later: seq<nat>,
                  rname: seq<nat>, size: nat)
    requires |d| == |heads| == |marks| && InDir(d, chain) && Linked(heads, 0, chain) && Linked(after, 0, later)
    requires after == NewHeads(d, heads, marks, chain, rname, size)
    ensures !Enters(d, heads, chain, rname, size) ==> after == heads && later == chain
  {
    hide Found, FirstFit, Linked;
    if !Enters(d, heads, chain, rname, size) {
      OneChain(heads, 0, chain, later);
    }
  }

  lemma DirectoryParts(dir: Directory)
    requires dir.Valid()
    ensures dir.Structured() && Linked(dir.heads, 0, dir.chain)
    ensures |dir.Live()| == |dir.heads| == |dir.saved| == |dir.marks|
  {
  }

  // What an extent written over with a file's image reads.
  lemma FilledReads(v: seq<Byte>, w: seq<Byte>, data: seq<Byte>, d: Dir, dope: Dope)
    requires Fills(v, w, data, d, dope) && dope.startad + dope.count <= |v|
    ensures At(d, dope)
    ensures var len := d[dope.segnum][dope.index].len;
      && |data| <= len * RT_BLOCK && dope.count == len * RT_BLOCK && 0 <= dope.startad && |w| == |v|
      && w[dope.startad..dope.startad + dope.count] == data + Behind(v, dope.startad, data, len)
  {
    hide Whole, Image, Behind;
    ReadBack(v, dope.startad, data, d[dope.segnum][dope.index].len);
  }

  lemma OnFloppyWritten(d: Dir, heads: seq<Head>, chain: seq<nat>, rname: seq<nat>, data: seq<Byte>, capacity: nat)
    requires |d| == |heads| && InDir(d, chain) && OnFloppy(d, heads, chain, rname, |data|, capacity)
    ensures WrittenOn(d, heads, chain, rname, data, capacity)
  {
    hide Target;
  }

  lemma SameLayout(d: Dir, heads: seq<Head>, after: seq<Head>)
    requires |d| == |heads| == |after| && forall t :: 0 <= t < |heads| ==> after[t].stfile == heads[t].stfile
    ensures Laid(d, after) == Laid(d, heads)
  {
  }
}
