/** The archiver's commands: one pass over the archive into up to three temporary files, which are
    then joined over the archive. */
module Ar {
  import opened CStrings
  import opened Options
  import opened ArFormat
  import opened ArEdits

  datatype Status = Done | NoArchive | NotArchive | Malformed

  datatype Next = Entry | End | Bad

  function Offset(ms: seq<Member>, k: nat): nat
    requires k <= |ms|
  {
    |ARMAG| + |PrintAll(ms[..k])|
  }

  lemma {:induction false} PrintAllParts(ms: seq<Member>, ns: seq<Member>)
    ensures PrintAll(ms + ns) == PrintAll(ms) + PrintAll(ns)
  {
    hide Print;
    if ns == [] {
      assert ms + ns == ms;
    } else {
      var n := |ns| - 1;
      assert (ms + ns)[..|ms + ns| - 1] == ms + ns[..n];
      PrintAllParts(ms, ns[..n]);
    }
  }

  lemma PrintOne(m: Member)
    ensures PrintAll([m]) == Print(m)
  {
    hide Print;
    assert [m][..0] == [];
  }

  lemma MemberSplits(ms: seq<Member>, k: nat) returns (before: string, after: string)
    requires k < |ms|
    ensures Archive(ms) == before + Print(ms[k]) + after
    ensures |before| == Offset(ms, k) && Offset(ms, k + 1) == Offset(ms, k) + |Print(ms[k])|
  {
    hide Print, PrintAll;
    before, after := ARMAG + PrintAll(ms[..k]), PrintAll(ms[k + 1..]);
    PrintAllParts(ms[..k], [ms[k]]);
    PrintOne(ms[k]);
    PrintAllParts(ms[..k + 1], ms[k + 1..]);
    assert ms[..k + 1] == ms[..k] + [ms[k]] && ms == ms[..k + 1] + ms[k + 1..];
  }

  /** Where a member's header, data and padding lie in the archive. */
  lemma MemberAt(ms: seq<Member>, k: nat)
    requires k < |ms| && AllFit(ms)
    ensures var m, at, a := ms[k], Offset(ms, k), Archive(ms);
      && Offset(ms, k + 1) == at + SAR_HDR + |m.data| + |m.data| % 2 <= |a|
      && a[at..at + SAR_HDR] == Header(m)
      && a[at + SAR_HDR..at + SAR_HDR + |m.data|] == m.data
      && (|m.data| % 2 == 1 ==> a[at + SAR_HDR + |m.data|] == '\n')
  {
    hide Header, Archive, Offset;
    var m, a := ms[k], Archive(ms);
    var before, after := MemberSplits(ms, k);
    PrintedFields(m);
    Slices(before, Header(m), m.data, Pad(m.data), after);
    var pad := Offset(ms, k) + SAR_HDR + |m.data|;
    assert |m.data| % 2 == 1 ==> a[pad..pad + 1][0] == '\n';
  }

  lemma Slices(head: string, h: string, d: string, p: string, tail: string)
    ensures var a, n := head + (h + d + p) + tail, |head|;
      && a[n..n + |h|] == h && a[n + |h|..n + |h| + |d|] == d
      && a[n + |h| + |d|..n + |h| + |d| + |p|] == p && |a| >= n + |h| + |d| + |p|
  {
  }

  lemma OffsetEnds(ms: seq<Member>)
    ensures Offset(ms, 0) == |ARMAG| && Offset(ms, |ms|) == |Archive(ms)|
  {
    assert ms[..|ms|] == ms;
  }

  // How far the search for the position has come before member k: looking, next, or done.
  function Stage(ms: seq<Member>, position: Position, k: nat): nat {
    if position.Nowhere? then 0
    else
      var f := Find(ms, position.ponam);
      if k <= f then 1 else if position.after && k == f + 1 then 2 else 0
  }

  class Archiver {
    const bufsiz: nat
    const position: Position
    const fs: Files
    const update: bool
    const arbuf: array<char>
    var larbuf: Lar
    // The archive, and how far it has been read.
    var af: string
    var afpos: nat
    // The temporary files, and whether the second and third have been made.
    var tf: string
    var tf1: string
    var tf2: string
    var tf1nam: bool
    var tf2nam: bool
    var bastate: nat
    var namv: Names
    var file: string

    ghost predicate Valid()
      reads this
    {
      bufsiz > 0 && bufsiz % 2 == 0 && arbuf.Length == SAR_HDR && afpos <= |af|
    }

    constructor (bufsiz: nat, position: Position, fs: Files, update: bool, names: seq<string>)
      requires bufsiz > 0 && bufsiz % 2 == 0
      ensures Valid() && af == [] && tf == tf1 == tf2 == [] && !tf1nam && !tf2nam
      ensures afpos == 0 && file == [] && larbuf == Lar([], 0, 0, 0, 0, 0) && this.bufsiz == bufsiz
      ensures this.position == position && this.fs == fs && this.update == update
      ensures namv == seq(|names|, i requires 0 <= i < |names| => Some(names[i]))
      ensures bastate == (if position.Nowhere? then 0 else 1)
      ensures fresh(arbuf)
    {
      this.bufsiz, this.position, this.fs, this.update := bufsiz, position, fs, update;
      arbuf := new char[SAR_HDR];
      larbuf := Lar([], 0, 0, 0, 0, 0);
      af, afpos, tf, tf1, tf2, tf1nam, tf2nam, file := [], 0, [], [], [], false, false, [];
      bastate := if position.Nowhere? then 0 else 1;
      namv := seq(|names|, i requires 0 <= i < |names| => Some(names[i]));
    }

    /** The next header: the name is cut at its trailing spaces by a null put in the buffer. */
    method GetDir() returns (next: Next)
      requires Valid()
      modifies this`larbuf, this`afpos, this`file, this`tf, this`tf1, arbuf
      ensures Valid()
      ensures next == if |af| - old(afpos) < SAR_HDR then End
                      else if af[old(afpos) + 58..old(afpos) + 60] != ARFMAG then Bad else Entry
      ensures next.End? ==> if tf1nam then tf == old(tf1) && tf1 == old(tf) else tf == old(tf) && tf1 == old(tf1)
      ensures !next.End? ==> tf == old(tf) && tf1 == old(tf1) && afpos == old(afpos) + SAR_HDR
      ensures next.Entry? ==> var h := af[old(afpos)..old(afpos) + SAR_HDR];
        Unspaced(h[..NAMESIZE]) != [] ==> arbuf[..] == NameEnded(h) && larbuf == Parsed(h, old(larbuf)) && file == larbuf.name
    {
      hide Unspaced, Parsed, NameEnded;
      var i := if |af| - afpos < SAR_HDR then |af| - afpos else SAR_HDR;
      forall k | 0 <= k < i {
        arbuf[k] := af[afpos + k];
      }
      ghost var start := afpos;
      afpos := afpos + i;
      if i != SAR_HDR {
        if tf1nam {
          tf, tf1 := tf1, tf;
        }
        return End;
      }
      ghost var h := af[start..start + SAR_HDR];
      assert arbuf[..] == h;
      if arbuf[58..] != ARFMAG {
        return Bad;
      }
      TakeName(h);
      return Entry;
    }

    // The rest of reading a header: cut the name, scan the numbers.
    method TakeName(ghost h: string)
      requires Valid() && arbuf[..] == h
      modifies this`larbuf, this`file, arbuf
      ensures Valid()
      ensures Unspaced(h[..NAMESIZE]) != [] ==> arbuf[..] == NameEnded(h) && larbuf == Parsed(h, old(larbuf)) && file == larbuf.name
    {
      hide Unspaced, Field;
      var cp := NAMESIZE;
      while cp > 0 && arbuf[cp - 1] == ' '
        invariant 0 <= cp <= NAMESIZE && arbuf[..] == h
        invariant forall k :: cp <= k < NAMESIZE ==> h[k] == ' '
      {
        cp := cp - 1;
      }
      UnspacedIs(h[..NAMESIZE], cp);
      arbuf[cp] := '\0';
      assert arbuf[..] == NameEnded(h);
      CutFields(h, arbuf);
      var name := UpToNull(arbuf[..NAMESIZE]);
      file := name;
      larbuf := Lar(name, Field(arbuf[16..], 10, larbuf.date), Field(arbuf[28..], 10, larbuf.uid),
                    Field(arbuf[34..], 10, larbuf.gid), Field(arbuf[40..], 8, larbuf.mode), Field(arbuf[48..], 10, larbuf.size));
    }

    static lemma CutFields(h: string, a: array<char>)
      requires |h| == SAR_HDR == a.Length && a[..] == NameEnded(h)
      ensures a[..NAMESIZE] == NameEnded(h)[..NAMESIZE]
      ensures forall k: nat :: k <= SAR_HDR ==> a[k..] == NameEnded(h)[k..]
    {
    }

    ghost predicate Reading(ms: seq<Member>, k: nat)
      reads this
    {
      && AllFit(ms) && k <= |ms|
      && if k < |ms| then af == Archive(ms) && afpos == Offset(ms, k) else afpos == |af|
    }

    ghost predicate AtMember(ms: seq<Member>, k: nat)
      reads this, arbuf
    {
      && af == Archive(ms) && AllFit(ms) && k < |ms| && afpos == Offset(ms, k) + SAR_HDR
      && arbuf.Length == SAR_HDR && |ms[k].name| < |Header(ms[k])| && arbuf[..] == Header(ms[k])[|ms[k].name| := '\0']
      && larbuf == Lar(ms[k].name, ms[k].date, ms[k].uid, ms[k].gid, ms[k].mode, |ms[k].data|)
    }

    /** Reading on from a member's beginning finds that member, and past the last, the end. */
    method NextMember(ghost ms: seq<Member>, ghost k: nat) returns (end: bool)
      requires Valid() && Reading(ms, k)
      modifies this`larbuf, this`afpos, this`file, this`tf, this`tf1, arbuf
      ensures Valid() && end == (k == |ms|)
      ensures !end ==> AtMember(ms, k) && file == ms[k].name && tf == old(tf) && tf1 == old(tf1)
      ensures end ==> if tf1nam then tf == old(tf1) && tf1 == old(tf) else tf == old(tf) && tf1 == old(tf1)
    {
      hide Archive, Header, Parsed, NameEnded, PrintAll;
      ghost var start := afpos;
      OffsetEnds(ms);
      if k < |ms| {
        MemberAt(ms, k);
        ParsePrinted(ms[k], larbuf);
        NameOfHeader(ms[k]);
        assert af[start + 58..start + 60] == af[start..start + SAR_HDR][58..];
      }
      var next := GetDir();
      end := next.End?;
    }

    /** Put the spaces of the name field back where the null was and give out the header. */
    method RestoredHeader(ghost m: Member) returns (h: string)
      requires Valid() && Fits(m) && |Header(m)| == SAR_HDR
      requires arbuf[..] == Header(m)[|m.name| := '\0'] || arbuf[..] == Header(m)
      modifies arbuf
      ensures h == Header(m)
    {
      hide Header, Printed;
      NameOfHeader(m);
      ghost var n := |m.name|;
      var i := NAMESIZE;
      while i > 0 && (arbuf[i - 1] == ' ' || arbuf[i - 1] == '\0')
        invariant n <= i <= NAMESIZE
        invariant arbuf[..] == if i > n then old(arbuf[..]) else Header(m)
      {
        if arbuf[i - 1] == '\0' {
          arbuf[i - 1] := ' ';
        }
        i := i - 1;
      }
      h := arbuf[..];
    }

    /** Copying the member whose header was just read, or passing over it. */
    method CopyMember(skip: bool, ghost ms: seq<Member>, ghost k: nat) returns (out: string)
      requires Valid() && AtMember(ms, k)
      modifies this`afpos, arbuf
      ensures Valid() && Reading(ms, k + 1) && out == if skip then [] else Print(ms[k])
    {
      hide Archive, Header, Offset, Fits, Copied, PrintAll, Pad;
      MemberCopied(ms, k);
      OffsetEnds(ms);
      var head := [];
      if !skip {
        PrintedFields(ms[k]);
        head := RestoredHeader(ms[k]);
      }
      var body: string;
      body, afpos := CopyData(bufsiz, af, afpos, larbuf.size, true, true, skip);
      out := head + body;
      PrintParts(ms[k]);
    }

    method Match() returns (hit: bool)
      modifies this`namv, this`file
      ensures hit == Matches(old(namv), old(file)) && namv == Struck(old(namv), old(file))
      ensures file == if hit then old(namv)[MatchAt(old(namv), old(file))].value else old(file)
    {
      hide MatchAt;
      var i := 0;
      while i < |namv|
        invariant 0 <= i <= |namv|
        invariant forall j :: 0 <= j < i ==> !(namv[j].Some? && Trim(namv[j].value) == file)
      {
        if namv[i].Some? && Trim(namv[i].value) == file {
          MatchIs(namv, file, i);
          file := namv[i].value;
          namv := namv[i := None];
          return true;
        }
        i := i + 1;
      }
      MatchIs(namv, file, i);
      return false;
    }

    /** The state machine that finds the position is where it should be before member k. */
    ghost predicate Turned(ms: seq<Member>, k: nat)
      reads this`bastate, this`tf1nam
    {
      && bastate == Stage(ms, position, k)
      && tf1nam == (Cut(ms, position) < k)
    }

    // What is written so far, before and after the position.
    ghost predicate Parted(a: string, b: string)
      reads this`tf, this`tf1, this`tf1nam
    {
      if tf1nam then tf1 == ARMAG + a && tf == b else tf == ARMAG + a && tf1 == [] && b == []
    }

    /** At the position the second temporary file is started and takes over. */
    method BAMatch(ghost ms: seq<Member>, ghost k: nat, ghost a: string, ghost b: string)
      requires k < |ms| && Turned(ms, k) && file == ms[k].name && Parted(a, b)
      modifies this`bastate, this`tf, this`tf1, this`tf1nam
      ensures Turned(ms, k + 1)
      ensures tf1nam == (Cut(ms, position) <= k) && Parted(a, b)
    {
      var split := false;
      match bastate {
        case 0 =>
        case 1 =>
          if position.Beside? && file == position.ponam {
            bastate := 2;
            split := !position.after;
          }
        case _ =>
          split := true;
      }
      if split {
        bastate := 0;
        tf1nam := true;
        tf1 := tf;
        tf := [];
      }
    }

    method Emit(text: string, ghost a: string, ghost b: string)
      requires Parted(a, b)
      modifies this`tf
      ensures if tf1nam then Parted(a, b + text) else Parted(a + text, b)
    {
      tf := tf + text;
    }

    /** A new member from a file outside. */
    method MoveFil(path: string, info: Info) returns (out: string)
      requires Valid() && Fits(Made(path, info))
      modifies arbuf
      ensures Valid() && out == Print(Made(path, info))
    {
      hide Header, Copied, Fits;
      var m := Made(path, info);
      PrintedFields(m);
      var printed := Header(m);
      forall k | 0 <= k < SAR_HDR {
        arbuf[k] := printed[k];
      }
      assert arbuf[..] == printed;
      var head := RestoredHeader(m);
      var body, next := CopyData(bufsiz, info.data, 0, |info.data|, false, true, false);
      WholeFile(info.data);
      PrintParts(m);
      out := head + body;
    }

    // As the program starts.
    ghost predicate Started()
      reads this
    {
      && tf == tf1 == tf2 == [] && !tf1nam && !tf2nam
      && bastate == (if position.Nowhere? then 0 else 1)
    }

    // Opening the archive: it may not exist, and must begin with the magic string.
    method GetAF(archive: Option<string>) returns (status: Status)
      modifies this`af, this`afpos
      ensures status == if archive.None? then NoArchive else if ARMAG <= archive.value then Done else NotArchive
      ensures afpos <= |af|
      ensures status.NoArchive? ==> af == [] && afpos == 0
      ensures status.Done? ==> af == archive.value && afpos == |ARMAG|
    {
      af, afpos := [], 0;
      match archive
      case None => status := NoArchive;
      case Some(text) =>
        if |text| < |ARMAG| || text[..|ARMAG|] != ARMAG {
          return NotArchive;
        }
        af, afpos := text, |ARMAG|;
        status := Done;
    }

    ghost predicate CanMake(ms: seq<Member>)
      reads this`namv
    {
      && (forall i :: 0 <= i < |namv| && namv[i].Some? ==> Usable(namv[i].value, fs))
      && (namv == [] ==> forall k :: 0 <= k < |ms| ==> Usable(ms[k].name, fs))
    }

    /** One member of the replace command: its replacement or itself goes out. */
    method ReplaceOne(ghost ms: seq<Member>, ghost k: nat) returns (out: string)
      requires Valid() && AtMember(ms, k) && file == ms[k].name && CanMake(ms)
      modifies this`namv, this`file, this`afpos, arbuf
      ensures Valid() && Reading(ms, k + 1) && CanMake(ms)
      ensures namv == Struck(old(namv), ms[k].name)
      ensures Fits(Replacement(ms[k], old(namv), fs, update))
      ensures out == Print(Replacement(ms[k], old(namv), fs, update))
    {
      hide Archive, Header, Offset, Fits, Print, Struck;
      StruckUsable(namv, ms[k].name, fs);
      StruckNone(ms[k].name);
      ghost var names := namv;
      var hit := true;
      if namv != [] {
        hit := Match();
      }
      if hit && Strip(file) in fs && !(update && fs[Strip(file)].date <= larbuf.date) {
        var path := file;
        var skipped := CopyMember(true, ms, k);
        out := MoveFil(path, fs[Strip(path)]);
      } else {
        out := CopyMember(false, ms, k);
      }
    }

    // The files that matched no member go in where the position is, then the parts are joined.
    method Cleanup() returns (result: string)
      requires Valid() && forall i :: 0 <= i < |namv| && namv[i].Some? ==> Usable(namv[i].value, fs)
      modifies this`tf, this`namv, arbuf
      ensures AllFit(Fresh(old(namv), fs)) && namv == seq(|old(namv)|, i => None)
      ensures result == old(tf) + PrintAll(Fresh(old(namv), fs)) + (if tf2nam then tf2 else []) + if tf1nam then tf1 else []
    {
      hide Print, Fits, PrintAll, Fresh, Usable;
      ghost var names, text := namv, tf;
      var i := 0;
      FreshNone(fs);
      NothingPrinted();
      assert names[..0] == [] && text == text + [];
      while i < |namv|
        invariant 0 <= i <= |namv| == |names| && Valid()
        invariant forall j :: 0 <= j < |namv| ==> namv[j] == if j < i then None else names[j]
        invariant AllFit(Fresh(names[..i], fs)) && tf == text + PrintAll(Fresh(names[..i], fs))
      {
        AddName(i, names, text);
        i := i + 1;
      }
      assert names[..i] == names;
      result := Install();
    }

    // One name left over: its file, if there is one, becomes a new member.
    method AddName(i: nat, ghost names: Names, ghost text: string)
      requires Valid() && i < |namv| == |names| && namv[i] == names[i]
      requires namv[i].Some? ==> Usable(namv[i].value, fs)
      requires AllFit(Fresh(names[..i], fs)) && tf == text + PrintAll(Fresh(names[..i], fs))
      modifies this`tf, this`namv, arbuf
      ensures Valid() && namv == old(namv)[i := None]
      ensures AllFit(Fresh(names[..i + 1], fs)) && tf == text + PrintAll(Fresh(names[..i + 1], fs))
    {
      hide Print, Fits, PrintAll, Fresh;
      ghost var earlier := Fresh(names[..i], fs);
      FreshOneMore(names, i, fs);
      if namv[i].Some? {
        var path := namv[i].value;
        namv := namv[i := None];
        if Strip(path) in fs {
          var out := MoveFil(path, fs[Strip(path)]);
          PrintAllParts(earlier, [Made(path, fs[Strip(path)])]);
          PrintOne(Made(path, fs[Strip(path)]));
          tf := tf + out;
          assert tf == text + (PrintAll(earlier) + out);
          return;
        }
      }
      assert earlier + [] == earlier;
    }

    method Install() returns (result: string)
      ensures result == tf + (if tf2nam then tf2 else []) + if tf1nam then tf1 else []
    {
      result := tf;
      if tf2nam {
        result := result + tf2;
      }
      if tf1nam {
        result := result + tf1;
      }
    }

    // The replace command before member k: the names left and the text written.
    ghost predicate Replacing(ms: seq<Member>, names: Names, k: nat)
      reads this`namv, this`tf, this`tf1, this`tf1nam
      requires k <= |ms|
    {
      var rs, p := Replaced(ms[..k], names, fs, update), Cut(ms, position);
      namv == Unstruck(ms[..k], names) && AllFit(rs) && Parted(First(rs, p), Second(rs, p))
    }

    method ReplaceNext(ghost ms: seq<Member>, ghost names: Names, ghost k: nat)
      requires Valid() && AtMember(ms, k) && file == ms[k].name && CanMake(ms)
      requires Turned(ms, k) && Replacing(ms, names, k)
      modifies this`namv, this`file, this`afpos, this`bastate, this`tf, this`tf1, this`tf1nam, arbuf
      ensures Valid() && Reading(ms, k + 1) && CanMake(ms)
      ensures Turned(ms, k + 1) && Replacing(ms, names, k + 1)
    {
      hide Archive, Header, Offset, Fits, Print, Struck, Replacement, First, Second, Cut, Stage;
      ghost var rs, p := Replaced(ms[..k], names, fs, update), Cut(ms, position);
      BAMatch(ms, k, First(rs, p), Second(rs, p));
      assert ms[..k + 1][..k] == ms[..k];
      ghost var r := Replacement(ms[k], namv, fs, update);
      var out := ReplaceOne(ms, k);
      PartsGrow(rs, r, p);
      Emit(out, First(rs, p), Second(rs, p));
    }

    /** The pass of the replace command over the archive; at its end the first part is where new
        members go. */
    method ReplaceAll(ghost ms: seq<Member>, ghost names: Names)
      requires Valid() && Reading(ms, 0) && CanMake(ms) && Turned(ms, 0) && Replacing(ms, names, 0)
      modifies this`larbuf, this`namv, this`file, this`afpos, this`bastate, this`tf, this`tf1, this`tf1nam, arbuf
      ensures Valid() && CanMake(ms)
      ensures var rs, p := Replaced(ms, names, fs, update), Cut(ms, position);
        && namv == Unstruck(ms, names) && AllFit(rs) && tf == ARMAG + First(rs, p)
        && Second(rs, p) == if tf1nam then tf1 else []
    {
      hide Fits, Print, Replaced, Unstruck, First, Second, PrintAll, Usable, Archive, Offset, Stage, Cut;
      assert ms[..|ms|] == ms;
      ghost var k := 0;
      while true
        invariant Valid() && Reading(ms, k) && CanMake(ms)
        invariant Turned(ms, k) && Replacing(ms, names, k)
        decreases |ms| - k
      {
        var end := NextMember(ms, k);
        if end {
          break;
        }
        ReplaceNext(ms, names, k);
        k := k + 1;
      }
    }

    /** Replace: the archive that results is the edited list, whatever the buffer size. */
    method RCmd(archive: Option<string>, ghost ms: seq<Member>) returns (result: string)
      requires Valid() && Started() && AllFit(ms) && CanMake(ms)
      requires archive == if ms == [] && archive.None? then None else Some(Archive(ms))
      modifies this, arbuf
      ensures AllFit(ReplaceList(ms, old(namv), fs, update, position))
      ensures result == Archive(ReplaceList(ms, old(namv), fs, update, position))
    {
      hide Fits, Print, Replaced, Unstruck, First, Second, Fresh, PrintAll, Usable;
      ghost var names := namv;
      ghost var p := Cut(ms, position);
      tf := ARMAG;
      var status := GetAF(archive);
      OffsetEnds(ms);
      assert ms[..0] == [];
      NothingReplaced(names, fs, update, p);
      ReplaceAll(ms, names);
      result := Cleanup();
      JoinedList(Replaced(ms, names, fs, update), p, Fresh(Unstruck(ms, names), fs));
    }

    // Is the member named? Copy it out; a named one may be passed over instead.
    method TakeOut(skip: bool, ghost ms: seq<Member>, ghost k: nat) returns (hit: bool, out: string)
      requires Valid() && AtMember(ms, k) && file == ms[k].name
      modifies this`namv, this`file, this`afpos, arbuf
      ensures Valid() && Reading(ms, k + 1)
      ensures hit == Matches(old(namv), ms[k].name) && namv == Struck(old(namv), ms[k].name)
      ensures out == if hit && skip then [] else Print(ms[k])
    {
      hide Archive, Header, Offset, Fits, Print, Struck, Matches;
      hit := Match();
      out := CopyMember(hit && skip, ms, k);
    }

    // The move command before member k.
    ghost predicate Moving(ms: seq<Member>, names: Names, k: nat)
      reads this`namv, this`tf, this`tf1, this`tf1nam, this`tf2
      requires k <= |ms|
    {
      var xs, marks, p := ms[..k], Marks(ms[..k], names), Cut(ms, position);
      && namv == Unstruck(xs, names) && Parted(FirstKept(xs, marks, p), SecondKept(xs, marks, p))
      && tf2 == PrintAll(Select(xs, marks, true))
    }

    method MoveNext(ghost ms: seq<Member>, ghost names: Names, ghost k: nat)
      requires Valid() && AtMember(ms, k) && file == ms[k].name && Turned(ms, k) && Moving(ms, names, k)
      modifies this`namv, this`file, this`afpos, this`bastate, this`tf, this`tf1, this`tf1nam, this`tf2, arbuf
      ensures Valid() && Reading(ms, k + 1) && Turned(ms, k + 1) && Moving(ms, names, k + 1)
    {
      hide Archive, Header, Offset, Fits, Print, Struck, Select, FirstKept, SecondKept, Cut, Stage, PrintAll, Marks, Unstruck;
      ghost var xs, marks, p := ms[..k], Marks(ms[..k], names), Cut(ms, position);
      ghost var first, second := FirstKept(xs, marks, p), SecondKept(xs, marks, p);
      hide Valid, Reading, AtMember, Turned;
      BAMatch(ms, k, first, second);
      MarkedNext(ms, names, k);
      KeptGrow(xs, marks, ms[k], Matches(namv, ms[k].name), p);
      var hit, out := TakeOut(false, ms, k);
      if hit {
        tf2 := tf2 + out;
      } else {
        Emit(out, first, second);
      }
    }

    /** Move: the named members, in archive order, come to the position. */
    method MCmd(archive: Option<string>, ghost ms: seq<Member>) returns (status: Status, result: string)
      requires Valid() && Started() && AllFit(ms)
      requires archive == if ms == [] && archive.None? then None else Some(Archive(ms))
      modifies this, arbuf
      ensures status == if archive.None? then NoArchive else Done
      ensures status.Done? ==> result == Archive(MoveList(ms, old(namv), position))
    {
      hide Fits, Print, Marks, Unstruck, FirstKept, SecondKept, PrintAll, Select;
      ghost var names := namv;
      ghost var p := Cut(ms, position);
      tf := ARMAG;
      status := GetAF(archive);
      if status.NoArchive? {
        return NoArchive, [];
      }
      tf2nam := true;
      OffsetEnds(ms);
      assert ms[..0] == [];
      NothingMoved(names, p);
      MoveAll(ms, names);
      result := Install();
      JoinedMove(ms, Marks(ms, names), p);
    }

    method MoveAll(ghost ms: seq<Member>, ghost names: Names)
      requires Valid() && Reading(ms, 0) && Turned(ms, 0) && Moving(ms, names, 0)
      modifies this`larbuf, this`namv, this`file, this`afpos, this`bastate, this`tf, this`tf1, this`tf1nam, this`tf2, arbuf
      ensures Valid()
      ensures var marks, p := Marks(ms, names), Cut(ms, position);
        && tf == ARMAG + FirstKept(ms, marks, p) && tf2 == PrintAll(Select(ms, marks, true))
        && SecondKept(ms, marks, p) == if tf1nam then tf1 else []
    {
      hide Fits, Print, Marks, Unstruck, FirstKept, SecondKept, PrintAll, Select, Archive, Offset, Stage, Cut;
      assert ms[..|ms|] == ms;
      ghost var k := 0;
      while true
        invariant Valid() && Reading(ms, k) && Turned(ms, k) && Moving(ms, names, k)
        decreases |ms| - k
      {
        var end := NextMember(ms, k);
        if end {
          break;
        }
        MoveNext(ms, names, k);
        k := k + 1;
      }
    }

    /** Delete: the other members, byte for byte and in order. */
    method DCmd(archive: Option<string>, ghost ms: seq<Member>) returns (status: Status, result: string)
      requires Valid() && Started() && AllFit(ms)
      requires archive == if ms == [] && archive.None? then None else Some(Archive(ms))
      modifies this, arbuf
      ensures status == if archive.None? then NoArchive else Done
      ensures status.Done? ==> result == Archive(DeleteList(ms, old(namv)))
    {
      hide Fits, Print, PrintAll, Marks, Unstruck, Select;
      ghost var names := namv;
      tf := ARMAG;
      status := GetAF(archive);
      if status.NoArchive? {
        return NoArchive, [];
      }
      OffsetEnds(ms);
      assert ms[..0] == [] && ms[..|ms|] == ms;
      NothingMoved(names, 0);
      ghost var k := 0;
      while true
        invariant Valid() && Reading(ms, k) && !tf1nam && !tf2nam
        invariant namv == Unstruck(ms[..k], names) && tf == ARMAG + PrintAll(Select(ms[..k], Marks(ms[..k], names), false))
        decreases |ms| - k
      {
        var end := NextMember(ms, k);
        if end {
          break;
        }
        DeleteNext(ms, names, k);
        k := k + 1;
      }
      result := Install();
    }

    method DeleteNext(ghost ms: seq<Member>, ghost names: Names, ghost k: nat)
      requires Valid() && AtMember(ms, k) && file == ms[k].name
      requires namv == Unstruck(ms[..k], names) && tf == ARMAG + PrintAll(Select(ms[..k], Marks(ms[..k], names), false))
      modifies this`namv, this`file, this`afpos, this`tf, arbuf
      ensures Valid() && Reading(ms, k + 1) && namv == Unstruck(ms[..k + 1], names)
      ensures tf == ARMAG + PrintAll(Select(ms[..k + 1], Marks(ms[..k + 1], names), false))
    {
      hide Archive, Header, Offset, Fits, Print, Struck, Select, PrintAll, Marks, Unstruck;
      ghost var xs, marks := ms[..k], Marks(ms[..k], names);
      MarkedNext(ms, names, k);
      SelectGrow(xs, marks, ms[k], Matches(namv, ms[k].name), false);
      var hit, out := TakeOut(true, ms, k);
      tf := tf + out;
    }
  }

  // The text of the members not moved, up to the cut and from there.
  function FirstKept(xs: seq<Member>, marks: seq<bool>, p: nat): string
    requires |xs| == |marks|
  {
    if p <= |xs| then PrintAll(Select(xs[..p], marks[..p], false)) else PrintAll(Select(xs, marks, false))
  }

  function SecondKept(xs: seq<Member>, marks: seq<bool>, p: nat): string
    requires |xs| == |marks|
  {
    if p <= |xs| then PrintAll(Select(xs[p..], marks[p..], false)) else []
  }

  lemma SelectGrow(xs: seq<Member>, marks: seq<bool>, x: Member, mark: bool, want: bool)
    requires |xs| == |marks|
    ensures PrintAll(Select(xs + [x], marks + [mark], want))
      == PrintAll(Select(xs, marks, want)) + if mark == want then Print(x) else []
  {
    hide Print, PrintAll;
    assert (xs + [x])[..|xs|] == xs && (marks + [mark])[..|xs|] == marks;
    PrintOne(x);
    NothingPrinted();
    PrintAllParts(Select(xs, marks, want), if mark == want then [x] else []);
  }

  lemma MarkedNext(ms: seq<Member>, names: Names, k: nat)
    requires k < |ms|
    ensures ms[..k + 1] == ms[..k] + [ms[k]]
    ensures Marks(ms[..k + 1], names) == Marks(ms[..k], names) + [Matches(Unstruck(ms[..k], names), ms[k].name)]
    ensures Unstruck(ms[..k + 1], names) == Struck(Unstruck(ms[..k], names), ms[k].name)
  {
    assert ms[..k + 1][..k] == ms[..k];
  }

  lemma KeptGrow(xs: seq<Member>, marks: seq<bool>, x: Member, mark: bool, p: nat)
    requires |xs| == |marks|
    ensures FirstKept(xs + [x], marks + [mark], p)
      == if mark || p <= |xs| then FirstKept(xs, marks, p) else FirstKept(xs, marks, p) + Print(x)
    ensures SecondKept(xs + [x], marks + [mark], p)
      == if mark || p > |xs| then SecondKept(xs, marks, p) else SecondKept(xs, marks, p) + Print(x)
    ensures PrintAll(Select(xs + [x], marks + [mark], true))
      == PrintAll(Select(xs, marks, true)) + if mark then Print(x) else []
  {
    hide Print, PrintAll, Select;
    var ys, all := xs + [x], marks + [mark];
    SelectGrow(xs, marks, x, mark, true);
    if p <= |xs| {
      SelectGrow(xs[p..], marks[p..], x, mark, false);
      assert ys[..p] == xs[..p] && all[..p] == marks[..p];
      assert ys[p..] == xs[p..] + [x] && all[p..] == marks[p..] + [mark];
    } else {
      SelectGrow(xs, marks, x, mark, false);
      if p == |ys| {
        assert ys[..p] == ys && all[..p] == all && ys[p..] == [] && all[p..] == [];
        NoneSelected();
      }
    }
  }

  lemma NoneSelected()
    ensures PrintAll(Select([], [], false)) == [] && PrintAll(Select([], [], true)) == []
  {
  }

  lemma NothingMoved(names: Names, p: nat)
    ensures Marks([], names) == [] && Unstruck([], names) == names
    ensures FirstKept([], [], p) == SecondKept([], [], p) == []
    ensures PrintAll(Select([], [], true)) == PrintAll(Select([], [], false)) == []
  {
  }

  lemma JoinedMove(ms: seq<Member>, marks: seq<bool>, p: nat)
    requires |marks| == |ms| && p <= |ms|
    ensures ARMAG + FirstKept(ms, marks, p) + PrintAll(Select(ms, marks, true)) + SecondKept(ms, marks, p)
      == Archive(Select(ms[..p], marks[..p], false) + Select(ms, marks, true) + Select(ms[p..], marks[p..], false))
  {
    hide PrintAll, Select;
    var a, b, c := Select(ms[..p], marks[..p], false), Select(ms, marks, true), Select(ms[p..], marks[p..], false);
    PrintAllParts(a + b, c);
    PrintAllParts(a, b);
  }

  lemma NothingReplaced(namv: Names, fs: Files, update: bool, p: nat)
    ensures Replaced([], namv, fs, update) == [] && Unstruck([], namv) == namv
    ensures First([], p) == Second([], p) == []
  {
  }

  /** The parts in the order the files are joined make the list with the new members put in. */
  lemma JoinedList(rs: seq<Member>, p: nat, added: seq<Member>)
    requires p <= |rs| && AllFit(rs) && AllFit(added)
    ensures AllFit(rs[..p] + added + rs[p..])
    ensures ARMAG + First(rs, p) + PrintAll(added) + Second(rs, p) == Archive(rs[..p] + added + rs[p..])
  {
    hide PrintAll, Fits;
    PrintAllParts(rs[..p] + added, rs[p..]);
    PrintAllParts(rs[..p], added);
  }

  // The text of a list up to where it is cut, and from there.
  function First(rs: seq<Member>, p: nat): string { if p <= |rs| then PrintAll(rs[..p]) else PrintAll(rs) }

  function Second(rs: seq<Member>, p: nat): string { if p <= |rs| then PrintAll(rs[p..]) else [] }

  lemma PartsGrow(rs: seq<Member>, r: Member, p: nat)
    ensures if p <= |rs|
      then First(rs + [r], p) == First(rs, p) && Second(rs + [r], p) == Second(rs, p) + Print(r)
      else First(rs + [r], p) == First(rs, p) + Print(r) && Second(rs + [r], p) == Second(rs, p)
  {
    hide Print, PrintAll;
    PrintOne(r);
    if p <= |rs| {
      assert (rs + [r])[..p] == rs[..p] && (rs + [r])[p..] == rs[p..] + [r];
      PrintAllParts(rs[p..], [r]);
    } else {
      PrintAllParts(rs, [r]);
      if p == |rs| + 1 {
        assert (rs + [r])[..p] == rs + [r] && (rs + [r])[p..] == [];
        NothingPrinted();
      }
    }
  }

  lemma NothingPrinted()
    ensures PrintAll([]) == []
  {
  }

  lemma FreshNone(fs: Files)
    ensures Fresh([], fs) == []
  {
  }

  lemma FreshOneMore(namv: Names, i: nat, fs: Files)
    requires i < |namv|
    ensures Fresh(namv[..i + 1], fs) == Fresh(namv[..i], fs)
      + if namv[i].Some? && Strip(namv[i].value) in fs then [Made(namv[i].value, fs[Strip(namv[i].value)])] else []
  {
    assert namv[..i + 1][..i] == namv[..i];
  }

  // A name whose file, if there is one, makes a member that the format can hold.
  predicate Usable(path: string, fs: Files) { Strip(path) in fs ==> Fits(Made(path, fs[Strip(path)])) }

  lemma StruckNone(name: string)
    ensures Struck([], name) == []
  {
  }

  lemma StruckUsable(namv: Names, name: string, fs: Files)
    requires forall i :: 0 <= i < |namv| && namv[i].Some? ==> Usable(namv[i].value, fs)
    ensures var rest := Struck(namv, name); forall i :: 0 <= i < |rest| && rest[i].Some? ==> Usable(rest[i].value, fs)
  {
    hide Usable;
  }

  lemma WholeFile(data: string)
    ensures Copied(data, 0, |data|, false, true) == data + Pad(data)
  {
  }

  lemma MatchIs(namv: Names, name: string, i: nat)
    requires i <= |namv| && forall j :: 0 <= j < i ==> !(namv[j].Some? && Trim(namv[j].value) == name)
    requires i < |namv| ==> namv[i].Some? && Trim(namv[i].value) == name
    ensures MatchAt(namv, name) == i
  {
  }

  lemma NameOfHeader(m: Member)
    requires Fits(m)
    ensures |Header(m)| == SAR_HDR && Unspaced(Header(m)[..NAMESIZE]) == m.name == Header(m)[..|m.name|]
    ensures forall j :: |m.name| <= j < NAMESIZE ==> Header(m)[j] == ' '
    ensures m.name[|m.name| - 1] == Header(m)[|m.name| - 1] && Header(m)[|m.name| - 1] != ' '
    ensures Header(m)[|m.name| - 1] != '\0'
  {
    hide Header, Printed, Unspaced, Spaces;
    HeaderName(m);
    var name, n := m.name, |m.name|;
    UnspacedLeft(name, NAMESIZE - n);
    SpacedPrefix(Header(m), name, NAMESIZE - n);
    assert Header(m)[n - 1] == Header(m)[..n][n - 1];
    assert name[n - 1] in name;
  }

  lemma SpacedPrefix(h: string, name: string, k: nat)
    requires |h| >= |name| + k && h[..|name| + k] == name + Spaces(k)
    ensures h[..|name|] == name && forall j :: |name| <= j < |name| + k ==> h[j] == ' '
  {
    var field := name + Spaces(k);
    assert h[..|name|] == field[..|name|];
    forall j | |name| <= j < |name| + k
      ensures h[j] == ' '
    {
      assert h[j] == field[j] == Spaces(k)[j - |name|];
    }
  }

  lemma HeaderName(m: Member)
    requires Fits(m)
    ensures |Header(m)| == SAR_HDR && Header(m)[..NAMESIZE] == m.name + Spaces(NAMESIZE - |m.name|)
  {
    hide Printed;
  }

  // Data copied out of an input, with or without the byte that makes it even.
  function Copied(input: string, pos: nat, size: nat, iodd: bool, oodd: bool): string
    requires After(pos, size, iodd) <= |input|
  {
    input[pos..pos + size] + if oodd && size % 2 == 1 then [if iodd then input[pos + size] else '\n'] else []
  }

  lemma CopiedOn(input: string, pos: nat, done: nat, left: nat, iodd: bool, oodd: bool)
    requires Even(done) && After(pos, done + left, iodd) <= |input|
    ensures (done + left) % 2 == left % 2
    ensures Copied(input, pos, done + left, iodd, oodd)
      == input[pos..pos + done] + Copied(input, pos + done, left, iodd, oodd)
  {
    assert input[pos..pos + done + left] == input[pos..pos + done] + input[pos + done..pos + done + left];
  }

  // One turn of the buffer: a whole one, or the odd or even rest.
  method CopyPiece(bufsiz: nat, input: string, pos: nat, left: nat, iodd: bool, oodd: bool)
    returns (piece: string, next: nat)
    requires After(pos, left, iodd) <= |input|
    ensures left >= bufsiz ==> piece == input[pos..pos + bufsiz] && next == pos + bufsiz
    ensures left < bufsiz ==> piece == Copied(input, pos, left, iodd, oodd)
    ensures left < bufsiz ==> next == After(pos, left, iodd)
  {
    var i, o := bufsiz, bufsiz;
    var pad := ['\n'];
    if left < bufsiz {
      i, o := left, left;
      if left % 2 == 1 {
        i := if iodd then i + 1 else i;
        o := if oodd then o + 1 else o;
      }
    }
    var buf := input[pos..pos + i];
    next := pos + i;
    piece := if o <= i then buf[..o] else buf + pad;
  }

  lemma PrintParts(m: Member)
    ensures Print(m) == Header(m) + (m.data + Pad(m.data))
  {
    hide Header, Pad;
  }

  lemma MemberCopied(ms: seq<Member>, k: nat)
    requires k < |ms| && AllFit(ms)
    ensures var m, at, a := ms[k], Offset(ms, k) + SAR_HDR, Archive(ms);
      && Offset(ms, k + 1) == at + |m.data| + |m.data| % 2 <= |a|
      && Copied(a, at, |m.data|, true, true) == m.data + Pad(m.data)
  {
    hide Archive, Offset, Header, Fits;
    MemberAt(ms, k);
  }

  /** The copy loop: a buffer at a time, an odd last piece taken and given with its padding as the
      flags say. */
  method CopyData(bufsiz: nat, input: string, pos: nat, size: nat, iodd: bool, oodd: bool, skip: bool)
    returns (out: string, next: nat)
    requires bufsiz > 0 && Even(bufsiz)
    requires After(pos, size, iodd) <= |input|
    ensures next == After(pos, size, iodd)
    ensures out == if skip then [] else Copied(input, pos, size, iodd, oodd)
  {
    hide Copying, Even;
    out, next := [], pos;
    CopyStarts(input, pos, size, iodd, oodd, skip);
    ghost var done := 0;
    var left: int := size;
    while left > 0
      invariant left == size - done && Copying(input, pos, size, iodd, oodd, skip, done, next, out)
      decreases left
    {
      CopyGoesOn(input, pos, size, iodd, oodd, skip, done, next, out);
      var piece, after := CopyPiece(bufsiz, input, next, left, iodd, oodd);
      CopyTurn(input, pos, size, iodd, oodd, skip, done, next, out, bufsiz, piece, after);
      if !skip {
        out := out + piece;
      }
      next := after;
      left := left - bufsiz;
      done := done + bufsiz;
    }
    CopyEnds(input, pos, size, iodd, oodd, skip, done, next, out);
  }

  function After(pos: nat, size: nat, iodd: bool): nat { pos + size + if iodd then size % 2 else 0 }

  // With `done` taken off the count, which the last turn may take below zero.
  ghost predicate Copying(input: string, pos: nat, size: nat, iodd: bool, oodd: bool, skip: bool,
                          done: nat, next: nat, out: string)
  {
    && After(pos, size, iodd) <= |input|
    && if done <= size then Even(done) && next == pos + done && out == if skip then [] else input[pos..next]
       else next == After(pos, size, iodd) && out == if skip then [] else Copied(input, pos, size, iodd, oodd)
  }

  lemma CopyStarts(input: string, pos: nat, size: nat, iodd: bool, oodd: bool, skip: bool)
    requires After(pos, size, iodd) <= |input|
    ensures Copying(input, pos, size, iodd, oodd, skip, 0, pos, [])
  {
    hide Copied;
  }

  lemma CopyGoesOn(input: string, pos: nat, size: nat, iodd: bool, oodd: bool, skip: bool, done: nat, next: nat, out: string)
    requires Copying(input, pos, size, iodd, oodd, skip, done, next, out) && done <= size
    ensures After(next, size - done, iodd) == After(pos, size, iodd) <= |input|
  {
    hide Copied;
    CopiedOn(input, pos, done, size - done, iodd, oodd);
  }

  lemma CopyTurn(input: string, pos: nat, size: nat, iodd: bool, oodd: bool, skip: bool, done: nat, next: nat, out: string,
                 bufsiz: nat, piece: string, after: nat)
    requires Copying(input, pos, size, iodd, oodd, skip, done, next, out) && done <= size && Even(bufsiz)
    requires After(next, size - done, iodd) <= |input|
    requires size - done >= bufsiz ==> piece == input[next..next + bufsiz] && after == next + bufsiz
    requires size - done < bufsiz ==>
      piece == Copied(input, next, size - done, iodd, oodd) && after == After(next, size - done, iodd)
    ensures Copying(input, pos, size, iodd, oodd, skip, done + bufsiz, after, if skip then out else out + piece)
  {
    hide Copied;
    CopiedOn(input, pos, done, size - done, iodd, oodd);
    if done + bufsiz <= size {
      EvenSum(done, bufsiz);
      assert input[pos..next] + input[next..next + bufsiz] == input[pos..next + bufsiz];
    }
  }

  lemma CopyEnds(input: string, pos: nat, size: nat, iodd: bool, oodd: bool, skip: bool, done: nat, next: nat, out: string)
    requires Copying(input, pos, size, iodd, oodd, skip, done, next, out) && done >= size
    ensures next == After(pos, size, iodd)
    ensures out == if skip then [] else Copied(input, pos, size, iodd, oodd)
  {
    if done == size {
      assert size % 2 == 0;
    }
  }

  predicate Even(n: nat) { n % 2 == 0 }

  lemma EvenSum(m: nat, n: nat)
    requires Even(m) && Even(n)
    ensures Even(m + n)
  {
  }

  lemma {:induction false} UnspacedIs(s: string, n: nat)
    requires n <= |s| && (forall k :: n <= k < |s| ==> s[k] == ' ') && (n > 0 ==> s[n - 1] != ' ')
    ensures Unspaced(s) == s[..n]
    decreases |s|
  {
    if n < |s| {
      UnspacedIs(s[..|s| - 1], n);
      assert s[..|s| - 1][..n] == s[..n];
    } else {
      assert s[..n] == s;
    }
  }
}
