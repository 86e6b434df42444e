/** What replacing, deleting and moving members mean for the list of members. */
module ArEdits {
  import opened Options
  import opened ArFormat

  // A file outside the archive.
  datatype Info = Info(date: nat, uid: nat, gid: nat, mode: nat, data: string)

  type Files = map<string, Info>

  datatype Position = Nowhere | Beside(ponam: string, after: bool)

  function Strip(s: string): string {
    if s != [] && s[|s| - 1] == '/' then Strip(s[..|s| - 1]) else s
  }

  function Component(s: string): string {
    if s == [] then [] else if s[|s| - 1] == '/' then [] else Component(s[..|s| - 1]) + [s[|s| - 1]]
  }

  // The last component of a path; a trailing slash does not count.
  function Trim(s: string): string { Component(Strip(s)) }

  // The names still to be found.
  type Names = seq<Option<string>>

  function MatchAt(namv: Names, name: string): (i: nat)
    ensures i <= |namv|
    ensures i < |namv| ==> namv[i].Some? && Trim(namv[i].value) == name
    ensures forall j :: 0 <= j < i ==> !(namv[j].Some? && Trim(namv[j].value) == name)
  {
    if namv == [] then 0 else if namv[0].Some? && Trim(namv[0].value) == name then 0 else 1 + MatchAt(namv[1..], name)
  }

  function Struck(namv: Names, name: string): (rest: Names)
    ensures |rest| == |namv|
  {
    var i := MatchAt(namv, name);
    if i < |namv| then namv[i := None] else namv
  }

  predicate Matches(namv: Names, name: string) { MatchAt(namv, name) < |namv| }

  function Made(path: string, info: Info): Member {
    Member(Trim(path), info.date, info.uid, info.gid, info.mode, info.data)
  }

  // Which file, if any, is to take the place of the member: with no names given, every one's own.
  function Wanted(namv: Names, name: string): Option<string> {
    if namv == [] then Some(name) else if Matches(namv, name) then namv[MatchAt(namv, name)] else None
  }

  function Newer(m: Member, path: string, fs: Files, update: bool): Member {
    if Strip(path) !in fs || (update && fs[Strip(path)].date <= m.date) then m else Made(path, fs[Strip(path)])
  }

  function Replacement(m: Member, namv: Names, fs: Files, update: bool): Member {
    match Wanted(namv, m.name)
    case None => m
    case Some(path) => Newer(m, path, fs, update)
  }

  // The names left after the members have each struck out the first name that matches.
  function Unstruck(ms: seq<Member>, namv: Names): (rest: Names)
    ensures |rest| == |namv|
  {
    if ms == [] then namv else Struck(Unstruck(ms[..|ms| - 1], namv), ms[|ms| - 1].name)
  }

  function Replaced(ms: seq<Member>, namv: Names, fs: Files, update: bool): (rs: seq<Member>)
    ensures |rs| == |ms|
  {
    if ms == [] then []
    else
      var rest := ms[..|ms| - 1];
      Replaced(rest, namv, fs, update) + [Replacement(ms[|ms| - 1], Unstruck(rest, namv), fs, update)]
  }

  // New members for the names that matched nothing, in the order given.
  function Fresh(namv: Names, fs: Files): seq<Member> {
    if namv == [] then []
    else
      var last := namv[|namv| - 1];
      Fresh(namv[..|namv| - 1], fs)
      + if last.Some? && Strip(last.value) in fs then [Made(last.value, fs[Strip(last.value)])] else []
  }

  // Where the first member of that name is.
  function Find(ms: seq<Member>, name: string): (p: nat)
    ensures p <= |ms|
    ensures p < |ms| ==> ms[p].name == name
    ensures forall i :: 0 <= i < p ==> ms[i].name != name
  {
    if ms == [] then 0 else if ms[0].name == name then 0 else 1 + Find(ms[1..], name)
  }

  // How many members stay before what is inserted.
  function Cut(ms: seq<Member>, pos: Position): (p: nat)
    ensures p <= |ms|
  {
    match pos
    case Nowhere => |ms|
    case Beside(ponam, after) =>
      var p := Find(ms, ponam);
      if p < |ms| && after then p + 1 else p
  }

  function ReplaceList(ms: seq<Member>, namv: Names, fs: Files, update: bool, pos: Position): seq<Member> {
    var rs, p := Replaced(ms, namv, fs, update), Cut(ms, pos);
    rs[..p] + Fresh(Unstruck(ms, namv), fs) + rs[p..]
  }

  // Which members are named, each name serving once.
  function Marks(ms: seq<Member>, namv: Names): (marks: seq<bool>)
    ensures |marks| == |ms|
  {
    if ms == [] then []
    else Marks(ms[..|ms| - 1], namv) + [Matches(Unstruck(ms[..|ms| - 1], namv), ms[|ms| - 1].name)]
  }

  function Select(ms: seq<Member>, marks: seq<bool>, want: bool): seq<Member>
    requires |marks| == |ms|
  {
    if ms == [] then []
    else
      Select(ms[..|ms| - 1], marks[..|ms| - 1], want) + if marks[|ms| - 1] == want then [ms[|ms| - 1]] else []
  }

  function DeleteList(ms: seq<Member>, namv: Names): seq<Member> { Select(ms, Marks(ms, namv), false) }

  function MoveList(ms: seq<Member>, namv: Names, pos: Position): seq<Member> {
    var marks, p := Marks(ms, namv), Cut(ms, pos);
    Select(ms[..p], marks[..p], false) + Select(ms, marks, true) + Select(ms[p..], marks[p..], false)
  }

  lemma SelectLast(ms: seq<Member>, marks: seq<bool>, want: bool)
    requires |marks| == |ms| > 0
    ensures var n := |ms| - 1;
      Select(ms, marks, want) == Select(ms[..n], marks[..n], want) + if marks[n] == want then [ms[n]] else []
  {
  }

  lemma SelectNone(want: bool)
    ensures Select([], [], want) == []
  {
  }

  lemma {:induction false} SelectParts(ms: seq<Member>, marks: seq<bool>, p: nat, want: bool)
    requires |marks| == |ms| && p <= |ms|
    ensures Select(ms, marks, want) == Select(ms[..p], marks[..p], want) + Select(ms[p..], marks[p..], want)
  {
    hide Select;
    if p == |ms| {
      assert ms[..p] == ms && marks[..p] == marks && ms[p..] == [] && marks[p..] == [];
      SelectNone(want);
    } else {
      var n := |ms| - 1;
      SelectParts(ms[..n], marks[..n], p, want);
      SelectLast(ms, marks, want);
      SelectLast(ms[p..], marks[p..], want);
      assert ms[..n][..p] == ms[..p] && marks[..n][..p] == marks[..p];
      assert ms[..n][p..] == ms[p..][..n - p] && marks[..n][p..] == marks[p..][..n - p];
    }
  }

  lemma {:induction false} SelectBoth(ms: seq<Member>, marks: seq<bool>)
    requires |marks| == |ms|
    ensures multiset(ms) == multiset(Select(ms, marks, true)) + multiset(Select(ms, marks, false))
  {
    hide Select;
    if ms != [] {
      var n := |ms| - 1;
      SelectBoth(ms[..n], marks[..n]);
      assert ms == ms[..n] + [ms[n]];
      SelectLast(ms, marks, true);
      SelectLast(ms, marks, false);
    } else {
      SelectNone(true);
      SelectNone(false);
    }
  }

  /** Moving loses nothing, adds nothing, and keeps the unmoved members in their order; deleting
      loses exactly what moving would have moved. */
  lemma MoveIsPermutation(ms: seq<Member>, namv: Names, pos: Position)
    ensures multiset(MoveList(ms, namv, pos)) == multiset(ms)
    ensures var marks, p := Marks(ms, namv), Cut(ms, pos);
      DeleteList(ms, namv) == Select(ms[..p], marks[..p], false) + Select(ms[p..], marks[p..], false)
    ensures multiset(ms) == multiset(DeleteList(ms, namv)) + multiset(Select(ms, Marks(ms, namv), true))
  {
    hide Select, Marks, Cut;
    var marks, p := Marks(ms, namv), Cut(ms, pos);
    SelectParts(ms, marks, p, false);
    SelectBoth(ms, marks);
  }

  lemma {:induction false} LeftStruck(ms: seq<Member>, namv: Names, i: nat)
    requires i < |namv|
    ensures Unstruck(ms, namv)[i] == namv[i] || Unstruck(ms, namv)[i].None?
    ensures namv[i].Some? && (forall k :: 0 <= k < |ms| ==> ms[k].name != Trim(namv[i].value)) ==> Unstruck(ms, namv)[i] == namv[i]
  {
    if ms != [] {
      LeftStruck(ms[..|ms| - 1], namv, i);
    }
  }

  /** In an archive without two members of one name, the members marked are exactly those named. */
  lemma {:induction false} MarkedWhenNamed(ms: seq<Member>, namv: Names, k: nat)
    requires k < |ms|
    requires forall i, j :: 0 <= i < j < |ms| ==> ms[i].name != ms[j].name
    ensures Marks(ms, namv)[k] <==> Matches(namv, ms[k].name)
  {
    var n := |ms| - 1;
    if k < n {
      MarkedWhenNamed(ms[..n], namv, k);
    } else {
      var before := Unstruck(ms[..n], namv);
      if Matches(namv, ms[k].name) {
        LeftStruck(ms[..n], namv, MatchAt(namv, ms[k].name));
      }
      if Matches(before, ms[k].name) {
        LeftStruck(ms[..n], namv, MatchAt(before, ms[k].name));
      }
    }
  }

  /** Replacing changes no member's place and no unnamed member, and a replaced member keeps its name;
      given no names, every member is replaced that has a file, or a newer one, of its own name. */
  lemma {:induction false} ReplacedInPlace(ms: seq<Member>, namv: Names, fs: Files, update: bool, k: nat)
    requires k < |ms|
    ensures var r, own := Replaced(ms, namv, fs, update)[k], Strip(ms[k].name);
      && (namv != [] || Trim(ms[k].name) == ms[k].name ==> r.name == ms[k].name)
      && (namv != [] && !Marks(ms, namv)[k] ==> r == ms[k])
      && (namv == [] ==>
            r == if own in fs && !(update && fs[own].date <= ms[k].date) then Made(ms[k].name, fs[own]) else ms[k])
  {
    if k < |ms| - 1 {
      ReplacedInPlace(ms[..|ms| - 1], namv, fs, update, k);
    }
  }

  lemma FindIs(ms: seq<Member>, name: string, i: nat)
    requires i <= |ms| && (forall j :: 0 <= j < i ==> ms[j].name != name) && (i < |ms| ==> ms[i].name == name)
    ensures Find(ms, name) == i
  {
  }

  /** Where new members go: behind the first member of the name given for "after", in front of it for
      "before", and otherwise last. */
  lemma InsertedBeside(ms: seq<Member>, namv: Names, fs: Files, update: bool, name: string, i: nat)
    requires i < |ms| && ms[i].name == name && forall j :: 0 <= j < i ==> ms[j].name != name
    ensures var rs, added := Replaced(ms, namv, fs, update), Fresh(Unstruck(ms, namv), fs);
      && ReplaceList(ms, namv, fs, update, Beside(name, true)) == rs[..i + 1] + added + rs[i + 1..]
      && ReplaceList(ms, namv, fs, update, Beside(name, false)) == rs[..i] + added + rs[i..]
  {
    hide Replaced, Fresh, Unstruck;
    FindIs(ms, name, i);
  }

  lemma InsertedLast(ms: seq<Member>, namv: Names, fs: Files, update: bool, pos: Position)
    requires pos.Nowhere? || forall j :: 0 <= j < |ms| ==> ms[j].name != pos.ponam
    ensures ReplaceList(ms, namv, fs, update, pos) == Replaced(ms, namv, fs, update) + Fresh(Unstruck(ms, namv), fs)
  {
    hide Replaced, Fresh, Unstruck;
    if pos.Beside? {
      FindIs(ms, pos.ponam, |ms|);
    }
  }

  /** Where moved members go, in the same way, among those that are not moved. */
  lemma MovedBeside(ms: seq<Member>, namv: Names, name: string, i: nat)
    requires i < |ms| && ms[i].name == name && forall j :: 0 <= j < i ==> ms[j].name != name
    ensures var marks := Marks(ms, namv);
      && MoveList(ms, namv, Beside(name, true))
         == Select(ms[..i + 1], marks[..i + 1], false) + Select(ms, marks, true) + Select(ms[i + 1..], marks[i + 1..], false)
      && MoveList(ms, namv, Beside(name, false))
         == Select(ms[..i], marks[..i], false) + Select(ms, marks, true) + Select(ms[i..], marks[i..], false)
  {
    hide Marks, Select;
    FindIs(ms, name, i);
  }

  lemma MovedLast(ms: seq<Member>, namv: Names, pos: Position)
    requires pos.Nowhere? || forall j :: 0 <= j < |ms| ==> ms[j].name != pos.ponam
    ensures MoveList(ms, namv, pos) == DeleteList(ms, namv) + Select(ms, Marks(ms, namv), true)
  {
    hide Marks, Select;
    if pos.Beside? {
      FindIs(ms, pos.ponam, |ms|);
    }
    var marks := Marks(ms, namv);
    assert ms[..|ms|] == ms && marks[..|ms|] == marks && ms[|ms|..] == [] && marks[|ms|..] == [];
    SelectNone(false);
  }

  /** New members come in the order in which their names were given: one for each name whose file is there. */
  lemma FreshInOrder(namv: Names, more: Names, fs: Files, name: string)
    ensures Fresh(namv + more, fs) == Fresh(namv, fs) + Fresh(more, fs)
    ensures Fresh([Some(name)], fs) == if Strip(name) in fs then [Made(name, fs[Strip(name)])] else []
    ensures Fresh([None], fs) == []
  {
    hide Strip;
    FreshParts(namv, more, fs);
  }

  lemma {:induction false} FreshParts(namv: Names, more: Names, fs: Files)
    ensures Fresh(namv + more, fs) == Fresh(namv, fs) + Fresh(more, fs)
  {
    hide Strip;
    if more != [] {
      var n := |more| - 1;
      FreshParts(namv, more[..n], fs);
      assert (namv + more)[..|namv + more| - 1] == namv + more[..n];
    } else {
      assert namv + more == namv;
    }
  }

  /** A member that is named, by a name that no other member has, becomes the file of the first such
      name, unless there is none or it is to be newer and is not. */
  lemma {:induction false} NamedIsReplaced(ms: seq<Member>, namv: Names, fs: Files, update: bool, k: nat, i: nat)
    requires k < |ms| && forall a, b :: 0 <= a < b < |ms| ==> ms[a].name != ms[b].name
    requires i < |namv| && namv[i].Some? && Trim(namv[i].value) == ms[k].name
    requires forall j :: 0 <= j < i && namv[j].Some? ==> Trim(namv[j].value) != ms[k].name
    ensures var path := namv[i].value;
      Replaced(ms, namv, fs, update)[k]
      == if Strip(path) in fs && !(update && fs[Strip(path)].date <= ms[k].date)
         then Member(ms[k].name, fs[Strip(path)].date, fs[Strip(path)].uid, fs[Strip(path)].gid, fs[Strip(path)].mode,
                     fs[Strip(path)].data)
         else ms[k]
  {
    var n := |ms| - 1;
    if k < n {
      NamedIsReplaced(ms[..n], namv, fs, update, k, i);
    } else {
      var before := Unstruck(ms[..n], namv);
      LeftStruck(ms[..n], namv, i);
      forall j | 0 <= j < i
        ensures !(before[j].Some? && Trim(before[j].value) == ms[k].name)
      {
        LeftStruck(ms[..n], namv, j);
      }
      MatchAtIs(before, ms[k].name, i);
    }
  }

  lemma MatchAtIs(namv: Names, name: string, i: nat)
    requires i < |namv| && namv[i].Some? && Trim(namv[i].value) == name
    requires forall j :: 0 <= j < i ==> !(namv[j].Some? && Trim(namv[j].value) == name)
    ensures MatchAt(namv, name) == i
  {
  }

  /** The name a path gives a member: what follows its last slash, slashes at the end not counting. */
  lemma {:induction false} TrimInNumbers(dir: string, base: string, slashes: nat)
    requires base != [] && '/' !in base && (dir == [] || dir[|dir| - 1] == '/')
    ensures var path := dir + base + seq(slashes, _ => '/'); Strip(path) == dir + base && Trim(path) == base
  {
    var path := dir + base + seq(slashes, _ => '/');
    if slashes > 0 {
      assert path[..|path| - 1] == dir + base + seq(slashes - 1, _ => '/');
      TrimInNumbers(dir, base, slashes - 1);
    } else {
      assert path == dir + base && base[|base| - 1] in base;
      ComponentOf(dir, base);
    }
  }

  lemma {:induction false} ComponentOf(dir: string, base: string)
    requires '/' !in base && (dir == [] || dir[|dir| - 1] == '/')
    ensures Component(dir + base) == base
  {
    if base == [] {
      assert dir + base == dir;
    } else {
      var n := |base| - 1;
      assert base[n] in base && (dir + base)[..|dir + base| - 1] == dir + base[..n];
      ComponentOf(dir, base[..n]);
    }
  }

  /** A member made of a file has the file's own date, owner, group, mode and contents. */
  lemma MadeInFields(path: string, info: Info)
    ensures var m := Made(path, info);
      && m.name == Trim(path) && m.date == info.date && m.uid == info.uid && m.gid == info.gid && m.mode == info.mode
      && m.data == info.data
  {
  }
}
