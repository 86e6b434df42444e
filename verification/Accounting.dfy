/** Login accounting: each user's time, charged terminal by terminal as the log goes by, with
    daily reports cut at midnight. */
module Accounting {
  import opened Options
  import Midnights

  // A log record: a login or logout (no name) on a terminal, or a reboot, which ends every session.
  datatype Line = Tty(index: nat) | Reboot

  datatype Rec = Rec(line: Line, name: string, time: int)

  predicate Touches(r: Rec, i: nat) { r.line.Reboot? || r.line.index == i }

  /** Who is on terminal i after the log, nobody being the empty name. */
  function Occupant(log: seq<Rec>, i: nat): string {
    if log == [] then ""
    else
      var r := log[|log| - 1];
      if r.line.Reboot? then "" else if r.line.index == i then r.name else Occupant(log[..|log| - 1], i)
  }

  function Times(log: seq<Rec>): seq<int> { seq(|log|, k requires 0 <= k < |log| => log[k].time) }

  // When terminal i last had a record.
  function Since(log: seq<Rec>, i: nat): int {
    if log == [] then 0
    else if Touches(log[|log| - 1], i) then log[|log| - 1].time else Since(log[..|log| - 1], i)
  }

  /** The lengths of the finished sessions of a user on terminal i, added up. */
  function Closed(log: seq<Rec>, i: nat, user: string): int {
    if log == [] then 0
    else
      var before, r := log[..|log| - 1], log[|log| - 1];
      Closed(before, i, user)
      + if Touches(r, i) && Occupant(before, i) == user then r.time - Since(before, i) else 0
  }

  function Total(log: seq<Rec>, user: string, ttys: nat): int {
    if ttys == 0 then 0 else Total(log, user, ttys - 1) + Closed(log, ttys - 1, user)
  }

  /** The same with every session going at that moment counted up to it. */
  function UpTo(log: seq<Rec>, user: string, ttys: nat, at: int): int {
    if ttys == 0 then 0
    else
      var i := ttys - 1;
      UpTo(log, user, i, at) + Closed(log, i, user) + if Occupant(log, i) == user then at - Since(log, i) else 0
  }

  // The records are in order of time, and times are positive.
  predicate Chronological(log: seq<Rec>) { Midnights.Ordered(Times(log)) }

  function SumTo(terms: seq<int>): int {
    if terms == [] then 0 else SumTo(terms[..|terms| - 1]) + terms[|terms| - 1]
  }

  lemma {:induction false} SumChange(terms: seq<int>, i: nat, v: int)
    requires i < |terms|
    ensures SumTo(terms[i := v]) == SumTo(terms) - terms[i] + v
  {
    var n := |terms| - 1;
    if i == n {
      assert terms[i := v][..n] == terms[..n];
    } else {
      SumChange(terms[..n], i, v);
      assert terms[i := v][..n] == terms[..n][i := v];
    }
  }

  datatype Terminal = Terminal(user: Option<nat>, time: int)

  /** What terminal i has put on a user's account: the finished sessions, and of the one still
      going as much as lies before the terminal's own time. */
  function Charged(log: seq<Rec>, t: Terminal, i: nat, user: string): int {
    Closed(log, i, user) + if user != "" && Occupant(log, i) == user then t.time - Since(log, i) else 0
  }

  /** The terminals' contributions to a user's account, the first k of them after a longer log. */
  function Terms(log: seq<Rec>, later: seq<Rec>, k: nat, ts: seq<Terminal>, user: string): seq<int> {
    seq(|ts|, i requires 0 <= i < |ts| => Charged(if i < k then later else log, ts[i], i, user))
  }

  // The log after terminals are brought up to t: the same at a midnight cut.
  function Later(log: seq<Rec>, cut: bool, r: Rec): seq<Rec> { if cut then log else log + [r] }

  lemma TermAdvances(log: seq<Rec>, cut: bool, r: Rec, was: Terminal, now: Terminal, i: nat, user: string)
    requires user != "" && (cut || (Touches(r, i) && now.time == r.time))
    ensures Charged(Later(log, cut, r), now, i, user)
      == Charged(log, was, i, user) + if user == Occupant(log, i) then now.time - was.time else 0
  {
    if !cut {
      assert (log + [r])[..|log|] == log;
    }
  }

  lemma TermStays(log: seq<Rec>, r: Rec, t: Terminal, i: nat, user: string)
    requires !Touches(r, i)
    ensures Charged(log + [r], t, i, user) == Charged(log, t, i, user) && Occupant(log + [r], i) == Occupant(log, i)
  {
    assert (log + [r])[..|log|] == log;
  }

  /** Bringing terminal k up changes the contributions by what its user is charged. */
  lemma SumAdvances(log: seq<Rec>, cut: bool, r: Rec, k: nat, ts: seq<Terminal>, t: Terminal, user: string)
    requires user != "" && k < |ts| && (cut || (Touches(r, k) && t.time == r.time))
    ensures SumTo(Terms(log, Later(log, cut, r), k + 1, ts[k := t], user))
      == SumTo(Terms(log, Later(log, cut, r), k, ts, user))
         + if user == Occupant(log, k) then t.time - ts[k].time else 0
  {
    hide Charged, Occupant, SumTo;
    TermAdvances(log, cut, r, ts[k], t, k, user);
    var before := Terms(log, Later(log, cut, r), k, ts, user);
    var v := Charged(Later(log, cut, r), t, k, user);
    assert Terms(log, Later(log, cut, r), k + 1, ts[k := t], user) == before[k := v];
    SumChange(before, k, v);
  }

  lemma SumOneTty(log: seq<Rec>, r: Rec, ts: seq<Terminal>, t: Terminal, user: string)
    requires r.line.Tty? && r.line.index < |ts| && t.time == r.time && user != ""
    ensures var i := r.line.index;
      SumTo(Terms(log + [r], log + [r], 0, ts[i := t], user))
      == SumTo(Terms(log, log, 0, ts, user)) + if user == Occupant(log, i) then t.time - ts[i].time else 0
  {
    hide SumTo;
    var i, before := r.line.index, Terms(log, log, 0, ts, user);
    TermAdvances(log, false, r, ts[i], t, i, user);
    forall j | 0 <= j < |ts| && j != i
      ensures Charged(log + [r], ts[j], j, user) == Charged(log, ts[j], j, user)
    {
      TermStays(log, r, ts[j], j, user);
    }
    hide Charged;
    var v := Charged(log + [r], t, i, user);
    assert Terms(log + [r], log + [r], 0, ts[i := t], user) == before[i := v];
    SumChange(before, i, v);
  }

  // The slot of a name in the user table, or its length.
  function Find(names: seq<string>, user: string): (u: nat)
    ensures u <= |names|
    ensures u < |names| ==> names[u] == user
    ensures forall v :: 0 <= v < u ==> names[v] != user
  {
    if names == [] then 0 else if names[0] == user then 0 else 1 + Find(names[1..], user)
  }

  function Reported(reports: seq<seq<int>>, u: nat): int
    requires forall r :: 0 <= r < |reports| ==> u < |reports[r]|
  {
    if reports == [] then 0 else Reported(reports[..|reports| - 1], u) + reports[|reports| - 1][u]
  }

  ghost predicate Wide(reports: seq<seq<int>>, width: nat) { forall r :: 0 <= r < |reports| ==> |reports[r]| == width }

  /** All that a user has been charged: in the reports already printed and in the running table. */
  function Paid(names: seq<string>, utime: seq<int>, reports: seq<seq<int>>, user: string): int
    requires |utime| == |names|
    requires forall r :: 0 <= r < |reports| ==> |reports[r]| == |names|
  {
    var u := Find(names, user);
    if u < |names| then Reported(reports, u) + utime[u] else 0
  }

  // What one report gives a user.
  function Entry(names: seq<string>, report: seq<int>, user: string): int
    requires |report| == |names|
  {
    var u := Find(names, user);
    if u < |names| then report[u] else 0
  }

  // Users fill the table from the front, each once; an empty slot has never been charged.
  ghost predicate Table(names: seq<string>, utime: seq<int>, reports: seq<seq<int>>, known: nat) {
    && known <= |names| == |utime| && Wide(reports, |names|)
    && (forall u :: 0 <= u < known ==> names[u] != "")
    && (forall u, v :: 0 <= u < v < known ==> names[u] != names[v])
    && (forall u :: known <= u < |names| ==> names[u] == "" && utime[u] == 0)
    && (forall r, u :: 0 <= r < |reports| && known <= u < |names| ==> reports[r][u] == 0)
    && forall u :: 0 <= u < |utime| ==> utime[u] >= 0
  }

  // A terminal's slot pointer names its occupant.
  ghost predicate Points(names: seq<string>, known: nat, t: Terminal, occupant: string) {
    match t.user
    case None => occupant == ""
    case Some(u) => u < known <= |names| && names[u] == occupant
  }

  lemma FindIs(names: seq<string>, u: nat)
    requires u < |names| && forall v :: 0 <= v < u ==> names[v] != names[u]
    ensures Find(names, names[u]) == u
  {
  }

  lemma {:induction false} NeverReported(reports: seq<seq<int>>, u: nat)
    requires forall r :: 0 <= r < |reports| ==> u < |reports[r]| && reports[r][u] == 0
    ensures Reported(reports, u) == 0
  {
    if reports != [] {
      NeverReported(reports[..|reports| - 1], u);
    }
  }

  /** Reports already printed give a user the same when others have been added to the table. */
  lemma ReportedKept(names: seq<string>, utime: seq<int>, known: nat, after: seq<string>, utime': seq<int>, more: nat,
                        reports: seq<seq<int>>, k: nat, user: string)
    requires Table(names, utime, reports, known) && Table(after, utime', reports, more) && |after| == |names|
    requires known <= more && (forall u :: 0 <= u < known ==> after[u] == names[u]) && k <= |reports| && user != ""
    ensures ReportedTo(after, reports, k, user) == ReportedTo(names, reports, k, user)
  {
    var u, v := Find(names, user), Find(after, user);
    if u < |names| {
      FindIs(after, u);
    } else if v < |after| {
      NeverReported(reports[..k], v);
    }
  }

  lemma ChargeSlot(names: seq<string>, utime: seq<int>, reports: seq<seq<int>>, known: nat, u: nat, t1: nat, user: string)
    requires Table(names, utime, reports, known) && u < known && user != ""
    ensures Table(names, utime[u := utime[u] + t1], reports, known)
    ensures Paid(names, utime[u := utime[u] + t1], reports, user)
      == Paid(names, utime, reports, user) + if user == names[u] then t1 else 0
  {
    FindIs(names, u);
  }

  lemma NewUser(names: seq<string>, utime: seq<int>, reports: seq<seq<int>>, known: nat, name: string, user: string)
    requires Table(names, utime, reports, known) && known < |names| && name != "" && user != ""
    requires forall v :: 0 <= v < known ==> names[v] != name
    ensures Table(names[known := name], utime, reports, known + 1)
    ensures Paid(names[known := name], utime, reports, user) == Paid(names, utime, reports, user)
  {
    var after := names[known := name];
    if user == name {
      NeverReported(reports, known);
      FindIs(after, known);
      assert forall v :: 0 <= v < |names| ==> names[v] != name;
    } else {
      var u := Find(names, user);
      if u < |names| {
        assert after[u] == user && forall v :: 0 <= v < u ==> after[v] != user;
        FindIs(after, u);
      }
    }
  }

  // What the first k reports give a user.
  function ReportedTo(names: seq<string>, reports: seq<seq<int>>, k: nat, user: string): int
    requires Wide(reports, |names|) && k <= |reports|
  {
    var u := Find(names, user);
    if u < |names| then Reported(reports[..k], u) else 0
  }

  /** A user's time up to a midnight that was cut. */
  function TimeTo(log: seq<Rec>, c: Midnights.Cut, user: string, ttys: nat): int {
    if c.record <= |log| then UpTo(log[..c.record], user, ttys, c.time) else 0
  }

  /** The reports up to each midnight cut give every user the time up to that midnight. */
  ghost predicate Daily(names: seq<string>, reports: seq<seq<int>>, log: seq<Rec>, cuts: seq<Midnights.Cut>, ttys: nat) {
    && Wide(reports, |names|) && |reports| == |cuts|
    && (forall k :: 0 <= k < |cuts| ==> cuts[k].record <= |log|)
    && forall k, user :: 0 < k <= |cuts| && user != "" ==>
         ReportedTo(names, reports, k, user) == TimeTo(log, cuts[k - 1], user, ttys)
  }

  // It stays so when a record has been dealt with, which may have added a user.
  lemma DailyKept(names: seq<string>, utime: seq<int>, known: nat, after: seq<string>, utime': seq<int>, more: nat,
                  reports: seq<seq<int>>, log: seq<Rec>, r: Rec, cuts: seq<Midnights.Cut>, ttys: nat)
    requires Table(names, utime, reports, known) && Table(after, utime', reports, more) && |after| == |names|
    requires known <= more && forall u :: 0 <= u < known ==> after[u] == names[u]
    requires Daily(names, reports, log, cuts, ttys)
    ensures Daily(after, reports, log + [r], cuts, ttys)
  {
    hide Table, UpTo;
    forall k, user | 0 < k <= |cuts| && user != ""
      ensures ReportedTo(after, reports, k, user) == TimeTo(log + [r], cuts[k - 1], user, ttys)
    {
      ReportedKept(names, utime, known, after, utime', more, reports, k, user);
      assert (log + [r])[..cuts[k - 1].record] == log[..cuts[k - 1].record];
    }
  }

  lemma DailyCut(names: seq<string>, utime: seq<int>, reports: seq<seq<int>>, last: seq<int>, log: seq<Rec>,
                 cuts: seq<Midnights.Cut>, midnight: int, ttys: nat)
    requires Daily(names, reports, log, cuts, ttys) && |utime| == |names| == |last|
    requires forall u :: 0 <= u < |utime| ==> utime[u] == 0
    requires forall user :: user != "" ==> Paid(names, utime, reports + [last], user) == UpTo(log, user, ttys, midnight)
    ensures Daily(names, reports + [last], log, cuts + [Midnights.Cut(midnight, |log|)], ttys)
  {
    hide UpTo, Reported, Find;
    var longer, more := reports + [last], cuts + [Midnights.Cut(midnight, |log|)];
    assert log[..|log|] == log && longer[..|longer|] == longer;
    forall k, user | 0 < k <= |more| && user != ""
      ensures ReportedTo(names, longer, k, user) == TimeTo(log, more[k - 1], user, ttys)
    {
      if k <= |cuts| {
        assert longer[..k] == reports[..k];
        assert ReportedTo(names, reports, k, user) == TimeTo(log, cuts[k - 1], user, ttys);
      } else {
        assert Paid(names, utime, longer, user) == UpTo(log, user, ttys, midnight);
      }
    }
  }

  lemma ReportedStep(reports: seq<seq<int>>, k: nat, u: nat)
    requires k < |reports| && forall r :: 0 <= r < |reports| ==> u < |reports[r]|
    ensures Reported(reports[..k + 1], u) == Reported(reports[..k], u) + reports[k][u] && Reported(reports[..0], u) == 0
  {
    assert reports[..k + 1][..k] == reports[..k] && reports[..k + 1][k] == reports[k];
  }

  /** So each report gives the time from the midnight before to its own. */
  lemma DayByDay(names: seq<string>, reports: seq<seq<int>>, log: seq<Rec>, cuts: seq<Midnights.Cut>, ttys: nat, k: nat, user: string)
    requires Daily(names, reports, log, cuts, ttys) && k < |reports| && user != ""
    ensures Entry(names, reports[k], user)
      == TimeTo(log, cuts[k], user, ttys) - if k == 0 then 0 else TimeTo(log, cuts[k - 1], user, ttys)
  {
    hide Reported;
    if Find(names, user) < |names| {
      ReportedStep(reports, k, Find(names, user));
    }
    assert ReportedTo(names, reports, k + 1, user) == TimeTo(log, cuts[k + 1 - 1], user, ttys);
    if k > 0 {
      assert ReportedTo(names, reports, k, user) == TimeTo(log, cuts[k - 1], user, ttys);
    }
  }

  /** The users of a log. */
  function Named(log: seq<Rec>): set<string> { set r | r in log && r.name != "" :: r.name }

  lemma NamedNext(log: seq<Rec>, r: Rec)
    ensures Named(log + [r]) == Named(log) + if r.name == "" then {} else {r.name}
  {
    var both := log + [r];
    assert both[|log|] == r;
    assert forall q :: q in both <==> q in log || q == r;
  }

  lemma NamedNone()
    ensures Named([]) == {}
  {
  }

  lemma NextInTime(log: seq<Rec>, end: Rec, k: nat)
    requires Chronological(log + [end]) && k <= |log|
    ensures var next := if k < |log| then log[k] else end; next.time > 0 && (k > 0 ==> log[k - 1].time <= next.time)
  {
    var whole := log + [end];
    assert Times(whole)[k] == (if k < |log| then log[k] else end).time;
    assert k > 0 ==> Times(whole)[k - 1] == log[k - 1].time;
  }

  lemma {:induction false} AsManyAsSlots(names: seq<string>)
    requires forall u, v :: 0 <= u < v < |names| ==> names[u] != names[v]
    ensures |set name | name in names| == |names|
  {
    if names != [] {
      var n := |names| - 1;
      AsManyAsSlots(names[..n]);
      assert names == names[..n] + [names[n]];
      assert (set name | name in names) == (set name | name in names[..n]) + {names[n]};
    }
  }

  class Accountant {
    const tsize: nat
    const usize: nat
    const byday: bool
    const zone: int
    const day: nat
    const tbuf: array<Terminal>
    const names: array<string>
    const utime: array<int>
    var midnight: int
    var lastime: int
    // The tables printed so far, one a day.
    var reports: seq<seq<int>>
    ghost var known: nat

    constructor (tsize: nat, usize: nat, byday: bool, zone: int)
      ensures this.tsize == tsize && this.usize == usize && this.byday == byday && this.zone == zone && day == 86400
      ensures fresh(tbuf) && fresh(names) && fresh(utime) && Valid() && midnight == lastime == 0 && reports == []
      ensures known == 0 && forall i :: 0 <= i < tsize ==> tbuf[i] == Terminal(None, 0)
    {
      this.tsize, this.usize, this.byday, this.zone, day := tsize, usize, byday, zone, 86400;
      tbuf := new Terminal[tsize](_ => Terminal(None, 0));
      names := new string[usize](_ => "");
      utime := new int[usize](_ => 0);
      midnight, lastime, reports, known := 0, 0, [], 0;
    }

    ghost predicate Valid()
      reads this`reports, this`known, names, utime
    {
      && tbuf.Length == tsize && names.Length == usize == utime.Length && day > 0
      && Table(names[..], utime[..], reports, known)
    }

    /** Who has a slot. */
    ghost function Users(): set<string>
      reads this`reports, this`known, names, utime
      requires Valid()
    {
      set name | name in names[..known]
    }

    lemma UsersCounted()
      requires Valid()
      ensures |Users()| == known <= usize
    {
      AsManyAsSlots(names[..known]);
    }

    twostate lemma UsersKept()
      requires old(Valid()) && Valid() && known == old(known) && names[..] == old(names[..])
      ensures Users() == old(Users())
    {
    }

    ghost function PaidTo(user: string): int
      reads this`reports, this`known, names, utime
      requires Valid()
    {
      Paid(names[..], utime[..], reports, user)
    }

    ghost predicate Slots(i: nat, occupant: string)
      reads this`known, names, tbuf
      requires i < tbuf.Length
    {
      Points(names[..], known, tbuf[i], occupant)
    }

    // The time since the terminal's last goes to its user.
    method Charge(i: nat, t: int, ghost occupant: string)
      requires Valid() && i < tsize && tbuf[i].time <= t && Slots(i, occupant)
      modifies tbuf, utime
      ensures Valid() && tbuf[i] == old(tbuf[i]).(time := t)
      ensures forall j :: 0 <= j < tsize && j != i ==> tbuf[j] == old(tbuf[j])
      ensures forall user :: user != "" ==>
        PaidTo(user) == old(PaidTo(user)) + (if user == occupant then t - old(tbuf[i].time) else 0)
    {
      hide Table, Paid;
      if tbuf[i].user.Some? {
        var u := tbuf[i].user.value;
        var t1 := t - tbuf[i].time;
        if t1 > 0 {
          ghost var before := utime[..];
          SlotKnown(u);
          ChargeAll(names[..], before, reports, known, u, t1);
          utime[u] := utime[u] + t1;
          assert utime[..] == before[u := before[u] + t1];
        }
      }
      tbuf[i] := tbuf[i].(time := t);
    }

    lemma SlotKnown(u: nat)
      requires Valid() && u < known
      ensures u < usize && names[u] != ""
    {
    }

    // The search for a user's slot, or for the first free one.
    method Login(i: nat, name: string) returns (ok: bool)
      requires Valid() && i < tsize && name != ""
      modifies this`known, tbuf, names
      ensures Valid() && known >= old(known)
      ensures forall u :: 0 <= u < old(known) ==> names[u] == old(names[u])
      ensures forall j :: 0 <= j < tsize && j != i ==> tbuf[j] == old(tbuf[j])
      ensures ok ==> tbuf[i].time == old(tbuf[i].time) && Slots(i, name)
      ensures ok <==> name in old(Users()) || old(known) < usize
      ensures Users() == old(Users()) + if ok then {name} else {}
      ensures forall user :: user != "" ==> PaidTo(user) == old(PaidTo(user))
    {
      hide Paid, Reported;
      var up := 0;
      while up < usize && names[up] != "" && names[up] != name
        invariant 0 <= up <= usize && up <= known
        invariant forall v :: 0 <= v < up ==> names[v] != name
      {
        up := up + 1;
      }
      ok := up < usize;
      assert up == known || (up < known && names[..known][up] == name);
      if ok {
        if names[up] == "" {
          NewUserAll(names[..], utime[..], reports, known, name);
          ghost var before := names[..];
          names[up] := name;
          assert names[..] == before[up := name];
          known := known + 1;
          assert names[..known] == before[..up] + [name];
        }
        tbuf[i] := tbuf[i].(user := Some(up));
      }
    }

    /** One terminal is brought up to a time. Its user is charged for the time since its last; then,
        but for the midnight cut, the terminal passes to the user named. */
    method Update(i: nat, cut: bool, t: int, name: string, ghost occupant: string) returns (ok: bool)
      requires Valid() && i < tsize && tbuf[i].time <= t && Slots(i, occupant)
      modifies this`known, tbuf, names, utime
      ensures Valid() && known >= old(known)
      ensures forall u :: 0 <= u < old(known) ==> names[u] == old(names[u])
      ensures forall j :: 0 <= j < tsize && j != i ==> tbuf[j] == old(tbuf[j])
      ensures ok ==> tbuf[i].time == t && Slots(i, if cut then occupant else name)
      ensures ok <==> cut || name == "" || name in old(Users()) || old(known) < usize
      ensures cut || name == "" ==> known == old(known) && names[..] == old(names[..])
      ensures Users() == old(Users()) + if ok && !cut && name != "" then {name} else {}
      ensures forall user :: user != "" ==>
        PaidTo(user) == old(PaidTo(user)) + (if user == occupant then t - old(tbuf[i].time) else 0)
    {
      hide Table, Paid, PaidTo;
      Charge(i, t, occupant);
      UsersKept();
      ok := true;
      if cut {
        return;
      }
      if name == "" {
        tbuf[i] := tbuf[i].(user := None);
        return;
      }
      ok := Login(i, name);
    }

    // The first k terminals follow the later log, the others still the earlier one.
    ghost predicate Follows(log: seq<Rec>, later: seq<Rec>, k: nat)
      reads this`known, this`reports, tbuf, names, utime
    {
      && Valid()
      && (forall i :: 0 <= i < k && i < tsize ==> Slots(i, Occupant(later, i)))
      && (forall i :: k <= i < tsize ==> Slots(i, Occupant(log, i)))
      && forall user :: user != "" ==> PaidTo(user) == SumTo(Terms(log, later, k, tbuf[..], user))
    }

    // Every account is what the log says, as far as the terminals have been brought up to date.
    ghost predicate Balanced(log: seq<Rec>, upto: int)
      reads this`known, this`reports, tbuf, names, utime
    {
      Follows(log, log, 0) && forall i :: 0 <= i < tsize ==> tbuf[i].time <= upto
    }

    // The other terminals' pointers still name their users.
    twostate lemma SlotsKept(k: nat)
      requires old(Valid()) && Valid() && old(known) <= known
      requires forall u :: 0 <= u < old(known) ==> names[u] == old(names[u])
      requires forall j :: 0 <= j < tsize && j != k ==> tbuf[j] == old(tbuf[j])
      ensures forall j, occupant :: 0 <= j < tsize && j != k && old(Slots(j, occupant)) ==> Slots(j, occupant)
    {
      forall j, occupant | 0 <= j < tsize && j != k && old(Slots(j, occupant))
        ensures Slots(j, occupant)
      {
        if tbuf[j].user.Some? {
          assert old(names[..])[tbuf[j].user.value] == old(names[tbuf[j].user.value]);
        }
      }
    }

    /** One terminal of those being brought up. */
    method UpOne(k: nat, cut: bool, t: int, ghost log: seq<Rec>, ghost r: Rec)
      requires k < tsize && Follows(log, Later(log, cut, r), k) && tbuf[k].time <= t
      requires cut || r == Rec(Reboot, "", t)
      modifies this`known, tbuf, names, utime
      ensures Follows(log, Later(log, cut, r), k + 1)
      ensures tbuf[k].time == t && forall j :: 0 <= j < tsize && j != k ==> tbuf[j] == old(tbuf[j])
      ensures known == old(known) && names[..] == old(names[..])
    {
      hide SumTo, Terms, PaidTo, Table, Occupant;
      ghost var before, later := tbuf[..], Later(log, cut, r);
      if !cut {
        EndsSession(log, r, k);
      }
      var ok := Update(k, cut, t, "", Occupant(log, k));
      ghost var now := tbuf[k];
      assert tbuf[..] == before[k := now];
      SlotsKept(k);
      forall user | user != ""
        ensures PaidTo(user) == SumTo(Terms(log, later, k + 1, tbuf[..], user))
      {
        SumAdvances(log, cut, r, k, before, now, user);
      }
    }

    method UpAll(cut: bool, t: int, ghost log: seq<Rec>, ghost r: Rec)
      requires Balanced(log, t) && (cut || r == Rec(Reboot, "", t))
      modifies this`known, tbuf, names, utime
      ensures Balanced(Later(log, cut, r), t) && forall i :: 0 <= i < tsize ==> tbuf[i].time == t
      ensures known == old(known) && names[..] == old(names[..])
    {
      hide SumTo, Occupant, PaidTo, Table;
      ghost var later := Later(log, cut, r);
      SameStart(log, later);
      var tp := 0;
      while tp < tsize
        invariant 0 <= tp <= tsize && Follows(log, later, tp) && known == old(known) && names[..] == old(names[..])
        invariant forall i :: 0 <= i < tsize ==> if i < tp then tbuf[i].time == t else tbuf[i].time <= t
      {
        UpOne(tp, cut, t, log, r);
        tp := tp + 1;
      }
      SameEnd(log, later);
    }

    lemma SameStart(log: seq<Rec>, later: seq<Rec>)
      requires Follows(log, log, 0)
      ensures Follows(log, later, 0)
    {
      forall user
        ensures Terms(log, later, 0, tbuf[..], user) == Terms(log, log, 0, tbuf[..], user)
      {
      }
    }

    lemma SameEnd(log: seq<Rec>, later: seq<Rec>)
      requires Follows(log, later, tsize)
      ensures Follows(later, later, 0)
    {
      forall user
        ensures Terms(log, later, tsize, tbuf[..], user) == Terms(later, later, 0, tbuf[..], user)
      {
      }
    }

    method TtyEvent(r: Rec, ghost log: seq<Rec>) returns (ok: bool)
      requires r.line.Tty? && r.line.index < tsize && Balanced(log, r.time)
      modifies this`known, tbuf, names, utime
      ensures Valid() && (ok ==> Balanced(log + [r], r.time))
      ensures known >= old(known) && forall u :: 0 <= u < old(known) ==> names[u] == old(names[u])
      ensures ok <==> r.name == "" || r.name in old(Users()) || old(known) < usize
      ensures Users() == old(Users()) + if ok && r.name != "" then {r.name} else {}
    {
      hide SumTo, Terms, PaidTo, Table, Occupant;
      var i := r.line.index;
      ghost var before := tbuf[..];
      ok := Update(i, false, r.time, r.name, Occupant(log, i));
      if !ok {
        return;
      }
      ghost var now := tbuf[i];
      assert tbuf[..] == before[i := now];
      SlotsKept(i);
      OccupantsAfter(log, r, tsize);
      forall user | user != ""
        ensures PaidTo(user) == SumTo(Terms(log + [r], log + [r], 0, tbuf[..], user))
      {
        SumOneTty(log, r, before, now, user);
      }
    }

    // The start of a day from its zone, or the next midnight after a time.
    method NewDay(t: int)
      requires t > 0 && day > 0
      modifies this`midnight
      ensures midnight == Midnights.FirstAfter(if old(midnight) == 0 then zone else old(midnight), t, day)
    {
      if midnight == 0 {
        midnight := zone;
      }
      while midnight <= t
        invariant Midnights.FirstAfter(midnight, t, day) == Midnights.FirstAfter(if old(midnight) == 0 then zone else old(midnight), t, day)
        decreases t - midnight
      {
        midnight := midnight + day;
      }
    }

    /** Printing a day's table and clearing it changes no account. */
    method Print()
      requires Valid()
      modifies this`reports, utime
      ensures Valid() && reports == old(reports) + [old(utime[..])]
      ensures forall u :: 0 <= u < usize ==> utime[u] == 0
      ensures forall user :: user != "" ==> PaidTo(user) == old(PaidTo(user))
    {
      ghost var was := utime[..];
      ghost var earlier := reports;
      reports := reports + [utime[..]];
      var up := 0;
      while up < usize
        invariant 0 <= up <= usize && forall u :: 0 <= u < up ==> utime[u] == 0
        modifies utime
      {
        utime[up] := 0;
        up := up + 1;
      }
      PrintKeeps(names[..], was, utime[..], earlier, known);
    }

    /** The day's report: with it each user has been charged up to midnight and no further. */
    method EndDay(ghost log: seq<Rec>, ghost r: Rec)
      requires Balanced(log, midnight)
      modifies this`known, this`reports, tbuf, names, utime
      ensures Balanced(log, midnight) && |reports| == |old(reports)| + 1
      ensures old(reports) <= reports && forall u :: 0 <= u < usize ==> utime[u] == 0
      ensures forall user :: user != "" ==> PaidTo(user) == UpTo(log, user, tsize, midnight)
      ensures known == old(known) && names[..] == old(names[..])
    {
      hide SumTo, Occupant, PaidTo, Table, Terms, Slots;
      UpAll(true, midnight, log, r);
      Print();
      forall user | user != ""
        ensures PaidTo(user) == UpTo(log, user, tsize, midnight)
      {
        ChargedUpTo(log, tbuf[..], midnight, user);
      }
    }

    method EndDayDaily(ghost log: seq<Rec>, ghost r: Rec, ghost cuts: seq<Midnights.Cut>)
      requires Balanced(log, midnight) && Daily(names[..], reports, log, cuts, tsize)
      modifies this`known, this`reports, tbuf, names, utime
      ensures Balanced(log, midnight) && known == old(known) && names[..] == old(names[..])
      ensures Daily(names[..], reports, log, cuts + [Midnights.Cut(midnight, |log|)], tsize)
    {
      hide SumTo, Occupant, Table, Terms, Slots, Daily, UpTo, Paid;
      ghost var before := reports;
      EndDay(log, r);
      TableNow();
      assert reports == before + [reports[|before|]];
      DailyCut(names[..], utime[..], before, reports[|before|], log, cuts, midnight, tsize);
    }

    lemma BalancedValid(log: seq<Rec>, upto: int)
      requires Balanced(log, upto)
      ensures Valid()
    {
    }

    lemma TableNow()
      requires Valid()
      ensures Table(names[..], utime[..], reports, known) && names.Length == usize == utime.Length
      ensures day > 0 && forall r :: 0 <= r < |reports| ==> |reports[r]| == usize
    {
    }

    // The days are brought up to a record's time, with a report for the day under way if it has passed.
    method Midnight(t: int, ghost log: seq<Rec>, ghost r: Rec, ghost d: Midnights.Days) returns (ghost cuts: seq<Midnights.Cut>)
      requires Balanced(log, lastime) && 0 < t && lastime <= t
      requires byday ==> (midnight == 0 || lastime <= midnight) && d.midnight == midnight
      requires byday ==> Daily(names[..], reports, log, d.cuts, tsize)
      modifies this`midnight, this`lastime, this`known, this`reports, tbuf, names, utime
      ensures Balanced(log, lastime) && lastime == t && (byday ==> t <= midnight)
      ensures known == old(known) && names[..] == old(names[..])
      ensures byday ==> Midnights.Days(midnight, cuts) == Midnights.Next(d, old(lastime), t, |log|, zone, day)
      ensures byday ==> Daily(names[..], reports, log, cuts, tsize)
      ensures !byday ==> reports == old(reports)
    {
      hide SumTo, Occupant, PaidTo, Table, Terms, Slots, Daily, Midnights.FirstAfter;
      if lastime > t || 2 * lastime + 3 * day < 2 * t {
        midnight := 0;
      }
      if midnight == 0 {
        NewDay(t);
      }
      lastime := t;
      cuts := d.cuts;
      if byday && t > midnight {
        cuts := cuts + [Midnights.Cut(midnight, |log|)];
        EndDayDaily(log, r, d.cuts);
        NewDay(t);
      }
    }

    /** One log record. A gap of more than a day and a half starts the days afresh without a report;
        otherwise the first record past midnight cuts every session there. */
    method Loop(r: Rec, ghost log: seq<Rec>, ghost d: Midnights.Days) returns (ok: bool)
      requires Balanced(log, lastime) && r.time > 0 && lastime <= r.time
      requires r.line.Tty? ==> r.line.index < tsize
      requires r.line.Reboot? ==> r.name == ""
      requires byday ==> (midnight == 0 || lastime <= midnight) && d.midnight == midnight
      requires byday ==> Daily(names[..], reports, log, d.cuts, tsize)
      modifies this, tbuf, names, utime
      ensures Valid() && lastime == r.time && (byday ==> lastime <= midnight)
      ensures byday ==>
        var e := Midnights.Next(d, old(lastime), r.time, |log|, zone, day);
        midnight == e.midnight && (ok ==> Daily(names[..], reports, log + [r], e.cuts, tsize))
      ensures ok ==> Balanced(log + [r], lastime)
      ensures ok <==> r.name == "" || r.name in old(Users()) || old(known) < usize
      ensures Users() == old(Users()) + if ok && r.name != "" then {r.name} else {}
      ensures !byday ==> reports == old(reports)
    {
      hide SumTo, Occupant, PaidTo, Table, Terms, Slots, Daily, Valid, Balanced, Users, Midnights.Next;
      BalancedValid(log, lastime);
      ghost var cuts := Midnight(r.time, log, r, d);
      BalancedValid(log, lastime);
      UsersKept();
      ok := true;
      TableNow();
      ghost var n0, u0, k0 := names[..], utime[..], known;
      if r.line.Reboot? {
        UpAll(false, r.time, log, r);
        BalancedValid(log + [r], r.time);
        UsersKept();
      } else {
        ok := TtyEvent(r, log);
      }
      if byday {
        TableNow();
        DailyKept(n0, u0, k0, names[..], utime[..], known, reports, log, r, cuts, tsize);
      }
    }

    /** A whole run: the log, then the reboot that the program makes up at the end. Whether by day or
        not, each user's reports add up to the lengths of that user's sessions, terminal by terminal;
        and each daily report gives the time from the midnight before to its own. */
    method Run(log: seq<Rec>, now: int) returns (ok: bool)
      requires Fresh() && Chronological(log + [Rec(Reboot, "", now)])
      requires forall k :: 0 <= k < |log| ==> if log[k].line.Reboot? then log[k].name == "" else log[k].line.index < tsize
      modifies this, tbuf, names, utime
      ensures Valid()
      ensures ok ==> forall user :: user != "" ==> PaidTo(user) == Total(log + [Rec(Reboot, "", now)], user, tsize)
      ensures ok ==> forall u :: 0 <= u < usize ==> utime[u] == 0
      ensures !byday && ok ==> |reports| == 1
      ensures byday && ok ==>
        var whole := log + [Rec(Reboot, "", now)];
        |reports| > 0
        && Daily(names[..], reports[..|reports| - 1], whole, Midnights.After(Times(whole), zone, day).cuts, tsize)
      ensures ok <==> |Named(log)| <= usize
    {
      hide Named, Total, Chronological, PaidTo, Table, Daily, Fresh, Processed, Midnights.After;
      StartsProcessed(log);
      var k := 0;
      while k < |log|
        invariant 0 <= k <= |log| && Processed(log, k)
      {
        ok := NextRecord(log, k, Rec(Reboot, "", now));
        if !ok {
          return;
        }
        k := k + 1;
      }
      assert log[..k] == log;
      Finish(Rec(Reboot, "", now), log);
      ok := true;
    }

    // The first k records have been dealt with.
    ghost predicate Processed(log: seq<Rec>, k: nat)
      reads this, tbuf, names, utime
      requires k <= |log|
    {
      && Valid() && Balanced(log[..k], lastime) && Users() == Named(log[..k])
      && lastime == (if k == 0 then 0 else log[k - 1].time)
      && (if byday then midnight == 0 || lastime <= midnight else reports == [])
      && (byday ==> midnight == Midnights.After(Times(log[..k]), zone, day).midnight)
      && (byday ==> Daily(names[..], reports, log[..k], Midnights.After(Times(log[..k]), zone, day).cuts, tsize))
    }

    lemma StartsProcessed(log: seq<Rec>)
      requires Fresh()
      ensures Processed(log, 0)
    {
      hide Named, Daily, Balanced, Midnights.After;
      StartsBalanced();
      StartsDaily();
      NamedNone();
      assert log[..0] == [];
    }

    method NextRecord(log: seq<Rec>, k: nat, ghost end: Rec) returns (ok: bool)
      requires k < |log| && Processed(log, k) && Chronological(log + [end])
      requires if log[k].line.Reboot? then log[k].name == "" else log[k].line.index < tsize
      modifies this, tbuf, names, utime
      ensures Valid() && (ok ==> Processed(log, k + 1)) && (!ok ==> |Named(log)| > usize)
    {
      hide SumTo, Occupant, PaidTo, Table, Terms, Slots, Follows, Chronological, Named, Total, Daily, Balanced, Users,
           Midnights.Next, Midnights.After, Times;
      NextInTime(log, end, k);
      UsersCounted();
      NamedNext(log[..k], log[k]);
      assert log[..k + 1] == log[..k] + [log[k]];
      TimesStep(log[..k], log[k]);
      ok := Loop(log[k], log[..k], Midnights.After(Times(log[..k]), zone, day));
      if !ok {
        TooMany(log, k, usize);
      }
    }

    // The reboot made up at the end, and the last report.
    method Finish(r: Rec, ghost log: seq<Rec>)
      requires Processed(log, |log|) && Chronological(log + [r]) && r.line.Reboot? && r.name == ""
      modifies this, tbuf, names, utime
      ensures Valid() && reports != [] && (!byday ==> |reports| == 1) && |Named(log)| <= usize
      ensures forall user :: user != "" ==> PaidTo(user) == Total(log + [r], user, tsize)
      ensures forall u :: 0 <= u < usize ==> utime[u] == 0
      ensures byday ==> Daily(names[..], reports[..|reports| - 1], log + [r],
                              Midnights.After(Times(log + [r]), zone, day).cuts, tsize)
    {
      hide SumTo, Occupant, PaidTo, Table, Terms, Slots, Follows, Chronological, Total, Daily, Users, Named,
           Midnights.Next, Midnights.After, Times;
      assert log[..|log|] == log;
      UsersCounted();
      NextInTime(log, r, |log|);
      TimesStep(log, r);
      var ok := Loop(r, log, Midnights.After(Times(log), zone, day));
      EndsBalanced(log, r);
      ghost var before := reports;
      Print();
      assert reports[..|reports| - 1] == before;
    }

    lemma TimesStep(log: seq<Rec>, r: Rec)
      requires day > 0
      ensures Times(log + [r]) == Times(log) + [r.time]
      ensures var d := Midnights.After(Times(log), zone, day);
        Midnights.After(Times(log + [r]), zone, day)
        == Midnights.Next(d, if log == [] then 0 else log[|log| - 1].time, r.time, |log|, zone, day)
    {
      assert Times(log + [r]) == Times(log) + [r.time];
      Midnights.AfterStep(Times(log), r.time, zone, day);
    }

    lemma StartsDaily()
      requires Fresh()
      ensures Midnights.After(Times([]), zone, day) == Midnights.Days(0, []) && Daily(names[..], reports, [], [], tsize)
    {
      assert Times([]) == [];
    }

    ghost predicate Fresh()
      reads this, tbuf, names, utime
    {
      && Valid() && midnight == lastime == 0 && reports == [] && known == 0
      && forall i :: 0 <= i < tsize ==> tbuf[i] == Terminal(None, 0)
    }

    lemma StartsBalanced()
      requires Fresh()
      ensures Balanced([], 0) && Users() == {}
    {
      forall user | user != ""
        ensures PaidTo(user) == SumTo(Terms([], [], 0, tbuf[..], user))
      {
        NothingCharged(tbuf[..], user);
      }
    }

    lemma EndsBalanced(log: seq<Rec>, r: Rec)
      requires Balanced(log + [r], lastime) && r.line.Reboot?
      ensures forall user :: user != "" ==> PaidTo(user) == Total(log + [r], user, tsize)
    {
      hide SumTo, PaidTo;
      forall user | user != ""
        ensures PaidTo(user) == Total(log + [r], user, tsize)
      {
        AllClosed(log, r, tbuf[..], user);
      }
    }
  }

  lemma TooMany(log: seq<Rec>, k: nat, room: nat)
    requires k < |log| && |Named(log[..k])| == room && log[k].name !in Named(log[..k]) && log[k].name != ""
    ensures |Named(log)| > room
  {
    var more := Named(log[..k]) + {log[k].name};
    assert |more| == room + 1;
    assert more <= Named(log);
    SubsetSize(more, Named(log));
  }

  lemma SubsetSize(a: set<string>, b: set<string>)
    requires a <= b
    ensures |a| <= |b|
  {
    assert b == a + (b - a);
    assert |b| == |a| + |b - a|;
  }

  lemma {:induction false} ChargedUpTo(log: seq<Rec>, ts: seq<Terminal>, at: int, user: string)
    requires user != "" && forall i :: 0 <= i < |ts| ==> ts[i].time == at
    ensures SumTo(Terms(log, log, 0, ts, user)) == UpTo(log, user, |ts|, at)
  {
    hide Closed, Occupant, Since;
    if ts != [] {
      var n := |ts| - 1;
      ChargedUpTo(log, ts[..n], at, user);
      assert Terms(log, log, 0, ts, user)[..n] == Terms(log, log, 0, ts[..n], user);
    }
  }

  lemma {:induction false} NothingCharged(ts: seq<Terminal>, user: string)
    requires user != ""
    ensures SumTo(Terms([], [], 0, ts, user)) == 0
  {
    if ts != [] {
      var n := |ts| - 1;
      NothingCharged(ts[..n], user);
      assert Terms([], [], 0, ts, user)[..n] == Terms([], [], 0, ts[..n], user);
    }
  }

  /** After a reboot every session is finished. */
  lemma {:induction false} AllClosed(log: seq<Rec>, r: Rec, ts: seq<Terminal>, user: string)
    requires r.line.Reboot? && user != ""
    ensures SumTo(Terms(log + [r], log + [r], 0, ts, user)) == Total(log + [r], user, |ts|)
  {
    hide Closed;
    if ts != [] {
      var n := |ts| - 1;
      AllClosed(log, r, ts[..n], user);
      EndsSession(log, r, n);
      assert Terms(log + [r], log + [r], 0, ts, user)[..n] == Terms(log + [r], log + [r], 0, ts[..n], user);
    }
  }

  lemma OccupantsAfter(log: seq<Rec>, r: Rec, n: nat)
    requires r.line.Tty?
    ensures forall j: nat :: j < n ==> Occupant(log + [r], j) == if j == r.line.index then r.name else Occupant(log, j)
  {
    assert (log + [r])[..|log|] == log;
  }

  lemma PrintKeeps(names: seq<string>, was: seq<int>, now: seq<int>, reports: seq<seq<int>>, known: nat)
    requires Table(names, was, reports, known) && |now| == |was| && forall u :: 0 <= u < |now| ==> now[u] == 0
    ensures Table(names, now, reports + [was], known)
    ensures forall user :: user != "" ==> Paid(names, now, reports + [was], user) == Paid(names, was, reports, user)
  {
    assert (reports + [was])[..|reports|] == reports;
    forall u | 0 <= u < |names|
      ensures Reported(reports + [was], u) == Reported(reports, u) + was[u]
    {
    }
  }

  lemma EndsSession(log: seq<Rec>, r: Rec, i: nat)
    requires r.line.Reboot?
    ensures Occupant(log + [r], i) == ""
  {
  }

  lemma ChargeAll(names: seq<string>, utime: seq<int>, reports: seq<seq<int>>, known: nat, u: nat, t1: nat)
    requires Table(names, utime, reports, known) && u < known
    ensures u < |utime| && Table(names, utime[u := utime[u] + t1], reports, known)
    ensures var after := utime[u := utime[u] + t1];
      forall user :: user != "" ==>
        Paid(names, after, reports, user) == Paid(names, utime, reports, user) + (if user == names[u] then t1 else 0)
  {
    ChargeSlot(names, utime, reports, known, u, t1, names[u]);
    forall user | user != ""
      ensures Paid(names, utime[u := utime[u] + t1], reports, user)
        == Paid(names, utime, reports, user) + (if user == names[u] then t1 else 0)
    {
      ChargeSlot(names, utime, reports, known, u, t1, user);
    }
  }

  lemma NewUserAll(names: seq<string>, utime: seq<int>, reports: seq<seq<int>>, known: nat, name: string)
    requires Table(names, utime, reports, known) && known < |names| && name != ""
    requires forall v :: 0 <= v < known ==> names[v] != name
    ensures Table(names[known := name], utime, reports, known + 1)
    ensures forall user :: user != "" ==>
      Paid(names[known := name], utime, reports, user) == Paid(names, utime, reports, user)
  {
    NewUser(names, utime, reports, known, name, name);
    forall user | user != ""
      ensures Paid(names[known := name], utime, reports, user) == Paid(names, utime, reports, user)
    {
      NewUser(names, utime, reports, known, name, user);
    }
  }

  lemma {:induction false} Untouched(log: seq<Rec>, between: seq<Rec>, i: nat, who: string)
    requires forall k :: 0 <= k < |between| ==> between[k].line.Tty? && between[k].line.index != i
    ensures Occupant(log + between, i) == Occupant(log, i) && Since(log + between, i) == Since(log, i)
    ensures Closed(log + between, i, who) == Closed(log, i, who)
  {
    if between != [] {
      var n := |between| - 1;
      assert (log + between)[..|log + between| - 1] == log + between[..n];
      Untouched(log, between[..n], i, who);
    } else {
      assert log + between == log;
    }
  }

  /** A login on a terminal opens a session of that user, which the next record of that terminal or the
      next reboot closes: it counts for the time between the two, and for nobody else. */
  lemma SessionLength(log: seq<Rec>, i: nat, user: string, t0: int, between: seq<Rec>, r: Rec, who: string)
    requires forall k :: 0 <= k < |between| ==> between[k].line.Tty? && between[k].line.index != i
    requires r.line == Reboot || r.line == Tty(i)
    ensures var open := log + [Rec(Tty(i), user, t0)];
      Closed(open + between + [r], i, who) == Closed(open, i, who) + if who == user then r.time - t0 else 0
  {
    var open := log + [Rec(Tty(i), user, t0)];
    Untouched(open, between, i, who);
    var all := open + between + [r];
    assert all[..|all| - 1] == open + between;
  }

  /** Counting up to a time is what a reboot at that time would close; and a user's time is that of all
      the terminals together. */
  lemma {:induction false} UpToInNumbers(log: seq<Rec>, user: string, ttys: nat, at: int)
    ensures UpTo(log, user, ttys, at) == Total(log + [Rec(Reboot, "", at)], user, ttys)
    ensures Total(log, user, 0) == 0 && Total(log, user, ttys + 1) == Total(log, user, ttys) + Closed(log, ttys, user)
  {
    hide Closed;
    if ttys > 0 {
      UpToInNumbers(log, user, ttys - 1, at);
      RebootCloses(log, user, ttys - 1, at);
    }
  }

  lemma RebootCloses(log: seq<Rec>, user: string, i: nat, at: int)
    ensures Closed(log + [Rec(Reboot, "", at)], i, user)
      == Closed(log, i, user) + if Occupant(log, i) == user then at - Since(log, i) else 0
  {
    hide Occupant, Since;
    var all := log + [Rec(Reboot, "", at)];
    assert all[..|all| - 1] == log;
  }

  /** A log is in order when no record is earlier than the one before it; records may have the same time. */
  lemma {:induction false} ChronologicalInNumbers(log: seq<Rec>)
    ensures Chronological(log)
      <==> (forall k :: 0 <= k < |log| ==> log[k].time >= 1) && forall k :: 1 <= k < |log| ==> log[k - 1].time <= log[k].time
  {
    var times := Times(log);
    if forall k :: 1 <= k < |log| ==> log[k - 1].time <= log[k].time {
      forall j, k | 0 <= j < k < |log|
        ensures times[j] <= times[k]
      {
        Rising(log, j, k);
      }
    }
    if Midnights.Ordered(times) {
      forall k | 1 <= k < |log|
        ensures log[k - 1].time <= log[k].time
      {
        assert times[k - 1] <= times[k];
      }
      forall k | 0 <= k < |log|
        ensures log[k].time >= 1
      {
        assert times[k] > 0;
      }
    }
  }

  lemma {:induction false} Rising(log: seq<Rec>, j: int, k: int)
    requires 0 <= j <= k < |log| && forall i :: 1 <= i < |log| ==> log[i - 1].time <= log[i].time
    ensures log[j].time <= log[k].time
    decreases k - j
  {
    if j < k {
      Rising(log, j, k - 1);
    }
  }
}
