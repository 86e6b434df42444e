/** The midnights at which the accounting program cuts its daily reports, from the times of the log's
    records alone. */
module Midnights {
  import opened Arithmetic

  // A report is cut at a midnight, when a record past it is read.
  datatype Cut = Cut(time: int, record: nat)

  // The midnight that ends the day under way, zero before there is one, and the cuts made so far.
  datatype Days = Days(midnight: int, cuts: seq<Cut>)

  /** The first of m, a day after m, two days after m and so on that is later than t. */
  function FirstAfter(m: int, t: int, day: nat): (n: int)
    requires day > 0
    ensures n > t && (m <= t ==> n <= t + day)
    ensures m <= t ==> (n == m + day <==> t < m + day) && n >= m + day
    decreases t - m
  {
    if m > t then m else FirstAfter(m + day, t, day)
  }

  // More than a day and a half without a record, or a clock set back.
  predicate Gap(last: int, t: int, day: nat) { last > t || 2 * last + 3 * day < 2 * t }

  /** What a record at time t, the n-th of the log, does to the days. */
  function Next(d: Days, last: int, t: int, n: nat, zone: int, day: nat): Days
    requires day > 0
  {
    var m := if Gap(last, t, day) || d.midnight == 0 then FirstAfter(zone, t, day) else d.midnight;
    if t > m then Days(FirstAfter(m, t, day), d.cuts + [Cut(m, n)]) else Days(m, d.cuts)
  }

  function LastOf(times: seq<int>): int { if times == [] then 0 else times[|times| - 1] }

  function After(times: seq<int>, zone: int, day: nat): Days
    requires day > 0
  {
    if times == [] then Days(0, [])
    else
      var n := |times| - 1;
      Next(After(times[..n], zone, day), LastOf(times[..n]), times[n], n, zone, day)
  }

  predicate Ordered(times: seq<int>) {
    && (forall k :: 0 <= k < |times| ==> times[k] > 0)
    && forall j, k :: 0 <= j < k < |times| ==> times[j] <= times[k]
  }

  /** From the record that made a cut to the one before `end`: the first of them comes less than a day
      after the cut, and they follow each other without a gap. */
  predicate Prompt(times: seq<int>, c: Cut, end: nat, day: nat)
    requires c.record < end <= |times|
  {
    && times[c.record] < c.time + day
    && forall m :: c.record < m < end ==> !Gap(times[m - 1], times[m], day)
  }

  // The midnight that comes next after the last cut, so far.
  ghost predicate NextMidnight(times: seq<int>, d: Days, day: nat) {
    && (times != [] ==> d.midnight >= times[|times| - 1])
    && (d.cuts != [] ==>
          var c := d.cuts[|d.cuts| - 1];
          && c.record < |times| && c.time < times[c.record]
          && (if Prompt(times, c, |times|, day) then d.midnight == c.time + day else d.midnight > c.time + day))
  }

  lemma NextMidnightStep(times: seq<int>, d: Days, t: int, zone: int, day: nat)
    requires day > 0 && Ordered(times + [t]) && NextMidnight(times, d, day) && (times != [] ==> d.midnight != 0)
    requires times == [] ==> d == Days(0, [])
    ensures var e := Next(d, LastOf(times), t, |times|, zone, day);
      NextMidnight(times + [t], e, day) && e.midnight != 0
  {
    var more, n := times + [t], |times|;
    assert more[n] == t;
    if times != [] {
      assert more[n - 1] == times[n - 1];
      if d.cuts != [] {
        var c := d.cuts[|d.cuts| - 1];
        assert more[c.record] == times[c.record] && times[c.record] <= times[n - 1];
        PromptStep(times, t, c, day);
      }
    }
  }

  lemma PromptStep(times: seq<int>, t: int, c: Cut, day: nat)
    requires c.record < |times|
    ensures Prompt(times + [t], c, |times| + 1, day)
      <==> Prompt(times, c, |times|, day) && !Gap(times[|times| - 1], t, day)
    ensures forall end :: c.record < end <= |times| ==> (Prompt(times + [t], c, end, day) <==> Prompt(times, c, end, day))
  {
    var more, n := times + [t], |times|;
    assert forall m :: 0 <= m < n ==> more[m] == times[m];
    assert more[n - 1] == times[n - 1] && more[n] == t;
  }

  lemma AfterStep(times: seq<int>, t: int, zone: int, day: nat)
    requires day > 0
    ensures After(times + [t], zone, day) == Next(After(times, zone, day), LastOf(times), t, |times|, zone, day)
  {
    assert (times + [t])[..|times|] == times;
  }

  lemma Earlier(times: seq<int>)
    requires Ordered(times) && times != []
    ensures var n := |times| - 1; times == times[..n] + [times[n]] && Ordered(times[..n])
  {
  }

  lemma {:induction false} MidnightNext(times: seq<int>, zone: int, day: nat)
    requires day > 0 && Ordered(times)
    ensures NextMidnight(times, After(times, zone, day), day)
    ensures if times == [] then After(times, zone, day) == Days(0, []) else After(times, zone, day).midnight != 0
  {
    if times != [] {
      hide NextMidnight, Next, After, Ordered;
      var n := |times| - 1;
      Earlier(times);
      MidnightNext(times[..n], zone, day);
      AfterStep(times[..n], times[n], zone, day);
      NextMidnightStep(times[..n], After(times[..n], zone, day), times[n], zone, day);
    }
  }

  // A cut that follows another.
  lemma CutStep(times: seq<int>, d: Days, t: int, zone: int, day: nat)
    requires day > 0 && Ordered(times + [t]) && NextMidnight(times, d, day) && d.cuts != []
    ensures var c, e := d.cuts[|d.cuts| - 1], Next(d, LastOf(times), t, |times|, zone, day);
      e.cuts == d.cuts
      || (e.cuts == d.cuts + [Cut(d.midnight, |times|)] && d.midnight < t && c.record < |times| && c.time < times[c.record]
          && (d.midnight == c.time + day <==> Prompt(times + [t], c, |times| + 1, day)) && d.midnight >= c.time + day)
  {
    hide Prompt;
    var c := d.cuts[|d.cuts| - 1];
    PromptStep(times, t, c, day);
    assert (times + [t])[|times|] == t && (times + [t])[|times| - 1] == times[|times| - 1];
  }

  /** Two reports one after the other are cut exactly one day apart, so that the second covers one day,
      exactly when the record that made the first cut came within a day of it and no gap of more than
      a day and a half followed; otherwise they are more than a day apart. */
  lemma {:induction false} OneDay(times: seq<int>, zone: int, day: nat, i: nat)
    requires day > 0 && Ordered(times) && i + 1 < |After(times, zone, day).cuts|
    ensures var (c, e) := (After(times, zone, day).cuts[i], After(times, zone, day).cuts[i + 1]);
      && c.record < e.record < |times| && c.time < times[c.record] && e.time < times[e.record]
      && (e.time == c.time + day <==> Prompt(times, c, e.record + 1, day))
      && e.time >= c.time + day
    decreases |times|
  {
    hide NextMidnight, Next, After, Ordered, Prompt;
    MidnightNext(times, zone, day);
    var n := |times| - 1;
    Earlier(times);
    var d := After(times[..n], zone, day);
    AfterStep(times[..n], times[n], zone, day);
    MidnightNext(times[..n], zone, day);
    CutsGrow(d, LastOf(times[..n]), times[n], n, zone, day);
    if i + 1 < |d.cuts| {
      OneDay(times[..n], zone, day, i);
      PromptStep(times[..n], times[n], d.cuts[i], day);
    } else {
      CutStep(times[..n], d, times[n], zone, day);
    }
  }

  lemma CutsGrow(d: Days, last: int, t: int, n: nat, zone: int, day: nat)
    requires day > 0
    ensures var e := Next(d, last, t, n, zone, day); d.cuts <= e.cuts && |e.cuts| <= |d.cuts| + 1
  {
  }

  // An hour before a midnight, an hour after the next one and an hour after the one that follows: the
  // second report has two days in it.
  lemma TwoDays()
    ensures var times := [82800, 176400, 262800]; After(times, 0, 86400).cuts == [Cut(86400, 1), Cut(259200, 2)]
  {
    AfterStep([], 82800, 0, 86400);
    AfterStep([82800], 176400, 0, 86400);
    AfterStep([82800, 176400], 262800, 0, 86400);
    assert [] + [82800] == [82800] && [82800] + [176400] == [82800, 176400];
    assert [82800, 176400] + [262800] == [82800, 176400, 262800];
    var one := After([82800], 0, 86400);
    assert one == Days(86400, []);
    assert FirstAfter(86400, 176400, 86400) == FirstAfter(172800, 176400, 86400) == 259200;
    assert After([82800, 176400], 0, 86400) == Days(259200, [Cut(86400, 1)]);
  }

  // The midnights there are.
  function MidnightOf(zone: int, day: nat, j: nat): int { zone + j * day }

  // The first midnight after time s.
  ghost predicate Upcoming(m: int, s: int, zone: int, day: nat) {
    exists j: nat :: m == MidnightOf(zone, day, j) && s < m && (j > 0 ==> MidnightOf(zone, day, j - 1) <= s)
  }

  lemma {:induction false} FirstAfterUpcoming(zone: int, day: nat, j: nat, t: int)
    requires day > 0 && (j > 0 ==> MidnightOf(zone, day, j - 1) <= t)
    ensures Upcoming(FirstAfter(MidnightOf(zone, day, j), t, day), t, zone, day)
    decreases t - MidnightOf(zone, day, j)
  {
    hide MidnightOf;
    if MidnightOf(zone, day, j) <= t {
      DayLater(zone, day, j);
      FirstAfterUpcoming(zone, day, j + 1, t);
    } else {
      assert FirstAfter(MidnightOf(zone, day, j), t, day) == MidnightOf(zone, day, j);
    }
  }

  lemma DayLater(zone: int, day: nat, j: nat)
    ensures MidnightOf(zone, day, j + 1) == MidnightOf(zone, day, j) + day
  {
    DistributeOver(j, 1, day);
  }

  lemma MidnightsRise(zone: int, day: nat, i: nat, j: nat)
    requires i <= j
    ensures MidnightOf(zone, day, i) <= MidnightOf(zone, day, j)
  {
    MulMonotone(i, j, day);
  }

  lemma UpcomingIsFirst(m: int, s: int, zone: int, day: nat, j: nat)
    requires day > 0 && Upcoming(m, s, zone, day) && s < MidnightOf(zone, day, j)
    ensures m <= MidnightOf(zone, day, j)
  {
    hide MidnightOf;
    var i: nat :| m == MidnightOf(zone, day, i) && s < m && (i > 0 ==> MidnightOf(zone, day, i - 1) <= s);
    if j < i {
      MidnightsRise(zone, day, j, i - 1);
    } else {
      MidnightsRise(zone, day, i, j);
    }
  }

  // The record that the days run from: the first, one after a gap, or one that made a cut; and no gap or
  // cut since.
  ghost predicate RunsFrom(times: seq<int>, cuts: seq<Cut>, i: nat, day: nat) {
    && i < |times|
    && (i == 0 || 2 * (times[i] - times[i - 1]) > 3 * day || exists c :: c in cuts && c.record == i)
    && (forall c :: c in cuts ==> c.record <= i)
    && forall l :: i < l < |times| ==> 2 * (times[l] - times[l - 1]) <= 3 * day
  }

  lemma {:induction false} CutsAreRecords(times: seq<int>, zone: int, day: nat)
    requires day > 0
    ensures forall c :: c in After(times, zone, day).cuts ==> c.record < |times|
  {
    hide FirstAfter;
    if times != [] {
      CutsAreRecords(times[..|times| - 1], zone, day);
    }
  }

  /** The midnight waited for is the first after the record that the days run from. */
  lemma {:induction false} WaitsForNext(times: seq<int>, zone: int, day: nat, i: nat)
    requires day > 0 && Ordered(times) && RunsFrom(times, After(times, zone, day).cuts, i, day)
    ensures Upcoming(After(times, zone, day).midnight, times[i], zone, day)
    decreases |times|
  {
    hide Ordered, After, FirstAfter, Upcoming;
    var n := |times| - 1;
    Earlier(times);
    AfterStep(times[..n], times[n], zone, day);
    MidnightNext(times[..n], zone, day);
    CutsAreRecords(times[..n], zone, day);
    var before := After(times[..n], zone, day);
    CutsGrow(before, LastOf(times[..n]), times[n], n, zone, day);
    if i < n {
      RunsOn(times, before, zone, day, i);
      WaitsForNext(times[..n], zone, day, i);
    } else {
      RunStarts(times, before, zone, day);
    }
  }

  lemma RunsOn(times: seq<int>, before: Days, zone: int, day: nat, i: nat)
    requires day > 0 && i + 1 < |times| && Ordered(times) && before.midnight != 0
    requires var n := |times| - 1;
      var d := Next(before, times[n - 1], times[n], n, zone, day);
      RunsFrom(times, d.cuts, i, day) && before.cuts <= d.cuts
    ensures var n := |times| - 1;
      && RunsFrom(times[..n], before.cuts, i, day)
      && Next(before, times[n - 1], times[n], n, zone, day).midnight == before.midnight
  {
    hide FirstAfter;
    var n := |times| - 1;
    var d := Next(before, times[n - 1], times[n], n, zone, day);
    if d.cuts != before.cuts {
      assert d.cuts[|before.cuts|] in d.cuts;
    }
  }

  lemma RunStarts(times: seq<int>, before: Days, zone: int, day: nat)
    requires day > 0 && times != [] && Ordered(times) && before == After(times[..|times| - 1], zone, day)
    requires var n := |times| - 1;
      RunsFrom(times, Next(before, LastOf(times[..n]), times[n], n, zone, day).cuts, n, day)
    ensures var n := |times| - 1;
      Upcoming(Next(before, LastOf(times[..n]), times[n], n, zone, day).midnight, times[n], zone, day)
  {
    hide After, FirstAfter, Upcoming;
    var n := |times| - 1;
    Earlier(times);
    CutsAreRecords(times[..n], zone, day);
    MidnightNext(times[..n], zone, day);
    if n == 0 || 2 * (times[n] - times[n - 1]) > 3 * day {
      assert MidnightOf(zone, day, 0) == zone;
      FirstAfterUpcoming(zone, day, 0, times[n]);
    } else {
      SomeMidnight(times[..n], zone, day);
      var j: nat :| before.midnight == MidnightOf(zone, day, j);
      FirstAfterUpcoming(zone, day, j, times[n]);
    }
  }

  lemma AfterNothing(zone: int, day: nat)
    requires day > 0
    ensures After([], zone, day) == Days(0, [])
  {
  }

  lemma NotBackwards(times: seq<int>)
    requires Ordered(times) && |times| > 1
    ensures times[|times| - 2] <= times[|times| - 1]
  {
  }

  lemma {:induction false} SomeMidnight(times: seq<int>, zone: int, day: nat)
    requires day > 0 && times != []
    ensures exists j: nat :: After(times, zone, day).midnight == MidnightOf(zone, day, j)
  {
    hide FirstAfter, After;
    var n := |times| - 1;
    var before := After(times[..n], zone, day);
    assert times == times[..n] + [times[n]];
    AfterStep(times[..n], times[n], zone, day);
    FreshAligned(zone, day, 0, times[n]);
    if n > 0 {
      SomeMidnight(times[..n], zone, day);
      var j: nat :| before.midnight == MidnightOf(zone, day, j);
      FreshAligned(zone, day, j, times[n]);
    } else {
      AfterNothing(zone, day);
    }
    var m := FirstAfter(zone, times[n], day);
    assert MidnightOf(zone, day, 0) == zone;
    var i: nat :| m == MidnightOf(zone, day, i);
    FreshAligned(zone, day, i, times[n]);
  }

  lemma {:induction false} FreshAligned(zone: int, day: nat, j: nat, t: int)
    requires day > 0
    ensures exists i: nat :: FirstAfter(MidnightOf(zone, day, j), t, day) == MidnightOf(zone, day, i)
    decreases t - MidnightOf(zone, day, j)
  {
    if MidnightOf(zone, day, j) <= t {
      assert MidnightOf(zone, day, j) + day == MidnightOf(zone, day, j + 1);
      FreshAligned(zone, day, j + 1, t);
    }
  }

  /** A log's first record makes no cut, and neither does one that comes more than a day and a half after
      the one before it. Any other makes one exactly when a midnight lies between the record that the
      days run from and it, and the cut is at the first such midnight. */
  lemma CutMade(times: seq<int>, t: int, zone: int, day: nat, i: nat)
    requires day > 0 && Ordered(times + [t]) && RunsFrom(times, After(times, zone, day).cuts, i, day)
    ensures var last, cuts, more := times[|times| - 1], After(times, zone, day).cuts, After(times + [t], zone, day).cuts;
      && After([t], zone, day).cuts == []
      && (2 * (t - last) > 3 * day ==> more == cuts)
      && (2 * (t - last) <= 3 * day ==>
            if exists j: nat :: times[i] < MidnightOf(zone, day, j) < t
            then exists m :: more == cuts + [Cut(m, |times|)] && Upcoming(m, times[i], zone, day) && m < t
            else more == cuts)
  {
    hide After, Upcoming, FirstAfter;
    var more, d := times + [t], After(times, zone, day);
    Earlier(more);
    assert more[..|times|] == times && times != [] && more[|times| - 1] == times[|times| - 1];
    NotBackwards(more);
    AfterStep(times, t, zone, day);
    AfterStep([], t, zone, day);
    AfterNothing(zone, day);
    assert [] + [t] == [t];
    MidnightNext(times, zone, day);
    WaitsForNext(times, zone, day, i);
    UpcomingBefore(d.midnight, times[i], zone, day, t);
  }

  lemma UpcomingBefore(m: int, s: int, zone: int, day: nat, t: int)
    requires day > 0 && Upcoming(m, s, zone, day)
    ensures m < t <==> exists j: nat :: s < MidnightOf(zone, day, j) < t
  {
    hide MidnightOf;
    if j: nat :| s < MidnightOf(zone, day, j) < t {
      UpcomingIsFirst(m, s, zone, day, j);
    }
  }

  lemma CutAdded(d: Days, last: int, t: int, n: nat, zone: int, day: nat)
    requires day > 0
    ensures var e := Next(d, last, t, n, zone, day); e.cuts == d.cuts || exists c :: c in e.cuts && c.record == n
  {
    var e := Next(d, last, t, n, zone, day);
    if e.cuts != d.cuts {
      assert e.cuts[|d.cuts|] in e.cuts;
    }
  }

  /** There is always a record that the days run from. */
  lemma {:induction false} RunExists(times: seq<int>, zone: int, day: nat)
    requires day > 0 && Ordered(times) && times != []
    ensures exists i: nat :: RunsFrom(times, After(times, zone, day).cuts, i, day)
  {
    hide After, FirstAfter, Ordered;
    var n := |times| - 1;
    var d := After(times, zone, day);
    CutsAreRecords(times, zone, day);
    if n == 0 || 2 * (times[n] - times[n - 1]) > 3 * day || exists c :: c in d.cuts && c.record == n {
      assert RunsFrom(times, d.cuts, n, day);
    } else {
      var before := After(times[..n], zone, day);
      Earlier(times);
      AfterStep(times[..n], times[n], zone, day);
      RunExists(times[..n], zone, day);
      var i: nat :| RunsFrom(times[..n], before.cuts, i, day);
      CutAdded(before, LastOf(times[..n]), times[n], n, zone, day);
      assert RunsFrom(times, d.cuts, i, day);
    }
  }

  // Fifty hours without a record: nothing is cut.
  lemma LongGap()
    ensures After([82800, 262800], 0, 86400).cuts == []
  {
    AfterNothing(0, 86400);
    AfterStep([], 82800, 0, 86400);
    AfterStep([82800], 262800, 0, 86400);
    assert [] + [82800] == [82800] && [82800] + [262800] == [82800, 262800];
    assert After([82800], 0, 86400) == Days(86400, []);
  }
}
