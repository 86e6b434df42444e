/** The terminal's history ring: every character received is kept until the ring comes round, and
    a backup replays the last lines of it through the same door that live characters use. */
module History {
  // What can happen while the terminal waits: a character comes in, or the user asks for a backup.
  datatype Event = Char(c: char) | Back(count: nat)

  function Newlines(s: seq<char>): nat {
    if s == [] then 0 else Newlines(s[1..]) + if s[0] == '\n' then 1 else 0
  }

  // A place `k` characters back from p on a ring.
  function Behind(p: nat, k: nat, size: nat): int { if p >= k then p - k else p - k + size }

  // How many newlines a backup goes over: three quarters of a screen for each time it is asked.
  function Lines(count: nat, ymax: nat): nat { 3 * (count + 1) * ymax / 4 }

  lemma NewlineFirst(c: char, s: seq<char>)
    ensures Newlines([c] + s) == Newlines(s) + if c == '\n' then 1 else 0
  {
  }

  class User {
    const size: nat
    const hist: array<char>
    var histp: nat
    // Where the replay stands, or -1.
    var backp: int
    var nbacklines: int
    var ymax: nat
    var peekc: int
    var atend: bool
    ghost var received: seq<char>
    // How many characters a replay has still to give, or -1.
    ghost var left: int

    ghost predicate Valid()
      reads this`histp, this`received, hist
    {
      && size >= 2 && hist.Length == size && histp < size
      && '\0' !in received
      && hist[histp] == '\0'
      && forall k :: 1 <= k < size ==>
           hist[Behind(histp, k, size)] == if k <= |received| then received[|received| - k] else '\0'
    }

    // How many of the received characters the ring still holds.
    ghost function Held(): (n: nat)
      reads this`received
      ensures n <= |received|
    {
      if |received| < size || size == 0 then |received| else size - 1
    }

    // The last j characters received.
    ghost function Last(j: nat): seq<char>
      reads this`received
      requires j <= |received|
    {
      received[|received| - j..]
    }

    // The replay pointer stands where the characters still to come begin.
    ghost predicate Placed()
      reads this`received, this`backp, this`histp, this`left
    {
      if left < 0 then left == -1 && backp == -1 else left <= Held() && backp == Behind(histp, left, size)
    }

    ghost function Screen(): State
      reads this`received, this`left, this`nbacklines
    {
      State(received, left, nbacklines)
    }

    constructor (size: nat, ymax: nat)
      requires size >= 2
      ensures Valid() && Placed() && Screen() == State([], -1, 0) && peekc == 0 && !atend && this.ymax == ymax && this.size == size && fresh(hist)
    {
      this.size, this.ymax := size, ymax;
      hist := new char[size](_ => '\0');
      histp, backp, nbacklines, peekc, atend, received, left := 0, -1, 0, 0, false, [], -1;
    }

    /** The ring holds the last size-1 characters received, whatever they are. */
    method Store(c: char)
      requires Valid() && Placed() && c != '\0' && left == -1
      modifies this`histp, this`received, hist
      ensures Valid() && Placed() && received == old(received) + [c]
    {
      hist[histp] := c;
      histp := histp + 1;
      if histp >= size {
        histp := 0;
      }
      hist[histp] := '\0';
      received := received + [c];
      forall k | 1 <= k < size
        ensures hist[Behind(histp, k, size)] == if k <= |received| then received[|received| - k] else '\0'
      {
        if k > 1 {
          assert Behind(histp, k, size) == Behind(old(histp), k - 1, size);
        }
      }
    }

    // What stands one place further back.
    lemma OneBack(k: nat)
      requires Valid() && k <= Held()
      ensures 0 <= Behind(histp, k + 1, size) < size
      ensures Behind(histp, k + 1, size) == if Behind(histp, k, size) == 0 then size - 1 else Behind(histp, k, size) - 1
      ensures hist[Behind(histp, k + 1, size)] == if k < Held() then received[|received| - k - 1] else '\0'
      ensures k < Held() ==> received[|received| - k - 1] != '\0' && Last(k + 1) == [received[|received| - k - 1]] + Last(k)
    {
      assert k < |received| ==> received[|received| - k - 1] in received;
    }

    /** Back over so many newlines: the replay starts at the longest run of kept characters that
        holds no more of them, and `atend` tells whether that is everything kept. */
    method Backup(count: nat)
      requires Valid()
      modifies this`backp, this`left, this`nbacklines, this`atend
      ensures Valid() && Placed() && nbacklines == ymax - 2
      ensures left == Tail(Kept(received, size), Lines(count, ymax))
      ensures atend <==> Newlines(Kept(received, size)) <= Lines(count, ymax)
    {
      hide Lines, Valid, Tail, Newlines, Behind, Last, Kept;
      var cp, k := ScanBack(Lines(count, ymax));
      backp := cp;
      nbacklines := ymax - 2;
      left := k;
      Start(k, Lines(count, ymax));
    }

    method ScanBack(lines: nat) returns (cp: int, ghost j: nat)
      requires Valid()
      modifies this`atend
      ensures j <= Held() && cp == Behind(histp, j, size) && Newlines(Last(j)) <= lines && (atend ==> j == Held())
      ensures !atend ==> j < Held() && Newlines(Last(j)) == lines && Last(j + 1) == ['\n'] + Last(j)
    {
      hide Newlines, Valid, Last, Behind;
      var n: int := lines;
      cp := histp;
      ghost var k := 0;
      atend := false;
      StartOfScan();
      while n >= 0
        invariant Valid() && k <= Held() && cp == Behind(histp, k, size) && !atend && -1 <= n <= lines
        invariant n >= 0 ==> Newlines(Last(k)) == lines - n
        invariant n < 0 ==> k > 0 && Newlines(Last(k - 1)) == lines && Last(k) == ['\n'] + Last(k - 1)
        modifies this`atend
        decreases Held() - k
      {
        OneBack(k);
        cp := cp - 1;
        if cp < 0 {
          cp := size - 1;
        }
        if hist[cp] == '\0' {
          atend := true;
          k := k + 1;
          break;
        }
        NewlineFirst(hist[cp], Last(k));
        k := k + 1;
        if hist[cp] == '\n' {
          n := n - 1;
        }
      }
      j := k - 1;
      OneForward(j);
      cp := cp + 1;
      if cp >= size {
        cp := 0;
      }
    }

    lemma Start(j: nat, lines: nat)
      requires Valid() && j <= Held() && Newlines(Last(j)) <= lines && (atend ==> j == Held())
      requires !atend ==> j < Held() && Newlines(Last(j)) == lines && Last(j + 1) == ['\n'] + Last(j)
      ensures Tail(Kept(received, size), lines) == j
      ensures atend <==> Newlines(Kept(received, size)) <= lines
    {
      hide Valid, Tail, Newlines, Kept, Last;
      var kept := Kept(received, size);
      LastInKept(j);
      if !atend {
        LastInKept(j + 1);
        TailIsAfter(kept, lines, j);
      } else {
        assert kept[0..] == kept;
        TailIsAll(kept, lines);
      }
    }

    lemma LastInKept(j: nat)
      requires Valid() && j <= Held()
      ensures var kept := Kept(received, size); |kept| == Held() && kept[|kept| - j..] == Last(j)
    {
      LastOfKept(received, Held(), j);
    }

    lemma StartOfScan()
      requires Valid()
      ensures Behind(histp, 0, size) == histp && Newlines(Last(0)) == 0 && size >= 2 && hist.Length == size
    {
    }

    // Going one place forward again from k+1 places back.
    lemma OneForward(k: nat)
      requires Valid() && k <= Held()
      ensures Behind(histp, k, size) == if Behind(histp, k + 1, size) == size - 1 then 0 else Behind(histp, k + 1, size) + 1
      ensures 0 <= Behind(histp, k, size) < size
    {
    }

    // What the replay pointer reads.
    lemma Standing()
      requires Valid() && Placed()
      ensures backp >= 0 <==> left >= 0
      ensures backp >= 0 ==> backp < size == hist.Length && left <= Held()
      ensures backp >= 0 ==> hist[backp] == if left == 0 then '\0' else received[|received| - left]
      ensures left > 0 ==> hist[backp] != '\0' && Behind(histp, left - 1, size) == if backp + 1 >= size then 0 else backp + 1
    {
      assert left > 0 ==> received[|received| - left] in received;
    }

    // One more line on the screen, in so far as it counts against a replay.
    method NewLine()
      modifies this`nbacklines
      ensures nbacklines == old(nbacklines) - 1
    {
      nbacklines := nbacklines - 1;
    }

    /** The next character, and what is left of the things to come. A replay gives its characters
        first and leaves the ring alone. A caller that only polls takes a character that is there and
        otherwise none; the other waits, and the user may ask for replays meanwhile. */
    method GetChar(poll: bool, events: seq<Event>) returns (c: int, rest: seq<Event>)
      requires Valid() && Placed() && Sensible(events)
      modifies this, hist
      ensures Valid() && Placed() && Sensible(rest) && peekc == 0 && ymax == old(ymax)
      ensures if old(peekc) > 0 then c == old(peekc) && rest == events && Screen() == old(Screen())
              else Next(size, ymax, poll, old(Screen()), events) == (c, rest, Screen())
    {
      hide Valid, Behind, Lines, Next, Kept, Tail;
      rest := events;
      c := peekc;
      peekc := 0;
      if c > 0 {
        return;
      }
      while true
        invariant Valid() && Placed() && Sensible(rest) && peekc == 0 && ymax == old(ymax)
        invariant Next(size, ymax, poll, old(Screen()), events) == Next(size, ymax, poll, Screen(), rest)
        decreases |rest|
      {
        Standing();
        NextOnce(size, ymax, poll, Screen(), rest);
        if backp >= 0 {
          c := hist[backp] as int;
          if c != 0 && nbacklines >= 0 {
            backp := if backp + 1 >= size then 0 else backp + 1;
            left := left - 1;
            return;
          }
          backp, left := -1, -1;
        }
        if rest == [] || (poll && rest[0].Back?) {
          return 0, rest;
        }
        var event := rest[0];
        rest := rest[1..];
        match event {
          case Back(count) => Backup(count);
          case Char(ch) =>
            Store(ch);
            return ch as int, rest;
        }
      }
    }
  }

  // Characters that come in are not null.
  predicate Sensible(events: seq<Event>) { forall k :: 0 <= k < |events| && events[k].Char? ==> events[k].c != '\0' }

  // What has come in, how many of the last characters a replay still has to give (or -1), and how
  // many more lines it may take.
  /** A backup asks for three quarters of a screen, and as much again for each further one. */
  lemma ThreeQuarters(count: nat, ymax: nat)
    ensures Lines(0, 4 * ymax) == 3 * ymax && Lines(count + 1, 4 * ymax) == Lines(count, 4 * ymax) + 3 * ymax
    ensures 4 * Lines(count, ymax) <= 3 * (count + 1) * ymax < 4 * Lines(count, ymax) + 4
  {
    var n := 3 * (count + 1) * ymax;
    assert 3 * (count + 1) * (4 * ymax) == n * 4;
    assert 3 * (count + 2) * (4 * ymax) == (n + 3 * ymax) * 4;
  }

  datatype State = State(received: seq<char>, left: int, lines: int)

  // The longest run of last characters with no more than so many newlines.
  function Tail(s: seq<char>, lines: nat): (j: nat)
    ensures j <= |s|
  {
    if s == [] then 0
    else if s[|s| - 1] != '\n' then 1 + Tail(s[..|s| - 1], lines)
    else if lines == 0 then 0 else 1 + Tail(s[..|s| - 1], lines - 1)
  }

  function Kept(received: seq<char>, size: nat): (kept: seq<char>)
    ensures |kept| <= |received|
  {
    if |received| < size || size == 0 then received else received[|received| - (size - 1)..]
  }

  function Next(size: nat, ymax: nat, poll: bool, s: State, events: seq<Event>): (int, seq<Event>, State)
    requires s.left <= |s.received|
    decreases |events|
  {
    if s.left > 0 && s.lines >= 0 then (s.received[|s.received| - s.left] as int, events, s.(left := s.left - 1))
    else if events == [] || (poll && events[0].Back?) then (0, events, s.(left := -1))
    else
      match events[0]
      case Char(c) => (c as int, events[1..], s.(received := s.received + [c], left := -1))
      case Back(count) =>
        Next(size, ymax, poll, State(s.received, Tail(Kept(s.received, size), Lines(count, ymax)), ymax - 2), events[1..])
  }

  lemma NextOnce(size: nat, ymax: nat, poll: bool, s: State, events: seq<Event>)
    requires s.left <= |s.received|
    ensures Next(size, ymax, poll, s, events)
      == if s.left > 0 && s.lines >= 0
         then (s.received[|s.received| - s.left] as int, events, s.(left := s.left - 1))
         else if events == [] || (poll && events[0].Back?) then (0, events, s.(left := -1))
         else if events[0].Char? then
           (events[0].c as int, events[1..], s.(received := s.received + [events[0].c], left := -1))
         else Next(size, ymax, poll, State(s.received, Tail(Kept(s.received, size), Lines(events[0].count, ymax)), ymax - 2), events[1..])
  {
    hide Tail, Lines, Kept;
  }

  lemma {:induction false} NewlinesOfParts(s: seq<char>, t: seq<char>)
    ensures Newlines(s + t) == Newlines(s) + Newlines(t)
  {
    if s != [] {
      assert (s + t)[1..] == s[1..] + t;
      NewlinesOfParts(s[1..], t);
    } else {
      assert s + t == t;
    }
  }

  /** The replay's characters hold no more newlines than asked for; one character more would. */
  lemma {:induction false} TailIsLongest(s: seq<char>, lines: nat)
    ensures var j := Tail(s, lines);
      && Newlines(s[|s| - j..]) <= lines
      && (j < |s| ==> s[|s| - j - 1] == '\n' && Newlines(s[|s| - j..]) == lines)
  {
    hide Newlines;
    if s != [] {
      var n := |s| - 1;
      var t, last := s[..n], s[n];
      if last != '\n' {
        TailIsLongest(t, lines);
        TailEnds(s, Tail(t, lines));
      } else if lines > 0 {
        TailIsLongest(t, lines - 1);
        TailEnds(s, Tail(t, lines - 1));
      } else {
        NoneInNothing(s);
      }
    } else {
      NoneInNothing(s);
    }
  }

  lemma TailEnds(s: seq<char>, j: nat)
    requires s != [] && j < |s|
    ensures var t := s[..|s| - 1];
      Newlines(s[|s| - (j + 1)..]) == Newlines(t[|t| - j..]) + if s[|s| - 1] == '\n' then 1 else 0
  {
    var t := s[..|s| - 1];
    assert s[|s| - (j + 1)..] == t[|t| - j..] + [s[|s| - 1]];
    NewlinesOfParts(t[|t| - j..], [s[|s| - 1]]);
  }

  lemma LastOfKept(s: seq<char>, h: nat, j: nat)
    requires j <= h <= |s|
    ensures s[|s| - h..][h - j..] == s[|s| - j..]
  {
  }

  lemma TailIsAll(s: seq<char>, lines: nat)
    requires Newlines(s) <= lines
    ensures Tail(s, lines) == |s|
  {
    assert s[0..] == s;
    TailIs(s, lines, |s|);
  }

  lemma TailIsAfter(s: seq<char>, lines: nat, j: nat)
    requires j < |s| && Newlines(s[|s| - j..]) == lines && s[|s| - (j + 1)..] == ['\n'] + s[|s| - j..]
    ensures Tail(s, lines) == j && Newlines(s) > lines
  {
    assert s[|s| - j - 1] == s[|s| - (j + 1)..][0] == '\n';
    TailIs(s, lines, j);
    NewlineFirst('\n', s[|s| - j..]);
    NewlinesOfParts(s[..|s| - (j + 1)], s[|s| - (j + 1)..]);
    assert s == s[..|s| - (j + 1)] + s[|s| - (j + 1)..];
  }

  lemma TailIs(s: seq<char>, lines: nat, j: nat)
    requires j <= |s| && Newlines(s[|s| - j..]) <= lines
    requires j < |s| ==> s[|s| - j - 1] == '\n' && Newlines(s[|s| - j..]) == lines
    ensures Tail(s, lines) == j
  {
    hide LinesIn, Newlines, Tail;
    var k := Tail(s, lines);
    TailLines(s, lines);
    LinesOf(s, j);
    if j < k {
      MoreLines(s, j, k);
    } else if k < j {
      MoreLines(s, k, j);
    }
  }

  // The newlines among the last j characters.
  function LinesIn(s: seq<char>, j: nat): nat
    requires j <= |s|
  {
    Newlines(s[|s| - j..])
  }

  lemma LinesOf(s: seq<char>, j: nat)
    requires j <= |s|
    ensures LinesIn(s, j) == Newlines(s[|s| - j..])
  {
    hide Newlines;
  }

  lemma TailLines(s: seq<char>, lines: nat)
    ensures var k := Tail(s, lines);
      LinesIn(s, k) <= lines && (k < |s| ==> s[|s| - k - 1] == '\n' && LinesIn(s, k) == lines)
  {
    hide Newlines, Tail;
    TailIsLongest(s, lines);
  }

  // Going back past a newline takes in one more.
  lemma MoreLines(s: seq<char>, j: nat, k: nat)
    requires j < k <= |s| && s[|s| - j - 1] == '\n'
    ensures LinesIn(s, k) > LinesIn(s, j)
  {
    hide Newlines;
    var before, after := s[|s| - k..|s| - j - 1], s[|s| - j..];
    assert s[|s| - k..] == before + (['\n'] + after);
    NewlinesOfParts(before, ['\n'] + after);
    NewlineFirst('\n', after);
  }

  lemma NoneInNothing(s: seq<char>)
    ensures Newlines(s[|s|..]) == 0
  {
  }

  function Spent(costs: seq<nat>): nat {
    if costs == [] then 0 else Spent(costs[..|costs| - 1]) + costs[|costs| - 1]
  }

  lemma SpentInNumbers(costs: seq<nat>, c: nat)
    ensures Spent([]) == 0 && Spent([c]) == c && Spent(costs + [c]) == Spent(costs) + c
  {
    assert [c][..0] == [] && (costs + [c])[..|costs|] == costs;
  }

  /** A whole replay, where showing the i-th character takes costs[i] new lines: the characters come
      in order and the ring is left alone; they are all given unless the lines run out first. */
  method Replay(user: User, costs: seq<nat>) returns (shown: seq<char>)
    requires user.Valid() && user.Placed() && user.left >= 0 && user.peekc == 0 && |costs| == user.left
    modifies user, user.hist
    ensures user.Valid() && user.Placed() && user.received == old(user.received)
    ensures shown <= old(user.Last(user.left))
    ensures forall i :: 0 <= i < |shown| ==> Spent(costs[..i]) <= old(user.nbacklines)
    ensures |shown| == |costs| || Spent(costs[..|shown|]) > old(user.nbacklines)
  {
    hide User.Valid, User.Placed, Next;
    ghost var was, budget, n := user.received, user.nbacklines, user.left;
    LeftHeld(user);
    shown := [];
    while true
      invariant user.Valid() && user.Placed() && user.peekc == 0 && user.received == was && |shown| <= |costs| == n
      invariant user.left == n - |shown| && user.nbacklines == budget - Spent(costs[..|shown|])
      invariant shown == was[|was| - n..][..|shown|]
      invariant forall i :: 0 <= i < |shown| ==> Spent(costs[..i]) <= budget
      decreases |costs| - |shown|
    {
      var i := |shown|;
      LeftHeld(user);
      NextOnce(user.size, user.ymax, false, user.Screen(), []);
      var c, rest := user.GetChar(false, []);
      if c == 0 {
        break;
      }
      shown := shown + [c as char];
      assert costs[..i + 1][..i] == costs[..i];
      var k := 0;
      while k < costs[i]
        invariant 0 <= k <= costs[i] && user.nbacklines == budget - Spent(costs[..i]) - k
        modifies user`nbacklines
      {
        user.NewLine();
        k := k + 1;
      }
    }
  }

  lemma LeftHeld(user: User)
    requires user.Valid() && user.Placed()
    ensures user.left <= |user.received|
    ensures forall k :: 0 <= k < |user.received| ==> user.received[k] != '\0'
  {
    forall k | 0 <= k < |user.received|
      ensures user.received[k] != '\0'
    {
      assert user.received[k] in user.received;
    }
  }
}
