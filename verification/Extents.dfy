/** RT-11 directory segments as values. An entry holds no address: a file starts where the lengths
    of the entries before it add up to, so every edit must keep that sum for every other file. */
module Extents {
  import opened Floppy

  const RT_TEMP: int := 1
  const RT_NULL: int := 2
  const RT_FILE: int := 4
  const RT_ESEG: int := 8

  datatype Ent = Ent(stat: int, name: seq<nat>, len: int, date: int)

  datatype Extent = Extent(ent: Ent, start: int)

  predicate Hole(e: Ent) { e.stat == RT_NULL }

  predicate Taken(e: Ent) { e.stat == RT_FILE || e.stat == RT_TEMP }

  // What the search adds up on its way past an entry.
  function Blocks(e: Ent): int { if Hole(e) || Taken(e) then e.len else 0 }

  function Sum(es: seq<Ent>): int {
    if es == [] then 0 else Blocks(es[0]) + Sum(es[1..])
  }

  /** The files of a segment with the block each starts at. */
  function Files(es: seq<Ent>, base: int): seq<Extent> {
    if es == [] then []
    else (if Taken(es[0]) then [Extent(es[0], base)] else []) + Files(es[1..], base + Blocks(es[0]))
  }

  predicate Sized(es: seq<Ent>) { forall k :: 0 <= k < |es| ==> es[k].len >= 0 }

  predicate InOrder(xs: seq<Extent>, low: int, high: int) {
    && (forall i :: 0 <= i < |xs| ==> low <= xs[i].start && xs[i].start + xs[i].ent.len <= high)
    && (forall i, j :: 0 <= i < j < |xs| ==> xs[i].start + xs[i].ent.len <= xs[j].start)
  }

  lemma {:induction false} SumOfParts(es: seq<Ent>, fs: seq<Ent>)
    ensures Sum(es + fs) == Sum(es) + Sum(fs)
  {
    if es != [] {
      SumOfParts(es[1..], fs);
      assert (es + fs)[1..] == es[1..] + fs;
    } else {
      assert es + fs == fs;
    }
  }

  function Listed(e: Ent, base: int): seq<Extent> { if Taken(e) then [Extent(e, base)] else [] }

  lemma FirstOf(e: Ent, es: seq<Ent>, base: int)
    ensures Sum([e] + es) == Blocks(e) + Sum(es)
    ensures Files([e] + es, base) == Listed(e, base) + Files(es, base + Blocks(e))
  {
    assert ([e] + es)[1..] == es;
  }

  lemma NoneOf(base: int)
    ensures Sum([]) == 0 && Files([], base) == []
  {
  }

  lemma {:induction false} ExtentsOfParts(es: seq<Ent>, fs: seq<Ent>, base: int)
    ensures Files(es + fs, base) == Files(es, base) + Files(fs, base + Sum(es))
  {
    hide Files, Sum, Blocks, Listed;
    if es != [] {
      var e, rest := es[0], es[1..];
      assert es == [e] + rest && es + fs == [e] + (rest + fs);
      FirstOf(e, rest, base);
      FirstOf(e, rest + fs, base);
      ExtentsOfParts(rest, fs, base + Blocks(e));
    } else {
      NoneOf(base);
      assert es + fs == fs;
    }
  }

  lemma {:induction false} SumNotNegative(es: seq<Ent>)
    requires Sized(es)
    ensures Sum(es) >= 0
  {
    if es != [] {
      SumNotNegative(es[1..]);
    }
  }

  /** The files of a segment lie one after another in its area and never overlap. */
  lemma {:induction false} ExtentsInOrder(es: seq<Ent>, base: int)
    requires Sized(es)
    ensures InOrder(Files(es, base), base, base + Sum(es))
  {
    if es != [] {
      ExtentsInOrder(es[1..], base + Blocks(es[0]));
      SumNotNegative(es[1..]);
    }
  }

  function Cleared(e: Ent): Ent { Ent(RT_NULL, [0, 0, 0], e.len, 0) }

  function Deleted(es: seq<Ent>, k: nat): seq<Ent>
    requires k < |es|
  {
    es[k := Cleared(es[k])]
  }

  // The hole at k taken by a file of `count` blocks, what is left of it following.
  function Split(es: seq<Ent>, k: nat, count: int, name: seq<nat>, date: int): seq<Ent>
    requires k < |es|
  {
    var file := Ent(RT_FILE, name, count, date);
    if es[k].len == count then es[k := file]
    else es[..k] + [file, es[k].(len := es[k].len - count)] + es[k + 1..]
  }

  lemma Around(es: seq<Ent>, k: nat, base: int)
    requires k < |es|
    ensures Sum(es) == Sum(es[..k]) + Blocks(es[k]) + Sum(es[k + 1..])
    ensures Files(es, base) == Files(es[..k], base)
      + (if Taken(es[k]) then [Extent(es[k], base + Sum(es[..k]))] else [])
      + Files(es[k + 1..], base + Sum(es[..k]) + Blocks(es[k]))
  {
    assert es == es[..k] + es[k..] && es[k..][1..] == es[k + 1..];
    SumOfParts(es[..k], es[k..]);
    ExtentsOfParts(es[..k], es[k..], base);
  }

  /** Deleting takes one file out of the list and moves no other. */
  lemma DeletedExtents(es: seq<Ent>, k: nat, base: int)
    requires k < |es| && Taken(es[k])
    ensures Sum(Deleted(es, k)) == Sum(es)
    ensures Files(es, base) == Files(es[..k], base) + [Extent(es[k], base + Sum(es[..k]))]
      + Files(es[k + 1..], base + Sum(es[..k]) + Blocks(es[k]))
    ensures Files(Deleted(es, k), base)
      == Files(es[..k], base) + Files(es[k + 1..], base + Sum(es[..k]) + Blocks(es[k]))
  {
    var after := Deleted(es, k);
    Around(es, k, base);
    Around(after, k, base);
    assert after[..k] == es[..k] && after[k + 1..] == es[k + 1..];
  }

  /** Making a file in a hole puts it into the list at the hole's start and moves no other. */
  lemma SplitExtents(es: seq<Ent>, k: nat, count: int, name: seq<nat>, date: int, base: int)
    requires k < |es| && Hole(es[k])
    ensures var after := Split(es, k, count, name, date);
      && Sum(after) == Sum(es)
      && Files(after, base) == Files(es[..k], base)
         + [Extent(Ent(RT_FILE, name, count, date), base + Sum(es[..k]))]
         + Files(es[k + 1..], base + Sum(es[..k]) + Blocks(es[k]))
      && Files(es, base) == Files(es[..k], base) + Files(es[k + 1..], base + Sum(es[..k]) + Blocks(es[k]))
  {
    hide Files, Sum;
    var after, file := Split(es, k, count, name, date), Ent(RT_FILE, name, count, date);
    Around(es, k, base);
    Around(after, k, base);
    assert after[..k] == es[..k] && after[k] == file;
    if es[k].len == count {
      assert after[k + 1..] == es[k + 1..];
    } else {
      var left := es[k].(len := es[k].len - count);
      assert after[k + 1..] == [left] + es[k + 1..];
      FirstOf(left, es[k + 1..], base + Sum(es[..k]) + Blocks(file));
    }
  }

  function CountFor(size: nat): int {
    // C division: an empty file still takes one block.
    if size == 0 then 1 else (size - 1) / RT_BLOCK + 1
  }

  /** A split leaves no negative length exactly when it is not an empty file put into an empty hole. */
  lemma SplitKeepsSizes(es: seq<Ent>, k: nat, size: nat, name: seq<nat>, date: int)
    requires k < |es| && Sized(es) && Hole(es[k]) && size <= es[k].len * RT_BLOCK
    ensures CountFor(size) * RT_BLOCK >= size
    ensures Sized(Split(es, k, CountFor(size), name, date)) <==> !(size == 0 && es[k].len == 0)
  {
    var count := CountFor(size);
    var after := Split(es, k, count, name, date);
    if es[k].len != count {
      assert after[k + 1].len == es[k].len - count;
    }
  }

  /** Neighbouring holes run together, the later entry keeping the length of both. */
  function Merged(es: seq<Ent>): (ms: seq<Ent>)
    ensures |ms| <= |es|
    decreases |es|
  {
    if |es| < 2 then es
    else if Hole(es[0]) && Hole(es[1]) then Merged([es[1].(len := es[1].len + es[0].len)] + es[2..])
    else [es[0]] + Merged(es[1..])
  }

  predicate NoTwoHoles(es: seq<Ent>) { forall k :: 0 < k < |es| ==> !(Hole(es[k - 1]) && Hole(es[k])) }

  lemma {:induction false} MergedExtents(es: seq<Ent>, base: int)
    ensures Files(Merged(es), base) == Files(es, base) && Sum(Merged(es)) == Sum(es)
    decreases |es|
  {
    hide Files, Sum;
    if |es| >= 2 {
      var e, rest := es[0], es[1..];
      assert es == [e] + rest;
      FirstOf(e, rest, base);
      if Hole(e) && Hole(es[1]) {
        var joined := es[1].(len := es[1].len + e.len);
        assert rest == [es[1]] + es[2..];
        FirstOf(es[1], es[2..], base + Blocks(e));
        FirstOf(joined, es[2..], base);
        MergedExtents([joined] + es[2..], base);
      } else {
        MergedExtents(rest, base + Blocks(e));
        FirstOf(e, Merged(rest), base);
      }
    }
  }

  lemma {:induction false} MergedApart(es: seq<Ent>)
    ensures NoTwoHoles(Merged(es))
    ensures es != [] ==> Merged(es) != [] && (Hole(Merged(es)[0]) <==> Hole(es[0]))
    decreases |es|
  {
    if |es| >= 2 {
      if Hole(es[0]) && Hole(es[1]) {
        MergedApart([es[1].(len := es[1].len + es[0].len)] + es[2..]);
      } else {
        MergedApart(es[1..]);
      }
    }
  }

  lemma {:induction false} MergedChanges(es: seq<Ent>)
    ensures |Merged(es)| == |es| <==> NoTwoHoles(es)
    ensures |Merged(es)| == |es| ==> Merged(es) == es
    decreases |es|
  {
    if |es| >= 2 {
      if Hole(es[0]) && Hole(es[1]) {
        assert !NoTwoHoles(es);
      } else {
        MergedChanges(es[1..]);
        NoTwoHolesStep(es);
      }
    }
  }

  lemma NoTwoHolesStep(es: seq<Ent>)
    requires |es| >= 2
    ensures NoTwoHoles(es) <==> !(Hole(es[0]) && Hole(es[1])) && NoTwoHoles(es[1..])
  {
    var tail := es[1..];
    if NoTwoHoles(tail) {
      forall k | 1 < k < |es|
        ensures !(Hole(es[k - 1]) && Hole(es[k]))
      {
        assert tail[k - 2] == es[k - 1] && tail[k - 1] == es[k];
      }
    }
  }

  /** The kinds of entry by their numbers, and what each adds to the addresses behind it. */
  lemma StatusInNumbers(e: Ent)
    ensures (Hole(e) <==> e.stat == 2) && (Taken(e) <==> e.stat == 4 || e.stat == 1)
    ensures Blocks(e) == if e.stat == 1 || e.stat == 2 || e.stat == 4 then e.len else 0
  {
  }

  /** A deleted entry keeps its length and nothing else. */
  lemma ClearedInNumbers(e: Ent)
    ensures Cleared(e) == Ent(2, [0, 0, 0], e.len, 0)
  {
  }

  /** The blocks of a file: as many as its bytes need, and one for an empty file. */
  lemma BlocksInNumbers(size: nat)
    ensures size > 0 ==> (CountFor(size) - 1) * 512 < size <= CountFor(size) * 512
    ensures CountFor(0) == 1
  {
  }
}
