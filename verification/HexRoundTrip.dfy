/** A region written in hexadecimal loads back as the same pixels, with the height exact and the
    width rounded up to sixteen. */
module HexRoundTrip {
  import opened Arithmetic
  import opened Raster
  import opened Icon
  import opened HexFile

  function Rounded(n: int): (w: int)
    ensures w == if n <= 0 then 0 else (n + 15) / 16 * 16
  {
    if n <= 0 then 0 else 16 + Rounded(n - 16)
  }

  // The region, rounded up to whole words: what the writer looks at.
  function Wide(r: Rect): Rect {
    Rect(r.origin, Point(r.origin.x + Rounded(HorSize(r)), r.corner.y))
  }

  lemma DigitBack(n: nat)
    requires n < 16
    ensures NibbleOf(EXA[n] as int) == n
  {
    if n < 10 {
      assert EXA[n] as int == '0' as int + n;
    } else {
      assert EXA[n] as int == 'A' as int + n - 10;
    }
  }

  lemma NibbleBack(s: iset<Point>, p: Point, k: nat)
    requires k < 4
    ensures BitOf(NibbleOf(NibbleChar(s, p) as int), k) <==> Point(p.x + k, p.y) in s
  {
    var b0, b1, b2, b3 := Weight(p in s, 8), Weight(Point(p.x + 1, p.y) in s, 4),
                          Weight(Point(p.x + 2, p.y) in s, 2), Weight(Point(p.x + 3, p.y) in s, 1);
    DigitBack(b0 + b1 + b2 + b3);
  }

  lemma NibbleLoads(s: iset<Point>, p: Point, lit: iset<Point>, clip: Rect, o: Point)
    ensures WithNibble(NibbleChar(s, p) as int, lit, clip, Sub(p, o))
      == lit + Shift(s * Area(Rect(p, Point(p.x + 4, p.y + 1))), Sub(Point(0, 0), o)) * Area(clip)
  {
    hide NibbleChar, NibbleOf, BitOf;
    var there := Sub(p, o);
    forall q: Point | q.y == there.y && there.x <= q.x < there.x + 4
      ensures BitOf(NibbleOf(NibbleChar(s, p) as int), q.x - there.x) <==> Add(q, o) in s
    {
      NibbleBack(s, p, q.x - there.x);
    }
    OnlyFourBits(NibbleOf(NibbleChar(s, p) as int));
  }

  lemma OnlyFourBits(nibble: int)
    ensures forall k :: BitOf(nibble, k) ==> 0 <= k < 4
  {
  }

  // What loading the points of one rectangle of the region adds.
  ghost function Lands(s: iset<Point>, r: Rect, o: Point, clip: Rect): iset<Point> {
    Shift(s * Area(r), Sub(Point(0, 0), o)) * Area(clip)
  }

  lemma LandsBeside(s: iset<Point>, r: Rect, x: int, o: Point, clip: Rect)
    requires r.origin.x <= x <= r.corner.x
    ensures Lands(s, r, o, clip)
      == Lands(s, Rect(r.origin, Point(x, r.corner.y)), o, clip) + Lands(s, Rect(Point(x, r.origin.y), r.corner), o, clip)
  {
  }

  lemma LandsBelow(s: iset<Point>, r: Rect, y: int, o: Point, clip: Rect)
    requires r.origin.y <= y <= r.corner.y
    ensures Lands(s, r, o, clip)
      == Lands(s, Rect(r.origin, Point(r.corner.x, y)), o, clip) + Lands(s, Rect(Point(r.origin.x, y), r.corner), o, clip)
  {
  }

  lemma WordLoads(s: iset<Point>, rest: string, lit: iset<Point>, clip: Rect, o: Point, i: int, j: int)
    requires |rest| >= 6 && rest[..6] == HexWord(s, i, j)[1..]
    ensures WithWord(rest, lit, clip, i - o.x, j - o.y) == lit + Lands(s, Rect(Point(i, j), Point(i + 16, j + 1)), o, clip)
  {
    hide NibbleChar, WithNibble, Area, Shift;
    var word := HexWord(s, i, j)[1..];
    assert rest[1] == word[1] && rest[2] == word[2] && rest[3] == word[3] && rest[4] == word[4];
    var l1 := lit + Lands(s, Rect(Point(i, j), Point(i + 4, j + 1)), o, clip);
    var l2 := l1 + Lands(s, Rect(Point(i + 4, j), Point(i + 8, j + 1)), o, clip);
    var l3 := l2 + Lands(s, Rect(Point(i + 8, j), Point(i + 12, j + 1)), o, clip);
    NibbleLoads(s, Point(i, j), lit, clip, o);
    NibbleLoads(s, Point(i + 4, j), l1, clip, o);
    NibbleLoads(s, Point(i + 8, j), l2, clip, o);
    NibbleLoads(s, Point(i + 12, j), l3, clip, o);
    hide Lands;
    LandsBeside(s, Rect(Point(i, j), Point(i + 16, j + 1)), i + 12, o, clip);
    LandsBeside(s, Rect(Point(i, j), Point(i + 12, j + 1)), i + 8, o, clip);
    LandsBeside(s, Rect(Point(i, j), Point(i + 8, j + 1)), i + 4, o, clip);
  }

  lemma WordThenWord(rest: string, lit: iset<Point>, clip: Rect, i: int, j: int, xsize: int)
    requires |rest| > 6 && rest[6] != ' ' && rest[6] != '\n'
    ensures Load(rest, lit, clip, i, j, xsize)
      == Load(rest[7..], WithWord(rest, lit, clip, i, j), clip, i + 16, j, xsize)
  {
    assert Spaces(Drop(rest, 6)) == 0;
    assert Drop(Drop(rest, 6), 1) == rest[7..];
  }

  lemma WordThenLine(rest: string, lit: iset<Point>, clip: Rect, i: int, j: int, xsize: int)
    requires |rest| > 6 && rest[6] == '\n'
    ensures Load(rest, lit, clip, i, j, xsize)
      == Load(Drop(rest[7..], 1), WithWord(rest, lit, clip, i, j), clip, 0, j + 1, Max(xsize, i + 16))
  {
    assert Spaces(Drop(rest, 6)) == 0;
    assert Drop(Drop(rest, 6), 1) == rest[7..];
  }

  lemma {:induction false} RowLoads(s: iset<Point>, r: Rect, i: int, j: int, lit: iset<Point>, clip: Rect, xsize: int)
    requires r.origin.x <= i < r.corner.x && j < r.corner.y
    ensures var o, end := r.origin, i + Rounded(r.corner.x - i);
      var row := lit + Lands(s, Rect(Point(i, j), Point(end, j + 1)), o, clip);
      Load((HexRow(s, r, i, j) + ['\n'] + HexRows(s, r, j + 1))[1..], lit, clip, i - o.x, j - o.y, xsize)
      == Load(Drop(HexRows(s, r, j + 1), 1), row, clip, 0, j + 1 - o.y, Max(xsize, end - o.x))
    decreases r.corner.x - i
  {
    hide WithWord, Lands, HexWord, HexRows, Load;
    var o, end, below := r.origin, i + Rounded(r.corner.x - i), HexRows(s, r, j + 1);
    var text, word := HexRow(s, r, i, j) + ['\n'] + below, Rect(Point(i, j), Point(i + 16, j + 1));
    var onward := HexRow(s, r, i + 16, j) + ['\n'] + below;
    WordShape(s, i, j);
    assert text == HexWord(s, i, j) + onward;
    var rest := text[1..];
    WordLoads(s, rest, lit, clip, o, i, j);
    assert rest[6..] == onward && rest[7..] == onward[1..];
    LandsBeside(s, Rect(Point(i, j), Point(end, j + 1)), i + 16, o, clip);
    if i + 16 < r.corner.x {
      RowStarts(s, r, i + 16, j);
      WordThenWord(rest, lit, clip, i - o.x, j - o.y, xsize);
      var now := lit + Lands(s, word, o, clip);
      RowLoads(s, r, i + 16, j, now, clip, xsize);
      assert lit + Lands(s, Rect(Point(i, j), Point(end, j + 1)), o, clip)
          == now + Lands(s, Rect(Point(i + 16, j), Point(end, j + 1)), o, clip);
    } else {
      assert onward == ['\n'] + below;
      WordThenLine(rest, lit, clip, i - o.x, j - o.y, xsize);
    }
  }

  lemma WordShape(s: iset<Point>, i: int, j: int)
    ensures var word := HexWord(s, i, j); |word| == 7 && word[0] == '0'
  {
  }

  lemma RowStarts(s: iset<Point>, r: Rect, i: int, j: int)
    requires i < r.corner.x
    ensures HexRow(s, r, i, j) != [] && HexRow(s, r, i, j)[0] == '0'
  {
  }

  lemma {:induction false} RowsLoad(s: iset<Point>, r: Rect, j: int, lit: iset<Point>, clip: Rect, xsize: int)
    requires HorSize(r) > 0 && r.origin.y <= j <= r.corner.y
    requires xsize == (if j == r.origin.y then 0 else Rounded(HorSize(r)))
    ensures var o, end := r.origin, r.origin.x + Rounded(HorSize(r));
      Load(Drop(HexRows(s, r, j), 1), lit, clip, 0, j - o.y, xsize)
      == Loaded(lit + Lands(s, Rect(Point(o.x, j), Point(end, r.corner.y)), o, clip),
                if VerSize(r) == 0 then 0 else Rounded(HorSize(r)), VerSize(r))
    decreases r.corner.y - j
  {
    hide WithWord, Lands, HexRow, Load;
    var o, end := r.origin, r.origin.x + Rounded(HorSize(r));
    if j == r.corner.y {
      NothingMore(lit, clip, 0, j - o.y, xsize);
      NoRowLands(s, o.x, end, j, o, clip);
    } else {
      RowStarts(s, r, o.x, j);
      assert Drop(HexRows(s, r, j), 1) == HexRows(s, r, j)[1..];
      RowLoads(s, r, o.x, j, lit, clip, xsize);
      var row := lit + Lands(s, Rect(Point(o.x, j), Point(end, j + 1)), o, clip);
      assert HexRows(s, r, j)[1..] == (HexRow(s, r, o.x, j) + ['\n'] + HexRows(s, r, j + 1))[1..];
      RowsLoad(s, r, j + 1, row, clip, Rounded(HorSize(r)));
      LandsBelow(s, Rect(Point(o.x, j), Point(end, r.corner.y)), j + 1, o, clip);
    }
  }

  // The loader's extra pass, after the last newline, finds only end of file and draws nothing.
  lemma NothingMore(lit: iset<Point>, clip: Rect, i: int, j: int, xsize: int)
    ensures Load([], lit, clip, i, j, xsize) == Loaded(lit, xsize, j)
  {
    assert forall k :: At([], k) == EOF;
    assert forall k :: !BitOf(0, k);
  }

  lemma NoRowLands(s: iset<Point>, x: int, end: int, y: int, o: Point, clip: Rect)
    ensures Lands(s, Rect(Point(x, y), Point(end, y)), o, clip) == iset{}
  {
  }

  /** Writing any region and loading the file into any bitmap adds exactly the region's pixels,
      moved to the bitmap's corner and clipped to it. */
  method WriteThenLoad(source: array2<bool>, r: Rect, bitmap: array2<bool>) returns (rect: Rect)
    requires HorSize(r) > 0 && VerSize(r) > 0
    modifies bitmap
    ensures rect == Rect(Point(0, 0), Point((HorSize(r) + 15) / 16 * 16, VerSize(r)))
    ensures Lit(bitmap) == old(Lit(bitmap))
      + Shift(old(Lit(source)) * Area(Wide(r)), Sub(Point(0, 0), r.origin)) * Area(Bounds(bitmap))
  {
    hide Lit, HexRow, Load;
    var text := WriteHex(source, r);
    RowStarts(Lit(source), r, r.origin.x, r.origin.y);
    RowsLoad(Lit(source), r, r.origin.y, Lit(bitmap), Bounds(bitmap), 0);
    assert Drop(text, 1) == text[1..];
    rect := LoadHex(text, bitmap);
  }

  /** Nothing but the region itself is loaded exactly when every lit point that the rounding takes in
      besides it lands outside the bitmap. */
  lemma OnlyRegionLoads(s: iset<Point>, r: Rect, bounds: Rect)
    ensures Shift(s * Area(Wide(r)), Sub(Point(0, 0), r.origin)) * Area(bounds)
         == Shift(s * Area(r), Sub(Point(0, 0), r.origin)) * Area(bounds)
      <==> forall q: Point :: q in s && In(q, Wide(r)) && !In(q, r) ==> !In(Sub(q, r.origin), bounds)
  {
    var d := Sub(Point(0, 0), r.origin);
    var wide, own := Shift(s * Area(Wide(r)), d) * Area(bounds), Shift(s * Area(r), d) * Area(bounds);
    forall q: Point
      ensures q in s && In(q, Wide(r)) && !In(q, r) && In(Sub(q, r.origin), bounds)
        <==> Sub(q, r.origin) in wide && Sub(q, r.origin) !in own
    {
      assert Sub(Sub(q, r.origin), d) == q;
    }
    forall p: Point | p in wide ensures p in own || exists q: Point :: p == Sub(q, r.origin) && In(q, Wide(r)) && !In(q, r)
    {
      assert p == Sub(Sub(p, d), r.origin);
    }
  }

  /** A lit point to the right of a region one point wide is loaded along with it. */
  lemma StrayPoint()
    ensures var s, r := iset{Point(1, 0)}, Rect(Point(0, 0), Point(1, 1));
      s * Area(r) == iset{} && Shift(s * Area(Wide(r)), Point(0, 0)) * Area(Wide(r)) == s
  {
    var s, r := iset{Point(1, 0)}, Rect(Point(0, 0), Point(1, 1));
    assert Wide(r) == Rect(Point(0, 0), Point(16, 1));
    assert s * Area(Wide(r)) == s;
    assert Shift(s, Point(0, 0)) == s;
  }

  /** Reading a file draws what it loads over the picture at p; one of hexadecimal
      words without a whole line draws nothing and leaves the undo picture alone. */
  method OpRead(editor: Editor, text: string, p: Point)
    requires editor.Valid()
    modifies editor.source, editor.screen, editor.undo
    ensures editor.Valid()
    ensures var loaded := FromFile(text, iset{}, Bounds(editor.source));
      var rect := Rect(Point(0, 0), Point(loaded.xsize, loaded.ysize));
      var none := rect == Rect(Point(0, 0), Point(0, 0));
      && Lit(editor.undo) == (if none then old(Lit(editor.undo)) else old(editor.Pic()))
      && editor.Pic() == old(editor.Pic())
         + if none then iset{} else Shift(loaded.lit * Area(rect), p) * Area(Bounds(editor.source))
  {
    hide FromFile;
    var buffer := new bool[editor.source.Length0, editor.source.Length1];
    ghost var junk := Lit(buffer);
    RectF(buffer, Bounds(buffer), CLR);
    assert Transfer(Area(Bounds(buffer)), Bounds(buffer), Bounds(buffer), Point(0, 0), junk, Bounds(buffer), CLR) == iset{};
    hide Lit;
    var rect := OpLoad(text, buffer);
    if rect != Rect(Point(0, 0), Point(0, 0)) {
      editor.SaveForUndo();
      editor.OrOntoPicture(buffer, rect, p);
      assert Sub(p, Point(0, 0)) == p;
    }
  }
}
