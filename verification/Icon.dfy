/** The icon editor's picture operations: drawing point by point, the block move with operation
    codes, reflections, quarter turns, and undo by exclusive or. */
module Icon {
  import opened Arithmetic
  import opened Raster
  import opened Shear

  datatype IconCode = I_NULL | I_STORE | I_OR | I_XOR | I_AND | I_CLR

  // What one editing code leaves of a point.
  predicate Painted(op: IconCode, bit: bool, under: bool) {
    match op
    case I_NULL => under
    case I_STORE => bit
    case I_OR => bit || under
    case I_XOR => bit != under
    case I_AND => bit && under
    case I_CLR => false
  }

  ghost function PaintedAt(s: iset<Point>, bounds: Rect, op: IconCode, bit: bool, p: Point): iset<Point> {
    iset q: Point | In(q, bounds) && if q == p then Painted(op, bit, q in s) else q in s
  }

  /** What a block move promises for one point: as if every bit of `from` were read first, then
      the source code applied to all of `from`, and then the destination code to every point that
      a bit within the clip falls on. Only the points of `from` in `visited` have had their turn. */
  ghost predicate BlittedAt(s: iset<Point>, from: Rect, d: Point, clip: Rect,
                            srccode: IconCode, dstcode: IconCode, visited: iset<Point>, q: Point)
  {
    var own := if In(q, from) && q in visited then Painted(srccode, false, q in s) else q in s;
    if In(Sub(q, d), from) && Sub(q, d) in visited && In(q, clip) then Painted(dstcode, Sub(q, d) in s, own) else own
  }

  ghost function Blitted(s: iset<Point>, bounds: Rect, from: Rect, d: Point, clip: Rect,
                         srccode: IconCode, dstcode: IconCode, visited: iset<Point>): iset<Point>
  {
    iset q: Point | In(q, bounds) && BlittedAt(s, from, d, clip, srccode, dstcode, visited, q)
  }

  // The points a scan has passed before it comes to (i, j).
  ghost function Passed(left: bool, up: bool, i: int, j: int): iset<Point> {
    iset p: Point | (if up then p.y < j else p.y > j) || (p.y == j && if left then p.x < i else p.x > i)
  }

  lemma TurnOf(s: iset<Point>, from: Rect, d: Point, clip: Rect,
               srccode: IconCode, dstcode: IconCode, visited: iset<Point>, c: Point, q: Point)
    requires In(c, from) && c !in visited && Sub(c, d) !in visited
    requires In(Add(c, d), from) ==> Add(c, d) in visited + iset{c}
    ensures var before := BlittedAt(s, from, d, clip, srccode, dstcode, visited, q);
      var after := if q == c then Painted(srccode, false, before) else before;
      BlittedAt(s, from, d, clip, srccode, dstcode, visited + iset{c}, q)
      <==> if In(Add(c, d), clip) && q == Add(c, d) then Painted(dstcode, c in s, after) else after
  {
    hide Painted, In;
    assert Sub(Add(c, d), d) == c;
    assert Sub(q, d) == c ==> q == Add(c, d);
    hide Sub, Add;
    if q == c {
    } else if q == Add(c, d) {
    } else {
    }
  }

  /** The scan order makes the bit read at its turn the original one, and no point's source code
      undoes a destination code: each turn advances the promised picture by one point. */
  lemma TurnAdvances(s: iset<Point>, bounds: Rect, from: Rect, d: Point, clip: Rect,
                     srccode: IconCode, dstcode: IconCode, i: int, j: int)
    requires In(Point(i, j), from)
    requires forall q :: q in s ==> In(q, bounds)
    ensures var passed := Passed(d.x < 0, d.y < 0, i, j);
      var before := Blitted(s, bounds, from, d, clip, srccode, dstcode, passed);
      var c := Point(i, j);
      var after := PaintedAt(before, bounds, srccode, false, c);
      && (c in before <==> c in s)
      && Blitted(s, bounds, from, d, clip, srccode, dstcode, passed + iset{c})
         == if In(Add(c, d), clip) then PaintedAt(after, bounds, dstcode, c in s, Add(c, d)) else after
  {
    hide Painted, BlittedAt, Passed, In, Sub, Add;
    var c, passed := Point(i, j), Passed(d.x < 0, d.y < 0, i, j);
    ScanOrder(d, i, j);
    Unturned(s, from, d, clip, srccode, dstcode, passed, c);
    var before := Blitted(s, bounds, from, d, clip, srccode, dstcode, passed);
    var after := PaintedAt(before, bounds, srccode, false, c);
    var goal := if In(Add(c, d), clip) then PaintedAt(after, bounds, dstcode, c in s, Add(c, d)) else after;
    forall q
      ensures q in Blitted(s, bounds, from, d, clip, srccode, dstcode, passed + iset{c}) <==> q in goal
    {
      TurnOf(s, from, d, clip, srccode, dstcode, passed, c, q);
    }
  }

  // A scan comes to a point after the point its bit falls on, and before the one whose bit it takes.
  lemma ScanOrder(d: Point, i: int, j: int)
    ensures var c, passed := Point(i, j), Passed(d.x < 0, d.y < 0, i, j);
      c !in passed && Sub(c, d) !in passed && Add(c, d) in passed + iset{c}
  {
  }

  lemma Unturned(s: iset<Point>, from: Rect, d: Point, clip: Rect,
                 srccode: IconCode, dstcode: IconCode, visited: iset<Point>, c: Point)
    requires c !in visited && Sub(c, d) !in visited
    ensures BlittedAt(s, from, d, clip, srccode, dstcode, visited, c) <==> c in s
  {
  }

  lemma SameTurns(s: iset<Point>, bounds: Rect, from: Rect, d: Point, clip: Rect,
                  srccode: IconCode, dstcode: IconCode, v: iset<Point>, w: iset<Point>)
    requires forall p :: In(p, from) ==> (p in v <==> p in w)
    ensures Blitted(s, bounds, from, d, clip, srccode, dstcode, v) == Blitted(s, bounds, from, d, clip, srccode, dstcode, w)
  {
    hide Painted;
  }

  lemma NoTurns(s: iset<Point>, bounds: Rect, from: Rect, d: Point, clip: Rect, srccode: IconCode, dstcode: IconCode)
    requires forall q :: q in s ==> In(q, bounds)
    ensures Blitted(s, bounds, from, d, clip, srccode, dstcode, iset{}) == s
  {
    hide Painted;
  }

  // Where a scan of `from` starts in each row and column.
  function StartX(from: Rect, left: bool): int { if left then from.origin.x else from.corner.x - 1 }

  function StartY(from: Rect, up: bool): int { if up then from.origin.y else from.corner.y - 1 }

  function Step(forward: bool): int { if forward then 1 else 0 - 1 }

  predicate Before(from: int, corner: int, forward: bool, k: int) { if forward then k < corner else k >= from }

  predicate Entered(from: int, corner: int, forward: bool, k: int) { if forward then from <= k else k < corner }

  lemma ScanStarts(s: iset<Point>, bounds: Rect, from: Rect, d: Point, clip: Rect, srccode: IconCode, dstcode: IconCode,
                   left: bool, up: bool)
    requires forall q :: q in s ==> In(q, bounds)
    ensures Blitted(s, bounds, from, d, clip, srccode, dstcode, Passed(left, up, StartX(from, left), StartY(from, up))) == s
  {
    hide Blitted;
    NoTurns(s, bounds, from, d, clip, srccode, dstcode);
    SameTurns(s, bounds, from, d, clip, srccode, dstcode, Passed(left, up, StartX(from, left), StartY(from, up)), iset{});
  }

  lemma ScanSteps(s: iset<Point>, bounds: Rect, from: Rect, d: Point, clip: Rect, srccode: IconCode, dstcode: IconCode,
                  left: bool, up: bool, i: int, j: int)
    ensures Blitted(s, bounds, from, d, clip, srccode, dstcode, Passed(left, up, i, j) + iset{Point(i, j)})
            == Blitted(s, bounds, from, d, clip, srccode, dstcode, Passed(left, up, i + Step(left), j))
  {
    hide Blitted;
    SameTurns(s, bounds, from, d, clip, srccode, dstcode, Passed(left, up, i, j) + iset{Point(i, j)},
              Passed(left, up, i + Step(left), j));
  }

  lemma RowEnds(s: iset<Point>, bounds: Rect, from: Rect, d: Point, clip: Rect, srccode: IconCode, dstcode: IconCode,
                left: bool, up: bool, i: int, j: int)
    requires !Before(from.origin.x, from.corner.x, left, i)
    ensures Blitted(s, bounds, from, d, clip, srccode, dstcode, Passed(left, up, i, j))
            == Blitted(s, bounds, from, d, clip, srccode, dstcode, Passed(left, up, StartX(from, left), j + Step(up)))
  {
    hide Blitted;
    SameTurns(s, bounds, from, d, clip, srccode, dstcode, Passed(left, up, i, j),
              Passed(left, up, StartX(from, left), j + Step(up)));
  }

  lemma ScanEnds(s: iset<Point>, bounds: Rect, from: Rect, d: Point, clip: Rect, srccode: IconCode, dstcode: IconCode,
                 left: bool, up: bool, j: int)
    requires !Before(from.origin.y, from.corner.y, up, j)
    ensures Blitted(s, bounds, from, d, clip, srccode, dstcode, Passed(left, up, StartX(from, left), j))
            == Blitted(s, bounds, from, d, clip, srccode, dstcode, Area(from))
  {
    hide Blitted;
    SameTurns(s, bounds, from, d, clip, srccode, dstcode, Passed(left, up, StartX(from, left), j), Area(from));
  }

  /** With CLR and OR the block move is a true move: the rectangle's picture leaves it and lands,
      clipped, at the displacement, whatever overlap there is. */
  lemma ClearThenOrMoves(s: iset<Point>, bounds: Rect, from: Rect, d: Point, clip: Rect)
    requires forall q :: q in s ==> In(q, bounds)
    ensures Blitted(s, bounds, from, d, clip, I_CLR, I_OR, Area(from))
            == (s - Area(from)) + Shift(s * Area(from), d) * Area(clip) * Area(bounds)
    ensures forall q :: q in Blitted(s, bounds, from, d, clip, I_CLR, I_OR, Area(from)) ==> In(q, bounds)
  {
  }

  lemma InArea(q: Point, r: Rect)
    ensures q in Area(r) <==> In(q, r)
  {
  }

  lemma ThereAndBackAt(s: iset<Point>, bounds: Rect, from: Rect, d: Point, q: Point)
    requires forall q :: q in s ==> In(q, bounds)
    ensures var landing := Moved(from, d);
      var there := (s - Area(from)) + Shift(s * Area(from), d) * Area(bounds) * Area(bounds);
      var back := (there - Area(landing)) + Shift(there * Area(landing), Sub(Point(0, 0), d)) * Area(bounds) * Area(bounds);
      var lost := s * (Area(landing) - Area(from));
      q in back <==> if In(q, from) then In(q, bounds) && (Add(q, d) in lost || (q in s && In(Add(q, d), bounds)))
                     else q in s && q !in lost
  {
    var away := Sub(q, Sub(Point(0, 0), d));
    assert away == Add(q, d);
    assert Sub(away, d) == q;
  }

  /** Moving there and back, clipped or not, restores the picture exactly when nothing was lit in the
      part of the landing place outside the rectangle moved, and no lit point left the picture. */
  lemma MoveThereAndBack(s: iset<Point>, bounds: Rect, from: Rect, d: Point)
    requires forall q :: q in s ==> In(q, bounds)
    ensures var there := Blitted(s, bounds, from, d, bounds, I_CLR, I_OR, Area(from));
      var back := Blitted(there, bounds, Moved(from, d), Sub(Point(0, 0), d), bounds, I_CLR, I_OR, Area(Moved(from, d)));
      back == s <==> s * (Area(Moved(from, d)) - Area(from)) == iset{}
                     && forall q :: q in s && In(q, from) ==> In(Add(q, d), bounds)
  {
    hide Blitted, Shift, Area, Moved;
    var landing, lost := Moved(from, d), s * (Area(Moved(from, d)) - Area(from));
    var there := Blitted(s, bounds, from, d, bounds, I_CLR, I_OR, Area(from));
    ClearThenOrMoves(s, bounds, from, d, bounds);
    ClearThenOrMoves(there, bounds, landing, Sub(Point(0, 0), d), bounds);
    var back := Blitted(there, bounds, landing, Sub(Point(0, 0), d), bounds, I_CLR, I_OR, Area(landing));
    forall q
      ensures q in back <==>
        if In(q, from) then In(q, bounds) && (Add(q, d) in lost || (q in s && In(Add(q, d), bounds))) else q in s && q !in lost
    {
      ThereAndBackAt(s, bounds, from, d, q);
    }
    forall q | q in lost
      ensures q in s && !In(q, from)
    {
      InArea(q, from);
    }
    forall q | q in s && In(q, from) && !In(Add(q, d), bounds)
      ensures q !in back
    {
    }
  }

  function Mirror(r: Rect, acrossX: bool, p: Point): Point {
    if acrossX then Point(r.origin.x + r.corner.x - 1 - p.x, p.y) else Point(p.x, r.origin.y + r.corner.y - 1 - p.y)
  }

  /** The rectangle's points in `visited` show what their mirror images showed. */
  ghost function Mirrored(s: iset<Point>, bounds: Rect, r: Rect, acrossX: bool, visited: iset<Point>): iset<Point> {
    iset q: Point | In(q, bounds) && if In(q, r) && q in visited then Mirror(r, acrossX, q) in s else q in s
  }

  // The columns, counted from either side, that a left-right reflection has exchanged.
  ghost function ColumnsSwapped(r: Rect, i: int, j: int): iset<Point> {
    iset p: Point | var k := Min(p.x - r.origin.x, r.corner.x - 1 - p.x); k < i || (k == i && p.y < j)
  }

  ghost function RowsSwapped(r: Rect, i: int, j: int): iset<Point> {
    iset p: Point | p.x < i || (p.x == i && Min(p.y - r.origin.y, r.corner.y - 1 - p.y) < j)
  }

  lemma SwapMirrors(s: iset<Point>, bounds: Rect, r: Rect, acrossX: bool, visited: iset<Point>, p: Point)
    requires In(p, r) && p !in visited && Mirror(r, acrossX, p) !in visited && p != Mirror(r, acrossX, p)
    requires forall q :: q in s ==> In(q, bounds)
    ensures var m := Mirror(r, acrossX, p);
      var before := Mirrored(s, bounds, r, acrossX, visited);
      && (p in before <==> p in s) && (m in before <==> m in s)
      && Mirrored(s, bounds, r, acrossX, visited + iset{p, m})
         == PaintedAt(PaintedAt(before, bounds, I_STORE, p in s, m), bounds, I_STORE, m in s, p)
  {
  }

  lemma SameMirrored(s: iset<Point>, bounds: Rect, r: Rect, acrossX: bool, v: iset<Point>, w: iset<Point>)
    requires forall p :: In(p, r) && p != Mirror(r, acrossX, p) ==> (p in v <==> p in w)
    ensures Mirrored(s, bounds, r, acrossX, v) == Mirrored(s, bounds, r, acrossX, w)
  {
  }

  lemma NotMirrored(s: iset<Point>, bounds: Rect, r: Rect, acrossX: bool)
    requires forall q :: q in s ==> In(q, bounds)
    ensures Mirrored(s, bounds, r, acrossX, iset{}) == s
  {
  }

  function Half(n: int): int { Quotient(n, 2) }

  ghost function ColumnsPassed(r: Rect, j: int, i: int): iset<Point> {
    iset p: Point | p.x < r.origin.x + j || (p.x == r.origin.x + j && p.y < r.origin.y + i)
  }

  lemma FlipAdvances(was: iset<Point>, s: iset<Point>, bounds: iset<Point>, r: Rect, p: Point, i: int, j: int)
    requires 0 <= j < HorSize(r) && 0 <= i < VerSize(r)
    ensures var d, c := Sub(p, r.origin), Point(j, i);
      var before := SymDiff(was, Shift(s * Area(r) * ColumnsPassed(r, j, i), d) * bounds);
      SymDiff(was, Shift(s * Area(r) * ColumnsPassed(r, j, i + 1), d) * bounds)
      == if Add(r.origin, c) in s then SymDiff(before, iset{Add(p, c)} * bounds) else before
  {
    var d, c := Sub(p, r.origin), Point(j, i);
    forall q
      ensures Sub(q, d) in ColumnsPassed(r, j, i + 1) <==> Sub(q, d) in ColumnsPassed(r, j, i) || q == Add(p, c)
    {
    }
    assert Sub(Add(p, c), d) == Add(r.origin, c);
  }

  /** The picture with the part inside r turned by a quarter about its middle, a non-square part
      landing over what was around it. */
  ghost function QuarterTurn(s: iset<Point>, bounds: Rect, r: Rect, plus: bool): iset<Point> {
    var h, v := HorSize(r), VerSize(r);
    var part := Shift(s * Area(r), Sub(Point(0, 0), r.origin));
    var turned := if plus then TurnedPlus(part, h, v) else TurnedMinus(part, h, v);
    (s - Area(r)) + Shift(turned, TurnOrigin(r)) * Area(bounds)
  }

  function TurnOrigin(r: Rect): Point {
    var h, v := HorSize(r), VerSize(r);
    Add(r.origin, Sub(Point(Half(h), Half(v)), Point(Half(v), Half(h))))
  }

  lemma LitInBounds(b: array2<bool>)
    ensures forall q :: q in Lit(b) ==> In(q, Bounds(b))
  {
  }

  lemma XorTransfer(s: iset<Point>, source: Rect, r: Rect, d: Point, t: iset<Point>, target: Rect)
    requires forall q :: q in s ==> In(q, source)
    requires forall q :: q in t ==> In(q, target)
    ensures Transfer(s, source, r, d, t, target, XOR) == SymDiff(t, Shift(s * Area(r), d) * Area(target))
  {
  }

  lemma XorWhole(s: iset<Point>, t: iset<Point>, r: Rect)
    requires forall q :: q in s || q in t ==> In(q, r)
    ensures Transfer(s, r, r, Sub(r.origin, r.origin), t, r, XOR) == SymDiff(t, s)
    ensures Shift(s * Area(r), Sub(r.origin, r.origin)) * Area(r) == s
    ensures SymDiff(SymDiff(t, s), s) == t && SymDiff(s, SymDiff(t, s)) == t
  {
  }

  /** Complement, or, complement: what is left of the drawing is what the picture does not show yet. */
  lemma LessPicture(s: iset<Point>, source: Rect, b: iset<Point>, bounds: Rect, r: Rect, d: Point)
    requires forall q :: q in s ==> In(q, source)
    requires forall q :: q in b ==> In(q, bounds)
    ensures var flipped := Transfer(Area(r), r, r, Point(0, 0), b, bounds, XOR);
      var covered := Transfer(s, source, Moved(r, d), Sub(Point(0, 0), d), flipped, bounds, OR);
      var left := Transfer(Area(r), r, r, Point(0, 0), covered, bounds, XOR);
      SymDiff(s, Shift(left * Area(r), d) * Area(source)) == s + Shift(b * Area(r), d) * Area(source)
  {
    var flipped := Transfer(Area(r), r, r, Point(0, 0), b, bounds, XOR);
    var covered := Transfer(s, source, Moved(r, d), Sub(Point(0, 0), d), flipped, bounds, OR);
    var left := Transfer(Area(r), r, r, Point(0, 0), covered, bounds, XOR);
    forall q | In(q, r)
      ensures q in left <==> q in b && !(In(Add(q, d), source) && Add(q, d) in s)
    {
      LeftOf(s, source, b, bounds, r, d, q);
    }
    hide Transfer;
    assert forall q :: Add(Sub(q, d), d) == q;
  }

  lemma LeftOf(s: iset<Point>, source: Rect, b: iset<Point>, bounds: Rect, r: Rect, d: Point, q: Point)
    requires In(q, r)
    requires q in b ==> In(q, bounds)
    ensures var flipped := Transfer(Area(r), r, r, Point(0, 0), b, bounds, XOR);
      var covered := Transfer(s, source, Moved(r, d), Sub(Point(0, 0), d), flipped, bounds, OR);
      var left := Transfer(Area(r), r, r, Point(0, 0), covered, bounds, XOR);
      q in left <==> q in b && !(In(Add(q, d), source) && Add(q, d) in s)
  {
    assert Sub(q, Sub(Point(0, 0), d)) == Add(q, d);
    assert Sub(q, Point(0, 0)) == q;
  }

  lemma PartTaken(s: iset<Point>, source: Rect, r: Rect, was: iset<Point>, bounds: Rect, o: Point)
    requires Contains(source, r) && Contains(bounds, Moved(r, Sub(o, r.origin)))
    ensures var cleared := Transfer(Area(bounds), bounds, bounds, Point(0, 0), was, bounds, CLR);
      Transfer(s, source, r, Sub(o, r.origin), cleared, bounds, XOR) == Shift(s * Area(r), Sub(o, r.origin))
  {
  }

  lemma ShiftTwice(s: iset<Point>, d: Point, e: Point)
    ensures Shift(Shift(s, d), e) == Shift(s, Add(d, e))
  {
    assert forall q :: Sub(Sub(q, e), d) == Sub(q, Add(d, e));
  }

  lemma PlusTurns(part: iset<Point>, h: nat, v: nat, o: Point)
    ensures var taken := Rect(Point(0, v - 1), Point(v, v - 1 + h));
      Shift(PlusShears(part, h, v) * Area(taken), Sub(o, taken.origin)) == Shift(TurnedPlus(part, h, v), o)
  {
    hide PlusShears;
    var taken := Rect(Point(0, v - 1), Point(v, v - 1 + h));
    forall q
      ensures q in PlusShears(part, h, v) * Area(taken) <==> Sub(q, taken.origin) in TurnedPlus(part, h, v)
    {
      var p := Sub(q, taken.origin);
      if In(p, Rect(Point(0, 0), Point(v, h))) {
        PlusShearsTurn(part, h, v, p);
      }
    }
    assert PlusShears(part, h, v) * Area(taken) == Shift(TurnedPlus(part, h, v), taken.origin);
    ShiftTwice(TurnedPlus(part, h, v), taken.origin, Sub(o, taken.origin));
  }

  lemma MinusTurns(part: iset<Point>, h: nat, v: nat, o: Point)
    ensures var taken := Rect(Point(h, v - 1), Point(h + v, v - 1 + h));
      Shift(MinusShears(Shift(part, Point(v, 0)), h, v) * Area(taken), Sub(o, taken.origin))
      == Shift(TurnedMinus(part, h, v), o)
  {
    hide MinusShears;
    var sheared, taken := MinusShears(Shift(part, Point(v, 0)), h, v), Rect(Point(h, v - 1), Point(h + v, v - 1 + h));
    forall q
      ensures q in sheared * Area(taken) <==> Sub(q, taken.origin) in TurnedMinus(part, h, v)
    {
      var p := Sub(q, taken.origin);
      if In(p, Rect(Point(0, 0), Point(v, h))) {
        MinusShearsTurn(part, h, v, p);
      }
    }
    assert sheared * Area(taken) == Shift(TurnedMinus(part, h, v), taken.origin);
    ShiftTwice(TurnedMinus(part, h, v), taken.origin, Sub(o, taken.origin));
  }

  // One coordinate of the enlarged picture, whose points are `size` screen points wide.
  function ScreenCoord(p: int, origin: int, size: int): int { p * size + origin }

  function IconCoord(x: int, origin: nat, size: int): int
    requires size > 0
  {
    Quotient(x + size - origin % size, size) - origin / size - 1
  }

  /** Every screen point of an enlarged point maps back to it, but for those more than a point's
      width left of the screen's edge, where only the first one does. */
  lemma CoordBack(p: int, k: int, origin: nat, size: int)
    requires 0 <= k < size
    ensures IconCoord(ScreenCoord(p, origin, size) + k, origin, size) == p <==> p + origin / size + 1 >= 0 || k == 0
  {
    var d := origin / size;
    var m := p + d + 1;
    var n := ScreenCoord(p, origin, size) + k + size - origin % size;
    assert n == m * size + k by {
      DistributeThree(p, d, size);
    }
    if m >= 0 {
      MulMonotone(0, m, size);
      QuotientIs(n, size, m, k);
    } else {
      MulMonotone(m, -1, size);
      if k == 0 {
        NegateProduct(m, size);
        QuotientIs(0 - n, size, 0 - m, 0);
      } else {
        NegateProduct(m, size);
        QuotientIs(0 - n, size, 0 - m - 1, size - k);
      }
    }
  }

  lemma DistributeThree(p: int, d: int, size: int)
    ensures (p + d + 1) * size == p * size + d * size + size
  {
  }

  lemma NegateProduct(m: int, size: int)
    ensures (0 - m) * size == 0 - m * size && (0 - m - 1) * size == 0 - m * size - size
  {
  }

  class Editor {
    const source: array2<bool>
    const undo: array2<bool>
    const screen: array2<bool>

    // The display shows the small image of the picture; the enlarged one is not modelled.
    ghost predicate Valid()
      reads source, screen
    {
      && source != undo && source != screen && undo != screen
      && Bounds(undo) == Bounds(source) == Bounds(screen)
      && Lit(screen) == Lit(source)
    }

    ghost function Pic(): iset<Point>
      reads source
    {
      Lit(source)
    }

    lemma InBounds()
      ensures forall q :: q in Pic() ==> In(q, Bounds(source))
    {
    }

    constructor (xsize: nat, ysize: nat)
      ensures Valid() && Pic() == iset{} && Lit(undo) == iset{}
      ensures Bounds(source) == Rect(Point(0, 0), Point(xsize, ysize))
      ensures fresh(source) && fresh(undo) && fresh(screen)
    {
      source := new bool[xsize, ysize]((x, y) => false);
      undo := new bool[xsize, ysize]((x, y) => false);
      screen := new bool[xsize, ysize]((x, y) => false);
    }

    method FlipOntoScreen(p: Point)
      requires Bounds(screen) == Bounds(source)
      modifies screen
      ensures Lit(screen) == SymDiff(old(Lit(screen)), iset{p} * Area(Bounds(source)))
    {
      if In(p, Bounds(source)) {
        PointF(screen, p, XOR);
      }
    }

    method GetIconPoint(p: Point) returns (bit: bool)
      ensures bit <==> p in Pic()
    {
      bit := Bit(source, p);
    }

    method FlipIconPoint(p: Point)
      requires Valid()
      modifies source, screen
      ensures Valid() && Pic() == SymDiff(old(Pic()), iset{p} * Area(Bounds(source)))
    {
      PointF(source, p, XOR);
      FlipOntoScreen(p);
    }

    method IconOp(bit: bool, p: Point, op: IconCode)
      requires Valid()
      modifies source, screen
      ensures Valid() && Pic() == PaintedAt(old(Pic()), Bounds(source), op, bit, p)
    {
      if In(p, Bounds(source)) {
        var there := GetIconPoint(p);
        match op
        case I_NULL =>
        case I_STORE => if there != bit { FlipIconPoint(p); }
        case I_CLR => if there { FlipIconPoint(p); }
        case I_OR => if bit && !there { FlipIconPoint(p); }
        case I_XOR => if bit { FlipIconPoint(p); }
        case I_AND => if !bit && there { FlipIconPoint(p); }
      }
    }

    method IconBitBlit(from: Rect, to: Point, clip: Rect, srccode: IconCode, dstcode: IconCode)
      requires Valid()
      modifies source, screen
      ensures Valid()
      ensures Pic() == Blitted(old(Pic()), Bounds(source), from, Sub(to, from.origin), clip, srccode, dstcode, Area(from))
    {
      hide Lit, Painted, PaintedAt, Blitted, Valid;
      var d := Sub(to, from.origin);
      var left, up := d.x < 0, d.y < 0;
      ghost var was, bounds := Pic(), Bounds(source);
      var region := Clipped(from, Moved(clip, Sub(from.origin, to)));
      InBounds();
      ScanStarts(was, bounds, from, d, clip, srccode, dstcode, left, up);
      var j := StartY(from, up);
      while Before(from.origin.y, from.corner.y, up, j)
        invariant Valid() && Entered(from.origin.y, from.corner.y, up, j)
        invariant Pic() == Blitted(was, bounds, from, d, clip, srccode, dstcode, Passed(left, up, StartX(from, left), j))
        decreases if up then from.corner.y - j else j - from.origin.y
      {
        var i := StartX(from, left);
        while Before(from.origin.x, from.corner.x, left, i)
          invariant Valid() && Entered(from.origin.x, from.corner.x, left, i)
          invariant Pic() == Blitted(was, bounds, from, d, clip, srccode, dstcode, Passed(left, up, i, j))
          decreases if left then from.corner.x - i else i - from.origin.x
        {
          var bit := GetIconPoint(Point(i, j));
          IconOp(false, Point(i, j), srccode);
          if In(Point(i, j), region) {
            IconOp(bit, Add(Point(i, j), d), dstcode);
          }
          TurnAdvances(was, bounds, from, d, clip, srccode, dstcode, i, j);
          ScanSteps(was, bounds, from, d, clip, srccode, dstcode, left, up, i, j);
          i := i + Step(left);
        }
        RowEnds(was, bounds, from, d, clip, srccode, dstcode, left, up, i, j);
        j := j + Step(up);
      }
      ScanEnds(was, bounds, from, d, clip, srccode, dstcode, left, up, j);
    }

    method Erase(r: Rect)
      requires Valid()
      modifies source, screen
      ensures Valid() && Pic() == old(Pic()) - Area(r)
    {
      hide Lit, Valid;
      ghost var was := Pic();
      var j := r.origin.y;
      while j < r.corner.y
        invariant Valid() && r.origin.y <= j
        invariant Pic() == was - Area(r) * Passed(true, true, r.origin.x, j)
      {
        var i := r.origin.x;
        while i < r.corner.x
          invariant Valid() && r.origin.x <= i
          invariant Pic() == was - Area(r) * Passed(true, true, i, j)
        {
          var lit := GetIconPoint(Point(i, j));
          InBounds();
          if lit {
            FlipIconPoint(Point(i, j));
          }
          i := i + 1;
        }
        j := j + 1;
      }
    }

    method OpErase(r: Rect)
      requires Valid()
      modifies source, screen, undo
      ensures Valid() && Pic() == old(Pic()) - Area(r) && Lit(undo) == old(Pic())
    {
      SaveForUndo();
      Erase(r);
    }

    method OpInvert(r: Rect)
      requires Valid()
      modifies source, screen, undo
      ensures Valid() && Pic() == SymDiff(old(Pic()), Area(r) * Area(Bounds(source))) && Lit(undo) == old(Pic())
    {
      hide Lit, Valid;
      SaveForUndo();
      ghost var was, bounds := Pic(), Area(Bounds(source));
      var j := r.origin.y;
      while j < r.corner.y
        invariant Valid() && r.origin.y <= j && Lit(undo) == was
        invariant Pic() == SymDiff(was, Area(r) * Passed(true, true, r.origin.x, j) * bounds)
        modifies source, screen
      {
        var i := r.origin.x;
        while i < r.corner.x
          invariant Valid() && r.origin.x <= i && Lit(undo) == was
          invariant Pic() == SymDiff(was, Area(r) * Passed(true, true, i, j) * bounds)
        {
          FlipIconPoint(Point(i, j));
          i := i + 1;
        }
        j := j + 1;
      }
    }

    method SaveForUndo()
      requires Valid()
      modifies undo
      ensures Valid() && Lit(undo) == Pic()
    {
      BitBlt(source, Bounds(source), undo, Point(0, 0), STORE);
    }

    // A point of the rectangle and its mirror image change places.
    method SwapPoints(p: Point, m: Point, ghost was: iset<Point>, ghost r: Rect, ghost acrossX: bool, ghost visited: iset<Point>)
      requires Valid() && Pic() == Mirrored(was, Bounds(source), r, acrossX, visited)
      requires In(p, r) && p !in visited && m !in visited && p != m && m == Mirror(r, acrossX, p)
      requires forall q :: q in was ==> In(q, Bounds(source))
      modifies source, screen
      ensures Valid() && Pic() == Mirrored(was, Bounds(source), r, acrossX, visited + iset{p, m})
    {
      hide Lit, Valid, Mirrored, Painted, PaintedAt, Mirror;
      var bit1 := GetIconPoint(p);
      var bit2 := GetIconPoint(m);
      IconOp(bit1, m, I_STORE);
      IconOp(bit2, p, I_STORE);
      SwapMirrors(was, Bounds(source), r, acrossX, visited, p);
    }

    method OpReflX(r: Rect)
      requires Valid()
      modifies source, screen, undo
      ensures Valid() && Lit(undo) == old(Pic())
      ensures Pic() == Mirrored(old(Pic()), Bounds(source), r, true, Area(r))
    {
      hide Lit, Valid, Mirrored, Painted, PaintedAt;
      SaveForUndo();
      ghost var was, bounds := Pic(), Bounds(source);
      InBounds();
      NotMirrored(was, bounds, r, true);
      SameMirrored(was, bounds, r, true, iset{}, ColumnsSwapped(r, 0, r.origin.y));
      var i := 0;
      while i < Half(HorSize(r))
        invariant Valid() && 0 <= i && Lit(undo) == was
        invariant Pic() == Mirrored(was, bounds, r, true, ColumnsSwapped(r, i, r.origin.y))
        modifies source, screen
      {
        var j := r.origin.y;
        while j < r.corner.y
          invariant Valid() && r.origin.y <= j && Lit(undo) == was
          invariant Pic() == Mirrored(was, bounds, r, true, ColumnsSwapped(r, i, j))
        {
          var p, m := Point(r.origin.x + i, j), Point(r.corner.x - 1 - i, j);
          SwapPoints(p, m, was, r, true, ColumnsSwapped(r, i, j));
          SameMirrored(was, bounds, r, true, ColumnsSwapped(r, i, j) + iset{p, m}, ColumnsSwapped(r, i, j + 1));
          j := j + 1;
        }
        SameMirrored(was, bounds, r, true, ColumnsSwapped(r, i, j), ColumnsSwapped(r, i + 1, r.origin.y));
        i := i + 1;
      }
      SameMirrored(was, bounds, r, true, ColumnsSwapped(r, i, r.origin.y), Area(r));
    }

    method OpReflY(r: Rect)
      requires Valid()
      modifies source, screen, undo
      ensures Valid() && Lit(undo) == old(Pic())
      ensures Pic() == Mirrored(old(Pic()), Bounds(source), r, false, Area(r))
    {
      hide Lit, Valid, Mirrored, Painted, PaintedAt;
      SaveForUndo();
      ghost var was, bounds := Pic(), Bounds(source);
      InBounds();
      NotMirrored(was, bounds, r, false);
      SameMirrored(was, bounds, r, false, iset{}, RowsSwapped(r, r.origin.x, 0));
      var i := r.origin.x;
      while i < r.corner.x
        invariant Valid() && r.origin.x <= i && Lit(undo) == was
        invariant Pic() == Mirrored(was, bounds, r, false, RowsSwapped(r, i, 0))
        modifies source, screen
      {
        var j := 0;
        while j < Half(VerSize(r))
          invariant Valid() && 0 <= j && Lit(undo) == was
          invariant Pic() == Mirrored(was, bounds, r, false, RowsSwapped(r, i, j))
        {
          var p, m := Point(i, r.origin.y + j), Point(i, r.corner.y - 1 - j);
          SwapPoints(p, m, was, r, false, RowsSwapped(r, i, j));
          SameMirrored(was, bounds, r, false, RowsSwapped(r, i, j) + iset{p, m}, RowsSwapped(r, i, j + 1));
          j := j + 1;
        }
        SameMirrored(was, bounds, r, false, RowsSwapped(r, i, j), RowsSwapped(r, i + 1, 0));
        i := i + 1;
      }
      SameMirrored(was, bounds, r, false, RowsSwapped(r, i, 0), Area(r));
    }

    method XorOntoScreen(b: array2<bool>, r: Rect, p: Point)
      requires b != screen && Bounds(screen) == Bounds(source)
      modifies screen
      ensures Lit(screen) == SymDiff(old(Lit(screen)), Shift(Lit(b) * Area(r), Sub(p, r.origin)) * Area(Bounds(source)))
    {
      hide Lit;
      ghost var was, bounds := Lit(screen), Area(Bounds(source));
      ghost var d := Sub(p, r.origin);
      var h, v := HorSize(r), VerSize(r);
      var j := 0;
      while j < h
        invariant 0 <= j
        invariant Lit(screen) == SymDiff(was, Shift(Lit(b) * Area(r) * ColumnsPassed(r, j, 0), d) * bounds)
      {
        var i := 0;
        while i < v
          invariant 0 <= i
          invariant Lit(screen) == SymDiff(was, Shift(Lit(b) * Area(r) * ColumnsPassed(r, j, i), d) * bounds)
        {
          var bit := Bit(b, Add(r.origin, Point(j, i)));
          if bit {
            FlipOntoScreen(Add(p, Point(j, i)));
          }
          FlipAdvances(was, Lit(b), bounds, r, p, i, j);
          i := i + 1;
        }
        assert Area(r) * ColumnsPassed(r, j, i) == Area(r) * ColumnsPassed(r, j + 1, 0);
        assert Lit(b) * Area(r) * ColumnsPassed(r, j, i) == Lit(b) * Area(r) * ColumnsPassed(r, j + 1, 0);
        j := j + 1;
      }
      assert Lit(b) * Area(r) * ColumnsPassed(r, j, 0) == Lit(b) * Area(r);
    }

    method XorOntoPicture(b: array2<bool>, r: Rect, p: Point)
      requires Valid() && b != screen && b != source
      modifies source, screen
      ensures Valid()
      ensures Pic() == SymDiff(old(Pic()), Shift(Lit(b) * Area(r), Sub(p, r.origin)) * Area(Bounds(source)))
    {
      hide Lit, Transfer;
      InBounds();
      LitInBounds(b);
      XorOntoScreen(b, r, p);
      BitBlt(b, r, source, p, XOR);
      XorTransfer(Lit(b), Bounds(b), r, Sub(p, r.origin), old(Pic()), Bounds(source));
    }

    /** Or is built from complement and exclusive or; the bitmap drawn is spoilt on the way. */
    method OrOntoPicture(b: array2<bool>, r: Rect, p: Point)
      requires Valid() && b != screen && b != source
      modifies source, screen, b
      ensures Valid()
      ensures Pic() == old(Pic()) + Shift(old(Lit(b)) * Area(r), Sub(p, r.origin)) * Area(Bounds(source))
    {
      hide Lit, Transfer;
      ghost var d := Sub(p, r.origin);
      ghost var was, drawn := Pic(), Lit(b);
      LitInBounds(b);
      InBounds();
      RectF(b, r, XOR);
      BitBlt(source, Moved(r, Sub(p, r.origin)), b, r.origin, OR);
      RectF(b, r, XOR);
      LessPicture(was, Bounds(source), drawn, Bounds(b), r, d);
      XorOntoPicture(b, r, p);
    }

    method OpUndo()
      requires Valid()
      modifies source, screen, undo
      ensures Valid() && Pic() == old(Lit(undo)) && Lit(undo) == old(Pic())
    {
      hide Lit, Transfer;
      ghost var s, u := Pic(), Lit(undo);
      InBounds();
      LitInBounds(undo);
      var r := Bounds(source);
      BitBlt(undo, r, source, r.origin, XOR);
      XorWhole(u, s, r);
      XorOntoScreen(source, r, r.origin);
      BitBlt(source, r, undo, r.origin, XOR);
      XorWhole(SymDiff(s, u), u, r);
      BitBlt(undo, r, source, r.origin, XOR);
      XorWhole(s, SymDiff(s, u), r);
    }

    // A cleared square buffer holding the picture of r, placed at o, as the display shows it.
    method TakePart(r: Rect, o: Point, size: nat) returns (buffer: array2<bool>)
      requires Valid() && Contains(Bounds(source), r)
      requires Contains(Rect(Point(0, 0), Point(size, size)), Moved(r, Sub(o, r.origin)))
      ensures fresh(buffer) && buffer.Length0 == buffer.Length1 == size
      ensures Lit(buffer) == Shift(Pic() * Area(r), Sub(o, r.origin))
    {
      hide Lit, Transfer;
      buffer := new bool[size, size];
      ghost var junk := Lit(buffer);
      RectF(buffer, Bounds(buffer), CLR);
      BitBlt(screen, r, buffer, o, XOR);
      PartTaken(Pic(), Bounds(source), r, junk, Bounds(buffer), o);
    }

    method OpRotPlus(r: Rect)
      requires Valid() && Contains(Bounds(source), r)
      modifies source, screen, undo
      ensures Valid() && Lit(undo) == old(Pic())
      ensures Pic() == QuarterTurn(old(Pic()), Bounds(source), r, true)
    {
      hide Lit, TurnedPlus, PlusShears, Shift, Area, Valid;
      ghost var was := Pic();
      var hsize, vsize := HorSize(r), VerSize(r);
      SaveForUndo();
      var buffer := TakePart(r, Point(0, 0), hsize + vsize);
      ShearPlus(buffer, hsize, vsize);
      PlusTurns(Shift(was * Area(r), Sub(Point(0, 0), r.origin)), hsize, vsize, TurnOrigin(r));
      Erase(r);
      OrOntoPicture(buffer, Rect(Point(0, vsize - 1), Point(vsize, vsize - 1 + hsize)),
                    Add(r.origin, Sub(Point(hsize / 2, vsize / 2), Point(vsize / 2, hsize / 2))));
    }

    method OpRotMinus(r: Rect)
      requires Valid() && Contains(Bounds(source), r)
      modifies source, screen, undo
      ensures Valid() && Lit(undo) == old(Pic())
      ensures Pic() == QuarterTurn(old(Pic()), Bounds(source), r, false)
    {
      hide Lit, TurnedMinus, MinusShears, Shift, Area, Valid;
      ghost var was := Pic();
      var hsize, vsize := HorSize(r), VerSize(r);
      SaveForUndo();
      var buffer := TakePart(r, Point(vsize, 0), hsize + vsize);
      ShiftTwice(was * Area(r), Sub(Point(0, 0), r.origin), Point(vsize, 0));
      ShearMinus(buffer, hsize, vsize);
      MinusTurns(Shift(was * Area(r), Sub(Point(0, 0), r.origin)), hsize, vsize, TurnOrigin(r));
      Erase(r);
      OrOntoPicture(buffer, Rect(Point(hsize, vsize - 1), Point(hsize + vsize, vsize - 1 + hsize)),
                    Add(r.origin, Sub(Point(hsize / 2, vsize / 2), Point(vsize / 2, hsize / 2))));
    }
  }

  /** What each code makes of a bit and of the point under it. */
  lemma CodesInNumbers(bit: bool, under: bool)
    ensures Painted(I_NULL, bit, under) == under && Painted(I_STORE, bit, under) == bit && !Painted(I_CLR, bit, under)
    ensures Painted(I_OR, bit, under) == (if bit then true else under)
    ensures Painted(I_AND, bit, under) == (if bit then under else false)
    ensures Painted(I_XOR, bit, under) == (if bit then !under else under)
  {
  }

  /** A mirror image lies as far from the middle as its original, on the other side. */
  lemma MirrorInNumbers(r: Rect, p: Point)
    ensures var (m, n) := (Mirror(r, true, p), Mirror(r, false, p));
      && m.y == p.y && n.x == p.x
      && 2 * m.x + 1 - (r.origin.x + r.corner.x) == r.origin.x + r.corner.x - (2 * p.x + 1)
      && 2 * n.y + 1 - (r.origin.y + r.corner.y) == r.origin.y + r.corner.y - (2 * p.y + 1)
  {
  }

  /** Enlarged points lie side by side from the origin on. */
  lemma CoordsInNumbers(p: int, origin: int, size: int)
    ensures ScreenCoord(0, origin, size) == origin
    ensures ScreenCoord(p + 1, origin, size) == ScreenCoord(p, origin, size) + size
  {
  }

  /** Outside the landing place, or where that is clipped, a block move leaves the rectangle as its source
      code makes of a blank bit, which keeps a point or puts it out, and everything else as it was; in
      the landing place it is as the destination code makes of the bit moved there. */
  lemma BlitInNumbers(s: iset<Point>, bounds: Rect, from: Rect, to: Point, clip: Rect, srccode: IconCode, dstcode: IconCode, q: Point)
    requires In(q, bounds)
    ensures var d := Point(to.x - from.origin.x, to.y - from.origin.y);
      var landed := from.origin.x <= q.x - d.x < from.corner.x && from.origin.y <= q.y - d.y < from.corner.y && In(q, clip);
      var own := q in s && !(In(q, from) && (srccode.I_STORE? || srccode.I_AND? || srccode.I_CLR?));
      q in Blitted(s, bounds, from, Sub(to, from.origin), clip, srccode, dstcode, Area(from))
      <==> if landed then Painted(dstcode, Point(q.x - d.x, q.y - d.y) in s, own) else own
  {
  }
}
