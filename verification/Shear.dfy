/** Turning a rectangle a quarter by three shears, each of which moves whole rows or columns of
    a bitmap over themselves. */
module Shear {
  import opened Arithmetic
  import opened Raster

  // How far a shear moves the k-th of `count` lines when the farthest would move by `d`.
  function Lag(k: int, count: int, d: int, reversed: bool): int {
    if 0 <= k < count then MulDiv(if reversed then count - k - 1 else k, d, count) else 0
  }

  function RowLag(r: Rect, y: int, dx: int, top: bool): Point {
    Point(Lag(y - r.origin.y, VerSize(r), dx, top), 0)
  }

  function ColumnLag(r: Rect, x: int, dy: int, lft: bool): Point {
    Point(0, Lag(x - r.origin.x, HorSize(r), dy, lft))
  }

  /** The first `rows` rows of `r` have each moved by their own lag, clipped to the bitmap; a
      point that no moved row covers keeps what it held. */
  ghost function RowsSheared(s: iset<Point>, bounds: Rect, r: Rect, dx: int, top: bool, rows: int): iset<Point> {
    iset q: Point | In(q, bounds) &&
      var lag := RowLag(r, q.y, dx, top);
      if q.y < r.origin.y + rows && Reaches(q, bounds, r, lag) then Sub(q, lag) in s else q in s
  }

  ghost function ColumnsSheared(s: iset<Point>, bounds: Rect, r: Rect, dy: int, lft: bool, columns: int): iset<Point> {
    iset q: Point | In(q, bounds) &&
      var lag := ColumnLag(r, q.x, dy, lft);
      if q.x < r.origin.x + columns && Reaches(q, bounds, r, lag) then Sub(q, lag) in s else q in s
  }

  method HorShear(b: array2<bool>, r: Rect, dx: int, top: bool)
    modifies b
    ensures Lit(b) == RowsSheared(old(Lit(b)), Bounds(b), r, dx, top, VerSize(r))
  {
    hide Lit, MulDiv, RowsSheared, Transfer;
    var vsize := VerSize(r);
    ghost var was := Lit(b);
    NoRows(b, r, dx, top);
    var j := 0;
    while j < vsize
      invariant 0 <= j
      invariant if vsize < 0 then j == 0 else j <= vsize
      invariant Lit(b) == RowsSheared(was, Bounds(b), r, dx, top, j)
    {
      var shift := if top then vsize - j - 1 else j;
      var y := r.origin.y + j;
      BitBlt(b, Rect(Point(r.origin.x, y), Point(r.corner.x, y + 1)),
             b, Point(r.origin.x + MulDiv(shift, dx, vsize), y), STORE);
      RowMoves(was, Bounds(b), r, dx, top, j);
      j := j + 1;
    }
  }

  lemma NoRows(b: array2<bool>, r: Rect, dx: int, top: bool)
    ensures Lit(b) == RowsSheared(Lit(b), Bounds(b), r, dx, top, 0)
    ensures VerSize(r) < 0 ==> Lit(b) == RowsSheared(Lit(b), Bounds(b), r, dx, top, VerSize(r))
  {
    hide Lag;
  }

  lemma RowMoves(s: iset<Point>, bounds: Rect, r: Rect, dx: int, top: bool, j: int)
    requires 0 <= j < VerSize(r)
    ensures var y := r.origin.y + j; var before := RowsSheared(s, bounds, r, dx, top, j);
      Transfer(before, bounds, Rect(Point(r.origin.x, y), Point(r.corner.x, y + 1)), RowLag(r, y, dx, top),
               before, bounds, STORE) == RowsSheared(s, bounds, r, dx, top, j + 1)
  {
    hide Lag;
  }

  method VerShear(b: array2<bool>, r: Rect, dy: int, lft: bool)
    modifies b
    ensures Lit(b) == ColumnsSheared(old(Lit(b)), Bounds(b), r, dy, lft, HorSize(r))
  {
    hide Lit, MulDiv, ColumnsSheared, Transfer;
    var hsize := HorSize(r);
    ghost var was := Lit(b);
    NoColumns(b, r, dy, lft);
    var i := 0;
    while i < hsize
      invariant 0 <= i
      invariant if hsize < 0 then i == 0 else i <= hsize
      invariant Lit(b) == ColumnsSheared(was, Bounds(b), r, dy, lft, i)
    {
      var shift := if lft then hsize - i - 1 else i;
      var x := r.origin.x + i;
      BitBlt(b, Rect(Point(x, r.origin.y), Point(x + 1, r.corner.y)),
             b, Point(x, r.origin.y + MulDiv(shift, dy, hsize)), STORE);
      ColumnMoves(was, Bounds(b), r, dy, lft, i);
      i := i + 1;
    }
  }

  lemma NoColumns(b: array2<bool>, r: Rect, dy: int, lft: bool)
    ensures Lit(b) == ColumnsSheared(Lit(b), Bounds(b), r, dy, lft, 0)
    ensures HorSize(r) < 0 ==> Lit(b) == ColumnsSheared(Lit(b), Bounds(b), r, dy, lft, HorSize(r))
  {
    hide Lag;
  }

  lemma ColumnMoves(s: iset<Point>, bounds: Rect, r: Rect, dy: int, lft: bool, i: int)
    requires 0 <= i < HorSize(r)
    ensures var x := r.origin.x + i; var before := ColumnsSheared(s, bounds, r, dy, lft, i);
      Transfer(before, bounds, Rect(Point(x, r.origin.y), Point(x + 1, r.corner.y)), ColumnLag(r, x, dy, lft),
               before, bounds, STORE) == ColumnsSheared(s, bounds, r, dy, lft, i + 1)
  {
    hide Lag;
  }

  /** A picture h wide and v high, turned so that (x, y) comes to (v-1-y, x). */
  ghost function TurnedPlus(s: iset<Point>, h: int, v: int): iset<Point> {
    iset p: Point | In(p, Rect(Point(0, 0), Point(v, h))) && Point(p.y, v - 1 - p.x) in s
  }

  /** A picture h wide and v high, turned so that (x, y) comes to (y, h-1-x). */
  ghost function TurnedMinus(s: iset<Point>, h: int, v: int): iset<Point> {
    iset p: Point | In(p, Rect(Point(0, 0), Point(v, h))) && Point(h - 1 - p.y, p.x) in s
  }

  lemma LagIsLine(k: int, count: int, reversed: bool)
    requires 0 <= k < count
    ensures var m := if reversed then count - k - 1 else k;
      Lag(k, count, count, reversed) == m && Lag(k, count, 0 - count, reversed) == 0 - m
  {
    MulDivExact(if reversed then count - k - 1 else k, count);
  }

  ghost function PlusShears(s: iset<Point>, h: nat, v: nat): iset<Point> {
    var bounds := Rect(Point(0, 0), Point(h + v, h + v));
    var first := RowsSheared(s, bounds, Rect(Point(0, 0), Point(h, v)), v, true, v);
    var second := ColumnsSheared(first, bounds, Rect(Point(0, 0), Point(h + v, v)), h + v, false, h + v);
    RowsSheared(second, bounds, Rect(Point(0, v - 1), Point(h + v, v - 1 + h)), 0 - h, false, h)
  }

  lemma RowComesFrom(s: iset<Point>, bounds: Rect, r: Rect, dx: int, top: bool, q: Point, lag: int)
    requires lag == Lag(q.y - r.origin.y, VerSize(r), dx, top)
    requires In(q, bounds) && Reaches(q, bounds, r, Point(lag, 0))
    ensures q in RowsSheared(s, bounds, r, dx, top, VerSize(r)) <==> Point(q.x - lag, q.y) in s
  {
    hide Lag;
  }

  lemma ColumnComesFrom(s: iset<Point>, bounds: Rect, r: Rect, dy: int, lft: bool, q: Point, lag: int)
    requires lag == Lag(q.x - r.origin.x, HorSize(r), dy, lft)
    requires In(q, bounds) && Reaches(q, bounds, r, Point(0, lag))
    ensures q in ColumnsSheared(s, bounds, r, dy, lft, HorSize(r)) <==> Point(q.x, q.y - lag) in s
  {
    hide Lag;
  }

  /** No residue of the first two shears is left in the rectangle that is taken out. */
  lemma PlusShearsTurn(s: iset<Point>, h: nat, v: nat, p: Point)
    requires In(p, Rect(Point(0, 0), Point(v, h)))
    ensures Point(p.x, v - 1 + p.y) in PlusShears(s, h, v) <==> p in TurnedPlus(s, h, v)
  {
    hide Lag, RowsSheared, ColumnsSheared;
    var bounds := Rect(Point(0, 0), Point(h + v, h + v));
    var first := RowsSheared(s, bounds, Rect(Point(0, 0), Point(h, v)), v, true, v);
    var second := ColumnsSheared(first, bounds, Rect(Point(0, 0), Point(h + v, v)), h + v, false, h + v);
    LagIsLine(p.y, h, false);
    RowComesFrom(second, bounds, Rect(Point(0, v - 1), Point(h + v, v - 1 + h)), 0 - h, false, Point(p.x, v - 1 + p.y), 0 - p.y);
    LagIsLine(p.x + p.y, h + v, false);
    ColumnComesFrom(first, bounds, Rect(Point(0, 0), Point(h + v, v)), h + v, false, Point(p.x + p.y, v - 1 + p.y), p.x + p.y);
    LagIsLine(v - 1 - p.x, v, true);
    RowComesFrom(s, bounds, Rect(Point(0, 0), Point(h, v)), v, true, Point(p.x + p.y, v - 1 - p.x), p.x);
  }

  ghost function MinusShears(s: iset<Point>, h: nat, v: nat): iset<Point> {
    var bounds := Rect(Point(0, 0), Point(h + v, h + v));
    var first := RowsSheared(s, bounds, Rect(Point(v, 0), Point(h + v, v)), 0 - v, true, v);
    var second := ColumnsSheared(first, bounds, Rect(Point(0, 0), Point(h + v, v)), h + v, true, h + v);
    RowsSheared(second, bounds, Rect(Point(0, v - 1), Point(h + v, v - 1 + h)), h, false, h)
  }

  lemma MinusShearsTurn(s: iset<Point>, h: nat, v: nat, p: Point)
    requires In(p, Rect(Point(0, 0), Point(v, h)))
    ensures Point(h + p.x, v - 1 + p.y) in MinusShears(Shift(s, Point(v, 0)), h, v) <==> p in TurnedMinus(s, h, v)
  {
    hide Lag, RowsSheared, ColumnsSheared;
    var bounds := Rect(Point(0, 0), Point(h + v, h + v));
    var placed := Shift(s, Point(v, 0));
    var first := RowsSheared(placed, bounds, Rect(Point(v, 0), Point(h + v, v)), 0 - v, true, v);
    var second := ColumnsSheared(first, bounds, Rect(Point(0, 0), Point(h + v, v)), h + v, true, h + v);
    var x := h + p.x - p.y;
    LagIsLine(p.y, h, false);
    RowComesFrom(second, bounds, Rect(Point(0, v - 1), Point(h + v, v - 1 + h)), h, false, Point(h + p.x, v - 1 + p.y), p.y);
    LagIsLine(x, h + v, true);
    ColumnComesFrom(first, bounds, Rect(Point(0, 0), Point(h + v, v)), h + v, true, Point(x, v - 1 + p.y), h + v - 1 - x);
    LagIsLine(p.x, v, true);
    RowComesFrom(placed, bounds, Rect(Point(v, 0), Point(h + v, v)), 0 - v, true, Point(x, p.x), 0 - (v - 1 - p.x));
  }

  method ShearPlus(buffer: array2<bool>, h: nat, v: nat)
    requires buffer.Length0 == buffer.Length1 == h + v
    modifies buffer
    ensures Lit(buffer) == PlusShears(old(Lit(buffer)), h, v)
  {
    hide Lit, RowsSheared, ColumnsSheared;
    HorShear(buffer, Rect(Point(0, 0), Point(h, v)), v, true);
    VerShear(buffer, Rect(Point(0, 0), Point(h + v, v)), h + v, false);
    HorShear(buffer, Rect(Point(0, v - 1), Point(h + v, v - 1 + h)), 0 - h, false);
  }

  method ShearMinus(buffer: array2<bool>, h: nat, v: nat)
    requires buffer.Length0 == buffer.Length1 == h + v
    modifies buffer
    ensures Lit(buffer) == MinusShears(old(Lit(buffer)), h, v)
  {
    hide Lit, RowsSheared, ColumnsSheared;
    HorShear(buffer, Rect(Point(v, 0), Point(h + v, v)), 0 - v, true);
    VerShear(buffer, Rect(Point(0, 0), Point(h + v, v)), h + v, true);
    HorShear(buffer, Rect(Point(0, v - 1), Point(h + v, v - 1 + h)), h, false);
  }

  /** The lag of line k of `count`, counted from the other end if reversed: its share of d, rounded towards
      nothing. */
  lemma LagInNumbers(k: int, count: int, d: int, reversed: bool)
    requires 0 <= k < count
    ensures var n := d * if reversed then count - 1 - k else k;
      var lag := Lag(k, count, d, reversed);
      if n >= 0 then lag * count <= n < lag * count + count else lag * count - count < n <= lag * count
  {
    var j := if reversed then count - 1 - k else k;
    var n := j * d;
    DivisionParts(Abs(n), count);
    var q := Abs(n) / count;
    assert (0 - q) * count == 0 - q * count;
  }
}
