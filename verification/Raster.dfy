/** Bitmaps of the jerq terminal: points, half-open rectangles, and the clipped primitives that
    the icon editor draws with. A bitmap is a two-dimensional array; its value is the set of lit
    points, so the drawing primitives are stated as algebra on point sets. */
module Raster {
  import opened Arithmetic

  datatype Point = Point(x: int, y: int)

  datatype Rect = Rect(origin: Point, corner: Point)

  // The function codes of the terminal's raster operations.
  datatype Code = STORE | OR | XOR | CLR

  function Add(p: Point, q: Point): Point { Point(p.x + q.x, p.y + q.y) }

  function Sub(p: Point, q: Point): Point { Point(p.x - q.x, p.y - q.y) }

  function HorSize(r: Rect): int { r.corner.x - r.origin.x }

  function VerSize(r: Rect): int { r.corner.y - r.origin.y }

  function Moved(r: Rect, d: Point): Rect { Rect(Add(r.origin, d), Add(r.corner, d)) }

  predicate In(p: Point, r: Rect) {
    r.origin.x <= p.x < r.corner.x && r.origin.y <= p.y < r.corner.y
  }

  predicate Contains(outer: Rect, r: Rect) {
    && outer.origin.x <= r.origin.x <= r.corner.x <= outer.corner.x
    && outer.origin.y <= r.origin.y <= r.corner.y <= outer.corner.y
  }

  // What rectclip leaves of r, or the null rectangle when nothing is left.
  function Clipped(r: Rect, clip: Rect): (c: Rect)
    ensures forall p :: In(p, c) <==> In(p, r) && In(p, clip)
  {
    var c := Rect(Point(Max(r.origin.x, clip.origin.x), Max(r.origin.y, clip.origin.y)),
                  Point(Min(r.corner.x, clip.corner.x), Min(r.corner.y, clip.corner.y)));
    if c.origin.x < c.corner.x && c.origin.y < c.corner.y then c else Rect(Point(0, 0), Point(0, 0))
  }

  function Bounds(b: array2<bool>): Rect {
    Rect(Point(0, 0), Point(b.Length0, b.Length1))
  }

  ghost function Lit(b: array2<bool>): iset<Point>
    reads b
  {
    iset p: Point | In(p, Bounds(b)) && b[p.x, p.y]
  }

  ghost function Area(r: Rect): iset<Point> { iset p: Point | In(p, r) }

  ghost function Shift(s: iset<Point>, d: Point): iset<Point> { iset p: Point | Sub(p, d) in s }

  ghost function SymDiff(s: iset<Point>, t: iset<Point>): iset<Point> { (s - t) + (t - s) }

  predicate Combine(f: Code, bit: bool, under: bool) {
    match f
    case STORE => bit
    case OR => bit || under
    case XOR => bit != under
    case CLR => !bit && under
  }

  // The point of the source bitmap, if any, that a transfer brings to q.
  predicate Reaches(q: Point, source: Rect, r: Rect, d: Point) {
    In(Sub(q, d), r) && In(Sub(q, d), source)
  }

  // A transfer of r displaced by d is clipped to both bitmaps and reads every source bit before
  // it writes any.
  ghost function Transfer(s: iset<Point>, source: Rect, r: Rect, d: Point, t: iset<Point>, target: Rect, f: Code)
    : iset<Point>
  {
    iset q: Point | In(q, target) &&
      if Reaches(q, source, r, d) then Combine(f, Sub(q, d) in s, q in t) else q in t
  }

  // The terminal's bitblt, whose body is firmware: the copy is its overlap rule.
  method BitBlt(s: array2<bool>, r: Rect, t: array2<bool>, p: Point, f: Code)
    modifies t
    ensures Lit(t) == Transfer(old(Lit(s)), Bounds(s), r, Sub(p, r.origin), old(Lit(t)), Bounds(t), f)
  {
    var bits := Copy(s);
    Place(bits, r, t, Sub(p, r.origin), f);
  }

  method Copy(s: array2<bool>) returns (bits: array2<bool>)
    ensures fresh(bits) && Bounds(bits) == Bounds(s) && Lit(bits) == Lit(s)
  {
    bits := new bool[s.Length0, s.Length1]((x: nat, y: nat) requires x < s.Length0 && y < s.Length1 reads s => s[x, y]);
  }

  method Place(s: array2<bool>, r: Rect, t: array2<bool>, d: Point, f: Code)
    requires s != t
    modifies t
    ensures Lit(t) == Transfer(Lit(s), Bounds(s), r, d, old(Lit(t)), Bounds(t), f)
  {
    var left, right := Max(0, d.x + Max(0, r.origin.x)), Min(t.Length0, d.x + Min(s.Length0, r.corner.x));
    var top, bottom := Max(0, d.y + Max(0, r.origin.y)), Min(t.Length1, d.y + Min(s.Length1, r.corner.y));
    forall x, y | left <= x < right && top <= y < bottom {
      t[x, y] := Combine(f, s[x - d.x, y - d.y], t[x, y]);
    }
    forall q | In(q, Bounds(t))
      ensures q in Lit(t) <==> q in Transfer(Lit(s), Bounds(s), r, d, old(Lit(t)), Bounds(t), f)
    {
      assert t[q.x, q.y] == if left <= q.x < right && top <= q.y < bottom
        then Combine(f, s[q.x - d.x, q.y - d.y], old(t[q.x, q.y])) else old(t[q.x, q.y]);
    }
  }

  method RectF(t: array2<bool>, r: Rect, f: Code)
    modifies t
    ensures Lit(t) == Transfer(Area(r), r, r, Point(0, 0), old(Lit(t)), Bounds(t), f)
  {
    forall x, y | 0 <= x < t.Length0 && 0 <= y < t.Length1 && In(Point(x, y), r) {
      t[x, y] := Combine(f, true, t[x, y]);
    }
  }

  method PointF(t: array2<bool>, p: Point, f: Code)
    modifies t
    ensures Lit(t) == iset q: Point | In(q, Bounds(t)) && if q == p then Combine(f, true, q in old(Lit(t))) else q in old(Lit(t))
  {
    if In(p, Bounds(t)) {
      t[p.x, p.y] := Combine(f, true, t[p.x, p.y]);
    }
  }

  method Bit(b: array2<bool>, p: Point) returns (bit: bool)
    ensures bit == (p in Lit(b))
  {
    bit := In(p, Bounds(b)) && b[p.x, p.y];
  }

  function MulDiv(a: int, b: int, c: int): int
    requires c != 0
  {
    Quotient(a * b, c)
  }

  lemma MulDivExact(a: nat, c: int)
    requires c > 0
    ensures MulDiv(a, c, c) == a
    ensures MulDiv(a, -c, c) == 0 - a
  {
    QuotientIs(a * c, c, a, 0);
    MulMonotone(0, a, c);
    assert a * -c == -(a * c);
    assert Abs(a * -c) == a * c && Abs(a * c) == a * c;
  }

  /** A rectangle with points in it is contained when all of them are. */
  lemma ContainsInNumbers(outer: Rect, r: Rect)
    requires r.origin.x < r.corner.x && r.origin.y < r.corner.y
    ensures Contains(outer, r) <==> forall p :: In(p, r) ==> In(p, outer)
  {
    if forall p :: In(p, r) ==> In(p, outer) {
      assert In(r.origin, r) && In(Point(r.corner.x - 1, r.corner.y - 1), r);
    }
  }
}
