/** Laws of the icon editor's operations: which of them undo each other, exactly when, and that
    one undo after any edit restores the picture. */
module IconLaws {
  import opened Raster
  import opened Shear
  import opened Icon

  function TurnedRect(r: Rect): Rect {
    var o := TurnOrigin(r);
    Rect(o, Add(o, Point(VerSize(r), HorSize(r))))
  }

  // Where a quarter turn of r about its middle takes a point of r.
  function TurnedPoint(r: Rect, plus: bool, q: Point): Point {
    var o, p := TurnOrigin(r), Sub(q, r.origin);
    if plus then Add(o, Point(VerSize(r) - 1 - p.y, p.x)) else Add(o, Point(p.y, HorSize(r) - 1 - p.x))
  }

  lemma TurnedPointInverse(r: Rect, plus: bool, q: Point)
    ensures var t := TurnedPoint(r, plus, q);
      && TurnedPoint(TurnedRect(r), !plus, t) == q
      && (In(t, TurnedRect(r)) <==> In(q, r))
    ensures TurnedRect(TurnedRect(r)) == r
  {
    hide Half;
  }

  lemma QuarterTurnAt(s: iset<Point>, bounds: Rect, r: Rect, plus: bool, q: Point)
    ensures TurnedPoint(r, plus, q) in QuarterTurn(s, bounds, r, plus)
      <==> var t := TurnedPoint(r, plus, q);
           (t in s && !In(t, r)) || (In(t, bounds) && In(q, r) && q in s)
  {
    hide Half;
    var p, t := Sub(q, r.origin), TurnedPoint(r, plus, q);
    assert Sub(p, Sub(Point(0, 0), r.origin)) == q;
  }

  // Where a quarter turn about the middle of r takes q, in half points from that middle. Where width and
  // height differ by an odd number the middles cannot be the same, and C division chooses.
  predicate TurnsTo(r: Rect, plus: bool, q: Point, p: Point) {
    var w, h := r.corner.x - r.origin.x, r.corner.y - r.origin.y;
    var dx, dy := 2 * q.x + 1 - (r.origin.x + r.corner.x), 2 * q.y + 1 - (r.origin.y + r.corner.y);
    var odd := h % 2 - w % 2;
    && 2 * p.x + 1 - (r.origin.x + r.corner.x) == (if plus then 0 - dy else dy) + odd
    && 2 * p.y + 1 - (r.origin.y + r.corner.y) == (if plus then dx else 0 - dx) - odd
  }

  lemma TurnsToOnePoint(r: Rect, plus: bool, q: Point, p: Point)
    requires In(q, r)
    ensures TurnsTo(r, plus, q, p) <==> p == TurnedPoint(r, plus, q)
  {
    var w, h := HorSize(r), VerSize(r);
    assert Half(w) == w / 2 && Half(h) == h / 2;
    assert w == w / 2 * 2 + w % 2 && h == h / 2 * 2 + h % 2;
  }

  /** A turn leaves what is outside the rectangle, and takes each lit point in it by a quarter about its
      middle: with width and height of the same parity exactly, and otherwise half a point off. */
  lemma TurnsAboutMiddle(s: iset<Point>, bounds: Rect, r: Rect, plus: bool, p: Point)
    ensures p in QuarterTurn(s, bounds, r, plus)
      <==> (p in s && !In(p, r)) || (In(p, bounds) && exists q :: q in s && In(q, r) && TurnsTo(r, plus, q, p))
  {
    hide QuarterTurn, TurnedPoint, TurnedRect, TurnsTo;
    var q := TurnedPoint(TurnedRect(r), !plus, p);
    TurnedPointInverse(TurnedRect(r), !plus, p);
    TurnedPointInverse(r, plus, q);
    QuarterTurnAt(s, bounds, r, plus, q);
    forall c | In(c, r)
      ensures TurnsTo(r, plus, c, p) ==> c == q
    {
      TurnsToOnePoint(r, plus, c, p);
      TurnedPointInverse(r, plus, c);
    }
    if In(q, r) {
      TurnsToOnePoint(r, plus, q, p);
    }
  }

  // A rectangle four by two with a point in its corner.
  lemma CornerTurned()
    ensures var r, bounds := Rect(Point(4, 4), Point(8, 6)), Rect(Point(0, 0), Point(16, 16));
      && Point(6, 3) in QuarterTurn(iset{Point(4, 4)}, bounds, r, true)
      && Point(5, 6) in QuarterTurn(iset{Point(4, 4)}, bounds, r, false)
  {
    var r, bounds := Rect(Point(4, 4), Point(8, 6)), Rect(Point(0, 0), Point(16, 16));
    assert TurnsTo(r, true, Point(4, 4), Point(6, 3)) && TurnsTo(r, false, Point(4, 4), Point(5, 6));
    TurnsAboutMiddle(iset{Point(4, 4)}, bounds, r, true, Point(6, 3));
    TurnsAboutMiddle(iset{Point(4, 4)}, bounds, r, false, Point(5, 6));
  }

  /** Turning one way and the result the other way restores the picture exactly when nothing was
      lit in the part of the turned rectangle that lies outside the original one, and no lit point
      was turned out of the picture. */
  lemma OppositeTurns(s: iset<Point>, bounds: Rect, r: Rect, plus: bool)
    requires forall q :: q in s ==> In(q, bounds)
    ensures QuarterTurn(QuarterTurn(s, bounds, r, plus), bounds, TurnedRect(r), !plus) == s
      <==> s * (Area(TurnedRect(r)) - Area(r)) == iset{}
           && forall q :: q in s && In(q, r) ==> In(TurnedPoint(r, plus, q), bounds)
  {
    hide QuarterTurn, TurnedPoint, TurnedRect;
    var t, there := TurnedRect(r), QuarterTurn(s, bounds, r, plus);
    var back, lost := QuarterTurn(there, bounds, t, !plus), s * (Area(t) - Area(r));
    forall q
      ensures q in back <==>
        if In(q, r) then In(q, bounds) && (TurnedPoint(r, plus, q) in lost || (q in s && In(TurnedPoint(r, plus, q), bounds)))
        else q in s && q !in lost
    {
      TurnBackAt(s, bounds, r, plus, q);
    }
    forall q | q in lost
      ensures q in s && q !in back
    {
    }
    forall q | q in s && In(q, r) && !In(TurnedPoint(r, plus, q), bounds)
      ensures q !in back
    {
    }
  }

  lemma TurnBackAt(s: iset<Point>, bounds: Rect, r: Rect, plus: bool, q: Point)
    requires forall q :: q in s ==> In(q, bounds)
    ensures var t, m := TurnedRect(r), TurnedPoint(r, plus, q);
      q in QuarterTurn(QuarterTurn(s, bounds, r, plus), bounds, t, !plus)
      <==> if In(q, r) then In(q, bounds) && (m in s * (Area(t) - Area(r)) || (q in s && In(m, bounds)))
           else q in s && q !in s * (Area(t) - Area(r))
  {
    hide QuarterTurn, TurnedPoint, TurnedRect;
    var there, m := QuarterTurn(s, bounds, r, plus), TurnedPoint(r, plus, q);
    TurnedPointInverse(r, plus, q);
    QuarterTurnAt(s, bounds, r, plus, q);
    QuarterTurnAt(there, bounds, TurnedRect(r), !plus, m);
    var w := TurnedPoint(TurnedRect(r), !plus, q);
    TurnedPointInverse(TurnedRect(r), !plus, q);
    QuarterTurnAt(s, bounds, r, plus, w);
  }

  /** A reflection undoes itself exactly when every lit point of the rectangle has its mirror image
      inside the picture, as it has when the rectangle is. */
  lemma ReflectTwice(s: iset<Point>, bounds: Rect, r: Rect, acrossX: bool)
    requires forall q :: q in s ==> In(q, bounds)
    ensures Mirrored(Mirrored(s, bounds, r, acrossX, Area(r)), bounds, r, acrossX, Area(r)) == s
      <==> forall q :: q in s * Area(r) ==> In(Mirror(r, acrossX, q), bounds)
  {
    var once := Mirrored(s, bounds, r, acrossX, Area(r));
    var twice := Mirrored(once, bounds, r, acrossX, Area(r));
    forall q
      ensures q in twice <==> q in s && (In(q, r) ==> In(Mirror(r, acrossX, q), bounds))
    {
      MirrorTwiceAt(s, bounds, r, acrossX, q);
    }
    hide Mirrored, Mirror;
  }

  lemma MirrorTwiceAt(s: iset<Point>, bounds: Rect, r: Rect, acrossX: bool, q: Point)
    requires forall q :: q in s ==> In(q, bounds)
    ensures q in Mirrored(Mirrored(s, bounds, r, acrossX, Area(r)), bounds, r, acrossX, Area(r))
      <==> q in s && (In(q, r) ==> In(Mirror(r, acrossX, q), bounds))
  {
    assert Mirror(r, acrossX, Mirror(r, acrossX, q)) == q;
  }

  /** On a square, two quarter turns the same way are the two reflections together. */
  lemma TwoTurnsReflect(s: iset<Point>, bounds: Rect, r: Rect, plus: bool)
    requires forall q :: q in s ==> In(q, bounds)
    requires Contains(bounds, r) && HorSize(r) == VerSize(r)
    ensures QuarterTurn(QuarterTurn(s, bounds, r, plus), bounds, r, plus)
      == Mirrored(Mirrored(s, bounds, r, true, Area(r)), bounds, r, false, Area(r))
  {
    hide QuarterTurn, Mirrored;
    forall q
      ensures q in QuarterTurn(QuarterTurn(s, bounds, r, plus), bounds, r, plus)
        <==> if In(q, r) then Mirror(r, true, Mirror(r, false, q)) in s else q in s
      ensures q in Mirrored(Mirrored(s, bounds, r, true, Area(r)), bounds, r, false, Area(r))
        <==> if In(q, r) then Mirror(r, true, Mirror(r, false, q)) in s else q in s
    {
      HalfTurnAt(s, bounds, r, plus, q);
      ReflectBothAt(s, bounds, r, q);
    }
  }

  lemma HalfTurnAt(s: iset<Point>, bounds: Rect, r: Rect, plus: bool, q: Point)
    requires forall q :: q in s ==> In(q, bounds)
    requires Contains(bounds, r) && HorSize(r) == VerSize(r)
    ensures q in QuarterTurn(QuarterTurn(s, bounds, r, plus), bounds, r, plus)
      <==> if In(q, r) then Mirror(r, true, Mirror(r, false, q)) in s else q in s
  {
    hide QuarterTurn;
    var there := QuarterTurn(s, bounds, r, plus);
    var one := TurnedPoint(r, !plus, q);
    var two := TurnedPoint(r, !plus, one);
    assert TurnedRect(r) == r;
    TurnedPointInverse(r, !plus, q);
    TurnedPointInverse(r, !plus, one);
    QuarterTurnAt(there, bounds, r, plus, one);
    QuarterTurnAt(s, bounds, r, plus, two);
    QuarterTurnAt(s, bounds, r, plus, one);
  }

  lemma ReflectBothAt(s: iset<Point>, bounds: Rect, r: Rect, q: Point)
    requires forall q :: q in s ==> In(q, bounds)
    requires Contains(bounds, r)
    ensures q in Mirrored(Mirrored(s, bounds, r, true, Area(r)), bounds, r, false, Area(r))
        <==> if In(q, r) then Mirror(r, true, Mirror(r, false, q)) in s else q in s
  {
  }

  // The editing commands, with the rectangle and the place that the mouse gave them.
  datatype Edit =
    | Erase(r: Rect)
    | Invert(r: Rect)
    | Reflect(r: Rect, acrossX: bool)
    | Turn(r: Rect, plus: bool)
    | Blit(r: Rect, to: Point, srccode: IconCode, dstcode: IconCode)

  ghost function Effect(e: Edit, s: iset<Point>, bounds: Rect): iset<Point> {
    match e
    case Erase(r) => s - Area(r)
    case Invert(r) => SymDiff(s, Area(r) * Area(bounds))
    case Reflect(r, acrossX) => Mirrored(s, bounds, r, acrossX, Area(r))
    case Turn(r, plus) => QuarterTurn(s, bounds, r, plus)
    case Blit(r, to, srccode, dstcode) => Blitted(s, bounds, r, Sub(to, r.origin), bounds, srccode, dstcode, Area(r))
  }

  method Apply(editor: Editor, e: Edit)
    requires editor.Valid() && (e.Turn? ==> Contains(Bounds(editor.source), e.r))
    modifies editor.source, editor.screen, editor.undo
    ensures editor.Valid()
    ensures editor.Pic() == Effect(e, old(editor.Pic()), Bounds(editor.source)) && Lit(editor.undo) == old(editor.Pic())
  {
    hide Mirrored, QuarterTurn, Blitted, Lit;
    match e
    case Erase(r) => editor.OpErase(r);
    case Invert(r) => editor.OpInvert(r);
    case Reflect(r, acrossX) => if acrossX { editor.OpReflX(r); } else { editor.OpReflY(r); }
    case Turn(r, plus) => if plus { editor.OpRotPlus(r); } else { editor.OpRotMinus(r); }
    case Blit(r, to, srccode, dstcode) =>
      editor.SaveForUndo();
      editor.IconBitBlit(r, to, Bounds(editor.source), srccode, dstcode);
  }

  /** After any run of edits one undo takes back the last of them, and a second brings it back. */
  method EditsThenUndo(editor: Editor, edits: seq<Edit>, last: Edit, again: bool)
    requires editor.Valid()
    requires forall e | e in edits + [last] :: e.Turn? ==> Contains(Bounds(editor.source), e.r)
    modifies editor.source, editor.screen, editor.undo
    ensures editor.Valid()
    ensures editor.Pic() == Effects(if again then edits + [last] else edits, old(editor.Pic()), Bounds(editor.source))
  {
    hide Effect;
    ghost var was, bounds := editor.Pic(), Bounds(editor.source);
    assert edits[..0] == [];
    var k := 0;
    while k < |edits|
      invariant 0 <= k <= |edits| && editor.Valid()
      invariant editor.Pic() == Effects(edits[..k], was, bounds)
    {
      Apply(editor, edits[k]);
      assert edits[..k + 1][..k] == edits[..k];
      k := k + 1;
    }
    assert edits[..k] == edits && (edits + [last])[..k] == edits;
    Apply(editor, last);
    editor.OpUndo();
    if again {
      editor.OpUndo();
    }
  }

  ghost function Effects(edits: seq<Edit>, s: iset<Point>, bounds: Rect): iset<Point> {
    if edits == [] then s else Effect(edits[|edits| - 1], Effects(edits[..|edits| - 1], s, bounds), bounds)
  }
}
