/** The Tektronix 4014 filter: addresses sent as changes only, and half-line motions. */
module Tek4014 {
  import opened Arithmetic

  const MAXY: int := 3071
  const LINE: int := 47
  const XOFF: int := 248
  const TAB: int := 248
  const GS: int := 29

  // The address bytes last sent, or -1 where none has been.
  datatype Sent = Sent(hy: int, xb: int, ly: int, hx: int)

  // The terminal: the address bytes it remembers, whether the address now coming in has had a
  // low-y byte, and the point it last moved to.
  datatype Term = Term(hy: int, xb: int, ly: int, hx: int, lowSeen: bool, x: int, y: int)

  /** The terminal's rule for one byte. Its top bits say which part it is: a low-y byte after
      another makes the earlier one the extra byte, a high byte after a low-y byte belongs to x,
      and the low-x byte completes the address. */
  function Receive(t: Term, c: int): Term {
    if c == GS then t.(lowSeen := false)
    else if 32 <= c < 64 then if t.lowSeen then t.(hx := c - 32) else t.(hy := c - 32)
    else if 96 <= c < 128 then if t.lowSeen then t.(xb := t.ly, ly := c - 96) else t.(ly := c - 96, lowSeen := true)
    else if 64 <= c < 96 then
      t.(lowSeen := false, x := t.hx * 128 + (c - 64) * 4 + t.xb % 4, y := t.hy * 128 + t.ly * 4 + t.xb / 4)
    else t
  }

  function ReceiveAll(t: Term, bytes: seq<int>): Term
    decreases |bytes|
  {
    if bytes == [] then t else ReceiveAll(Receive(t, bytes[0]), bytes[1..])
  }

  // What was sent last is what the terminal remembers.
  predicate Knows(t: Term, sent: Sent) {
    && (sent.hy == -1 || t.hy == sent.hy) && (sent.xb == -1 || t.xb == sent.xb)
    && (sent.ly == -1 || t.ly == sent.ly) && (sent.hx == -1 || t.hx == sent.hx)
  }

  function Parts(x: int, y: int): Sent {
    Sent(y / 128 % 32, x % 4 + y * 4 % 16, y / 4 % 32, x / 128 % 32)
  }

  function Max0(y: int): int { if y < 0 then 0 else y }

  /** The bytes of a point after `sent`; with nothing sent before, all five. */
  function Address(sent: Sent, x: int, y: int): seq<int> {
    var p := Parts(x, y);
    var b1 := Then([GS], p.hy != sent.hy, p.hy + 32);
    var b2 := Then(b1, p.xb != sent.xb, p.xb + 96);
    var b3 := Then(b2, p.ly != sent.ly || p.hx != sent.hx || p.xb != sent.xb, p.ly + 96);
    Then(b3, p.hx != sent.hx, p.hx + 32) + [x / 4 % 32 + 64]
  }

  function Then(bytes: seq<int>, send: bool, c: int): seq<int> { if send then bytes + [c] else bytes }

  lemma PartsInRange(x: int, y: int)
    ensures var p := Parts(x, y); 0 <= p.hy < 32 && 0 <= p.xb < 16 && 0 <= p.ly < 32 && 0 <= p.hx < 32
    ensures var p := Parts(x, y);
      && p.hx * 128 + x / 4 % 32 * 4 + p.xb % 4 == x % 4096 && p.hy * 128 + p.ly * 4 + p.xb / 4 == y % 4096
  {
    TwelveBits(x);
    TwelveBits(y);
    QuotientIs(y * 4, 16, y / 4, y % 4 * 4);
  }

  lemma TwelveBits(v: int)
    ensures v / 128 % 32 * 128 + v / 4 % 32 * 4 + v % 4 == v % 4096
  {
    var q, s := v / 128, v % 128;
    QuotientIs(v, 4, q * 32 + s / 4, s % 4);
    QuotientIs(v / 4, 32, q, s / 4);
    QuotientIs(v, 4096, q / 32, q % 32 * 128 + s);
  }

  lemma {:induction false} ReceiveParts(t: Term, a: seq<int>, b: seq<int>)
    ensures ReceiveAll(t, a + b) == ReceiveAll(ReceiveAll(t, a), b)
    decreases |a|
  {
    hide Receive;
    if a != [] {
      assert (a + b)[1..] == a[1..] + b;
      ReceiveParts(Receive(t, a[0]), a[1..], b);
    } else {
      assert a + b == b;
    }
  }

  lemma ReceiveThen(t: Term, bytes: seq<int>, send: bool, c: int)
    ensures ReceiveAll(t, Then(bytes, send, c)) == if send then Receive(ReceiveAll(t, bytes), c) else ReceiveAll(t, bytes)
  {
    hide Receive;
    if send {
      ReceiveParts(t, bytes, [c]);
      ReceiveOne(ReceiveAll(t, bytes), c);
    }
  }

  lemma ReceiveOne(t: Term, c: int)
    ensures ReceiveAll(t, [c]) == Receive(t, c)
  {
    hide Receive;
  }

  /** A terminal that remembers what was sent decodes the abbreviated address to the full point,
      modulo the twelve bits of its screen. */
  lemma AddressDecodes(t: Term, sent: Sent, x: int, y: int)
    requires Knows(t, sent)
    ensures var u := ReceiveAll(t, Address(sent, x, y));
      Knows(u, Parts(x, y)) && u.x == x % 4096 && u.y == y % 4096
  {
    hide Parts, ReceiveAll, Receive;
    var p := Parts(x, y);
    PartsInRange(x, y);
    ReceiveOne(t, GS);
    var b1 := Then([GS], p.hy != sent.hy, p.hy + 32);
    var b2 := Then(b1, p.xb != sent.xb, p.xb + 96);
    var low := p.ly != sent.ly || p.hx != sent.hx || p.xb != sent.xb;
    var b3 := Then(b2, low, p.ly + 96);
    var b4 := Then(b3, p.hx != sent.hx, p.hx + 32);
    assert Address(sent, x, y) == Then(b4, true, x / 4 % 32 + 64);
    hide Then, Address;
    ReceiveThen(t, [GS], p.hy != sent.hy, p.hy + 32);
    ReceiveThen(t, b1, p.xb != sent.xb, p.xb + 96);
    ReceiveThen(t, b2, low, p.ly + 96);
    ReceiveThen(t, b3, p.hx != sent.hx, p.hx + 32);
    ReceiveThen(t, b4, true, x / 4 % 32 + 64);
    hide Knows;
    TermsDecode(t, sent, p, x / 4 % 32);
  }

  function Taking(t: Term, send: bool, c: int): Term { if send then Receive(t, c) else t }

  // The same, byte by byte.
  lemma TermsDecode(t: Term, sent: Sent, p: Sent, v: int)
    requires Knows(t, sent) && 0 <= p.hy < 32 && 0 <= p.xb < 32 && 0 <= p.ly < 32 && 0 <= p.hx < 32 && 0 <= v < 32
    ensures var low := p.ly != sent.ly || p.hx != sent.hx || p.xb != sent.xb;
      var t1 := Taking(Receive(t, GS), p.hy != sent.hy, p.hy + 32);
      var t2 := Taking(Taking(t1, p.xb != sent.xb, p.xb + 96), low, p.ly + 96);
      var u := Receive(Taking(t2, p.hx != sent.hx, p.hx + 32), v + 64);
      && Knows(u, p) && u.x == p.hx * 128 + v * 4 + p.xb % 4 && u.y == p.hy * 128 + p.ly * 4 + p.xb / 4
  {
    hide Receive;
    var low := p.ly != sent.ly || p.hx != sent.hx || p.xb != sent.xb;
    var t0 := Receive(t, GS);
    ReceiveKinds(t, 0);
    ReceiveKinds(t0, p.hy);
    var t1 := Taking(t0, p.hy != sent.hy, p.hy + 32);
    assert t1 == t.(hy := p.hy, lowSeen := false);
    ReceiveKinds(t1, p.xb);
    var t2 := Taking(t1, p.xb != sent.xb, p.xb + 96);
    ReceiveKinds(t2, p.ly);
    var t3 := Taking(t2, low, p.ly + 96);
    assert t3 == t1.(xb := p.xb, ly := p.ly, lowSeen := low);
    ReceiveKinds(t3, p.hx);
    var t4 := Taking(t3, p.hx != sent.hx, p.hx + 32);
    assert t4 == t3.(hx := p.hx);
    ReceiveKinds(t4, v);
  }

  // Each kind of byte with its five bits.
  lemma ReceiveKinds(t: Term, v: int)
    requires 0 <= v < 32
    ensures Receive(t, GS) == t.(lowSeen := false)
    ensures Receive(t, v + 32) == if t.lowSeen then t.(hx := v) else t.(hy := v)
    ensures Receive(t, v + 96) == if t.lowSeen then t.(xb := t.ly, ly := v) else t.(ly := v, lowSeen := true)
    ensures Receive(t, v + 64)
      == t.(lowSeen := false, x := t.hx * 128 + v * 4 + t.xb % 4, y := t.hy * 128 + t.ly * 4 + t.xb / 4)
  {
  }

  /** So the abbreviated address and the full one leave the terminal in the same place. */
  lemma AbbreviationIsInvisible(t: Term, sent: Sent, x: int, y: int)
    requires Knows(t, sent)
    ensures var u, full := ReceiveAll(t, Address(sent, x, y)), ReceiveAll(t, Address(Sent(-1, -1, -1, -1), x, y));
      u.x == full.x && u.y == full.y && u.hy == full.hy && u.xb == full.xb && u.ly == full.ly && u.hx == full.hx
  {
    hide Address, ReceiveAll, Parts;
    PartsInRange(x, y);
    AddressDecodes(t, sent, x, y);
    AddressDecodes(t, Sent(-1, -1, -1, -1), x, y);
  }

  // The program's options: the height at which a page ends, the columns of a page and their width,
  // and whether pages are erased.
  datatype Setup = Setup(yyll: int, maxcol: int, coff: int, erase: bool)

  // What is read: a motion, once its escape has been read, or any other character.
  datatype Key = NewLine | FormFeed | Return | Space | Tabulate | BackSpace | LineUp | HalfUp | HalfDown | Other(c: int)

  // A character on a page, at the point where it was written.
  datatype Mark = Mark(x: int, y: int, c: int)

  // The place of the next character, the half line in hand, the left margin, the column, and the pages
  // written so far.
  datatype Cursor = Cursor(xx: int, yy: int, ry: int, xoff: int, ncol: int, pages: seq<seq<Mark>>)

  function Marked(pages: seq<seq<Mark>>, m: Mark): seq<seq<Mark>> {
    if pages == [] then [[m]] else pages[|pages| - 1 := pages[|pages| - 1] + [m]]
  }

  /** The next column, or the next page after the last one. */
  function NextColumn(cur: Cursor, setup: Setup): Cursor {
    var last := cur.ncol >= setup.maxcol;
    var xoff := if !last then cur.xoff + setup.coff else if setup.maxcol > 1 then 0 else XOFF;
    var ncol := if last then 0 else cur.ncol;
    Cursor(xoff, MAXY, cur.ry, xoff, ncol, if ncol == 0 && setup.erase then cur.pages + [[]] else cur.pages)
  }

  function LineFrom(cur: Cursor, setup: Setup, yy: int): Cursor {
    var down := cur.(xx := cur.xoff, yy := yy - LINE);
    if down.yy < setup.yyll then NextColumn(down.(ncol := cur.ncol + 1), setup) else down
  }

  predicate Graphic(c: int) { ' ' as int < c < 127 }

  /** The plain machine: every character is written at the place of the cursor. */
  function Moved(cur: Cursor, setup: Setup, key: Key): Cursor {
    match key
    case FormFeed => LineFrom(cur, setup, 0)
    case NewLine => LineFrom(cur, setup, cur.yy)
    case Return => cur.(xx := cur.xoff)
    case Space => cur.(xx := cur.xx + 31)
    case BackSpace => cur.(xx := cur.xx - 31)
    case Tabulate => cur.(xx := cur.xoff + (Quotient(cur.xx - cur.xoff, TAB) + 1) * TAB)
    case LineUp => cur.(yy := cur.yy + LINE)
    case HalfUp => cur.(yy := cur.yy + Quotient(LINE + cur.ry, 2), ry := Remainder(LINE + cur.ry, 2))
    case HalfDown => cur.(yy := cur.yy - Quotient(LINE - cur.ry, 2), ry := Remainder(-(LINE - cur.ry), 2))
    case Other(c) =>
      var written := if Graphic(c) then Marked(cur.pages, Mark(cur.xx % 4096, Max0(cur.yy) % 4096, c)) else cur.pages;
      cur.(pages := written, xx := if c > ' ' as int then cur.xx + 31 else cur.xx)
  }

  function MovedAll(cur: Cursor, setup: Setup, keys: seq<Key>): Cursor {
    if keys == [] then cur else Moved(MovedAll(cur, setup, keys[..|keys| - 1]), setup, keys[|keys| - 1])
  }

  // The terminal with its screen: whether it takes bytes for an address, whether an escape has just
  // come, and its pages.
  datatype Screen = Screen(term: Term, graph: bool, esc: bool, pages: seq<seq<Mark>>)

  const ESC: int := 27
  const FF: int := 12
  const US: int := 31

  /** The terminal's rule for one byte. */
  function Show(s: Screen, c: int): Screen {
    if s.esc then
      if c == FF then Screen(s.term.(x := 0, y := MAXY), false, false, s.pages + [[]]) else s.(esc := false)
    else if c == ESC then s.(esc := true)
    else if c == US then s.(graph := false)
    else if s.graph || c == GS then s.(term := Receive(s.term, c), graph := true)
    else if Graphic(c) then
      s.(pages := Marked(s.pages, Mark(s.term.x % 4096, s.term.y % 4096, c)), term := s.term.(x := s.term.x + 31))
    else s
  }

  function ShowAll(s: Screen, bytes: seq<int>): Screen {
    if bytes == [] then s else Show(ShowAll(s, bytes[..|bytes| - 1]), bytes[|bytes| - 1])
  }

  lemma {:induction false} ShowParts(s: Screen, a: seq<int>, b: seq<int>)
    ensures ShowAll(s, a + b) == ShowAll(ShowAll(s, a), b)
  {
    hide Show;
    if b != [] {
      assert (a + b)[..|a + b| - 1] == a + b[..|b| - 1];
      ShowParts(s, a, b[..|b| - 1]);
    } else {
      assert a + b == a;
    }
  }

  lemma ShowOne(s: Screen, c: int)
    ensures ShowAll(s, [c]) == Show(s, c)
  {
    hide Show;
    assert [c][..0] == [];
  }

  /** An address reaches the terminal whatever it was doing. */
  lemma {:induction false} ShowAddress(s: Screen, bytes: seq<int>)
    requires !s.esc && bytes != [] && bytes[0] == GS && forall k :: 0 < k < |bytes| ==> 32 <= bytes[k]
    ensures ShowAll(s, bytes) == s.(term := ReceiveAll(s.term, bytes), graph := true)
  {
    hide Receive;
    var n := |bytes| - 1;
    if n == 0 {
      assert bytes == [GS];
      ShowOne(s, GS);
      ReceiveOne(s.term, GS);
    } else {
      ShowAddress(s, bytes[..n]);
      assert bytes == bytes[..n] + [bytes[n]];
      ReceiveParts(s.term, bytes[..n], [bytes[n]]);
      ReceiveOne(ReceiveAll(s.term, bytes[..n]), bytes[n]);
    }
  }

  lemma AddressBytes(sent: Sent, x: int, y: int)
    ensures var bytes := Address(sent, x, y); bytes != [] && bytes[0] == GS && forall k :: 0 < k < |bytes| ==> 32 <= bytes[k]
  {
    hide Parts;
    PartsInRange(x, y);
  }

  class Filter {
    const setup: Setup
    var xx: int
    var yy: int
    var ry: int
    var xoff: int
    var ncol: int
    var alpha: bool
    var sent: Sent
    var out: seq<int>
    // The pages as they ought to come out.
    ghost var pages: seq<seq<Mark>>

    ghost function Cur(): Cursor
      reads this
    {
      Cursor(xx, yy, ry, xoff, ncol, pages)
    }

    /** A terminal that has had the output so far shows the pages as they ought to be and remembers the
        address bytes sent; and when the filter takes it to be writing, it is, at the right place. */
    ghost predicate Follows(s: Screen)
      reads this
    {
      var now := ShowAll(s, out);
      && !now.esc && Knows(now.term, sent) && now.pages == pages
      && (alpha ==> !now.graph && now.term.x % 4096 == xx % 4096 && now.term.y % 4096 == Max0(yy) % 4096)
    }

    constructor (setup: Setup)
      ensures this.setup == setup && out == [] && !alpha && ry == 0 && pages == [[]] && ncol == setup.maxcol
      ensures xx == xoff == XOFF && yy == MAXY && sent == Sent(-1, -1, -1, -1)
    {
      this.setup, xx, xoff := setup, XOFF, XOFF;
      yy, ry, ncol, alpha := MAXY, 0, setup.maxcol, false;
      sent, out, pages := Sent(-1, -1, -1, -1), [], [[]];
    }

    /** Unless the terminal is already writing there, the point goes out, as changes only. */
    method SendPt(a: bool, ghost s: Screen)
      requires Follows(s)
      modifies this`sent, this`alpha, this`out
      ensures Follows(s)
      ensures a ==> out == old(out) && alpha == old(alpha) && sent == old(sent)
      ensures !a ==> !alpha && out == old(out) + Address(old(sent), xx, Max0(yy)) && sent == Parts(xx, Max0(yy))
      ensures !a ==> var now := ShowAll(s, out); now.graph && now.term.x == xx % 4096 && now.term.y == Max0(yy) % 4096
    {
      hide ReceiveAll, Parts, Knows, Address, ShowAll;
      if a {
        return;
      }
      var zz := Max0(yy);
      ghost var now := ShowAll(s, out);
      AddressDecodes(now.term, sent, xx, zz);
      AddressBytes(sent, xx, zz);
      ShowAddress(now, Address(sent, xx, zz));
      ShowParts(s, out, Address(sent, xx, zz));
      var bytes := Changes(sent, xx, zz);
      out := out + bytes;
      sent := Parts(xx, zz);
      alpha := false;
    }

    // The bytes that differ, one after another.
    static method Changes(sent: Sent, x: int, y: int) returns (bytes: seq<int>)
      ensures bytes == Address(sent, x, y)
    {
      hide Parts;
      var p := Parts(x, y);
      bytes := [GS];
      if p.hy != sent.hy {
        bytes := bytes + [p.hy + 32];
      }
      if p.xb != sent.xb {
        bytes := bytes + [p.xb + 96];
      }
      if p.ly != sent.ly || p.hx != sent.hx || p.xb != sent.xb {
        bytes := bytes + [p.ly + 96];
      }
      if p.hx != sent.hx {
        bytes := bytes + [p.hx + 32];
      }
      bytes := bytes + [x / 4 % 32 + 64];
    }

    method PutChar(c: int, ghost s: Screen)
      modifies this`out
      ensures out == old(out) + [c]
      ensures ShowAll(s, out) == Show(ShowAll(s, old(out)), c)
    {
      hide Show;
      ShowParts(s, out, [c]);
      ShowOne(ShowAll(s, out), c);
      out := out + [c];
    }

    /** The next column or page. The remembered bytes are forgotten, so that the whole address goes out. */
    method Init(ghost s: Screen)
      requires Follows(s) && !alpha
      modifies this`xx, this`yy, this`xoff, this`ncol, this`alpha, this`sent, this`out, this`pages
      ensures Follows(s) && !alpha && Cur() == NextColumn(old(Cur()), setup)
      ensures out == old(out) + (if ncol == 0 && setup.erase then [27, 12, 27, 59] else [])
                     + if setup.erase then Address(Sent(-1, -1, -1, -1), xx, MAXY) else []
    {
      hide ShowAll, Knows, Address;
      Forgotten(ShowAll(s, out).term);
      sent := Sent(-1, -1, -1, -1);
      if ncol >= setup.maxcol {
        ncol := 0;
        xoff := if setup.maxcol > 1 then 0 else XOFF;
      } else {
        xoff := xoff + setup.coff;
      }
      xx := xoff;
      yy := MAXY;
      if ncol == 0 && setup.erase {
        NewPage(s);
      }
      SendPt(!setup.erase, s);
    }

    // The page is erased, and the small characters chosen.
    method NewPage(ghost s: Screen)
      requires Follows(s) && !alpha && sent == Sent(-1, -1, -1, -1)
      modifies this`out, this`pages
      ensures Follows(s) && out == old(out) + [27, 12, 27, 59] && pages == old(pages) + [[]]
    {
      hide ShowAll, Knows;
      ghost var sofar := out;
      PutChar(ESC, s);
      PutChar(FF, s);
      PutChar(ESC, s);
      PutChar(';' as int, s);
      pages := pages + [[]];
      Forgotten(ShowAll(s, out).term);
      assert out == sofar + [27, 12, 27, 59];
    }

    static lemma Forgotten(t: Term)
      ensures Knows(t, Sent(-1, -1, -1, -1))
    {
    }

    // A new line, or from the bottom for a form feed, which ends the page.
    method Line(from: int, ghost s: Screen)
      requires Follows(s)
      modifies this`xx, this`yy, this`xoff, this`ncol, this`alpha, this`sent, this`out, this`pages
      ensures Follows(s) && !alpha && Cur() == LineFrom(old(Cur()), setup, from)
      ensures from - LINE >= setup.yyll ==> out == old(out)
      ensures from - LINE < setup.yyll ==>
                out == old(out) + Address(old(sent), old(xoff), 0) + [31] + (if ncol == 0 && setup.erase then [27, 12, 27, 59] else [])
                       + if setup.erase then Address(Sent(-1, -1, -1, -1), xx, MAXY) else []
    {
      hide ShowAll, Knows, Address;
      alpha := false;
      xx := xoff;
      yy := from - LINE;
      if yy < setup.yyll {
        ncol := ncol + 1;
        yy := 0;
        SendPt(false, s);
        PutChar(US, s);
        Init(s);
      }
    }

    /** One character or motion: the cursor moves as it would without the filter, and the terminal shows
        what has been written so far. */
    method Take(key: Key, ghost s: Screen)
      requires Follows(s) && (key.Other? ==> Harmless(key.c))
      modifies this`xx, this`yy, this`ry, this`xoff, this`ncol, this`alpha, this`sent, this`out, this`pages
      ensures Follows(s) && Cur() == Moved(old(Cur()), setup, key)
      ensures !key.FormFeed? && !key.NewLine? && !key.Other? ==> !alpha && out == old(out)
    {
      hide ShowAll, Knows, Address, LineFrom;
      match key {
        case FormFeed => Line(0, s);
        case NewLine => Line(yy, s);
        case Return => xx, alpha := xoff, false;
        case Space => xx, alpha := xx + 31, false;
        case BackSpace => xx, alpha := xx - 31, false;
        case Tabulate =>
          var j := Quotient(xx - xoff, TAB) + 1;
          xx := xx + j * TAB - (xx - xoff);
          alpha := false;
        case LineUp => yy, alpha := yy + LINE, false;
        case HalfUp =>
          yy := yy + Quotient(LINE + ry, 2);
          ry := Remainder(LINE + ry, 2);
          alpha := false;
        case HalfDown =>
          yy := yy - Quotient(LINE - ry, 2);
          ry := Remainder(-(LINE - ry), 2);
          alpha := false;
        case Other(c) => Write(c, s);
      }
    }

    method Write(c: int, ghost s: Screen)
      requires Follows(s) && Harmless(c)
      modifies this`xx, this`alpha, this`sent, this`out, this`pages
      ensures Follows(s) && alpha && Cur() == Moved(old(Cur()), setup, Other(c))
      ensures out == old(out) + (if old(alpha) then [] else old(Address(sent, xx, Max0(yy))) + [31]) + [c]
    {
      hide ShowAll, Knows, Address, Max0;
      SendPt(alpha, s);
      if !alpha {
        PutChar(US, s);
        alpha := true;
      }
      ghost var before := ShowAll(s, out);
      StepRight(before.term.x, xx);
      assert !before.graph && !before.esc && before.pages == pages;
      assert before.term.x % 4096 == xx % 4096 && before.term.y % 4096 == Max0(yy) % 4096;
      PutChar(c, s);
      ghost var after := ShowAll(s, out);
      assert Knows(after.term, sent) by { KnowsRegisters(before.term, after.term, sent); }
      if Graphic(c) {
        pages := Marked(pages, Mark(xx % 4096, Max0(yy) % 4096, c));
      }
      if c > ' ' as int {
        xx := xx + 31;
      }
    }

    /** The end of the input: the terminal is left in the corner, writing. */
    method End(ghost s: Screen)
      requires Follows(s)
      modifies this`xx, this`yy, this`alpha, this`sent, this`out
      ensures !ShowAll(s, out).graph && !ShowAll(s, out).esc && ShowAll(s, out).pages == pages
      ensures out == old(out) + Address(old(sent), xoff, 0) + [31, 27, 59, 31] && xx == 0 && yy == MAXY && !alpha
    {
      hide ShowAll, Knows, Address;
      alpha := false;
      xx, yy := xoff, 0;
      SendPt(false, s);
      ghost var sofar := out;
      PutChar(US, s);
      xx, yy := 0, MAXY;
      PutChar(ESC, s);
      PutChar(';' as int, s);
      PutChar(US, s);
      assert out == sofar + [US, ESC, ';' as int, US];
    }
  }

  // The first column of the first page.
  function Start(setup: Setup): Cursor { NextColumn(Cursor(XOFF, MAXY, 0, XOFF, setup.maxcol, [[]]), setup) }

  lemma KnowsRegisters(t: Term, u: Term, sent: Sent)
    requires Knows(t, sent) && u == t.(x := u.x)
    ensures Knows(u, sent)
  {
  }

  lemma StepRight(a: int, b: int)
    requires a % 4096 == b % 4096
    ensures (a + 31) % 4096 == (b + 31) % 4096
  {
    ModShift(b + 31, 4096, a / 4096 - b / 4096);
  }

  // A character that the terminal writes, or one that it passes over.
  predicate Harmless(c: int) { Graphic(c) || c == 0 || c == 7 }

  /** Filtering is invisible: whatever is read, and whatever the terminal remembered to begin with, its
      pages come out as if every character had been written at the cursor's place. */
  method Run(keys: seq<Key>, setup: Setup, ghost s: Screen) returns (filter: Filter)
    requires !s.esc && s.pages == [[]] && forall k :: 0 <= k < |keys| && keys[k].Other? ==> Harmless(keys[k].c)
    ensures var shown := ShowAll(s, filter.out);
      shown.pages == MovedAll(Start(setup), setup, keys).pages && !shown.graph && !shown.esc
    ensures var n := |filter.out| - 4; n >= 0 && filter.out[n..] == [31, 27, 59, 31]
  {
    hide Knows, Moved, Show;
    filter := new Filter(setup);
    filter.Forgotten(s.term);
    filter.Init(s);
    var k := 0;
    while k < |keys|
      invariant 0 <= k <= |keys| && fresh(filter) && filter.setup == setup && filter.Follows(s)
      invariant filter.Cur() == MovedAll(Start(setup), setup, keys[..k])
    {
      assert keys[..k + 1][..k] == keys[..k];
      filter.Take(keys[k], s);
      k := k + 1;
    }
    assert keys[..k] == keys;
    filter.End(s);
  }

  lemma NextStop(v: int)
    ensures var stop := (Quotient(v, TAB) + 1) * TAB;
      stop % TAB == 0 && v < stop && (stop <= v + TAB <==> v >= 0 || v % TAB == 0)
  {
    ModShift(0, TAB, Quotient(v, TAB) + 1);
    DivisionParts(v, TAB);
    DivisionParts(0 - v, TAB);
    if v < 0 {
      var q, r := (0 - v) / TAB, (0 - v) % TAB;
      assert Quotient(v, TAB) == 0 - q;
      QuotientIs(v, TAB, if r == 0 then 0 - q else 0 - q - 1, if r == 0 then 0 else TAB - r);
    }
  }

  lemma HalfSteps(ry: int)
    requires -1 <= ry <= 1
    ensures var rest := Remainder(LINE + ry, 2); Quotient(LINE + ry, 2) * 2 + rest == LINE + ry && 0 <= rest <= 1
    ensures var rest := Remainder(-(LINE - ry), 2); rest - Quotient(LINE - ry, 2) * 2 == ry - LINE && -1 <= rest <= 0
  {
  }

  // Twice the height, with the half line in hand: what half-line motions must change evenly.
  function HalfLines(cur: Cursor): int { 2 * cur.yy + cur.ry }

  /** What the vertical motions and the tabulator come to. A tab goes to the next stop exactly when it
      is not made left of the margin or is made on a stop. */
  lemma Motions(cur: Cursor, setup: Setup, key: Key)
    requires -1 <= cur.ry <= 1
    ensures var now := Moved(cur, setup, key);
      && -1 <= now.ry <= 1
      && (key.HalfUp? ==> HalfLines(now) == HalfLines(cur) + LINE)
      && (key.HalfDown? ==> HalfLines(now) == HalfLines(cur) - LINE)
      && (key.LineUp? ==> HalfLines(now) == HalfLines(cur) + 2 * LINE)
      && (key.NewLine? && cur.yy - LINE >= setup.yyll ==> HalfLines(now) == HalfLines(cur) - 2 * LINE)
      && (key.Tabulate? ==> (now.xx - cur.xoff) % TAB == 0 && cur.xx < now.xx)
      && (key.Tabulate? ==> (now.xx <= cur.xx + TAB <==> cur.xx - cur.xoff >= 0 || (cur.xx - cur.xoff) % TAB == 0))
  {
    hide Quotient, Remainder;
    NextStop(cur.xx - cur.xoff);
    HalfSteps(cur.ry);
  }

  /** Every motion in points of the screen: characters stand 31 apart and lines 47, tabs are set every 248. */
  lemma MotionsInNumbers(cur: Cursor, setup: Setup, key: Key)
    ensures var now := Moved(cur, setup, key);
      && (key.Return? ==> now == cur.(xx := cur.xoff))
      && (key.Space? ==> now == cur.(xx := cur.xx + 31))
      && (key.BackSpace? ==> now == cur.(xx := cur.xx - 31))
      && (key.LineUp? ==> now == cur.(yy := cur.yy + 47))
      && (key.HalfUp? && cur.ry == 0 ==> now == cur.(yy := cur.yy + 23, ry := 1))
      && (key.HalfDown? && cur.ry == 0 ==> now == cur.(yy := cur.yy - 23, ry := -1))
      && (key.Tabulate? && cur.xx >= cur.xoff ==>
            now == cur.(xx := cur.xx + 248 - (cur.xx - cur.xoff) % 248))
      && (key.NewLine? && cur.yy - 47 >= setup.yyll ==> now == cur.(xx := cur.xoff, yy := cur.yy - 47))
      && (key.FormFeed? && setup.yyll <= -47 ==> now == cur.(xx := cur.xoff, yy := -47))
      && (key.Other? && 33 <= key.c < 127 ==> now.xx == cur.xx + 31 && now.yy == cur.yy)
  {
    var v := cur.xx - cur.xoff;
    DivisionParts(v, 248);
  }

  /** A page end goes to the top of the next column, so many points to the right, or, after the last
      column, of a new page, at its left edge or, with one column, 248 points in. */
  lemma ColumnsInNumbers(cur: Cursor, setup: Setup)
    ensures var now := NextColumn(cur, setup);
      && now.yy == 3071 && now.xx == now.xoff && now.ry == cur.ry
      && (cur.ncol < setup.maxcol ==> now.xoff == cur.xoff + setup.coff && now.ncol == cur.ncol)
      && (cur.ncol >= setup.maxcol ==> now.xoff == (if setup.maxcol > 1 then 0 else 248) && now.ncol == 0)
      && now.pages == if setup.erase && (cur.ncol == 0 || cur.ncol >= setup.maxcol) then cur.pages + [[]] else cur.pages
  {
  }

  /** A character goes on the page at the cursor's point, at the bottom if that is below it; the page wraps
      round after 4096 points. The first page starts with no half line. */
  lemma WrittenAtCursor(cur: Cursor, setup: Setup, c: int)
    requires 33 <= c < 127 && cur.pages != []
    ensures var n := |cur.pages| - 1;
      Moved(cur, setup, Other(c)).pages
      == cur.pages[..n] + [cur.pages[n] + [Mark(cur.xx % 4096, (if cur.yy < 0 then 0 else cur.yy) % 4096, c)]]
    ensures Start(setup).ry == 0
  {
  }

  /** The terminal writes a character at its own point and moves on by 31; a control byte, outside an address,
      starts an escape (27), leaves addresses (31) or starts one (29), and an escape with 12 clears the screen. */
  lemma ShownInNumbers(s: Screen, c: int)
    requires !s.esc && s.pages != []
    ensures Show(s, 27) == s.(esc := true) && Show(s, 31) == s.(graph := false)
    ensures Show(s, 29) == s.(term := s.term.(lowSeen := false), graph := true)
    ensures Show(s.(esc := true), 12) == Screen(s.term.(x := 0, y := 3071), false, false, s.pages + [[]])
    ensures c != 12 ==> Show(s.(esc := true), c) == s
    ensures !s.graph && 33 <= c < 127 ==>
              var n := |s.pages| - 1;
              Show(s, c) == s.(term := s.term.(x := s.term.x + 31),
                               pages := s.pages[..n] + [s.pages[n] + [Mark(s.term.x % 4096, s.term.y % 4096, c)]])
  {
  }

  // The full address of the first place on a page, and what goes out for the same place and a line down.
  lemma FirstAddress()
    ensures Address(Sent(-1, -1, -1, -1), 248, 3071) == [29, 55, 108, 127, 33, 94]
    ensures Address(Sent(23, 12, 31, 1), 248, 3071) == [29, 94]
    ensures Address(Sent(23, 12, 31, 1), 248, 3024) == [29, 96, 116, 94]
  {
    hide Parts;
    FirstParts();
  }

  lemma FirstParts()
    ensures Parts(248, 3071) == Sent(23, 12, 31, 1) && Parts(248, 3024) == Sent(23, 0, 20, 1)
  {
  }

  function Net(keys: seq<Key>): int {
    if keys == [] then 0 else Net(keys[..|keys| - 1]) + if keys[|keys| - 1].HalfUp? then LINE else -LINE
  }

  /** However many half-line motions are made, and in whatever order, the rounding never drifts: an
      even number of equal ones up and down comes back exactly. */
  lemma {:induction false} HalfLineRun(cur: Cursor, setup: Setup, keys: seq<Key>)
    requires -1 <= cur.ry <= 1 && forall k :: 0 <= k < |keys| ==> keys[k].HalfUp? || keys[k].HalfDown?
    ensures var now := MovedAll(cur, setup, keys); HalfLines(now) == HalfLines(cur) + Net(keys) && -1 <= now.ry <= 1
  {
    hide Moved;
    if keys != [] {
      var n := |keys| - 1;
      HalfLineRun(cur, setup, keys[..n]);
      Motions(MovedAll(cur, setup, keys[..n]), setup, keys[n]);
    }
  }

  // Nothing that leaves the line but new lines.
  predicate Level(keys: seq<Key>) {
    forall k :: 0 <= k < |keys| ==>
      !(keys[k].FormFeed? || keys[k].LineUp? || keys[k].HalfUp? || keys[k].HalfDown?)
  }

  function Lines(keys: seq<Key>): nat {
    if keys == [] then 0 else Lines(keys[..|keys| - 1]) + if keys[|keys| - 1].NewLine? then 1 else 0
  }

  // The new lines that a page takes before the one that ends it.
  function Room(setup: Setup): int { (MAXY - setup.yyll) / LINE }

  /** A page of text holds as many lines as fit above its end, and the next new line goes to the top of
      the next column or page. */
  lemma {:induction false} PageFills(cur: Cursor, setup: Setup, keys: seq<Key>)
    requires cur.yy == MAXY && Level(keys) && Lines(keys) <= Room(setup)
    ensures var now := MovedAll(cur, setup, keys);
      && now.yy == MAXY - LINE * Lines(keys) && now.ncol == cur.ncol && (cur.pages != [] ==> |now.pages| == |cur.pages|)
    ensures var now := MovedAll(cur, setup, keys);
      Moved(now, setup, NewLine)
      == if Lines(keys) < Room(setup) then now.(xx := now.xoff, yy := now.yy - LINE)
         else NextColumn(now.(xx := now.xoff, yy := now.yy - LINE, ncol := now.ncol + 1), setup)
  {
    if keys != [] {
      var n := |keys| - 1;
      PageFills(cur, setup, keys[..n]);
    }
  }

  /** With the page length given in lines, that is the number of lines on a page; without, 66. */
  lemma LinesPerPage(setup: Setup, n: nat)
    requires setup.yyll == MAXY + 1 - n * LINE || (n == 66 && setup.yyll == -1)
    ensures Room(setup) == n - 1
  {
  }

  /** The characters that are written, and those that may come besides. */
  lemma CharactersInNumbers(c: int)
    ensures Graphic(c) <==> 33 <= c <= 126
    ensures Harmless(c) <==> 33 <= c <= 126 || c == 0 || c == 7
  {
  }
}
