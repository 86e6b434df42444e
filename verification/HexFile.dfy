/** The icon editor's hexadecimal picture files: the buffered writer and the loader. */
module HexFile {
  import opened Arithmetic
  import opened Raster
  import opened Icon

  const BUFSIZE: nat := 100
  const EXA: string := "0123456789ABCDEF"

  function Weight(bit: bool, mask: nat): nat { if bit then mask else 0 }

  ghost function NibbleChar(s: iset<Point>, p: Point): char {
    EXA[Weight(p in s, 8) + Weight(Point(p.x + 1, p.y) in s, 4) + Weight(Point(p.x + 2, p.y) in s, 2)
        + Weight(Point(p.x + 3, p.y) in s, 1)]
  }

  // Sixteen points of a row, and the rest of the row from there.
  ghost function HexWord(s: iset<Point>, i: int, j: int): string {
    ['0', 'x', NibbleChar(s, Point(i, j)), NibbleChar(s, Point(i + 4, j)),
     NibbleChar(s, Point(i + 8, j)), NibbleChar(s, Point(i + 12, j)), ',']
  }

  ghost function HexRow(s: iset<Point>, r: Rect, i: int, j: int): string
    decreases r.corner.x - i
  {
    if i >= r.corner.x then [] else HexWord(s, i, j) + HexRow(s, r, i + 16, j)
  }

  ghost function HexRows(s: iset<Point>, r: Rect, j: int): string
    decreases r.corner.y - j
  {
    if j >= r.corner.y then [] else HexRow(s, r, r.origin.x, j) + ['\n'] + HexRows(s, r, j + 1)
  }

  /** The writer's buffer: characters leave for the file in null-terminated bursts. */
  class Writer {
    const buffer: array<char>
    var bufend: nat
    var file: string

    ghost predicate Valid()
      reads this, buffer
    {
      buffer.Length == BUFSIZE && bufend <= BUFSIZE - 3 && forall k :: 0 <= k < bufend ==> buffer[k] != '\0'
    }

    ghost function Written(): string
      reads this, buffer
      requires Valid()
    {
      file + buffer[..bufend]
    }

    constructor ()
      ensures Valid() && Written() == [] == file && fresh(buffer)
    {
      buffer := new char[BUFSIZE];
      bufend := 0;
      file := [];
    }

    ghost predicate FirstNull(n: int)
      reads buffer
    {
      0 <= n < buffer.Length && buffer[n] == '\0' && forall k :: 0 <= k < n ==> buffer[k] != '\0'
    }

    // The library's fputs writes up to the first null character.
    method Fputs()
      requires exists k :: 0 <= k < buffer.Length && buffer[k] == '\0'
      modifies this`file
      ensures exists n :: FirstNull(n) && file == old(file) + buffer[..n]
    {
      var n := 0;
      while buffer[n] != '\0'
        invariant 0 <= n < buffer.Length && forall k :: 0 <= k < n ==> buffer[k] != '\0'
        invariant exists k :: n <= k < buffer.Length && buffer[k] == '\0'
        invariant file == old(file) + buffer[..n]
        decreases buffer.Length - n
      {
        file := file + [buffer[n]];
        assert buffer[..n + 1] == buffer[..n] + [buffer[n]];
        n := n + 1;
      }
      assert FirstNull(n);
    }

    method BSend()
      requires Valid()
      modifies this, buffer
      ensures Valid() && Written() == old(Written()) == file
    {
      buffer[bufend] := '\0';
      assert buffer[..bufend] == old(buffer[..bufend]);
      Fputs();
      ghost var n :| FirstNull(n) && file == old(file) + buffer[..n];
      assert n == bufend;
      bufend := 0;
      assert buffer[..bufend] == [];
    }

    method BPutc(c: char)
      requires Valid() && c != '\0'
      modifies this, buffer
      ensures Valid() && Written() == old(Written()) + [c]
    {
      if bufend >= BUFSIZE - 3 {
        BSend();
      }
      buffer[bufend] := c;
      bufend := bufend + 1;
      assert buffer[..bufend] == buffer[..bufend - 1] + [c];
    }
  }

  method GetNibble(b: array2<bool>, p: Point) returns (c: char)
    ensures c == NibbleChar(Lit(b), p) && c != '\0'
  {
    var b0 := Bit(b, p);
    var b1 := Bit(b, Point(p.x + 1, p.y));
    var b2 := Bit(b, Point(p.x + 2, p.y));
    var b3 := Bit(b, Point(p.x + 3, p.y));
    c := EXA[Weight(b0, 8) + Weight(b1, 4) + Weight(b2, 2) + Weight(b3, 1)];
  }

  /** The chunks in which the buffer is sent leave no trace in the file. */
  method WriteHex(source: array2<bool>, r: Rect) returns (text: string)
    ensures text == HexRows(Lit(source), r, r.origin.y)
  {
    hide Lit, HexRow, Writer.Written;
    var w := new Writer();
    ghost var s := Lit(source);
    var j := r.origin.y;
    while j < r.corner.y
      invariant w.Valid() && fresh(w) && fresh(w.buffer) && w.file == w.Written()
      invariant w.Written() + HexRows(s, r, j) == HexRows(s, r, r.origin.y)
    {
      ghost var before := w.Written();
      WriteRow(w, source, r, j);
      w.BPutc('\n');
      w.BSend();
      assert before + HexRows(s, r, j) == w.Written() + HexRows(s, r, j + 1);
      j := j + 1;
    }
    text := w.file;
  }

  method WriteRow(w: Writer, source: array2<bool>, r: Rect, j: int)
    requires w.Valid()
    modifies w, w.buffer
    ensures w.Valid() && w.Written() == old(w.Written()) + HexRow(Lit(source), r, r.origin.x, j)
  {
    hide Lit, HexWord, Writer.Written;
    ghost var s, was := Lit(source), w.Written();
    var i := r.origin.x;
    while i < r.corner.x
      invariant w.Valid() && w.Written() + HexRow(s, r, i, j) == was + HexRow(s, r, r.origin.x, j)
    {
      ghost var before := w.Written();
      PutWord(w, source, i, j);
      assert before + HexRow(s, r, i, j) == w.Written() + HexRow(s, r, i + 16, j);
      i := i + 16;
    }
  }

  method PutWord(w: Writer, source: array2<bool>, i: int, j: int)
    requires w.Valid()
    modifies w, w.buffer
    ensures w.Valid() && w.Written() == old(w.Written()) + HexWord(Lit(source), i, j)
  {
    hide Lit, NibbleChar, Writer.Written, Writer.Valid;
    ghost var was := w.Written();
    w.BPutc('0');
    w.BPutc('x');
    assert w.Written() == was + ['0', 'x'];
    var c0 := GetNibble(source, Point(i, j));
    w.BPutc(c0);
    assert w.Written() == was + ['0', 'x', c0];
    var c1 := GetNibble(source, Point(i + 4, j));
    w.BPutc(c1);
    assert w.Written() == was + ['0', 'x', c0, c1];
    var c2 := GetNibble(source, Point(i + 8, j));
    w.BPutc(c2);
    assert w.Written() == was + ['0', 'x', c0, c1, c2];
    var c3 := GetNibble(source, Point(i + 12, j));
    w.BPutc(c3);
    assert w.Written() == was + ['0', 'x', c0, c1, c2, c3];
    w.BPutc(',');
    assert w.Written() == was + ['0', 'x', c0, c1, c2, c3, ','];
  }

  const EOF: int := -1

  // The character that getc gives k characters on; past the end it keeps giving EOF.
  function At(rest: string, k: nat): int { if k < |rest| then rest[k] as int else EOF }

  function Drop(rest: string, k: nat): (after: string)
    ensures |after| <= |rest| && (k > 0 && rest != [] ==> |after| < |rest|)
  {
    if k <= |rest| then rest[k..] else []
  }

  // What putnibble makes of a character, in two's complement when it is no digit.
  function NibbleOf(ch: int): int {
    if ch < '0' as int then 0
    else if ch <= '9' as int then ch - '0' as int
    else if ch <= 'F' as int then 10 + ch - 'A' as int
    else 10 + ch - 'a' as int
  }

  predicate BitOf(nibble: int, k: int) {
    if k == 0 then nibble / 8 % 2 == 1 else if k == 1 then nibble / 4 % 2 == 1
    else if k == 2 then nibble / 2 % 2 == 1 else k == 3 && nibble % 2 == 1
  }

  ghost function WithNibble(ch: int, lit: iset<Point>, clip: Rect, p: Point): iset<Point> {
    lit + iset q: Point | In(q, clip) && q.y == p.y && BitOf(NibbleOf(ch), q.x - p.x)
  }

  ghost function WithWord(rest: string, lit: iset<Point>, clip: Rect, i: int, j: int): iset<Point> {
    WithNibble(At(rest, 4), WithNibble(At(rest, 3), WithNibble(At(rest, 2), WithNibble(At(rest, 1), lit, clip,
      Point(i, j)), clip, Point(i + 4, j)), clip, Point(i + 8, j)), clip, Point(i + 12, j))
  }

  function Spaces(rest: string): (n: nat)
    ensures n <= |rest| && (n < |rest| ==> rest[n] != ' ')
  {
    if rest != [] && rest[0] == ' ' then 1 + Spaces(rest[1..]) else 0
  }

  datatype Loaded = Loaded(lit: iset<Point>, xsize: int, ysize: int)

  /** What the loader makes of the characters after a leading 0, with the cursor at (i, j). */
  ghost function Load(rest: string, lit: iset<Point>, clip: Rect, i: int, j: int, xsize: int): Loaded
    decreases |rest|
  {
    var now, tail := WithWord(rest, lit, clip, i, j), Drop(rest, 6);
    var n := Spaces(tail);
    var ch := At(tail, n);
    if ch == EOF then Loaded(now, xsize, j)
    else if ch == '\n' as int then Load(Drop(Drop(tail, n + 1), 1), now, clip, 0, j + 1, Max(xsize, i + 16))
    else Load(Drop(tail, n + 1), now, clip, i + 16, j, xsize)
  }

  lemma LoadOnce(rest: string, lit: iset<Point>, clip: Rect, i: int, j: int, xsize: int)
    ensures var now, tail := WithWord(rest, lit, clip, i, j), Drop(rest, 6);
      var ch := At(tail, Spaces(tail));
      var onward := Drop(tail, Spaces(tail) + 1);
      Load(rest, lit, clip, i, j, xsize)
      == if ch == EOF then Loaded(now, xsize, j)
         else if ch == '\n' as int then Load(Drop(onward, 1), now, clip, 0, j + 1, Max(xsize, i + 16))
         else Load(onward, now, clip, i + 16, j, xsize)
  {
    hide WithWord;
  }

  method GetC(text: string, pos: nat) returns (ch: int, next: nat)
    requires pos <= |text|
    ensures pos <= next <= |text| && ch == At(text[pos..], 0) && text[next..] == Drop(text[pos..], 1)
  {
    ch, next := if pos < |text| then (text[pos] as int) else EOF, if pos < |text| then pos + 1 else pos;
  }

  method PutNibble(ch: int, b: array2<bool>, p: Point)
    modifies b
    ensures Lit(b) == WithNibble(ch, old(Lit(b)), Bounds(b), p)
  {
    hide Lit;
    LitInBounds(b);
    if ch >= '0' as int {
      var nibble := NibbleOf(ch);
      ghost var was := Lit(b);
      var k := 0;
      while k < 4
        invariant 0 <= k <= 4
        invariant Lit(b) == was + iset q: Point | In(q, Bounds(b)) && q.y == p.y && q.x < p.x + k && BitOf(nibble, q.x - p.x)
      {
        if BitOf(nibble, k) && In(Point(p.x + k, p.y), Bounds(b)) {
          PointF(b, Point(p.x + k, p.y), OR);
        }
        k := k + 1;
      }
    }
  }

  method ReadWord(text: string, pos: nat, b: array2<bool>, i: int, j: int) returns (next: nat)
    requires pos <= |text|
    modifies b
    ensures pos <= next <= |text| && text[next..] == Drop(text[pos..], 6)
    ensures Lit(b) == WithWord(text[pos..], old(Lit(b)), Bounds(b), i, j)
  {
    hide Lit, WithNibble;
    var ch, p := GetC(text, pos);
    ch, p := GetC(text, p);
    PutNibble(ch, b, Point(i, j));
    ch, p := GetC(text, p);
    PutNibble(ch, b, Point(i + 4, j));
    ch, p := GetC(text, p);
    PutNibble(ch, b, Point(i + 8, j));
    ch, p := GetC(text, p);
    PutNibble(ch, b, Point(i + 12, j));
    ch, next := GetC(text, p);
  }

  method SkipSpaces(text: string, pos: nat) returns (ch: int, next: nat)
    requires pos <= |text|
    ensures pos <= next <= |text| && (ch != EOF ==> pos < next)
    ensures var n := Spaces(text[pos..]); ch == At(text[pos..], n) && text[next..] == Drop(text[pos..], n + 1)
  {
    ch, next := GetC(text, pos);
    ghost var start := pos;
    while ch == ' ' as int
      invariant pos <= start <= next <= |text| && (ch != EOF ==> start < next)
      invariant ch == At(text[start..], 0) && text[next..] == Drop(text[start..], 1)
      invariant Spaces(text[pos..]) == start - pos + Spaces(text[start..])
      decreases |text| - start
    {
      assert text[start..][1..] == text[start + 1..];
      start := start + 1;
      ch, next := GetC(text, next);
    }
  }

  /** The loader's branch for files that start with a 0, on any such text whatever. */
  method LoadHex(text: string, bitmap: array2<bool>) returns (rect: Rect)
    requires text != [] && text[0] == '0'
    modifies bitmap
    ensures var loaded := Load(text[1..], old(Lit(bitmap)), Bounds(bitmap), 0, 0, 0);
      Lit(bitmap) == loaded.lit && rect == Rect(Point(0, 0), Point(loaded.xsize, loaded.ysize))
  {
    hide Lit, WithWord, Load, Drop, Spaces;
    ghost var clip, all := Bounds(bitmap), Load(text[1..], Lit(bitmap), Bounds(bitmap), 0, 0, 0);
    var i, j, xsize, pos := 0, 0, 0, 1;
    while true
      invariant pos <= |text| && Load(text[pos..], Lit(bitmap), clip, i, j, xsize) == all
      decreases |text| - pos
    {
      LoadOnce(text[pos..], Lit(bitmap), clip, i, j, xsize);
      pos := ReadWord(text, pos, bitmap, i, j);
      i := i + 16;
      var ch, next := SkipSpaces(text, pos);
      pos := next;
      if ch == '\n' as int {
        xsize := Max(xsize, i);
        i := 0;
        j := j + 1;
        ch, pos := GetC(text, pos);
      } else if ch == EOF {
        break;
      }
    }
    rect := Rect(Point(0, 0), Point(xsize, j));
  }

  // From the first of two characters on, or nothing when neither comes.
  function Sought(rest: string, a: char, b: char): (from: string)
    ensures |from| <= |rest|
  {
    if rest == [] || rest[0] == a || rest[0] == b then rest else Sought(rest[1..], a, b)
  }

  /** What the loader makes of a texture, sixteen words each after an x, from row j on. */
  ghost function Texture(rest: string, lit: iset<Point>, clip: Rect, j: int): iset<Point>
    decreases 16 - j
  {
    if j >= 16 then lit else
    var from := Sought(rest, 'x', 'X');
    Texture(Drop(from, 5), WithWord(from, lit, clip, 0, j), clip, j + 1)
  }

  /** What the loader makes of any file: hexadecimal words if it starts with a 0, and otherwise a
      texture after the opening brace. */
  ghost function FromFile(text: string, lit: iset<Point>, clip: Rect): Loaded {
    if text != [] && text[0] == '0' then Load(text[1..], lit, clip, 0, 0, 0)
    else Loaded(Texture(Drop(Sought(text, '{', '{'), 1), lit, clip, 0), 16, 16)
  }

  method Seek(text: string, pos: nat, a: char, b: char) returns (next: nat)
    requires pos <= |text|
    ensures pos <= next <= |text| && text[next..] == Drop(Sought(text[pos..], a, b), 1)
  {
    var ch: int;
    ghost var start := pos;
    ch, next := GetC(text, pos);
    while ch != a as int && ch != b as int && ch != EOF
      invariant pos <= start <= next <= |text|
      invariant ch == At(text[start..], 0) && text[next..] == Drop(text[start..], 1)
      invariant Sought(text[pos..], a, b) == Sought(text[start..], a, b)
      decreases |text| - start
    {
      assert text[start..][1..] == text[start + 1..];
      start := start + 1;
      ch, next := GetC(text, next);
    }
  }

  method LoadTexture(text: string, start: nat, bitmap: array2<bool>)
    requires start <= |text|
    modifies bitmap
    ensures Lit(bitmap) == Texture(text[start..], old(Lit(bitmap)), Bounds(bitmap), 0)
  {
    hide Lit, WithNibble, Sought;
    ghost var clip, all := Bounds(bitmap), Texture(text[start..], Lit(bitmap), Bounds(bitmap), 0);
    var j, pos, ch := 0, start, 0;
    while j < 16
      invariant 0 <= j <= 16 && pos <= |text|
      invariant Texture(text[pos..], Lit(bitmap), clip, j) == all
    {
      ghost var from := Sought(text[pos..], 'x', 'X');
      pos := Seek(text, pos, 'x', 'X');
      ch, pos := GetC(text, pos);
      PutNibble(ch, bitmap, Point(0, j));
      ch, pos := GetC(text, pos);
      PutNibble(ch, bitmap, Point(4, j));
      ch, pos := GetC(text, pos);
      PutNibble(ch, bitmap, Point(8, j));
      ch, pos := GetC(text, pos);
      PutNibble(ch, bitmap, Point(12, j));
      j := j + 1;
    }
  }

  /** The loader, on any file whatever. */
  method OpLoad(text: string, bitmap: array2<bool>) returns (rect: Rect)
    modifies bitmap
    ensures var loaded := FromFile(text, old(Lit(bitmap)), Bounds(bitmap));
      Lit(bitmap) == loaded.lit && rect == Rect(Point(0, 0), Point(loaded.xsize, loaded.ysize))
  {
    hide Lit, Load, Texture;
    if text != [] && text[0] == '0' {
      rect := LoadHex(text, bitmap);
    } else {
      var pos := Seek(text, 0, '{', '{');
      assert text[0..] == text;
      LoadTexture(text, pos, bitmap);
      rect := Rect(Point(0, 0), Point(16, 16));
    }
  }

  /** The sixteen digits, and the value of each with small letters as well as capitals. */
  lemma DigitsInNumbers(n: nat)
    requires n < 16
    ensures EXA[n] == if n < 10 then '0' + n as char else 'A' + (n - 10) as char
    ensures NibbleOf(EXA[n] as int) == n && (n >= 10 ==> NibbleOf('a' as int + n - 10) == n)
    ensures n == Weight(BitOf(n, 0), 8) + Weight(BitOf(n, 1), 4) + Weight(BitOf(n, 2), 2) + Weight(BitOf(n, 3), 1)
    ensures Weight(true, 8) == 8 && Weight(true, 4) == 4 && Weight(true, 2) == 2 && Weight(true, 1) == 1
    ensures forall mask :: Weight(false, mask) == 0
  {
  }

  /** What a digit is written for: four points from left to right, the first weighing most. */
  lemma NibbleInNumbers(s: iset<Point>, p: Point)
    ensures NibbleOf(NibbleChar(s, p) as int) == (if p in s then 8 else 0) + (if Point(p.x + 1, p.y) in s then 4 else 0)
      + (if Point(p.x + 2, p.y) in s then 2 else 0) + (if Point(p.x + 3, p.y) in s then 1 else 0)
  {
    hide NibbleOf;
    var n := Weight(p in s, 8) + Weight(Point(p.x + 1, p.y) in s, 4) + Weight(Point(p.x + 2, p.y) in s, 2)
             + Weight(Point(p.x + 3, p.y) in s, 1);
    DigitsInNumbers(n);
  }

  /** A word is four such digits, from left to right, between 0x and a comma. */
  lemma WordAsText(s: iset<Point>, i: int, j: int)
    ensures HexWord(s, i, j)
      == "0x" + [NibbleChar(s, Point(i, j)), NibbleChar(s, Point(i + 4, j)), NibbleChar(s, Point(i + 8, j)),
                 NibbleChar(s, Point(i + 12, j))] + ","
  {
    hide NibbleChar;
  }

  /** A word's four digits stand for sixteen points from left to right. */
  lemma WordPoints(rest: string, lit: iset<Point>, clip: Rect, i: int, j: int, q: Point)
    ensures q in WithWord(rest, lit, clip, i, j)
      <==> q in lit || (In(q, clip) && q.y == j && i <= q.x < i + 16
                        && BitOf(NibbleOf(At(rest, 1 + (q.x - i) / 4)), (q.x - i) % 4))
  {
    hide NibbleOf, At;
    var x := q.x - i;
    if 0 <= x < 16 {
      assert x == x / 4 * 4 + x % 4 && 0 <= x / 4 < 4;
    }
  }

  // Where the n-th word of a texture begins.
  function WordAt(rest: string, n: nat): string
    decreases n
  {
    var from := Sought(rest, 'x', 'X');
    if n == 0 then from else WordAt(Drop(from, 5), n - 1)
  }

  /** A word starts at the first x, small or capital, and the next is looked for behind its four digits. */
  lemma WordIs(before: string, word: string, rest: string, n: nat)
    requires 'x' !in before && 'X' !in before && |word| == 5 && (word[0] == 'x' || word[0] == 'X')
    ensures WordAt(before + word + rest, 0) == word + rest
    ensures WordAt(before + word + rest, n + 1) == WordAt(rest, n)
  {
    hide Sought;
    assert before + word + rest == before + (word + rest);
    SoughtIs(before, word + rest, 'x', 'X');
    assert (word + rest)[5..] == rest;
  }

  /** Which is read of a file: after a leading 0 hexadecimal words, and otherwise what follows the first brace. */
  lemma FromFileIs(before: string, rest: string, lit: iset<Point>, clip: Rect)
    ensures FromFile("0" + rest, lit, clip) == Load(rest, lit, clip, 0, 0, 0)
    ensures '{' !in before && (before == [] || before[0] != '0') ==>
              FromFile(before + "{" + rest, lit, clip) == Loaded(Texture(rest, lit, clip, 0), 16, 16)
  {
    hide Load, Texture, Sought, Drop;
    assert ("0" + rest)[1..] == rest;
    if '{' !in before {
      assert before + "{" + rest == before + ("{" + rest);
      SoughtIs(before, "{" + rest, '{', '{');
      DropOne('{', rest);
    }
  }

  lemma DropOne(c: char, rest: string)
    ensures Drop([c] + rest, 1) == rest
  {
  }

  lemma {:induction false} SoughtIs(before: string, rest: string, a: char, b: char)
    requires a !in before && b !in before && (rest == [] || rest[0] == a || rest[0] == b)
    ensures Sought(before + rest, a, b) == rest
  {
    if before != [] {
      assert (before + rest)[1..] == before[1..] + rest;
      SoughtIs(before[1..], rest, a, b);
    } else {
      assert before + rest == rest;
    }
  }

  /** The words of a texture are its rows from the top down, sixteen of them. */
  lemma {:induction false} TextureRows(rest: string, lit: iset<Point>, clip: Rect, j: int, q: Point)
    requires 0 <= j <= 16
    ensures q in Texture(rest, lit, clip, j)
      <==> q in lit || (In(q, clip) && j <= q.y < 16 && 0 <= q.x < 16
                        && BitOf(NibbleOf(At(WordAt(rest, q.y - j), 1 + q.x / 4)), q.x % 4))
    decreases 16 - j
  {
    hide NibbleOf, At, BitOf, WithWord, Sought, Drop;
    if j < 16 {
      var from := Sought(rest, 'x', 'X');
      WordPoints(from, lit, clip, 0, j, q);
      TextureRows(Drop(from, 5), WithWord(from, lit, clip, 0, j), clip, j + 1, q);
    }
  }

  /** What is taken for a digit besides: nothing below 0, what follows 9 or F as if it came before A or a;
      and only the last four bits of it count. */
  lemma NoDigitsInNumbers(ch: int, k: int)
    ensures ch < 48 ==> NibbleOf(ch) == 0
    ensures 58 <= ch <= 70 ==> NibbleOf(ch) == ch - 55
    ensures 71 <= ch ==> NibbleOf(ch) == ch - 87
    ensures BitOf(NibbleOf(ch), k) == BitOf(NibbleOf(ch) % 16, k)
  {
    assert '0' as int == 48 && '9' as int == 57 && 'A' as int == 65 && 'F' as int == 70 && 'a' as int == 97;
    LastFourBits(NibbleOf(ch));
  }

  lemma LastFourBits(n: int)
    ensures n % 16 / 8 % 2 == n / 8 % 2 && n % 16 / 4 % 2 == n / 4 % 2 && n % 16 / 2 % 2 == n / 2 % 2 && n % 16 % 2 == n % 2
  {
    var q, r := n / 16, n % 16;
    DivisionParts(n, 16);
    QuotientIs(n, 8, 2 * q + r / 8, r % 8);
    QuotientIs(n, 4, 4 * q + r / 4, r % 4);
    QuotientIs(n, 2, 8 * q + r / 2, r % 2);
    ModShift(r / 8, 2, q);
    ModShift(r / 4, 2, 2 * q);
    ModShift(r / 2, 2, 4 * q);
  }
}
