/** The portable archive format: sixty-byte headers of left-justified text fields, each member
    filled up to an even length. */
module ArFormat {
  import opened Arithmetic
  import opened CStrings

  const ARMAG: string := "!<arch>\n"
  const ARFMAG: string := "`\n"
  const SAR_HDR: nat := 60
  const NAMESIZE: nat := 16

  datatype Member = Member(name: string, date: nat, uid: nat, gid: nat, mode: nat, data: string)

  datatype Lar = Lar(name: string, date: nat, uid: nat, gid: nat, mode: nat, size: nat)

  predicate DigitOf(c: char, radix: nat) { '0' as int <= c as int < '0' as int + radix }

  function Digit(n: nat): char
    requires n < 10
  {
    ('0' as int + n) as char
  }

  // The digits of a number, as printf writes them.
  function Printed(n: nat, radix: nat): (s: string)
    requires 2 <= radix <= 10
    ensures s != [] && forall k :: 0 <= k < |s| ==> DigitOf(s[k], radix)
  {
    if n < radix then [Digit(n)]
    else
      DivMod(n, radix);
      Printed(n / radix, radix) + [Digit(n % radix)]
  }

  // The number that sscanf makes of a run of digits.
  function Scanned(s: string, radix: nat, acc: nat): nat {
    if s != [] && DigitOf(s[0], radix) then Scanned(s[1..], radix, acc * radix + (s[0] as int - '0' as int)) else acc
  }

  lemma {:induction false} ScanThrough(s: string, rest: string, radix: nat, acc: nat)
    requires forall k :: 0 <= k < |s| ==> DigitOf(s[k], radix)
    ensures Scanned(s + rest, radix, acc) == Scanned(rest, radix, Scanned(s, radix, acc))
  {
    if s != [] {
      assert (s + rest)[1..] == s[1..] + rest;
      ScanThrough(s[1..], rest, radix, acc * radix + (s[0] as int - '0' as int));
    } else {
      assert s + rest == rest;
    }
  }

  lemma ScanDigit(d: nat, radix: nat, acc: nat)
    requires d < radix <= 10
    ensures Scanned([Digit(d)], radix, acc) == acc * radix + d
  {
  }

  lemma {:induction false} ScanPrinted(n: nat, radix: nat)
    requires 2 <= radix <= 10
    ensures Scanned(Printed(n, radix), radix, 0) == n
  {
    if n >= radix {
      DivMod(n, radix);
      ScanPrinted(n / radix, radix);
      ScanThrough(Printed(n / radix, radix), [Digit(n % radix)], radix, 0);
      ScanDigit(n % radix, radix, n / radix);
    } else {
      ScanDigit(n, radix, 0);
    }
  }

  lemma ScanField(n: nat, radix: nat, rest: string)
    requires 2 <= radix <= 10 && rest != [] && rest[0] == ' '
    ensures Scanned(Printed(n, radix) + rest, radix, 0) == n
  {
    ScanPrinted(n, radix);
    ScanThrough(Printed(n, radix), rest, radix, 0);
  }

  function Spaces(n: nat): (s: string)
    ensures |s| == n
  {
    seq(n, _ => ' ')
  }

  // A left-justified field; one too long for its width would run over.
  function Left(s: string, width: nat): string { if |s| < width then s + Spaces(width - |s|) else s }

  function Header(m: Member): string {
    Left(m.name, NAMESIZE) + Left(Printed(m.date, 10), 12) + Left(Printed(m.uid, 10), 6) + Left(Printed(m.gid, 10), 6)
    + Left(Printed(m.mode, 8), 8) + Left(Printed(|m.data|, 10), 10) + ARFMAG
  }

  /** What the format can hold: a name of one to fifteen characters not ending in a space, and
      numbers that leave a space after them in their fields. */
  predicate Fits(m: Member) {
    && 1 <= |m.name| < NAMESIZE && '\0' !in m.name && m.name[|m.name| - 1] != ' '
    && |Printed(m.date, 10)| < 12 && |Printed(m.uid, 10)| < 6 && |Printed(m.gid, 10)| < 6
    && |Printed(m.mode, 8)| < 8 && |Printed(|m.data|, 10)| < 10
  }

  function Pad(data: string): string { if |data| % 2 == 1 then ['\n'] else [] }

  function Print(m: Member): string { Header(m) + m.data + Pad(m.data) }

  function PrintAll(ms: seq<Member>): string {
    if ms == [] then [] else PrintAll(ms[..|ms| - 1]) + Print(ms[|ms| - 1])
  }

  function Archive(ms: seq<Member>): string { ARMAG + PrintAll(ms) }

  predicate AllFit(ms: seq<Member>) { forall k :: 0 <= k < |ms| ==> Fits(ms[k]) }

  // A name field without its trailing spaces.
  function Unspaced(s: string): (t: string)
    ensures t <= s
  {
    if s != [] && s[|s| - 1] == ' ' then Unspaced(s[..|s| - 1]) else s
  }

  predicate Blank(c: char) { c == ' ' || 9 <= c as int <= 13 }

  // A number field as sscanf reads it: past any white space, and unchanged when no digit follows.
  function Field(s: string, radix: nat, was: nat): nat {
    if s == [] then was
    else if Blank(s[0]) then Field(s[1..], radix, was)
    else if DigitOf(s[0], radix) then Scanned(s, radix, 0) else was
  }

  /** The header once its name has been cut at its trailing spaces by a null. */
  function NameEnded(h: string): (b: string)
    requires |h| == SAR_HDR
    ensures |b| == SAR_HDR
  {
    h[|Unspaced(h[..NAMESIZE])| := '\0']
  }

  /** What reading a header makes of the one read before. */
  function Parsed(h: string, was: Lar): Lar
    requires |h| == SAR_HDR
  {
    var b := NameEnded(h);
    Lar(UpToNull(b[..NAMESIZE]), Field(b[16..], 10, was.date), Field(b[28..], 10, was.uid), Field(b[34..], 10, was.gid),
        Field(b[40..], 8, was.mode), Field(b[48..], 10, was.size))
  }

  /** A name that takes up its whole field puts the null at the head of the date, and the member keeps
      the date of the one before it. */
  lemma LongNameLosesDate(h: string, was: Lar)
    requires |h| == SAR_HDR && h[NAMESIZE - 1] != ' '
    ensures Parsed(h, was).date == was.date && NameEnded(h)[NAMESIZE] == '\0'
  {
    var name := h[..NAMESIZE];
    assert name[NAMESIZE - 1] == h[NAMESIZE - 1] && Unspaced(name) == name;
    assert h[NAMESIZE := '\0'][16..][0] == '\0';
  }

  lemma {:induction false} UnspacedLeft(s: string, n: nat)
    requires s != [] && s[|s| - 1] != ' '
    ensures Unspaced(s + Spaces(n)) == s
  {
    if n > 0 {
      UnspacedLeft(s, n - 1);
      assert (s + Spaces(n))[..|s| + n - 1] == s + Spaces(n - 1);
    } else {
      assert s + Spaces(n) == s;
    }
  }

  // A field that begins with a digit.
  predicate Reads(h: string, at: nat, radix: nat, n: nat) {
    at < |h| && DigitOf(h[at], radix) && Scanned(h[at..], radix, 0) == n
  }

  lemma FieldIn(h: string, at: nat, n: nat, radix: nat, width: nat)
    requires 2 <= radix <= 10 && |Printed(n, radix)| < width && at + width <= |h|
    requires h[at..at + width] == Left(Printed(n, radix), width)
    ensures Reads(h, at, radix, n)
  {
    hide Printed, Scanned;
    var digits := Printed(n, radix);
    var rest := h[at + |digits|..];
    assert h[at..at + width][..|digits|] == digits && h[at..at + width][|digits|] == ' ';
    assert h[at..] == digits + rest && rest[0] == h[at..at + width][|digits|];
    assert h[at] == digits[0];
    ScanField(n, radix, rest);
  }

  lemma Pieces(a: string, b: string, c: string, d: string, e: string, f: string, g: string)
    requires |a| == 16 && |b| == 12 && |c| == |d| == 6 && |e| == 8 && |f| == 10 && |g| == 2
    ensures var h := a + b + c + d + e + f + g;
      && |h| == SAR_HDR && h[..16] == a && h[16..28] == b && h[28..34] == c && h[34..40] == d && h[40..48] == e
      && h[48..58] == f && h[58..] == g
  {
  }

  lemma PrintedFields(m: Member)
    requires Fits(m)
    ensures var h := Header(m);
      && |h| == SAR_HDR && h[58..] == ARFMAG && Unspaced(h[..NAMESIZE]) == m.name
      && Reads(h, 16, 10, m.date) && Reads(h, 28, 10, m.uid) && Reads(h, 34, 10, m.gid) && Reads(h, 40, 8, m.mode)
      && Reads(h, 48, 10, |m.data|)
  {
    hide Printed, Unspaced, Reads;
    var h := Header(m);
    UnspacedLeft(m.name, NAMESIZE - |m.name|);
    Pieces(Left(m.name, NAMESIZE), Left(Printed(m.date, 10), 12), Left(Printed(m.uid, 10), 6), Left(Printed(m.gid, 10), 6),
           Left(Printed(m.mode, 8), 8), Left(Printed(|m.data|, 10), 10), ARFMAG);
    FieldIn(h, 16, m.date, 10, 12);
    FieldIn(h, 28, m.uid, 10, 6);
    FieldIn(h, 34, m.gid, 10, 6);
    FieldIn(h, 40, m.mode, 8, 8);
    FieldIn(h, 48, |m.data|, 10, 10);
  }

  lemma ReadsField(h: string, b: string, at: nat, radix: nat, n: nat, was: nat)
    requires Reads(h, at, radix, n) && |b| == |h| && b[at..] == h[at..]
    ensures Field(b[at..], radix, was) == n
  {
    hide Scanned;
    assert b[at..][0] == h[at];
  }

  /** Reading back a printed header gives the member's own fields, whatever was read before. */
  lemma ParsePrinted(m: Member, was: Lar)
    requires Fits(m)
    ensures |Header(m)| == SAR_HDR && Header(m)[58..] == ARFMAG && NameEnded(Header(m)) == Header(m)[|m.name| := '\0']
    ensures Parsed(Header(m), was) == Lar(m.name, m.date, m.uid, m.gid, m.mode, |m.data|)
  {
    hide Header, Field, Unspaced, Reads;
    PrintedFields(m);
    var h, n := Header(m), |m.name|;
    var b := NameEnded(h);
    assert b == h[n := '\0'] && b[..NAMESIZE][n] == '\0' && m.name <= h[..NAMESIZE];
    assert b[..NAMESIZE][..n] == h[..NAMESIZE][..n];
    NullNext(m.name, b[..NAMESIZE]);
    ReadsField(h, b, 16, 10, m.date, was.date);
    ReadsField(h, b, 28, 10, m.uid, was.uid);
    ReadsField(h, b, 34, 10, m.gid, was.gid);
    ReadsField(h, b, 40, 8, m.mode, was.mode);
    ReadsField(h, b, 48, 10, |m.data|, was.size);
  }

  /** Where each field of a header lies, how wide it is and what it is written in. */
  lemma HeaderInNumbers(m: Member)
    requires Fits(m)
    ensures |Header(m)| == 60
    ensures Header(m)[..16] == m.name + Spaces(16 - |m.name|)
    ensures Header(m)[16..28] == Printed(m.date, 10) + Spaces(12 - |Printed(m.date, 10)|)
    ensures Header(m)[28..34] == Printed(m.uid, 10) + Spaces(6 - |Printed(m.uid, 10)|)
    ensures Header(m)[34..40] == Printed(m.gid, 10) + Spaces(6 - |Printed(m.gid, 10)|)
    ensures Header(m)[40..48] == Printed(m.mode, 8) + Spaces(8 - |Printed(m.mode, 8)|)
    ensures Header(m)[48..58] == Printed(|m.data|, 10) + Spaces(10 - |Printed(|m.data|, 10)|)
    ensures Header(m)[58..] == "`\n"
  {
    hide Printed, Spaces;
    Pieces(Left(m.name, NAMESIZE), Left(Printed(m.date, 10), 12), Left(Printed(m.uid, 10), 6), Left(Printed(m.gid, 10), 6),
           Left(Printed(m.mode, 8), 8), Left(Printed(|m.data|, 10), 10), ARFMAG);
  }

  lemma PrintedDigits()
    ensures Printed(0, 10) == "0" && Printed(109, 10) == "109" && Printed(420, 8) == "644"
  {
    assert Printed(10, 10) == "10" && Printed(52, 8) == "64";
  }

  // An archive of one member of three characters.
  lemma OneMember()
    ensures var m := Member("a.o", 7, 2, 3, 420, "xyz");
      Fits(m) && Archive([m]) == "!<arch>\n" + Header(m) + "xyz\n"
  {
    hide Header;
    PrintedDigits();
    var m := Member("a.o", 7, 2, 3, 420, "xyz");
    assert Printed(7, 10) == "7" && Printed(2, 10) == "2" && Printed(3, 10) == "3";
    assert [m][..0] == [] && PrintAll([m]) == PrintAll([]) + Print(m);
  }

  /** What a number is scanned from: white space is passed over, and octal and decimal digits are taken. */
  lemma ScanInNumbers(c: char)
    ensures (DigitOf(c, 10) <==> c in "0123456789") && (DigitOf(c, 8) <==> c in "01234567")
    ensures Blank(c) <==> c as int in [32, 9, 10, 11, 12, 13]
  {
    assert '0' as int == 48 && '7' as int == 55 && '9' as int == 57 && ' ' as int == 32;
    if 48 <= c as int <= 57 {
      assert "0123456789"[c as int - 48] == c;
    }
    if 48 <= c as int <= 55 {
      assert "01234567"[c as int - 48] == c;
    }
  }

  // The first number that needs more digits.
  function Beyond(radix: nat, digits: nat): nat { if digits == 0 then 1 else radix * Beyond(radix, digits - 1) }

  lemma PrintedStep(n: nat, radix: nat)
    requires 2 <= radix <= 10
    ensures |Printed(n, radix)| == if n < radix then 1 else |Printed(n / radix, radix)| + 1
  {
  }

  lemma BeyondStep(radix: nat, digits: nat)
    ensures Beyond(radix, digits + 1) == Beyond(radix, digits) * radix && Beyond(radix, 1) == radix
  {
  }

  lemma {:induction false} DigitsNeeded(n: nat, radix: nat, digits: nat)
    requires 2 <= radix <= 10 && digits > 0
    ensures |Printed(n, radix)| <= digits <==> n < Beyond(radix, digits)
  {
    hide Printed, Beyond;
    PrintedStep(n, radix);
    BeyondStep(radix, digits - 1);
    if digits > 1 {
      BeyondGrows(radix, digits - 1);
      DivBelow(n, radix, Beyond(radix, digits - 1));
      DivMod(n, radix);
      DigitsNeeded(n / radix, radix, digits - 1);
    }
  }

  lemma {:induction false} BeyondGrows(radix: nat, digits: nat)
    requires radix >= 2
    ensures Beyond(radix, digits) >= 1 && radix * Beyond(radix, digits) >= radix
  {
    if digits > 0 {
      BeyondGrows(radix, digits - 1);
    }
  }

  /** What a member may be: a name of one to fifteen characters, and numbers below these bounds. */
  lemma FitsInNumbers(m: Member)
    ensures Fits(m)
      <==> |m.name| in [1, 2, 3, 4, 5, 6, 7, 8, 9, 10, 11, 12, 13, 14, 15] && '\0' !in m.name && m.name[|m.name| - 1] != ' '
           && m.date < 100_000_000_000 && m.uid < 100_000 && m.gid < 100_000 && m.mode < 2_097_152 && |m.data| < 1_000_000_000
  {
    hide Printed, Beyond;
    Bounds();
    DigitsNeeded(m.date, 10, 11);
    DigitsNeeded(m.uid, 10, 5);
    DigitsNeeded(m.gid, 10, 5);
    DigitsNeeded(m.mode, 8, 7);
    DigitsNeeded(|m.data|, 10, 9);
  }

  lemma Bounds()
    ensures Beyond(10, 11) == 100_000_000_000 && Beyond(10, 5) == 100_000 && Beyond(10, 9) == 1_000_000_000
    ensures Beyond(8, 7) == 2_097_152
  {
    assert Beyond(10, 3) == 1000;
    assert Beyond(10, 6) == 1000_000;
    assert Beyond(8, 4) == 4096;
  }
}
