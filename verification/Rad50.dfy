/** RT-11 names: three characters of a forty-letter alphabet packed into a word, two words of name
    and one of extension. */
module Rad50 {
  import opened Arithmetic
  import opened CStrings

  const AIN1: nat := 1600
  const AIN2: nat := 40
  // The table: letters of either case fold together, and what has no code becomes an at sign.
  function Code(c: char): (n: nat)
    ensures n < AIN2
  {
    var low := if c as int >= 128 then c as int - 128 else c as int;
    if c as int == 255 then 0
    else if low == 32 then 0
    else if low == 36 then 27
    else if low == 46 then 28
    else if 48 <= low <= 57 then low - 18
    else if 65 <= low <= 90 then low - 64
    else if 97 <= low <= 122 then low - 96
    else 29
  }

  // The alphabet in code order: space, the small letters, dollar, dot, at sign, the digits, and the
  // null character that ends the table.
  function Symbol(n: nat): char
    requires n <= AIN2
  {
    if n == AIN2 then '\0' else if n == 0 then ' ' else if n <= 26 then (96 + n) as char
    else if n == 27 then '$' else if n == 28 then '.' else if n == 29 then '@' else (18 + n) as char
  }

  lemma CodeOfSymbol(n: nat)
    requires n < AIN2
    ensures Code(Symbol(n)) == n
  {
    assert '$' as int == 36 && '.' as int == 46 && '@' as int == 64 && ' ' as int == 32;
  }

  // A character that survives packing.
  predicate Plain(c: char) { Symbol(Code(c)) == c }

  function CodeAt(s: string, k: nat): (n: nat)
    ensures n < AIN2
  {
    if k < |s| then Code(s[k]) else 0
  }

  function Word(s: string): nat { AIN1 * CodeAt(s, 0) + AIN2 * CodeAt(s, 1) + CodeAt(s, 2) }

  function Tail(s: string): (t: string)
    ensures |t| == if |s| > 3 then |s| - 3 else 0
  {
    if |s| > 3 then s[3..] else []
  }

  function Words(s: string): (ws: seq<nat>)
    ensures |ws| == (|s| + 2) / 3
    decreases |s|
  {
    if s == [] then [] else [Word(s)] + Words(Tail(s))
  }

  predicate Packed(ws: seq<nat>) { forall k :: 0 <= k < |ws| ==> ws[k] < AIN1 * AIN2 }

  // Any sixteen-bit words.
  predicate Short(ws: seq<nat>) { forall k :: 0 <= k < |ws| ==> ws[k] < 0x1_0000 }

  function Letters(ws: seq<nat>): (s: string)
    requires Short(ws)
    ensures |s| == 3 * |ws|
  {
    if ws == [] then []
    else
      [Symbol(ws[0] / AIN1), Symbol(ws[0] % AIN1 / AIN2), Symbol(ws[0] % AIN1 % AIN2)] + Letters(ws[1..])
  }

  lemma WordParts(a: nat, b: nat, c: nat)
    requires a < 40 && b < 40 && c < 40
    ensures var w := AIN1 * a + AIN2 * b + c;
      w < AIN1 * AIN2 && w / AIN1 == a && w % AIN1 / AIN2 == b && w % AIN1 % AIN2 == c
  {
    QuotientIs(AIN1 * a + AIN2 * b + c, AIN1, a, AIN2 * b + c);
    QuotientIs(AIN2 * b + c, AIN2, b, c);
  }

  // The string with each character folded to its symbol and the last word filled up with spaces.
  function Folded(s: string): (t: string)
    ensures |t| == 3 * ((|s| + 2) / 3)
    decreases |s|
  {
    if s == [] then [] else [Symbol(CodeAt(s, 0)), Symbol(CodeAt(s, 1)), Symbol(CodeAt(s, 2))] + Folded(Tail(s))
  }

  lemma {:induction false} FoldedAt(s: string, k: nat)
    requires k < |Folded(s)|
    ensures Folded(s)[k] == Symbol(CodeAt(s, k))
    decreases |s|
  {
    hide Symbol;
    if k >= 3 {
      FoldedAt(Tail(s), k - 3);
    }
  }

  /** Packing then unpacking only folds and fills. */
  lemma {:induction false} UnpackPacked(s: string)
    ensures Packed(Words(s)) && Letters(Words(s)) == Folded(s)
    decreases |s|
  {
    hide Symbol, CodeAt;
    if s != [] {
      WordParts(CodeAt(s, 0), CodeAt(s, 1), CodeAt(s, 2));
      UnpackPacked(Tail(s));
      assert Words(s)[1..] == Words(Tail(s));
    }
  }

  lemma {:induction false} PackUnpacked(ws: seq<nat>)
    requires Packed(ws)
    ensures Words(Letters(ws)) == ws
  {
    if ws != [] {
      var w := ws[0];
      CodeOfSymbol(w / AIN1);
      CodeOfSymbol(w % AIN1 / AIN2);
      CodeOfSymbol(w % AIN1 % AIN2);
      PackUnpacked(ws[1..]);
      var s := Letters(ws);
      assert Word(s) == w;
      assert Tail(s) == Letters(ws[1..]);
    }
  }

  lemma WordsUnfold(s: string)
    requires s != []
    ensures Words(s) == [Word(s)] + Words(Tail(s))
  {
  }

  method Rad50(s: string) returns (out: seq<nat>)
    ensures out == Words(s)
  {
    hide Words, Code;
    out := [];
    var cp := 0;
    while cp < |s|
      invariant 0 <= cp <= |s| && out + Words(s[cp..]) == Words(s)
    {
      ghost var rest := s[cp..];
      WordsUnfold(rest);
      var temp := AIN1 * Code(s[cp]);
      cp := cp + 1;
      if cp < |s| {
        temp := temp + AIN2 * Code(s[cp]);
        cp := cp + 1;
        if cp < |s| {
          temp := temp + Code(s[cp]);
          cp := cp + 1;
        }
      }
      assert temp == Word(rest) && s[cp..] == Tail(rest);
      hide Word, Tail, CodeAt;
      out := out + [temp];
    }
    NoWords(s[cp..]);
  }

  lemma NoWords(s: string)
    requires s == []
    ensures Words(s) == []
  {
  }

  method Unrad50(words: seq<nat>) returns (name: string)
    requires Short(words)
    ensures name == Letters(words)
  {
    name := [];
    var i := 0;
    while i < |words|
      invariant 0 <= i <= |words| && name + Letters(words[i..]) == Letters(words)
    {
      var temp := words[i];
      assert words[i..][1..] == words[i + 1..];
      name := name + [Symbol(temp / AIN1)];
      temp := temp % AIN1;
      name := name + [Symbol(temp / AIN2)];
      temp := temp % AIN2;
      name := name + [Symbol(temp)];
      i := i + 1;
    }
  }

  function Base(name: string): string {
    if name == [] then [] else if name[|name| - 1] == '/' then [] else Base(name[..|name| - 1]) + [name[|name| - 1]]
  }

  // How many characters go into a field: up to a dot that is not the first, or up to the limit.
  function Take(s: string, limit: nat): (n: nat)
    requires limit > 0
    ensures n <= limit && n <= |s| && (s != [] ==> n > 0)
  {
    if s == [] then 0 else if |s| == 1 || s[1] == '.' || limit == 1 then 1 else 1 + Take(s[1..], limit - 1)
  }

  function AfterDot(s: string): string { if s != [] && s[0] == '.' then s[1..] else s }

  function FileOf(base: string): string { base[..Take(base, 6)] }

  function ExtOf(base: string): string {
    var rest := AfterDot(base[Take(base, 6)..]);
    rest[..Take(rest, 3)]
  }

  function Fill(ws: seq<nat>, n: nat): seq<nat>
    requires |ws| <= n
  {
    ws + seq(n - |ws|, _ => 0)
  }

  function Packing(name: string): (ws: seq<nat>)
    ensures |ws| == 3
  {
    Fill(Words(FileOf(Base(name))), 2) + Fill(Words(ExtOf(Base(name))), 1)
  }

  // Leading characters before a space.
  function Trim(s: string): (t: string)
    ensures t <= s
  {
    if s == [] then [] else if s[|s| - 1] == ' ' then Trim(s[..|s| - 1]) else s
  }

  function UpToSpace(s: string): (t: string)
    ensures t <= s
  {
    if s == [] || s[0] == ' ' then [] else [s[0]] + UpToSpace(s[1..])
  }

  function Naming(ws: seq<nat>): string
    requires |ws| == 3 && Short(ws)
  {
    var full := Trim(UpToNull(Letters(ws[..2]))) + ['.'] + UpToSpace(Letters(ws[2..]));
    UpToNull(if full[|full| - 1] == '.' then full[..|full| - 1] else full)
  }

  lemma {:induction false} PackedLetters(ws: seq<nat>)
    requires Packed(ws)
    ensures '\0' !in Letters(ws)
  {
    if ws != [] {
      PackedLetters(ws[1..]);
    }
  }

  method LastComponent(name: string) returns (base: string)
    ensures base == Base(name)
  {
    var cp := |name|;
    assert name[..cp] == name;
    while cp > 0 && name[cp - 1] != '/'
      invariant 0 <= cp <= |name| && Base(name) == Base(name[..cp]) + name[cp..]
    {
      assert name[..cp][..cp - 1] == name[..cp - 1];
      cp := cp - 1;
    }
    base := name[cp..];
  }

  method SRad50(name: string) returns (rname: seq<nat>)
    ensures rname == Packing(name)
  {
    hide Words, Fill, Take, Base;
    var base := LastComponent(name);
    var n := TakeField(base, 6);
    var rest := base[n..];
    if rest != [] && rest[0] == '.' {
      rest := rest[1..];
    }
    var m := TakeField(rest, 3);
    var file := Rad50(base[..n]);
    var ext := Rad50(rest[..m]);
    rname := Fill(file, 2) + Fill(ext, 1);
  }

  method TakeField(s: string, limit: nat) returns (n: nat)
    requires limit > 0
    ensures n == Take(s, limit)
  {
    n := 0;
    while n < |s|
      invariant 0 <= n <= |s| && n < limit && n + Take(s[n..], limit - n) == Take(s, limit)
    {
      ghost var rest := s[n..];
      n := n + 1;
      if n == |s| || s[n] == '.' || n >= limit {
        break;
      }
      assert s[n..] == rest[1..];
    }
  }

  method TrimEnd(s: string) returns (t: string)
    ensures t == Trim(s)
  {
    var cp := |s|;
    assert s[..cp] == s;
    while cp > 0 && s[cp - 1] == ' '
      invariant 0 <= cp <= |s| && Trim(s[..cp]) == Trim(s)
    {
      assert s[..cp][..cp - 1] == s[..cp - 1];
      cp := cp - 1;
    }
    t := s[..cp];
  }

  method CopyToSpace(ext: string) returns (t: string)
    ensures t == UpToSpace(ext)
  {
    hide UpToSpace;
    t := [];
    while |t| < |ext| && ext[|t|] != ' '
      invariant t <= ext && ' ' !in t
    {
      t := t + [ext[|t|]];
    }
    StopAtSpace(t, ext);
  }

  method SUnrad50(rname: seq<nat>) returns (name: string)
    requires |rname| == 3 && Short(rname)
    ensures name == Naming(rname)
  {
    hide Letters, Trim, UpToSpace, UpToNull;
    var file := Unrad50(rname[..2]);
    var ext := Unrad50(rname[2..]);
    file := CString(file);
    file := TrimEnd(file);
    ext := CopyToSpace(ext);
    name := file + ['.'] + ext;
    if name[|name| - 1] == '.' {
      name := name[..|name| - 1];
    }
    name := CString(name);
  }

  method CString(s: string) returns (t: string)
    ensures t == UpToNull(s)
  {
    t := [];
    while |t| < |s| && s[|t|] != '\0'
      invariant t <= s && '\0' !in t
    {
      t := t + [s[|t|]];
    }
    NullNext(t, s);
  }

  // A field as users write it: characters that survive packing, with no space, dot or slash.
  predicate Field(s: string, limit: nat) {
    |s| <= limit && forall k :: 0 <= k < |s| ==> Plain(s[k]) && s[k] != ' ' && s[k] != '.' && s[k] != '/'
  }

  function Written(file: string, ext: string): string { if ext == [] then file else file + ['.'] + ext }

  lemma {:induction false} BaseOfPath(dir: string, base: string)
    requires dir == [] || dir[|dir| - 1] == '/'
    requires '/' !in base
    ensures Base(dir + base) == base
  {
    if base != [] {
      var last := base[|base| - 1];
      assert last in base;
      BaseOfPath(dir, base[..|base| - 1]);
      assert (dir + base)[..|dir + base| - 1] == dir + base[..|base| - 1];
    } else {
      assert dir + base == dir;
    }
  }

  lemma {:induction false} TakeAll(s: string, more: string, limit: nat)
    requires 0 < |s| <= limit && '.' !in s[1..]
    requires more == [] || more[0] == '.' || |s| == limit
    ensures Take(s + more, limit) == |s|
    decreases |s|
  {
    if |s| > 1 {
      assert (s + more)[1..] == s[1..] + more;
      assert s[1] in s[1..];
      TakeAll(s[1..], more, limit - 1);
    }
  }

  lemma FieldsOf(file: string, ext: string)
    requires file != [] && Field(file, 6) && Field(ext, 3)
    ensures FileOf(Written(file, ext)) == file && ExtOf(Written(file, ext)) == ext
  {
    var base := Written(file, ext);
    var more := if ext == [] then [] else ['.'] + ext;
    assert base == file + more;
    TakeAll(file, more, 6);
    assert base[|file|..] == more;
    if ext != [] {
      assert more[1..] == ext && ext + [] == ext;
      TakeAll(ext, [], 3);
    }
  }

  lemma {:induction false} TrimFilled(s: string, t: string)
    requires s <= t && forall k :: |s| <= k < |t| ==> t[k] == ' '
    requires s != [] ==> s[|s| - 1] != ' '
    ensures Trim(t) == s
    decreases |t|
  {
    if |t| > |s| {
      TrimFilled(s, t[..|t| - 1]);
    } else {
      assert t == s;
    }
  }

  lemma {:induction false} StopAtSpace(s: string, t: string)
    requires s <= t && ' ' !in s && (|t| > |s| ==> t[|s|] == ' ')
    ensures UpToSpace(t) == s
  {
    if s != [] {
      assert s[0] in s && t[0] == s[0];
      StopAtSpace(s[1..], t[1..]);
    } else if t != [] {
      assert t[0] == ' ';
    }
  }

  // The letters of a field that fills part of its words.
  lemma FieldLetters(s: string, n: nat)
    requires Field(s, 3 * n)
    ensures |Words(s)| <= n && Packed(Fill(Words(s), n))
    ensures var t := Letters(Fill(Words(s), n)); s <= t && forall k :: |s| <= k < |t| ==> t[k] == ' '
  {
    hide Words, Letters, Symbol, Code;
    UnpackPacked(s);
    var blank := seq(n - |Words(s)|, _ => 0);
    LettersSplit(Words(s), blank);
    BlankLetters(n - |Words(s)|);
    var t := Letters(Words(s) + blank);
    forall k | 0 <= k < |Folded(s)|
      ensures t[k] == if k < |s| then s[k] else ' '
    {
      FoldedAt(s, k);
      SpaceIsZero();
    }
  }

  lemma SpaceIsZero()
    ensures Symbol(0) == ' '
  {
  }

  lemma {:induction false} LettersSplit(ws: seq<nat>, us: seq<nat>)
    requires Packed(ws) && Packed(us)
    ensures Packed(ws + us) && Letters(ws + us) == Letters(ws) + Letters(us)
  {
    if ws != [] {
      LettersSplit(ws[1..], us);
      assert (ws + us)[1..] == ws[1..] + us;
    } else {
      assert ws + us == us;
    }
  }

  lemma {:induction false} BlankLetters(n: nat)
    ensures Packed(seq(n, _ => 0))
    ensures var t := Letters(seq(n, _ => 0)); forall k :: 0 <= k < |t| ==> t[k] == ' '
  {
    if n > 0 {
      BlankLetters(n - 1);
      var zeros := seq<nat>(n, _ => 0);
      assert zeros[1..] == seq<nat>(n - 1, _ => 0);
      assert Letters(zeros) == [' ', ' ', ' '] + Letters(zeros[1..]);
    }
  }

  lemma JoinParts(ws: seq<nat>, us: seq<nat>)
    requires Packed(ws) && Packed(us)
    ensures Packed(ws + us) && (ws + us)[..|ws|] == ws && (ws + us)[|ws|..] == us
  {
  }

  /** An ordinary name, whatever directory it is in, comes back from its three words; so two
      ordinary names share a directory entry only when they are the same. */
  lemma NameBack(dir: string, file: string, ext: string)
    requires file != [] && Field(file, 6) && Field(ext, 3)
    requires dir == [] || dir[|dir| - 1] == '/'
    ensures Packed(Packing(dir + Written(file, ext)))
    ensures Naming(Packing(dir + Written(file, ext))) == Written(file, ext)
  {
    hide Letters, Words, Take, Trim, UpToSpace, UpToNull, Base;
    var base := Written(file, ext);
    BaseOfPath(dir, base);
    FieldsOf(file, ext);
    FieldLetters(file, 2);
    FieldLetters(ext, 1);
    var ws := Packing(dir + base);
    var f, e := Letters(ws[..2]), Letters(ws[2..]);
    JoinParts(Fill(Words(file), 2), Fill(Words(ext), 1));
    PackedLetters(Fill(Words(file), 2));
    NullNext(f, f);
    FieldWithoutNull(file, 6);
    FieldWithoutNull(ext, 3);
    NullNext(Written(file, ext), Written(file, ext));
    TrimFilled(file, f);
    StopAtSpace(ext, e);
  }

  lemma FieldWithoutNull(s: string, limit: nat)
    requires Field(s, limit)
    ensures '\0' !in s
  {
    assert !Plain('\0');
  }

  const ALPHABET: string := " abcdefghijklmnopqrstuvwxyz$.@0123456789"

  /** The codes: a letter's place in the alphabet whichever its case, a digit's, and of the rest only
      space, dollar and dot have one of their own. The eighth bit does not count, but for the last of all. */
  lemma CodesInNumbers(c: char)
    ensures 'a' <= c <= 'z' ==> Code(c) == c as int - 'a' as int + 1
    ensures 'A' <= c <= 'Z' ==> Code(c) == c as int - 'A' as int + 1
    ensures '0' <= c <= '9' ==> Code(c) == c as int - '0' as int + 30
    ensures Code(' ') == 0 && Code('$') == 27 && Code('.') == 28
    ensures c as int < 128 && !('a' <= c <= 'z' || 'A' <= c <= 'Z' || '0' <= c <= '9' || c in " $.") ==> Code(c) == 29
    ensures 128 <= c as int < 255 ==> Code(c) == Code((c as int - 128) as char)
    ensures c as int == 255 ==> Code(c) == 0
  {
    assert 'a' as int == 97 && 'z' as int == 122 && 'A' as int == 65 && 'Z' as int == 90 && '0' as int == 48 && '9' as int == 57;
    assert '$' as int == 36 && '.' as int == 46 && ' ' as int == 32;
  }

  lemma SymbolsInOrder(n: nat)
    requires n < 40
    ensures |ALPHABET| == 40 && Symbol(n) == ALPHABET[n]
  {
    assert 'a' as int == 97 && '0' as int == 48;
    LettersInOrder(n);
  }

  lemma LettersInOrder(n: nat)
    requires n < 40
    ensures 1 <= n <= 26 ==> ALPHABET[n] as int == 96 + n
    ensures 30 <= n ==> ALPHABET[n] as int == 18 + n
    ensures n == 0 ==> ALPHABET[n] == ' '
    ensures 27 <= n <= 29 ==> ALPHABET[n] == "$.@"[n - 27]
  {
  }

  lemma WordInNumbers(s: string)
    requires s != []
    ensures Words(s) == [Word(s)] + if |s| > 3 then Words(s[3..]) else []
    ensures Word(s) == Code(s[0]) * 1600 + (if |s| > 1 then Code(s[1]) * 40 else 0) + if |s| > 2 then Code(s[2]) else 0
  {
    hide Code, Words, Word;
    WordsUnfold(s);
    NoWords([]);
    WordSum(s);
  }

  lemma WordSum(s: string)
    requires s != []
    ensures Word(s) == Code(s[0]) * 1600 + (if |s| > 1 then Code(s[1]) * 40 else 0) + if |s| > 2 then Code(s[2]) else 0
  {
    hide Code;
  }

  // A file in some directory and its three words: three characters to a word, the first weighing most.
  lemma SwapSys(dir: string)
    requires dir == [] || dir[|dir| - 1] == '/'
    ensures Packing(dir + "swap.sys") == [19 * 1600 + 23 * 40 + 1, 16 * 1600, 19 * 1600 + 25 * 40 + 19]
    ensures Naming(Packing(dir + "swap.sys")) == "swap.sys"
  {
    hide Words, Take, Base, Naming, Code;
    assert "swap.sys" == Written("swap", "sys");
    OrdinaryNames();
    BaseOfPath(dir, "swap.sys");
    FieldsOf("swap", "sys");
    NameBack(dir, "swap", "sys");
    WordInNumbers("swap");
    WordInNumbers("p");
    WordInNumbers("sys");
    assert "swap"[3..] == "p";
    assert Fill(Words("swap"), 2) == [19 * 1600 + 23 * 40 + 1, 16 * 1600];
    assert Fill(Words("sys"), 1) == [19 * 1600 + 25 * 40 + 19];
  }

  lemma OrdinaryNames()
    ensures Field("swap", 6) && Field("sys", 3) && '/' !in "swap.sys"
    ensures Code('s') == 19 && Code('w') == 23 && Code('a') == 1 && Code('p') == 16 && Code('y') == 25
  {
    CodesInNumbers('s');
    CodesInNumbers('w');
    CodesInNumbers('a');
    CodesInNumbers('p');
    CodesInNumbers('y');
  }

  /** The fields that come back as they were: of small letters, digits, dollar and at signs. */
  lemma FieldInNumbers(s: string, limit: nat)
    ensures Field(s, limit) <==> |s| <= limit && forall k :: 0 <= k < |s| ==> s[k] in "abcdefghijklmnopqrstuvwxyz$@0123456789"
  {
    forall k | 0 <= k < |s|
      ensures Plain(s[k]) && s[k] != ' ' && s[k] != '.' && s[k] != '/' <==> s[k] in "abcdefghijklmnopqrstuvwxyz$@0123456789"
    {
      PlainInNumbers(s[k]);
    }
  }

  lemma PlainInNumbers(c: char)
    ensures Plain(c) && c != ' ' && c != '.' && c != '/' <==> c in "abcdefghijklmnopqrstuvwxyz$@0123456789"
  {
    hide Plain;
    PlainRanges(c);
    InFieldLetters(c);
  }

  lemma PlainRanges(c: char)
    ensures Plain(c) && c != ' ' && c != '.' && c != '/'
      <==> 97 <= c as int <= 122 || 48 <= c as int <= 57 || c as int in [36, 64]
  {
    var n := c as int;
    assert ' ' as int == 32 && '.' as int == 46 && '$' as int == 36 && '@' as int == 64 && '/' as int == 47;
  }

  lemma InFieldLetters(c: char)
    ensures c in "abcdefghijklmnopqrstuvwxyz$@0123456789"
      <==> 97 <= c as int <= 122 || 48 <= c as int <= 57 || c as int in [36, 64]
  {
    var n, letters := c as int, "abcdefghijklmnopqrstuvwxyz$@0123456789";
    FieldLettersInOrder();
    if c in letters {
      var k :| 0 <= k < |letters| && letters[k] == c;
    }
    if 97 <= n <= 122 {
      assert letters[n - 97] == c;
    } else if 48 <= n <= 57 {
      assert letters[n - 20] == c;
    } else if n in [36, 64] {
      assert letters[if n == 36 then 26 else 27] == c;
    }
  }

  lemma FieldLettersInOrder()
    ensures var letters := "abcdefghijklmnopqrstuvwxyz$@0123456789";
      && |letters| == 38
      && forall k :: 0 <= k < 38 ==>
           letters[k] as int == if k < 26 then 97 + k else if k == 26 then 36 else if k == 27 then 64 else 20 + k
  {
  }
}
