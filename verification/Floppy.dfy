/** The RT-11 floppy as the archiver addresses it: logical addresses run through sectors laid out
    two to one, each track turned six sectors on from the one before, the first track unused. */
module Floppy {
  import opened Arithmetic

  type Byte = b: int | 0 <= b < 256

  const SECTOR: nat := 128
  const SECTORS: nat := 26
  const TRACK: nat := 3328
  const RT_BLOCK: nat := 512

  function Doubled(n: nat): nat { if n >= 13 then n * 2 + 1 else n * 2 }

  // The sector of its track that holds the n-th logical sector of that track.
  function Interleaved(n: nat, track: nat): (sector: nat)
    requires track > 0
    ensures sector < SECTORS
  {
    (Doubled(n) + 26 + (track - 1) * 6) % SECTORS
  }

  // Which logical sector of its track a physical sector holds.
  function Deinterleaved(sector: nat, track: nat): (n: nat)
    requires track > 0
    ensures n < SECTORS
  {
    var doubled := (sector - (track - 1) * 6) % SECTORS;
    if doubled % 2 == 0 then doubled / 2 else (doubled - 1) / 2 + 13
  }

  lemma RotateBack(d: int, m: int)
    ensures ((d + 26 + m) % 26 - m) % 26 == d % 26
  {
    var q := (d + 26 + m) / 26;
    QuotientIs((d + 26 + m) % 26 - m, 26, d / 26 + 1 - q, d % 26);
  }

  lemma RotateOn(sector: int, m: int)
    requires 0 <= sector < 26
    ensures ((sector - m) % 26 + 26 + m) % 26 == sector
  {
    QuotientIs((sector - m) % 26 + 26 + m, 26, 1 - (sector - m) / 26, sector);
  }

  lemma SectorBack(n: nat, track: nat)
    requires n < SECTORS && track > 0
    ensures Deinterleaved(Interleaved(n, track), track) == n
  {
    RotateBack(Doubled(n), (track - 1) * 6);
    QuotientIs(Doubled(n), 26, if n >= 13 then 1 else 0, if n >= 13 then n * 2 - 25 else n * 2);
  }

  lemma SectorForth(sector: nat, track: nat)
    requires sector < SECTORS && track > 0
    ensures Interleaved(Deinterleaved(sector, track), track) == sector
  {
    var m := (track - 1) * 6;
    var turned := (sector - m) % 26;
    RotateOn(sector, m);
    DoubledOf(turned);
    if turned % 2 == 1 {
      ModShift(turned + 26 + m, 26, 1);
    }
  }

  lemma DoubledOf(turned: nat)
    requires turned < 26
    ensures if turned % 2 == 0 then Doubled(turned / 2) == turned else Doubled((turned - 1) / 2 + 13) == turned + 26
  {
  }

  function Address(track: nat, sector: nat, byte: nat): nat { (track * SECTORS + sector) * SECTOR + byte }

  lemma AddressParts(track: nat, sector: nat, byte: nat)
    requires sector < SECTORS && byte < SECTOR
    ensures var a := Address(track, sector, byte);
      a % SECTOR == byte && a / SECTOR / SECTORS == track && a / SECTOR % SECTORS == sector && a / TRACK == track
  {
    var a := Address(track, sector, byte);
    QuotientIs(a, SECTOR, track * SECTORS + sector, byte);
    QuotientIs(track * SECTORS + sector, SECTORS, track, sector);
    QuotientIs(a, TRACK, track, sector * SECTOR + byte);
  }

  lemma PartsAddress(a: nat)
    ensures a == Address(a / SECTOR / SECTORS, a / SECTOR % SECTORS, a % SECTOR)
    ensures a / TRACK == a / SECTOR / SECTORS
  {
    AddressParts(a / SECTOR / SECTORS, a / SECTOR % SECTORS, a % SECTOR);
  }

  /** Logical to physical address. */
  function Trans(logical: nat): nat {
    var moved := logical + SECTORS * SECTOR;
    var bytes, sector := moved % SECTOR, moved / SECTOR;
    var track := sector / SECTORS;
    (track * SECTORS + Interleaved(sector % SECTORS, track)) * SECTOR + bytes
  }

  /** Each track goes to the next one up, sector by sector, and the byte in its sector is kept. */
  lemma TransKeepsTrack(a: nat)
    ensures Trans(a) == Address(a / TRACK + 1, Interleaved(a / SECTOR % SECTORS, a / TRACK + 1), a % SECTOR)
    ensures var p := Trans(a);
      p / TRACK == a / TRACK + 1 && p % SECTOR == a % SECTOR
      && p / SECTOR % SECTORS == Interleaved(a / SECTOR % SECTORS, a / TRACK + 1)
  {
    hide Interleaved;
    PartsAddress(a);
    AddressParts(a / TRACK + 1, a / SECTOR % SECTORS, a % SECTOR);
    AddressParts(a / TRACK + 1, Interleaved(a / SECTOR % SECTORS, a / TRACK + 1), a % SECTOR);
  }

  lemma TransInjective(a: nat, b: nat)
    requires Trans(a) == Trans(b)
    ensures a == b
  {
    hide Interleaved, Deinterleaved, Trans;
    TransKeepsTrack(a);
    TransKeepsTrack(b);
    SectorBack(a / SECTOR % SECTORS, a / TRACK + 1);
    SectorBack(b / SECTOR % SECTORS, b / TRACK + 1);
    PartsAddress(a);
    PartsAddress(b);
  }

  /** Every address past the first track is the translation of one, so each track is permuted. */
  lemma TransOnto(p: nat)
    requires p >= TRACK
    ensures p / TRACK > 0
    ensures var track := p / TRACK;
      Trans(Address(track - 1, Deinterleaved(p / SECTOR % SECTORS, track), p % SECTOR)) == p
  {
    hide Interleaved, Deinterleaved, Trans;
    var track := p / TRACK;
    var n := Deinterleaved(p / SECTOR % SECTORS, track);
    SectorForth(p / SECTOR % SECTORS, track);
    AddressParts(track - 1, n, p % SECTOR);
    TransKeepsTrack(Address(track - 1, n, p % SECTOR));
    PartsAddress(p);
  }

  lemma TransWithinSector(a: nat, k: nat)
    requires a % SECTOR == 0 && k < SECTOR
    ensures Trans(a + k) == Trans(a) + k
  {
    hide Interleaved, Trans;
    PartsAddress(a);
    AddressParts(a / SECTOR / SECTORS, a / SECTOR % SECTORS, k);
    TransKeepsTrack(a);
    TransKeepsTrack(a + k);
  }

  // The physical sector of its track that holds a logical address.
  function SectorOf(a: nat): nat { Trans(a) / 128 % 26 }

  /** The logical sectors of a track lie two sectors apart all the way round, and three where the second
      round begins; each track starts six sectors further round than the one before. */
  lemma SectorsApart(a: nat)
    ensures Trans(0) == 3328
    ensures a % 3328 < 3200 ==> SectorOf(a + 128) == (SectorOf(a) + if a % 3328 / 128 == 12 then 3 else 2) % 26
    ensures SectorOf(a + 3328) == (SectorOf(a) + 6) % 26
    ensures Trans(a) / 3328 == a / 3328 + 1 && Trans(a) % 128 == a % 128
  {
    hide Interleaved, Trans;
    TransKeepsTrack(a);
    TransKeepsTrack(a + 128);
    TransKeepsTrack(a + 3328);
    SectorOnTrack(a);
    RoundTrack(a % 3328 / 128, a / 3328 + 1);
    FirstOfAll();
  }

  lemma FirstOfAll()
    ensures Trans(0) == 3328
  {
  }

  lemma SectorOnTrack(a: nat)
    ensures a / SECTOR % SECTORS == a % 3328 / 128 < 26 && a / TRACK == a / 3328
    ensures (a + 3328) / SECTOR % SECTORS == a % 3328 / 128 && (a + 3328) / TRACK == a / 3328 + 1
    ensures a % 3328 < 3200 ==>
      (a + 128) / SECTOR % SECTORS == a % 3328 / 128 + 1 < 26 && (a + 128) / TRACK == a / 3328
  {
    hide Address;
    var t, l := a / 3328, a % 3328;
    var n, b := l / 128, l % 128;
    DivisionParts(a, 3328);
    DivisionParts(l, 128);
    DivBelow(l, 128, 26);
    DivBelow(l, 128, 25);
    AddressIs(t, n, b);
    AddressIs(t + 1, n, b);
    AddressParts(t, n, b);
    AddressParts(t + 1, n, b);
    if l < 3200 {
      AddressIs(t, n + 1, b);
      AddressParts(t, n + 1, b);
    }
  }

  lemma AddressIs(track: nat, sector: nat, byte: nat)
    ensures Address(track, sector, byte) == track * 3328 + sector * 128 + byte
  {
  }

  lemma RoundTrack(n: nat, track: nat)
    requires n < 26 && track > 0
    ensures n < 25 ==> Interleaved(n + 1, track) == (Interleaved(n, track) + if n == 12 then 3 else 2) % 26
    ensures Interleaved(n, track + 1) == (Interleaved(n, track) + 6) % 26
  {
    var round := Doubled(n) + 26 + (track - 1) * 6;
    FurtherRound(round, if n == 12 then 3 else 2);
    FurtherRound(round, 6);
    assert n < 25 ==> Doubled(n + 1) == Doubled(n) + if n == 12 then 3 else 2;
    assert (track + 1 - 1) * 6 == (track - 1) * 6 + 6;
  }

  lemma FurtherRound(round: nat, d: nat)
    ensures (round + d) % 26 == (round % 26 + d) % 26
  {
    ModShift(round % 26 + d, 26, round / 26);
    DivisionParts(round, 26);
  }

  lemma SecondTrack()
    ensures Trans(3328) == 7424
  {
  }

  lemma TransBelow(a: nat, tracks: nat)
    requires tracks > 0 && a < (tracks - 1) * TRACK
    ensures Trans(a) < tracks * TRACK
  {
    hide Interleaved, Trans;
    TransKeepsTrack(a);
    DivBelow(a, TRACK, tracks - 1);
    DivBelow(Trans(a), TRACK, tracks);
  }

  ghost function Overlaid(v: seq<Byte>, start: nat, data: seq<Byte>): seq<Byte>
    requires start + |data| <= |v|
  {
    v[..start] + data + v[start + |data|..]
  }

  predicate Multiple(n: int, c: nat)
    requires c > 0
  {
    n % c == 0
  }

  lemma MultiplesFit(a: nat, b: nat, c: nat)
    requires c > 0 && Multiple(a, c) && Multiple(b, c)
    ensures Multiple(a + b, c) && Multiple(a + c, c) && (a < b ==> a + c <= b)
  {
    var m, n := a / c, b / c;
    QuotientIs(a + b, c, m + n, 0);
    QuotientIs(a + c, c, m + 1, 0);
    if a < b {
      if n <= m {
        MulMonotone(n, m, c);
      }
      MulMonotone(m + 1, n, c);
    }
  }

  class Drive {
    const tracks: nat
    const bytes: array<Byte>
    const plain: bool

    ghost predicate Valid() { tracks > 0 && bytes.Length == tracks * TRACK }

    constructor (tracks: nat, plain: bool)
      requires tracks > 0
      ensures Valid() && this.tracks == tracks && this.plain == plain && fresh(bytes)
    {
      this.tracks := tracks;
      this.plain := plain;
      bytes := new Byte[tracks * TRACK];
    }

    function Capacity(): nat
      requires tracks > 0
    {
      if plain then tracks * TRACK else (tracks - 1) * TRACK
    }

    function Place(a: nat): nat { if plain then a else Trans(a) }

    lemma PlaceInside(a: nat)
      requires Valid() && a < Capacity()
      ensures Place(a) < bytes.Length
    {
      if !plain {
        TransBelow(a, tracks);
      }
    }

    lemma PlaceInjective(a: nat, b: nat)
      requires Place(a) == Place(b)
      ensures a == b
    {
      hide Trans;
      if !plain {
        TransInjective(a, b);
      }
    }

    ghost function View(): (v: seq<Byte>)
      requires Valid()
      reads bytes
      ensures |v| == Capacity()
    {
      seq(Capacity(), a requires 0 <= a < Capacity() reads bytes => PlaceInside(a); bytes[Place(a)])
    }

    /** Each byte of the view lies where its address is translated to, or at the address itself on a plain file;
        and all tracks but the first are in the view, or all of them. */
    lemma ViewLies(a: nat)
      requires Valid() && a < Capacity()
      ensures Capacity() == 3328 * if plain then tracks else tracks - 1
      ensures var p := if plain then a else Trans(a); p < bytes.Length && View()[a] == bytes[p]
    {
      PlaceInside(a);
    }

    // One sector, or one whole block when addresses are not translated.
    function Chunk(): nat { if plain then RT_BLOCK else SECTOR }

    predicate Aligned(a: int) { Multiple(a, Chunk()) }

    lemma ChunksFit(a: nat, b: nat)
      requires Aligned(a) && Aligned(b)
      ensures Aligned(a + b) && (a < b ==> a + Chunk() <= b && Aligned(a + Chunk()))
    {
      MultiplesFit(a, b, Chunk());
    }

    lemma ChunkTogether(a: nat, k: nat)
      requires Valid() && Aligned(a) && k < Chunk() && a + Chunk() <= Capacity()
      ensures Place(a + k) == Place(a) + k < bytes.Length
    {
      hide Trans;
      PlaceInside(a + k);
      if !plain {
        TransWithinSector(a, k);
      }
    }

    method WriteChunk(a: nat, data: seq<Byte>)
      requires Valid() && |data| == Chunk() && Aligned(a) && a + Chunk() <= Capacity()
      modifies bytes
      ensures View() == Overlaid(old(View()), a, data)
    {
      hide Trans, View, Place, Overlaid;
      OverlaidNothing(View(), a);
      var k := 0;
      ghost var was := View();
      while k < |data|
        invariant 0 <= k <= |data|
        invariant View() == Overlaid(was, a, data[..k])
      {
        ChunkTogether(a, k);
        OverlaidOneMore(was, a, data, k);
        Store(a + k, Place(a) + k, data[k]);
        k := k + 1;
      }
      assert data[..k] == data;
    }

    lemma OverlaidNothing(v: seq<Byte>, a: nat)
      requires a <= |v|
      ensures Overlaid(v, a, []) == v
    {
    }

    lemma OverlaidTwice(v: seq<Byte>, a: nat, data: seq<Byte>, more: seq<Byte>)
      requires a + |data| + |more| <= |v|
      ensures Overlaid(Overlaid(v, a, data), a + |data|, more) == Overlaid(v, a, data + more)
    {
    }

    lemma OverlaidOneMore(v: seq<Byte>, a: nat, data: seq<Byte>, k: nat)
      requires k < |data| && a + |data| <= |v|
      ensures Overlaid(v, a, data[..k])[a + k := data[k]] == Overlaid(v, a, data[..k + 1])
    {
    }

    method Store(ghost a: nat, p: nat, b: Byte)
      requires Valid() && a < Capacity() && p == Place(a) < bytes.Length
      modifies bytes
      ensures View() == old(View())[a := b]
    {
      hide Trans;
      forall c: nat | c < Capacity() && c != a
        ensures Place(c) != p && Place(c) < bytes.Length
      {
        PlaceInside(c);
        if Place(c) == p {
          PlaceInjective(c, a);
        }
      }
      bytes[p] := b;
    }

    method LWrite(startad: nat, data: seq<Byte>)
      requires Valid() && Aligned(startad) && Aligned(|data|) && startad + |data| <= Capacity()
      modifies bytes
      ensures View() == Overlaid(old(View()), startad, data)
    {
      hide View, Place, Overlaid, Aligned, Chunk;
      var done := 0;
      ghost var was := View();
      OverlaidNothing(was, startad);
      Zero();
      while done < |data|
        invariant 0 <= done <= |data| && Aligned(done)
        invariant View() == Overlaid(was, startad, data[..done])
      {
        ChunksFit(startad, done);
        ChunksFit(done, |data|);
        WriteChunk(startad + done, data[done..done + Chunk()]);
        OverlaidTwice(was, startad, data[..done], data[done..done + Chunk()]);
        assert data[..done + Chunk()] == data[..done] + data[done..done + Chunk()];
        done := done + Chunk();
      }
      assert data[..done] == data;
    }

    lemma Zero()
      ensures Aligned(0) && Chunk() > 0
    {
    }

    method ReadChunk(a: nat) returns (data: seq<Byte>)
      requires Valid() && Aligned(a) && a + Chunk() <= Capacity()
      ensures data == View()[a..a + Chunk()]
    {
      hide Aligned;
      data := [];
      while |data| < Chunk()
        invariant |data| <= Chunk() && data == View()[a..a + |data|]
      {
        ChunkTogether(a, |data|);
        PlaceInside(a + |data|);
        data := data + [bytes[Place(a) + |data|]];
      }
    }

    method LRead(startad: nat, count: nat) returns (data: seq<Byte>)
      requires Valid() && Aligned(startad) && Aligned(count) && startad + count <= Capacity()
      ensures data == View()[startad..startad + count]
    {
      hide View, Place, Aligned, Chunk;
      data := [];
      Zero();
      while |data| < count
        invariant |data| <= count && Aligned(|data|)
        invariant data == View()[startad..startad + |data|]
      {
        ChunksFit(startad, |data|);
        ChunksFit(|data|, count);
        var more := ReadChunk(startad + |data|);
        data := data + more;
      }
    }
  }

  datatype Write = Write(startad: nat, data: seq<Byte>)

  // What a logical address holds after a run of writes: the last data written there.
  ghost function LastWritten(writes: seq<Write>, v: seq<Byte>, a: nat): Byte
    requires a < |v|
  {
    if writes == [] then v[a]
    else
      var w := writes[|writes| - 1];
      if w.startad <= a < w.startad + |w.data| then w.data[a - w.startad]
      else LastWritten(writes[..|writes| - 1], v, a)
  }

  /** Whatever is written, and in whatever order, reading gives back the last data written. */
  method WritesThenRead(drive: Drive, writes: seq<Write>, startad: nat, count: nat) returns (data: seq<Byte>)
    requires drive.Valid()
    requires forall w :: w in writes ==> drive.Aligned(w.startad) && drive.Aligned(|w.data|)
    requires forall w :: w in writes ==> w.startad + |w.data| <= drive.Capacity()
    requires drive.Aligned(startad) && drive.Aligned(count) && startad + count <= drive.Capacity()
    modifies drive.bytes
    ensures |data| == count
    ensures forall k :: 0 <= k < count ==> data[k] == LastWritten(writes, old(drive.View()), startad + k)
  {
    hide Drive.View, Drive.Place;
    ghost var was := drive.View();
    var n := 0;
    while n < |writes|
      invariant 0 <= n <= |writes|
      invariant forall a: nat :: a < drive.Capacity() ==> drive.View()[a] == LastWritten(writes[..n], was, a)
    {
      assert writes[n] in writes;
      drive.LWrite(writes[n].startad, writes[n].data);
      assert writes[..n + 1][..n] == writes[..n];
      n := n + 1;
    }
    assert writes[..n] == writes;
    data := drive.LRead(startad, count);
  }
}
