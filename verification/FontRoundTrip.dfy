/** What the font converter writes, the kernel reads back (CommandLine/bdfconv/src/aosbf.c:104-132, 210-374 and
    Kernel/drivers/extra/aosbf.c:285-447). */
module FontRoundTrip {
  import opened Common
  import opened LittleEndian
  import opened Atlas
  import opened FontLayout
  import opened FontFile

  /** The glyphs of the first `n` characters that have pixels, each with its own bytes. */
  function Originals(ss: seq<Source>, n: nat): seq<Glyph>
    requires n <= |ss| && AllWhole(ss)
  {
    if n == 0 then [] else Originals(ss, n - 1) + Original(ss[n - 1])
  }

  /** Their records. */
  function Shown(ss: seq<Source>, n: nat): seq<Record>
    requires n <= |ss| && AllWhole(ss)
  {
    if n == 0 then [] else Shown(ss, n - 1) + UsableOf(RecordNo(ss, n - 1))
  }

  function Original(s: Source): seq<Glyph>
    requires s.Whole()
  {
    if s.Drawn() then [Glyph(s.Bytes(), s.width, s.rows, s.pitch, s.format)] else []
  }

  /** Everything fits the fields it is stored in. */
  ghost predicate Storable(h: Header, strings: seq<Byte>, ss: seq<Source>, n: nat)
    requires n <= |ss| && AllWhole(ss)
  {
    && (forall i | 0 <= i < n :: ss[i].Representable())
    && h.Fits() && h.magic == MAGIC && h.version == FONT_VERSION && h.revision == 0
    && n < U32 && |Pushed(ss, n)| < U32 && |strings| < U32
  }

  /** `mem` starts with the written file. */
  ghost predicate HoldsFile(mem: seq<Byte>, size: nat, h: Header, strings: seq<Byte>, rs: seq<Record>,
          bitmaps: seq<Byte>) {
    && size == HEADER_SIZE + |strings| + RECORD_SIZE * |rs| + |bitmaps| && size <= |mem|
    && mem[..size] == Written(h, strings, rs, bitmaps)
  }

  // ----- where things lie -----

  lemma {:induction false} TableAt(rs: seq<Record>, n: nat, i: nat)
    requires i < n <= |rs|
    ensures Table(rs, n)[RECORD_SIZE * i..RECORD_SIZE * i + RECORD_SIZE] == RecordBytes(rs[i])
    decreases n
  {
    var front, last := Table(rs, n - 1), RecordBytes(rs[n - 1]);
    if i == n - 1 {
      AtEnd(front, last);
    } else {
      TableAt(rs, n - 1, i);
      InFront(front, last, RECORD_SIZE * i, RECORD_SIZE * i + RECORD_SIZE);
    }
  }

  lemma {:induction false} AtEnd<T>(a: seq<T>, b: seq<T>)
    ensures (a + b)[|a|..|a| + |b|] == b
  {
  }

  lemma {:induction false} InFront<T>(a: seq<T>, b: seq<T>, from: nat, to: nat)
    requires from <= to <= |a|
    ensures (a + b)[from..to] == a[from..to]
  {
  }

  lemma {:induction false} Behind<T>(a: seq<T>, b: seq<T>, from: nat, to: nat)
    requires from <= to <= |b|
    ensures (a + b)[|a| + from..|a| + to] == b[from..to]
  {
  }

  predicate PartOf(whole: seq<Byte>, at: nat, part: seq<Byte>) {
    at + |part| <= |whole| && whole[at..at + |part|] == part
  }

  lemma {:induction false} PartStays(whole: seq<Byte>, at: nat, part: seq<Byte>, more: seq<Byte>)
    requires PartOf(whole, at, part)
    ensures PartOf(whole + more, at, part)
  {
    InFront(whole, more, at, at + |part|);
  }

  lemma {:induction false} PushedAt(ss: seq<Source>, n: nat, i: nat)
    requires i < n <= |ss| && AllWhole(ss)
    ensures PartOf(Pushed(ss, n), |Pushed(ss, i)|, ss[i].Bytes())
    decreases n
  {
    if i == n - 1 {
      AtEnd(Pushed(ss, i), ss[i].Bytes());
    } else {
      PushedAt(ss, n - 1, i);
      PartStays(Pushed(ss, n - 1), |Pushed(ss, i)|, ss[i].Bytes(), ss[n - 1].Bytes());
    }
  }

  /** A slice of one of the four parts of the file is the same slice of memory. */
  lemma {:induction false} PartAt<T>(mem: seq<T>, size: nat, before: seq<T>, part: seq<T>, after: seq<T>, from: nat,
          to: nat)
    requires size <= |mem| && mem[..size] == before + part + after && from <= to <= |part|
    ensures |before| + to <= |mem| && mem[|before| + from..|before| + to] == part[from..to]
  {
    Behind(before, part, from, to);
    InFront(before + part, after, |before| + from, |before| + to);
    InFront(mem[..size], mem[size..], |before| + from, |before| + to);
    assert mem == mem[..size] + mem[size..];
  }

  // ----- reading it back -----

  lemma {:induction false} LaidFits(h: Header, strings: nat, count: nat, used: nat)
    requires h.Fits() && strings < U32 && count < U32 && used < U32
    ensures Laid(h, strings, count, used).Fits()
  {
    Capacities();
    var vs, ws := h.Values(), Laid(h, strings, count, used).Values();
    forall i | 0 <= i < |HEADER_FIELDS|
      ensures ws[i] < Capacity(HEADER_FIELDS[i].size)
    {
      assert vs[i] < Capacity(HEADER_FIELDS[i].size);
    }
  }

  lemma {:induction false} HeaderComesBack(mem: seq<Byte>, size: nat, h: Header, strings: seq<Byte>, rs: seq<Record>,
          bitmaps: seq<Byte>)
    requires HoldsFile(mem, size, h, strings, rs, bitmaps) && h.Fits() && |strings| < U32 && |rs| < U32 &&
               |bitmaps| < U32
    ensures HeaderIn(mem) == Laid(h, |strings|, |rs|, |bitmaps|)
  {
    var l := Laid(h, |strings|, |rs|, |bitmaps|);
    LaidFits(h, |strings|, |rs|, |bitmaps|);
    var b := HeaderBytes(l);
    assert Written(h, strings, rs, bitmaps) == [] + b + (strings + Table(rs, |rs|) + bitmaps);
    PartAt(mem, size, [], b, strings + Table(rs, |rs|) + bitmaps, 0, HEADER_SIZE);
    HeaderFromFile(mem, l);
  }

  lemma {:induction false} RecordFits(s: Source, before: nat, offset: nat)
    requires s.Representable()
    ensures RecordOf(s, before, offset).Fits()
  {
    Capacities();
    var vs := RecordOf(s, before, offset).Values();
    assert forall i | 0 <= i < 3 :: vs[i] < U32 && RECORD_FIELDS[i].size == 4;
    assert forall i | 3 <= i < 10 :: vs[i] < U16 && RECORD_FIELDS[i].size == 2;
    assert vs[10] < U32 && RECORD_FIELDS[10].size == 4;
    assert forall i | 11 <= i < 13 :: vs[i] < 256 && RECORD_FIELDS[i].size == 1;
  }

  lemma {:induction false} RecordIsThere(mem: seq<Byte>, size: nat, h: Header, strings: seq<Byte>, rs: seq<Record>,
          bitmaps: seq<Byte>, i: nat)
    requires HoldsFile(mem, size, h, strings, rs, bitmaps) && i < |rs|
    ensures var at := HEADER_SIZE + |strings| + RECORD_SIZE * i;
            at + RECORD_SIZE <= |mem| && mem[at..at + RECORD_SIZE] == RecordBytes(rs[i])
  {
    var before := HeaderBytes(Laid(h, |strings|, |rs|, |bitmaps|)) + strings;
    PartAt(mem, size, before, Table(rs, |rs|), bitmaps, RECORD_SIZE * i, RECORD_SIZE * i + RECORD_SIZE);
    TableAt(rs, |rs|, i);
  }

  lemma {:induction false} RecordComesBack(mem: seq<Byte>, size: nat, h: Header, strings: seq<Byte>, rs: seq<Record>,
          bitmaps: seq<Byte>, i: nat)
    requires HoldsFile(mem, size, h, strings, rs, bitmaps) && i < |rs| && rs[i].Fits()
    ensures RecordIn(mem, Laid(h, |strings|, |rs|, |bitmaps|), i) == rs[i]
  {
    RecordIsThere(mem, size, h, strings, rs, bitmaps, i);
    RecordFromFile(mem, HEADER_SIZE + |strings| + RECORD_SIZE * i, rs[i]);
  }

  lemma {:induction false} BitmapComesBack(mem: seq<Byte>, size: nat, h: Header, strings: seq<Byte>, rs: seq<Record>,
          bitmaps: seq<Byte>, at: nat, n: nat)
    requires HoldsFile(mem, size, h, strings, rs, bitmaps) && at + n <= |bitmaps|
    ensures var l := Laid(h, |strings|, |rs|, |bitmaps|);
            l.atlas + at + n <= size && Slice(mem, l.atlas + at, n) == bitmaps[at..at + n]
  {
    var l := Laid(h, |strings|, |rs|, |bitmaps|);
    var before := HeaderBytes(l) + strings + Table(rs, |rs|);
    assert Written(h, strings, rs, bitmaps) == before + bitmaps + [];
    PartAt(mem, size, before, bitmaps, [], at, at + n);
  }

  /** A record that names the bytes of its character passes the reader's tests and yields the character's glyph. */
  lemma {:induction false} GlyphOfRecord(mem: seq<Byte>, size: nat, l: Header, s: Source, before: nat, at: nat)
    requires s.Whole() && s.Representable() && at < U32
    requires l.atlas + at + |s.Bytes()| <= size && Slice(mem, l.atlas + at, |s.Bytes()|) == s.Bytes()
    ensures var r := RecordOf(s, before, at);
            (r.Usable() ==> BitmapInside(r, l, size)) && GlyphOf(mem, l, r) == Original(s)
  {
    UsableIffDrawn(s, before, at);
    if s.Drawn() {
      RecordDescribes(s, before, at);
      GlyphDescribed(mem, size, l, RecordOf(s, before, at), s, at);
    }
  }

  lemma {:induction false} UsableIffDrawn(s: Source, before: nat, at: nat)
    requires s.Representable()
    ensures RecordOf(s, before, at).Usable() <==> s.Drawn()
  {
  }

  lemma {:induction false} GlyphDescribed(mem: seq<Byte>, size: nat, l: Header, r: Record, s: Source, at: nat)
    requires s.Whole() && s.Drawn() && Describes(r, s, at) && r.atlasY == 0 && r.valid != 0
    requires l.atlas + at + |s.Bytes()| <= size && Slice(mem, l.atlas + at, |s.Bytes()|) == s.Bytes()
    ensures BitmapInside(r, l, size) && GlyphOf(mem, l, r) == Original(s)
  {
    assert RowBytes(r) == |s.Bytes()| && SourceOffset(r) == at;
  }

  lemma {:induction false} StartsThere(l: Header, size: nat, strings: nat, count: nat, used: nat, i: nat)
    requires l.glyphs == HEADER_SIZE + strings && size == HEADER_SIZE + strings + RECORD_SIZE * count + used &&
               i < count
    ensures StartsInside(l, size, i)
  {
  }

  lemma {:induction false} RecordPart(mem: seq<Byte>, size: nat, h: Header, strings: seq<Byte>, rs: seq<Record>,
          bitmaps: seq<Byte>,
                                      l: Header, i: nat)
    requires HoldsFile(mem, size, h, strings, rs, bitmaps) && l == Laid(h, |strings|, |rs|, |bitmaps|)
    requires i < |rs| && rs[i].Fits()
    ensures StartsInside(l, size, i) && RecordIn(mem, l, i) == rs[i]
  {
    RecordComesBack(mem, size, h, strings, rs, bitmaps, i);
    StartsThere(l, size, |strings|, |rs|, |bitmaps|, i);
  }

  lemma {:induction false} BitmapPart(mem: seq<Byte>, size: nat, h: Header, strings: seq<Byte>, rs: seq<Record>,
          bitmaps: seq<Byte>,
                                      l: Header, at: nat, part: seq<Byte>)
    requires HoldsFile(mem, size, h, strings, rs, bitmaps) && l == Laid(h, |strings|, |rs|, |bitmaps|) &&
               PartOf(bitmaps, at, part)
    ensures l.atlas + at + |part| <= size && Slice(mem, l.atlas + at, |part|) == part
  {
    BitmapComesBack(mem, size, h, strings, rs, bitmaps, at, |part|);
  }

  /** One character: its record passes the reader's tests, and its glyph is the one that was pushed. */
  lemma {:induction false} GlyphComesBack(mem: seq<Byte>, size: nat, h: Header, strings: seq<Byte>, rs: seq<Record>,
          bitmaps: seq<Byte>,
                                          l: Header, i: nat, s: Source, before: nat, at: nat)
    requires HoldsFile(mem, size, h, strings, rs, bitmaps) && l == Laid(h, |strings|, |rs|, |bitmaps|)
    requires i < |rs| && s.Representable() && rs[i] == RecordOf(s, before, at)
    requires s.Whole() && PartOf(bitmaps, at, s.Bytes()) && |bitmaps| < U32
    ensures RecordOk(mem, size, l, i) && RecordIn(mem, l, i) == rs[i] &&
              GlyphOf(mem, l, RecordIn(mem, l, i)) == Original(s)
  {
    RecordFits(s, before, at);
    RecordPart(mem, size, h, strings, rs, bitmaps, l, i);
    BitmapPart(mem, size, h, strings, rs, bitmaps, l, at, s.Bytes());
    GlyphPasses(mem, size, l, i, s, before, at);
  }

  lemma {:induction false} GlyphPasses(mem: seq<Byte>, size: nat, l: Header, i: nat, s: Source, before: nat, at: nat)
    requires s.Whole() && s.Representable() && at < U32
    requires StartsInside(l, size, i) && RecordIn(mem, l, i) == RecordOf(s, before, at)
    requires l.atlas + at + |s.Bytes()| <= size && Slice(mem, l.atlas + at, |s.Bytes()|) == s.Bytes()
    ensures RecordOk(mem, size, l, i) && GlyphOf(mem, l, RecordIn(mem, l, i)) == Original(s)
  {
    GlyphOfRecord(mem, size, l, s, before, at);
  }

  ghost predicate Same(mem: seq<Byte>, size: nat, l: Header, ss: seq<Source>, i: nat)
    requires i < |ss| && AllWhole(ss)
  {
    RecordOk(mem, size, l, i) && GlyphOf(mem, l, RecordIn(mem, l, i)) == Original(ss[i]) &&
        RecordIn(mem, l, i) == RecordNo(ss, i)
  }

  lemma {:induction false} CharacterComesBack(mem: seq<Byte>, size: nat, h: Header, strings: seq<Byte>, ss: seq<Source>,
          rs: seq<Record>, i: nat)
    requires AllWhole(ss) && Built(rs, ss) && Storable(h, strings, ss, |rs|) && i < |rs|
    requires HoldsFile(mem, size, h, strings, rs, Pushed(ss, |rs|))
    ensures Same(mem, size, Laid(h, |strings|, |rs|, |Pushed(ss, |rs|)|), ss, i)
  {
    PushedAt(ss, |rs|, i);
    assert rs[i] == RecordNo(ss, i);
    var l := Laid(h, |strings|, |rs|, |Pushed(ss, |rs|)|);
    GlyphComesBack(mem, size, h, strings, rs, Pushed(ss, |rs|), l, i, ss[i], Fallback(ss, i), |Pushed(ss, i)|);
  }

  /** A record carries each number that the font library gave for the character; its bitmap starts at `at`. */
  predicate Describes(r: Record, s: Source, at: nat) {
    && r.codepoint == s.code && (r.valid != 0 <==> s.Rendered?)
    && (s.Rendered? ==>
          r.bearingX == s.left && r.bearingY == s.top && r.advanceX == s.advanceX && r.advanceY == s.advanceY)
    && (s.Drawn() ==>
          r.width == s.width && r.height == s.rows && r.pitch == s.pitch && r.format == s.format &&
          SourceOffset(r) == at)
    && (!s.Drawn() ==> r == Record(r.codepoint, 0, 0, 0, 0, 0, r.bearingX, r.bearingY, r.advanceX, r.advanceY, 0,
       r.fallback, r.valid))
    && (s.Failed? ==> r.bearingX == 0 && r.bearingY == 0 && r.advanceX == 0 && r.advanceY == 0)
  }

  lemma {:induction false} RecordDescribes(s: Source, before: nat, at: nat)
    requires s.Representable() && at < U32
    ensures Describes(RecordOf(s, before, at), s, at)
  {
  }

  /** The numbers of the font library arrive in the reader's record, each in its own place. */
  lemma {:induction false} MetricsComeBack(mem: seq<Byte>, size: nat, h: Header, strings: seq<Byte>, ss: seq<Source>,
          rs: seq<Record>, i: nat)
    requires AllWhole(ss) && Built(rs, ss) && Storable(h, strings, ss, |rs|) && i < |rs|
    requires HoldsFile(mem, size, h, strings, rs, Pushed(ss, |rs|))
    ensures Describes(RecordIn(mem, Laid(h, |strings|, |rs|, |Pushed(ss, |rs|)|), i), ss[i], |Pushed(ss, i)|)
  {
    CharacterComesBack(mem, size, h, strings, ss, rs, i);
    PushedGrows(ss, i, |rs|);
    RecordDescribes(ss[i], Fallback(ss, i), |Pushed(ss, i)|);
  }

  lemma {:induction false} PushedGrows(ss: seq<Source>, i: nat, n: nat)
    requires i <= n <= |ss| && AllWhole(ss)
    ensures |Pushed(ss, i)| <= |Pushed(ss, n)|
    decreases n
  {
    if i < n {
      PushedGrows(ss, i, n - 1);
    }
  }

  lemma {:induction false} GlyphsComeBack(mem: seq<Byte>, size: nat, l: Header, ss: seq<Source>, k: nat)
    requires k <= |ss| && AllWhole(ss) && forall i | 0 <= i < k :: Same(mem, size, l, ss, i)
    ensures GlyphsIn(mem, l, k) == Originals(ss, k) && UsableIn(mem, l, k) == Shown(ss, k)
    decreases k
  {
    if k == 0 {
    } else {
      GlyphsComeBack(mem, size, l, ss, k - 1);
      assert Same(mem, size, l, ss, k - 1);
    }
  }

  lemma {:induction false} SameMeansOk(mem: seq<Byte>, size: nat, l: Header, ss: seq<Source>, n: nat)
    requires n <= |ss| && AllWhole(ss) && forall i | 0 <= i < n :: Same(mem, size, l, ss, i)
    ensures FirstOk(mem, size, l, n)
  {
    forall i | 0 <= i < n
      ensures RecordOk(mem, size, l, i)
    {
      assert Same(mem, size, l, ss, i);
    }
  }

  lemma {:induction false} SomeOriginal(ss: seq<Source>, n: nat)
    requires n <= |ss| && AllWhole(ss)
    ensures |Originals(ss, n)| >= 1 <==> exists i :: 0 <= i < n && ss[i].Drawn()
    decreases n
  {
    if n == 0 {
    } else {
      SomeOriginal(ss, n - 1);
    }
  }

  /** A character with pixels gives the file a bitmap, and the header passes. */
  lemma {:induction false} HeaderAccepted(h: Header, strings: seq<Byte>, ss: seq<Source>, n: nat, i: nat, l: Header,
          size: nat)
    requires n <= |ss| && AllWhole(ss) && Storable(h, strings, ss, n) && i < n && ss[i].Drawn()
    requires l == Laid(h, |strings|, n, |Pushed(ss, n)|)
    requires size == HEADER_SIZE + |strings| + RECORD_SIZE * n + |Pushed(ss, n)|
    ensures HeaderOk(l, size)
  {
    PushedAt(ss, n, i);
    assert ss[i].Representable();
    assert ss[i].pitch * ss[i].rows >= 1;
  }

  /** A written font is accepted if and only if some character has pixels; then the reader's glyphs are exactly the
      pushed bitmaps with their sizes, pitches and formats, in order, under their own code points and metrics. */
  lemma {:induction false} WrittenFontReadsBack(mem: seq<Byte>, size: nat, h: Header, strings: seq<Byte>,
          ss: seq<Source>, rs: seq<Record>)
    requires AllWhole(ss) && Built(rs, ss) && Storable(h, strings, ss, |rs|)
    requires HoldsFile(mem, size, h, strings, rs, Pushed(ss, |rs|))
    ensures FontOk(mem, size, HeaderIn(mem)) <==> exists i :: 0 <= i < |rs| && ss[i].Drawn()
    ensures HeaderIn(mem).glyphCount == |rs| && GlyphsIn(mem, HeaderIn(mem), |rs|) == Originals(ss, |rs|)
    ensures UsableIn(mem, HeaderIn(mem), |rs|) == Shown(ss, |rs|)
    ensures Readable(mem, size) && TableInside(HeaderIn(mem), size)
  {
    var n, bitmaps := |rs|, Pushed(ss, |rs|);
    var l := Laid(h, |strings|, n, |bitmaps|);
    HeaderComesBack(mem, size, h, strings, rs, bitmaps);
    forall i | 0 <= i < n
      ensures Same(mem, size, l, ss, i)
    {
      CharacterComesBack(mem, size, h, strings, ss, rs, i);
    }
    GlyphsComeBack(mem, size, l, ss, n);
    SameMeansOk(mem, size, l, ss, n);
    SomeOriginal(ss, n);
    WrittenTableInside(h, |strings|, n, |bitmaps|);
    AcceptedIfSome(h, strings, ss, n, l, size);
  }

  /** A written font is read to the end if and only if some character has pixels, memory for the table is granted, and
      the packer accepts the pushed bitmaps in turn. */
  lemma {:induction false} WrittenFontIsRead(mem: seq<Byte>, size: nat, h: Header, strings: seq<Byte>, ss: seq<Source>,
          rs: seq<Record>,
                                             table: bool, first: bool, next: bool)
    requires AllWhole(ss) && Built(rs, ss) && Storable(h, strings, ss, |rs|)
    requires HoldsFile(mem, size, h, strings, rs, Pushed(ss, |rs|))
    ensures Reads(mem, size, table, first, next) <==>
            table && (exists i :: 0 <= i < |rs| && ss[i].Drawn()) && Packed(Originals(ss, |rs|), first, next).Some?
  {
    WrittenFontReadsBack(mem, size, h, strings, ss, rs);
  }

  /** The writer lays the whole table out inside the file, so that reading it back needs nothing behind the buffer. */
  lemma {:induction false} WrittenTableInside(h: Header, strings: nat, count: nat, used: nat)
    ensures TableInside(Laid(h, strings, count, used), HEADER_SIZE + strings + RECORD_SIZE * count + used)
  {
  }

  // ----- a table that reaches behind the buffer -----

  const DOT: Source := Rendered(65, 1, 1, 1, 1, [128], 0, 0, 1, 0)
  const DOT_RECORD: Record := Record(65, 0, 0, 1, 1, 1, 0, 0, 1, 0, 1, 0, 1)

  /** The header of a font with one small character, but with a second glyph counted. */
  const ONE_TOO_MANY: Header := Header(MAGIC, FONT_VERSION, 0, HEADER_SIZE, 0, 0, 0, 16, 0, 16, 0, 0, 0, 0, 1, 1, 148,
      HEADER_SIZE, 2)

  /** Its only record is that of the character. */
  lemma {:induction false} DotRecord()
    ensures RecordNo([DOT], 0) == DOT_RECORD && Pushed([DOT], 1) == DOT.Bytes()
  {
  }

  function OneTooMany(): seq<Byte> { HeaderBytes(ONE_TOO_MANY) + RecordBytes(DOT_RECORD) + DOT.Bytes() + Zeroes(35) }

  /** The written font with a single character, its count raised by one, and zeroes behind it: it is accepted, and the
      second record, which starts on the last byte of the buffer, is read from behind it. */
  lemma {:induction false} AcceptedBehindTheBuffer()
    ensures var mem, size := OneTooMany(), 149;
            && ONE_TOO_MANY == Laid(ONE_TOO_MANY, 0, 1, 1).(glyphCount := 2)
            && mem[HEADER_SIZE..size] == Written(ONE_TOO_MANY, [], [DOT_RECORD], DOT.Bytes())[HEADER_SIZE..]
            && HeaderIn(mem) == ONE_TOO_MANY && Readable(mem, size) && FontOk(mem, size, ONE_TOO_MANY)
            && ONE_TOO_MANY.glyphs + 1 * RECORD_SIZE + RECORD_SIZE == 184 > size
  {
    var mem, size := OneTooMany(), 149;
    OneTooManyHeader(mem);
    OneTooManyRecords(mem);
    OneTooManyPasses(mem);
    OneTooManyIsWritten(mem);
  }

  lemma {:induction false} OneTooManyIsWritten(mem: seq<Byte>)
    requires mem == OneTooMany()
    ensures mem[HEADER_SIZE..149] == Written(ONE_TOO_MANY, [], [DOT_RECORD], DOT.Bytes())[HEADER_SIZE..]
  {
    assert Table([DOT_RECORD], 1) == Table([DOT_RECORD], 0) + RecordBytes(DOT_RECORD) == RecordBytes(DOT_RECORD);
    var head := HeaderBytes(Laid(ONE_TOO_MANY, 0, 1, 1));
    assert Written(ONE_TOO_MANY, [], [DOT_RECORD], DOT.Bytes()) == head + RecordBytes(DOT_RECORD) + DOT.Bytes();
    assert (head + RecordBytes(DOT_RECORD) + DOT.Bytes())[HEADER_SIZE..] == RecordBytes(DOT_RECORD) + DOT.Bytes();
    assert mem[HEADER_SIZE..149] == RecordBytes(DOT_RECORD) + DOT.Bytes();
  }

  lemma {:induction false} OneTooManyHeader(mem: seq<Byte>)
    requires mem == OneTooMany()
    ensures HeaderIn(mem) == ONE_TOO_MANY
  {
    Capacities();
    assert forall i | 0 <= i < |HEADER_FIELDS| :: ONE_TOO_MANY.Values()[i] < 0x1_0000 || i == 0;
    assert mem[0..HEADER_SIZE] == HeaderBytes(ONE_TOO_MANY);
    HeaderFromFile(mem, ONE_TOO_MANY);
  }

  lemma {:induction false} OneTooManyRecords(mem: seq<Byte>)
    requires mem == OneTooMany()
    ensures RecordIn(mem, ONE_TOO_MANY, 0) == DOT_RECORD && !RecordIn(mem, ONE_TOO_MANY, 1).Usable()
  {
    RecordFits(DOT, 0, 0);
    assert mem[HEADER_SIZE..148] == RecordBytes(DOT_RECORD);
    RecordFromFile(mem, HEADER_SIZE, DOT_RECORD);
    NotValid(mem, 148);
  }

  lemma {:induction false} NotValid(d: seq<Byte>, o: nat)
    requires o + RECORD_SIZE <= |d| && d[o + 33] == 0
    ensures RecordAt(d, o).valid == 0
  {
    RecordInside(d, o);
    LoadAllAt(d, o, RECORD_FIELDS, 12);
    assert Number(d, o + 34, 0) == 0;
  }

  lemma {:induction false} OneTooManyPasses(mem: seq<Byte>)
    requires |mem| == 184 && RecordIn(mem, ONE_TOO_MANY, 0) == DOT_RECORD && !RecordIn(mem, ONE_TOO_MANY, 1).Usable()
    ensures FontOk(mem, 149, ONE_TOO_MANY)
  {
    assert |GlyphsIn(mem, ONE_TOO_MANY, 1)| == 1 by {
      InNext(mem, ONE_TOO_MANY, 0);
    }
    InNext(mem, ONE_TOO_MANY, 1);
    DotFits(mem);
    NextOk(mem, 149, ONE_TOO_MANY, 0);
    NextOk(mem, 149, ONE_TOO_MANY, 1);
  }

  lemma {:induction false} DotFits(mem: seq<Byte>)
    requires RecordIn(mem, ONE_TOO_MANY, 0) == DOT_RECORD && !RecordIn(mem, ONE_TOO_MANY, 1).Usable()
    ensures RecordOk(mem, 149, ONE_TOO_MANY, 0) && RecordOk(mem, 149, ONE_TOO_MANY, 1)
  {
    assert SourceOffset(DOT_RECORD) == 0 && RowBytes(DOT_RECORD) == 1;
  }

  lemma {:induction false} AcceptedIfSome(h: Header, strings: seq<Byte>, ss: seq<Source>, n: nat, l: Header, size: nat)
    requires n <= |ss| && AllWhole(ss) && Storable(h, strings, ss, n) && l == Laid(h, |strings|, n, |Pushed(ss, n)|)
    requires size == HEADER_SIZE + |strings| + RECORD_SIZE * n + |Pushed(ss, n)|
    ensures (exists i :: 0 <= i < n && ss[i].Drawn()) ==> HeaderOk(l, size)
  {
    forall i | 0 <= i < n && ss[i].Drawn()
      ensures HeaderOk(l, size)
    {
      HeaderAccepted(h, strings, ss, n, i, l, size);
    }
  }

  lemma {:induction false} ReplacementSeen(ss: seq<Source>, n: nat)
    requires n <= |ss|
    ensures Fallback(ss, n) == REPLACEMENT <==> exists i :: 0 <= i < n && ss[i].code == REPLACEMENT
    decreases n
  {
    if n == 0 {
    } else {
      ReplacementSeen(ss, n - 1);
    }
  }

  /** The characters that are marked as fallback: U+FFFD, and a question mark that comes before any U+FFFD. */
  lemma {:induction false} MarkedIff(ss: seq<Source>, i: nat)
    requires i < |ss| && AllWhole(ss)
    ensures RecordNo(ss, i).fallback != 0 <==>
            ss[i].code == 0xFFFD || (ss[i].code == '?' as nat && forall j | 0 <= j < i :: ss[j].code != 0xFFFD)
  {
    ReplacementSeen(ss, i);
  }
}
