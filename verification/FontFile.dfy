/** The AOSBF font file: the writer of the font converter (CommandLine/bdfconv/src/aosbf.c) and the kernel's reader
    (Kernel/drivers/extra/aosbf.c:285-458). */
module FontFile {
  import opened Common
  import opened FontLayout
  import opened Atlas

  const U16 := 0x1_0000
  const U32_MAX := 0xFFFF_FFFF
  const REPLACEMENT := 0xFFFD
  const QUESTION := 63
  const INITIAL_SIZE := 4096

  // ----- the writer -----

  /** A character that the font library failed on, or its rendered bitmap. */
  datatype Source =
    | Failed(code: nat)
    | Rendered(code: nat, width: nat, rows: nat, pitch: nat, format: nat, buffer: seq<Byte>,
               left: nat, top: nat, advanceX: nat, advanceY: nat)
  {
    predicate Drawn() { Rendered? && width != 0 && rows != 0 }

    /** The bitmap's bytes are there, as the font library promises. */
    predicate Whole() { Rendered? ==> pitch * rows <= |buffer| }

    function Bytes(): seq<Byte>
      requires Whole()
    {
      if Drawn() then buffer[..pitch * rows] else []
    }

    /** All numbers fit the fields that they are stored in, and the pitch is positive. */
    predicate Representable() {
      && code < U32
      && (Rendered? ==> width < U16 && rows < U16 && 0 < pitch < U16 && 0 < format < U32 && left < U16 && top < U16
                        && advanceX < U16 && advanceY < U16)
    }
  }

  predicate AllWhole(ss: seq<Source>) { forall i | 0 <= i < |ss| :: ss[i].Whole() }

  /** The bitmaps of the first `n` characters, one behind the other. */
  function Pushed(ss: seq<Source>, n: nat): seq<Byte>
    requires n <= |ss| && AllWhole(ss)
  {
    if n == 0 then [] else Pushed(ss, n - 1) + ss[n - 1].Bytes()
  }

  /** The growing buffer of bitmap bytes. */
  class BitmapStore {
    var bytes: array<Byte>
    var used: nat

    ghost predicate Valid()
      reads this
    {
      used <= bytes.Length
    }

    /** The buffer has grown only as far as it had to. */
    ghost predicate Snug()
      reads this
    {
      bytes.Length == Max(INITIAL_SIZE, used)
    }

    ghost function Contents(): seq<Byte>
      reads this, bytes
      requires Valid()
    {
      bytes[..used]
    }

    constructor ()
      ensures Valid() && Snug() && Contents() == [] && fresh(bytes)
    {
      bytes := new Byte[INITIAL_SIZE](_ => 0);
      used := 0;
    }

    /** atlas_resize. */
    method Resize(capacity: nat, granted: bool) returns (ok: bool)
      requires Valid()
      modifies this`bytes
      ensures Valid() && Contents() == old(Contents())
      ensures ok <==> capacity > 0 && (capacity == old(bytes.Length) || (capacity > old(bytes.Length) && granted))
      ensures if ok then bytes.Length == capacity else bytes == old(bytes)
      ensures bytes == old(bytes) || fresh(bytes)
    {
      if capacity == 0 || capacity < bytes.Length {
        return false;
      }
      if capacity == bytes.Length {
        return true;
      }
      if !granted {
        return false;
      }
      var was := bytes;
      var grown := new Byte[capacity](_ => 0);
      for k := 0 to was.Length
        invariant forall i | 0 <= i < k :: grown[i] == was[i]
      {
        grown[k] := was[k];
      }
      bytes := grown;
      return true;
    }

    /** push_bitmap. */
    method Push(s: Source, granted: bool) returns (position: Option<nat>)
      requires Valid() && s.Rendered? && s.Whole()
      modifies this, bytes
      ensures Valid() && (bytes == old(bytes) || fresh(bytes))
      ensures position.Some? ==>
                s.Drawn() && position.value == old(used) % U32 && Contents() == old(Contents()) + s.Bytes()
      ensures position.None? ==> Contents() == old(Contents())
      ensures old(Snug()) ==> Snug()
      ensures position.None? <==> !s.Drawn() || (old(used) + s.pitch * s.rows > old(bytes.Length) && !granted)
    {
      if s.width == 0 || s.rows == 0 {
        return None;
      }
      var size := s.pitch * s.rows;
      if used + size > bytes.Length {
        var ok := Resize(used + size, granted);
        if !ok {
          return None;
        }
      }
      var offset := used;
      Copy(bytes, offset, s.buffer[..size]);
      used := offset + size;
      return Some(offset % U32);
    }
  }

  method Copy(to: array<Byte>, at: nat, from: seq<Byte>)
    requires at + |from| <= to.Length
    modifies to
    ensures to[..at + |from|] == old(to[..at]) + from
  {
    for k := 0 to |from|
      invariant to[..at + k] == old(to[..at]) + from[..k]
    {
      to[at + k] := from[k];
    }
  }

  /** The fallback code in force after a character: U+FFFD once seen, otherwise the question mark. */
  function FallbackAfter(before: nat, code: nat): nat {
    if code == REPLACEMENT then REPLACEMENT else if code == QUESTION && before != REPLACEMENT then QUESTION else before
  }

  function Fallback(ss: seq<Source>, n: nat): nat
    requires n <= |ss|
  {
    if n == 0 then 0 else FallbackAfter(Fallback(ss, n - 1), ss[n - 1].code)
  }

  /** The record of one character. */
  function RecordOf(s: Source, before: nat, offset: nat): Record {
    var mark := if s.code == REPLACEMENT || (s.code == QUESTION && before != REPLACEMENT) then 1 else 0;
    var code := s.code % U32;
    match s
    case Failed(_) => Record(code, 0, 0, 0, 0, 0, 0, 0, 0, 0, 0, mark, 0)
    case Rendered(_, w, h, pitch, format, _, left, top, ax, ay) =>
      if w == 0 || h == 0 then Record(code, 0, 0, 0, 0, 0, left % U16, top % U16, ax % U16, ay % U16, 0, mark, 1)
      else Record(code, offset % U32, 0, w % U16, h % U16, pitch % U16, left % U16, top % U16, ax % U16, ay % U16,
          format, mark, 1)
  }

  /** The record of character `i`: its bitmap lies behind those of all earlier characters. */
  function RecordNo(ss: seq<Source>, i: nat): Record
    requires i < |ss| && AllWhole(ss)
  {
    RecordOf(ss[i], Fallback(ss, i), |Pushed(ss, i)|)
  }

  ghost predicate Built(rs: seq<Record>, ss: seq<Source>)
    requires AllWhole(ss)
  {
    |rs| <= |ss| && forall i | 0 <= i < |rs| :: rs[i] == RecordNo(ss, i)
  }

  /** Character `i` gets its record: it has no pixels, or its format is known and memory for its bitmap is granted if
      the buffer must grow. */
  predicate Stored(ss: seq<Source>, i: nat, grants: iset<nat>)
    requires i < |ss| && AllWhole(ss)
  {
    ss[i].Drawn() ==> ss[i].format != 0 && (|Pushed(ss, i + 1)| > Max(INITIAL_SIZE, |Pushed(ss, i)|) ==> i in grants)
  }

  ghost predicate AllStored(ss: seq<Source>, n: nat, grants: iset<nat>)
    requires n <= |ss| && AllWhole(ss)
  {
    forall i | 0 <= i < n :: Stored(ss, i, grants)
  }

  lemma {:induction false} StoredNext(ss: seq<Source>, n: nat, m: nat, grants: iset<nat>)
    requires n < m <= |ss| && AllWhole(ss) && AllStored(ss, n, grants)
    ensures if Stored(ss, n, grants) then AllStored(ss, n + 1, grants) else !AllStored(ss, m, grants)
  {
  }

  lemma {:induction false} BuiltNext(ss: seq<Source>, rs: seq<Record>)
    requires AllWhole(ss) && Built(rs, ss) && |rs| < |ss|
    ensures Built(rs + [RecordNo(ss, |rs|)], ss)
  {
  }

  /** One turn of build_glyphs. */
  method BuildGlyph(ss: seq<Source>, n: nat, store: BitmapStore, grants: iset<nat>, fallback: nat)
    returns (ok: bool, r: Record)
    requires store.Valid() && store.Snug() && AllWhole(ss) && n < |ss|
    requires store.Contents() == Pushed(ss, n) && fallback == Fallback(ss, n)
    modifies store, store.bytes
    ensures store.Valid() && (store.bytes == old(store.bytes) || fresh(store.bytes))
    ensures ok == Stored(ss, n, grants)
    ensures ok ==> store.Snug() && r == RecordNo(ss, n) && store.Contents() == Pushed(ss, n + 1)
  {
    var s := ss[n];
    var offset := store.used;
    r := RecordOf(s, fallback, offset);
    if s.Drawn() {
      if s.format == 0 {
        return false, r;
      }
      var position := store.Push(s, n in grants);
      return position.Some?, r;
    }
    return true, r;
  }

  /** build_glyphs, for characters that the font library delivers in order; `limit` is the size of the glyph table, and
      `grants` are the characters at which the buffer may grow. */
  method BuildGlyphs(ss: seq<Source>, limit: nat, store: BitmapStore, grants: iset<nat>)
    returns (ok: bool, rs: seq<Record>)
    requires store.Valid() && store.Snug() && store.Contents() == [] && AllWhole(ss)
    modifies store, store.bytes
    ensures store.Valid() && ok == AllStored(ss, Min(|ss|, limit), grants)
    ensures ok ==> |rs| == Min(|ss|, limit) && Built(rs, ss) && store.Contents() == Pushed(ss, |rs|)
  {
    rs := [];
    var fallback := 0;
    var n := 0;
    while n < |ss| && n < limit
      invariant n <= |ss| && n <= limit
      invariant store.Valid() && store.Snug() && (store.bytes == old(store.bytes) || fresh(store.bytes))
      invariant |rs| == n && Built(rs, ss) && store.Contents() == Pushed(ss, n) && fallback == Fallback(ss, n)
      invariant AllStored(ss, n, grants)
      decreases |ss| - n
    {
      var fine, r := BuildGlyph(ss, n, store, grants, fallback);
      StoredNext(ss, n, Min(|ss|, limit), grants);
      BuiltNext(ss, rs);
      if !fine {
        return false, rs;
      }
      rs := rs + [r];
      fallback := FallbackAfter(fallback, ss[n].code);
      n := n + 1;
    }
    return true, rs;
  }

  /** The first `n` records of the glyph table. */
  function Table(rs: seq<Record>, n: nat): (b: seq<Byte>)
    requires n <= |rs|
    ensures |b| == RECORD_SIZE * n
  {
    if n == 0 then [] else Table(rs, n - 1) + RecordBytes(rs[n - 1])
  }

  /** The offsets that write_aosbf fills in. */
  function Laid(h: Header, strings: nat, count: nat, used: nat): Header {
    h.(stringTable := HEADER_SIZE, glyphs := HEADER_SIZE + strings,
        atlas := HEADER_SIZE + strings + RECORD_SIZE * count,
       totalW := used % U32, totalH := 1, glyphCount := count)
  }

  /** The file that write_aosbf writes. */
  function Written(h: Header, strings: seq<Byte>, rs: seq<Record>, bitmaps: seq<Byte>): seq<Byte> {
    HeaderBytes(Laid(h, |strings|, |rs|, |bitmaps|)) + strings + Table(rs, |rs|) + bitmaps
  }

  // ----- the reader -----

  const NO_HEADER: Header := Header(0, 0, 0, 0, 0, 0, 0, 0, 0, 0, 0, 0, 0, 0, 0, 0, 0, 0, 0)

  function HeaderIn(mem: seq<Byte>): Header { if |mem| >= HEADER_SIZE then HeaderAt(mem) else NO_HEADER }

  /** All records that the header counts lie in the buffer. The reader does not test this. */
  predicate TableInside(h: Header, size: nat) { h.glyphs <= size && h.glyphCount <= (size - h.glyphs) / RECORD_SIZE }

  /** The font's bytes lie at the start of `mem`; the buffer holds `size` of them. Only for a table that is not inside
      the buffer does the reader need bytes behind it. */
  predicate Readable(mem: seq<Byte>, size: nat) {
    size <= |mem| && (size >= HEADER_SIZE ==> TableReadable(mem, size, HeaderIn(mem)))
  }

  predicate TableReadable(mem: seq<Byte>, size: nat, h: Header) {
    size <= |mem| && (h.glyphs <= size && !TableInside(h, size) ==> LastEnd(h, size) <= |mem|)
  }

  /** The end of the last record that the test admits. */
  function LastEnd(h: Header, size: nat): nat
    requires h.glyphs <= size
  {
    h.glyphs + (size - h.glyphs) / RECORD_SIZE * RECORD_SIZE + RECORD_SIZE
  }

  function Slice(d: seq<Byte>, o: nat, n: nat): seq<Byte> { if o + n <= |d| then d[o..o + n] else [] }

  function RowBytes(r: Record): nat { r.pitch * r.height }

  function SourceOffset(r: Record): nat { (r.atlasY + 1) * r.atlasX }

  /** Record `i` of the table starts within the buffer. */
  predicate StartsInside(h: Header, size: nat, i: nat) {
    h.glyphs <= size && i <= (size - h.glyphs) / RECORD_SIZE
  }

  const NOTHING: Record := Record(0, 0, 0, 0, 0, 0, 0, 0, 0, 0, 0, 0, 0)

  function RecordIn(mem: seq<Byte>, h: Header, i: nat): Record {
    var o := h.glyphs + i * RECORD_SIZE;
    if o + RECORD_SIZE <= |mem| then RecordAt(mem, o) else NOTHING
  }

  predicate HeaderOk(h: Header, size: nat) {
    && h.magic == MAGIC && h.version == FONT_VERSION && h.revision == 0
    && h.stringTable < size && h.atlas < size && h.totalW >= 1 && h.totalH >= 1
  }

  /** The bitmap of a record lies in the buffer. */
  predicate BitmapInside(r: Record, h: Header, size: nat) {
    r.atlasY != U32_MAX && h.atlas <= size && SourceOffset(r) + RowBytes(r) <= size - h.atlas
  }

  predicate RecordOk(mem: seq<Byte>, size: nat, h: Header, i: nat) {
    StartsInside(h, size, i) && (RecordIn(mem, h, i).Usable() ==> BitmapInside(RecordIn(mem, h, i), h, size))
  }

  /** The glyphs of the first `n` records that are usable, each with its slice of the bitmaps. */
  function GlyphsIn(mem: seq<Byte>, h: Header, n: nat): seq<Glyph> {
    if n == 0 then [] else GlyphsIn(mem, h, n - 1) + GlyphOf(mem, h, RecordIn(mem, h, n - 1))
  }

  function GlyphOf(mem: seq<Byte>, h: Header, r: Record): seq<Glyph> {
    if r.Usable() then [GlyphFrom(mem, h, r)] else []
  }

  /** The usable ones of the first `n` records. */
  function UsableIn(mem: seq<Byte>, h: Header, n: nat): seq<Record> {
    if n == 0 then [] else UsableIn(mem, h, n - 1) + UsableOf(RecordIn(mem, h, n - 1))
  }

  function UsableOf(r: Record): seq<Record> { if r.Usable() then [r] else [] }

  ghost predicate FirstOk(mem: seq<Byte>, size: nat, h: Header, n: nat) {
    forall i | 0 <= i < n :: RecordOk(mem, size, h, i)
  }

  /** Every record passes the tests of the first pass, and some glyph is usable. */
  ghost predicate RecordsOk(mem: seq<Byte>, size: nat, h: Header) {
    FirstOk(mem, size, h, h.glyphCount) && |GlyphsIn(mem, h, h.glyphCount)| >= 1
  }

  /** The buffer, whose header is `h`, is accepted. */
  ghost predicate FontOk(mem: seq<Byte>, size: nat, h: Header) {
    size >= HEADER_SIZE && HeaderOk(h, size) && RecordsOk(mem, size, h)
  }

  lemma {:induction false} RecordReadable(mem: seq<Byte>, size: nat, h: Header, i: nat)
    requires TableReadable(mem, size, h) && StartsInside(h, size, i) && i < h.glyphCount
    ensures h.glyphs + i * RECORD_SIZE + RECORD_SIZE <= |mem|
  {
    RecordEnds(size - h.glyphs, i);
  }

  lemma {:induction false} RecordEnds(room: nat, i: nat)
    ensures i <= room / RECORD_SIZE <==> i * RECORD_SIZE <= room
    ensures i + 1 <= room / RECORD_SIZE <==> i * RECORD_SIZE + RECORD_SIZE <= room
  {
  }

  ghost predicate EveryRecordInside(h: Header, size: nat) {
    forall i | 0 <= i < h.glyphCount :: h.glyphs + i * RECORD_SIZE + RECORD_SIZE <= size
  }

  /** The table of an accepted font reaches at most one record too far, because the test asks where a record starts and
      not where it ends. All records are read from inside the buffer if and only if the count in the header says so. */
  lemma {:induction false} TableInsideIff(mem: seq<Byte>, size: nat, h: Header)
    requires FontOk(mem, size, h)
    ensures h.glyphs <= size && h.glyphCount <= (size - h.glyphs) / RECORD_SIZE + 1
    ensures EveryRecordInside(h, size) <==> TableInside(h, size)
  {
    assert h.glyphCount >= 1;
    var last := h.glyphCount - 1;
    assert RecordOk(mem, size, h, last) && StartsInside(h, size, last);
    RecordEnds(size - h.glyphs, last);
    if TableInside(h, size) {
      forall i | 0 <= i < h.glyphCount
        ensures h.glyphs + i * RECORD_SIZE + RECORD_SIZE <= size
      {
        RecordEnds(size - h.glyphs, i);
      }
    }
  }

  /** The reader's overflow tests never fire: the fields are too narrow. */
  lemma {:induction false} NoOverflow(x: nat, y: nat, pitch: nat, height: nat)
    requires x < U32 && y < U32_MAX && pitch < U16 && 0 < height < U16
    ensures x != 0 ==> y + 1 <= U64_MAX / x
    ensures pitch <= U64_MAX / height && (y + 1) * x <= U64_MAX - pitch * height
  {
    Products(y + 1, x, U32_MAX, U32_MAX);
    Products(pitch, height, U16, U16);
    if x != 0 {
      DivBound(U64_MAX, x, y + 1);
    }
    DivBound(U64_MAX, height, pitch);
  }

  lemma {:induction false} Products(a: nat, b: nat, c: nat, d: nat)
    requires a <= c && b <= d
    ensures a * b <= c * d
  {
    assert a * b <= c * b <= c * d;
  }

  lemma {:induction false} SmallFactor(e: int, d: nat)
    requires d > 0 && e * d < d
    ensures e < 1
  {
  }

  lemma {:induction false} DivBound(n: nat, d: nat, q: nat)
    requires d > 0 && q * d <= n
    ensures q <= n / d
  {
    var k := n / d;
    assert n == k * d + n % d;
    assert (q - k) * d == q * d - k * d;
    SmallFactor(q - k, d);
  }

  /** The tests on one record; `skip` says that it counts for nothing. */
  method CheckRecord(mem: seq<Byte>, size: nat, h: Header, i: nat) returns (ok: bool, skip: bool)
    requires TableReadable(mem, size, h) && h.atlas < size && i < h.glyphCount
    ensures ok == RecordOk(mem, size, h, i)
    ensures ok ==> skip == !RecordIn(mem, h, i).Usable()
  {
    if h.glyphs > size || i > (size - h.glyphs) / RECORD_SIZE {
      return false, false;
    }
    var off := h.glyphs + i * RECORD_SIZE;
    if off > size {
      return false, false;
    }
    var g := Fetch(mem, size, h, i);
    if g.valid == 0 || g.width == 0 || g.height == 0 {
      return true, true;
    }
    if g.atlasY == U32_MAX {
      return false, false;
    }
    RecordReadable(mem, size, h, i);
    RecordBound(mem, off);
    NoOverflow(g.atlasX, g.atlasY, g.pitch, g.height);
    if g.atlasX != 0 && g.atlasY + 1 > U64_MAX / g.atlasX {
      return false, false;
    }
    if g.pitch > U64_MAX / g.height {
      return false, false;
    }
    var bitmapSize := g.pitch * g.height;
    var sourceOffset := (g.atlasY + 1) * g.atlasX;
    if sourceOffset > U64_MAX - bitmapSize {
      return false, false;
    }
    if h.atlas > size || sourceOffset + bitmapSize > size - h.atlas {
      return false, false;
    }
    return true, false;
  }

  lemma {:induction false} NextOk(mem: seq<Byte>, size: nat, h: Header, n: nat)
    requires FirstOk(mem, size, h, n)
    ensures FirstOk(mem, size, h, n + 1) <==> RecordOk(mem, size, h, n)
    ensures n < h.glyphCount && !RecordOk(mem, size, h, n) ==> !RecordsOk(mem, size, h)
  {
  }

  function GlyphFrom(mem: seq<Byte>, h: Header, r: Record): Glyph {
    Glyph(Slice(mem, h.atlas + SourceOffset(r), RowBytes(r)), r.width, r.height, r.pitch, r.format)
  }

  lemma {:induction false} InNext(mem: seq<Byte>, h: Header, n: nat)
    ensures var r := RecordIn(mem, h, n);
            if r.Usable() then
              GlyphsIn(mem, h, n + 1) == GlyphsIn(mem, h, n) + [GlyphFrom(mem, h, r)] &&
                  UsableIn(mem, h, n + 1) == UsableIn(mem, h, n) + [r]
            else GlyphsIn(mem, h, n + 1) == GlyphsIn(mem, h, n) && UsableIn(mem, h, n + 1) == UsableIn(mem, h, n)
  {
  }

  /** One turn of the first pass. */
  method CountNext(mem: seq<Byte>, size: nat, h: Header, i: nat) returns (ok: bool, skip: bool)
    requires TableReadable(mem, size, h) && h.atlas < size && i < h.glyphCount && FirstOk(mem, size, h, i)
    ensures if ok then FirstOk(mem, size, h, i + 1) else !RecordsOk(mem, size, h)
    ensures ok ==> |GlyphsIn(mem, h, i + 1)| == |GlyphsIn(mem, h, i)| + if skip then 0 else 1
  {
    ok, skip := CheckRecord(mem, size, h, i);
    NextOk(mem, size, h, i);
    InNext(mem, h, i);
  }

  /** The loop of the first pass. */
  method CountGlyphs(mem: seq<Byte>, size: nat, h: Header) returns (ok: bool, count: nat)
    requires TableReadable(mem, size, h) && h.atlas < size
    ensures ok == RecordsOk(mem, size, h)
    ensures ok ==> count == |GlyphsIn(mem, h, h.glyphCount)|
  {
    count := h.glyphCount;
    var i := 0;
    ghost var seen := 0;
    while i < h.glyphCount
      invariant i <= h.glyphCount
      invariant FirstOk(mem, size, h, i)
      invariant seen == |GlyphsIn(mem, h, i)| && count == h.glyphCount - i + seen
    {
      var fine, skip := CountNext(mem, size, h, i);
      if !fine {
        return false, count;
      }
      if skip {
        count := count - 1;
      }
      seen := seen + if skip then 0 else 1;
      i := i + 1;
    }
    return count >= 1, count;
  }

  /** The first pass: accept or reject, and count. */
  method Validate(mem: seq<Byte>, size: nat) returns (ok: bool, count: nat, h: Header)
    requires Readable(mem, size)
    ensures h == HeaderIn(mem) && ok == FontOk(mem, size, h)
    ensures ok ==> count == |GlyphsIn(mem, h, h.glyphCount)|
  {
    count, h := 0, HeaderIn(mem);
    if size < HEADER_SIZE {
      return false, count, h;
    }
    if h.magic != MAGIC || h.version != FONT_VERSION || h.revision != 0 {
      return false, count, h;
    }
    if h.stringTable >= size || h.atlas >= size || h.totalW < 1 || h.totalH < 1 {
      return false, count, h;
    }
    ok, count := CountGlyphs(mem, size, h);
  }

  /** An entry of the kernel's glyph table. */
  datatype FontGlyph = FontGlyph(codepoint: nat, x: nat, y: nat, width: nat, height: nat, bearingX: nat, bearingY: nat,
                                 advanceX: nat, advanceY: nat)

  /** The entry of a record whose glyph was placed at (x, y). */
  predicate EntryOf(e: FontGlyph, r: Record, x: nat, y: nat) {
    && e.codepoint == r.codepoint && e.x == x && e.y == y && e.width == r.width && e.height == r.height
    && e.bearingX == r.bearingX && e.bearingY == r.bearingY && e.advanceX == r.advanceX && e.advanceY == r.advanceY
  }

  /** The table lists the records `us` at the places of the atlas. */
  ghost predicate Agree(out: seq<FontGlyph>, ps: seq<Placement>, us: seq<Record>) {
    |out| == |ps| == |us| && forall k | 0 <= k < |out| :: EntryOf(out[k], us[k], ps[k].x, ps[k].y)
  }

  /** The fallback glyph is the last one whose record is marked. */
  ghost predicate FallbackIs(fallback: Option<FontGlyph>, out: seq<FontGlyph>, us: seq<Record>)
    requires |out| == |us|
  {
    match fallback
    case None => forall k | 0 <= k < |us| :: us[k].fallback == 0
    case Some(g) => exists k :: 0 <= k < |us| && us[k].fallback != 0 && out[k] == g && forall j | k < j < |us| ::
        us[j].fallback == 0
  }

  /** What the atlas holds are these glyphs in this order. */
  ghost predicate HoldsGlyphs(ps: seq<Placement>, gs: seq<Glyph>) {
    |ps| == |gs| && forall k | 0 <= k < |ps| :: ps[k].glyph == gs[k]
  }

  /** What the second pass has made of some records. */
  datatype Font = Font(out: seq<FontGlyph>, fallback: Option<FontGlyph>)

  ghost predicate Made(f: Font, ps: seq<Placement>, us: seq<Record>, gs: seq<Glyph>) {
    Agree(f.out, ps, us) && FallbackIs(f.fallback, f.out, us) && HoldsGlyphs(ps, gs)
  }

  lemma {:induction false} MadeNext(f: Font, ps: seq<Placement>, us: seq<Record>, gs: seq<Glyph>, r: Record,
          p: Placement, e: FontGlyph)
    requires Made(f, ps, us, gs) && EntryOf(e, r, p.x, p.y)
    ensures Made(Font(f.out + [e], if r.fallback != 0 then Some(e) else f.fallback), ps + [p], us + [r], gs + [p.glyph])
  {
    var out, us' := f.out + [e], us + [r];
    if r.fallback != 0 {
      assert us'[|us|].fallback != 0 && out[|us|] == e;
    } else if f.fallback.Some? {
      var k :| 0 <= k < |us| && us[k].fallback != 0 && f.out[k] == f.fallback.value && forall j | k < j < |us| ::
          us[j].fallback == 0;
      assert us'[k].fallback != 0 && out[k] == f.fallback.value;
    }
  }

  /** A usable glyph: its pixels and its entry in the table. */
  method ConvertGlyph(g: Record, glyph: Glyph, atlas: AtlasData, first: bool, next: bool, f: Font,
          ghost us: seq<Record>, ghost gs: seq<Glyph>)
    returns (ok: bool, f': Font)
    requires atlas.Valid() && atlas.Steady() && Made(f, atlas.placed, us, gs) && glyph.Sized()
    requires glyph.width == g.width && glyph.height == g.height
    modifies atlas, atlas.pixels
    ensures atlas.Valid() && (atlas.pixels == old(atlas.pixels) || (atlas.pixels != null && fresh(atlas.pixels)))
    ensures ok == old(atlas.Here()).Accepts(glyph, first, next)
    ensures ok ==> atlas.Steady() && atlas.Here() == old(atlas.Here()).Beyond(glyph)
    ensures ok ==> Made(f', atlas.placed, us + [g], gs + [glyph])
  {
    ghost var before := atlas.placed;
    var x, y;
    ok, x, y := atlas.Place(glyph, first, next);
    var e := FontGlyph(g.codepoint, x, y, g.width, g.height, g.bearingX, g.bearingY, g.advanceX, g.advanceY);
    f' := Font(f.out + [e], f.fallback);
    if g.fallback != 0 {
      f' := f'.(fallback := Some(e));
    }
    MadeNext(f, before, us, gs, g, Placement(x, y, glyph), e);
  }

  /** A record as the reader sees it. */
  method Fetch(mem: seq<Byte>, size: nat, h: Header, i: nat) returns (g: Record)
    requires TableReadable(mem, size, h) && StartsInside(h, size, i) && i < h.glyphCount
    ensures g == RecordIn(mem, h, i) && g.width < U16 && g.height < U16 && g.pitch < U16
  {
    RecordReadable(mem, size, h, i);
    g := RecordAt(mem, h.glyphs + i * RECORD_SIZE);
    RecordBound(mem, h.glyphs + i * RECORD_SIZE);
  }

  /** A glyph that is not accepted stops the packing for good. */
  lemma {:induction false} StaysUnpacked(mem: seq<Byte>, h: Header, i: nat, n: nat, first: bool, next: bool)
    requires i <= n && Packed(GlyphsIn(mem, h, i), first, next) == None
    ensures Packed(GlyphsIn(mem, h, n), first, next) == None
    decreases n
  {
    if i < n {
      StaysUnpacked(mem, h, i, n - 1, first, next);
      AtMostOneMore(GlyphsIn(mem, h, n - 1), GlyphOf(mem, h, RecordIn(mem, h, n - 1)), first, next);
    }
  }

  lemma {:induction false} AtMostOneMore(gs: seq<Glyph>, more: seq<Glyph>, first: bool, next: bool)
    requires Packed(gs, first, next) == None && |more| <= 1
    ensures Packed(gs + more, first, next) == None
  {
    if more == [] {
      assert gs + more == gs;
    } else {
      assert more == [more[0]];
      PackedNext(gs, more[0], first, next);
    }
  }

  /** What the second pass has made of the first `n` records. */
  ghost predicate Converted(mem: seq<Byte>, h: Header, n: nat, f: Font, ps: seq<Placement>) {
    Made(f, ps, UsableIn(mem, h, n), GlyphsIn(mem, h, n))
  }

  /** One turn of the second pass. */
  method ConvertNext(mem: seq<Byte>, size: nat, h: Header, i: nat, atlas: AtlasData, first: bool, next: bool, f: Font)
    returns (ok: bool, f': Font)
    requires TableReadable(mem, size, h) && atlas.Valid() && atlas.Steady() && RecordOk(mem, size, h, i) &&
               i < h.glyphCount
    requires Converted(mem, h, i, f, atlas.placed) && Packed(GlyphsIn(mem, h, i), first, next) == Some(atlas.Here())
    modifies atlas, atlas.pixels
    ensures atlas.Valid() && (atlas.pixels == old(atlas.pixels) || (atlas.pixels != null && fresh(atlas.pixels)))
    ensures Packed(GlyphsIn(mem, h, i + 1), first, next) == if ok then Some(atlas.Here()) else None
    ensures ok ==> atlas.Steady() && Converted(mem, h, i + 1, f', atlas.placed)
  {
    var g := Fetch(mem, size, h, i);
    InNext(mem, h, i);
    ok, f' := true, f;
    if g.valid != 0 && g.width != 0 && g.height != 0 {
      var glyph := GlyphFrom(mem, h, g);
      PackedNext(GlyphsIn(mem, h, i), glyph, first, next);
      ok, f' := ConvertGlyph(g, glyph, atlas, first, next, f, UsableIn(mem, h, i), GlyphsIn(mem, h, i));
    }
  }

  /** The second pass converts the glyphs one by one into the atlas. `first` and `next` grant its memory. It comes to
      the end exactly when the packer accepts every usable glyph in turn. */
  method Convert(mem: seq<Byte>, size: nat, h: Header, atlas: AtlasData, first: bool, next: bool)
    returns (ok: bool, f: Font)
    requires TableReadable(mem, size, h) && atlas.Valid() && atlas.Steady() && atlas.placed == [] &&
               atlas.Here() == START
    requires RecordsOk(mem, size, h)
    modifies atlas, atlas.pixels
    ensures atlas.Valid() && ok == Packed(GlyphsIn(mem, h, h.glyphCount), first, next).Some?
    ensures ok ==> Converted(mem, h, h.glyphCount, f, atlas.placed)
  {
    f := Font([], None);
    for i := 0 to h.glyphCount
      invariant atlas.Valid() && atlas.Steady()
      invariant atlas.pixels == old(atlas.pixels) || (atlas.pixels != null && fresh(atlas.pixels))
      invariant Packed(GlyphsIn(mem, h, i), first, next) == Some(atlas.Here())
      invariant Converted(mem, h, i, f, atlas.placed)
    {
      assert RecordOk(mem, size, h, i);
      ok, f := ConvertNext(mem, size, h, i, atlas, first, next, f);
      if !ok {
        StaysUnpacked(mem, h, i + 1, h.glyphCount, first, next);
        return;
      }
    }
    ok := true;
  }

  /** When a font is read: it is accepted, memory for the table is granted, and the packer accepts every usable glyph in
      turn. */
  ghost predicate Reads(mem: seq<Byte>, size: nat, table: bool, first: bool, next: bool)
  {
    var h := HeaderIn(mem);
    FontOk(mem, size, h) && table && Packed(GlyphsIn(mem, h, h.glyphCount), first, next).Some?
  }

  /** aosbf_to_pyrion_font. It succeeds exactly on what Reads says. Then the atlas shows exactly the usable glyphs of
      the file, the table lists their records at their places, and the fallback glyph is the last marked one. */
  method ReadFont(mem: seq<Byte>, size: nat, table: bool, first: bool, next: bool)
    returns (ok: bool, h: Header, atlas: AtlasData, f: Font)
    requires Readable(mem, size)
    ensures h == HeaderIn(mem) && atlas.Valid() && ok == Reads(mem, size, table, first, next)
    ensures ok ==> Converted(mem, h, h.glyphCount, f, atlas.placed)
  {
    atlas := new AtlasData();
    f := Font([], None);
    var count;
    ok, count, h := Validate(mem, size);
    if ok {
      if !table {
        return false, h, atlas, f;
      }
      ok, f := Convert(mem, size, h, atlas, first, next);
    }
  }
}
