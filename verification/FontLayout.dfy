/** The structures of an AOSBF font file as bytes (Headers/aos_bitmap_font.h, in their natural alignment). */
module FontLayout {
  import opened Common
  import opened LittleEndian

  // ----- fields of packed structures -----

  function Store(d: seq<Byte>, o: nat, n: nat, v: nat): (r: seq<Byte>)
    requires o + n <= |d|
    ensures |r| == |d| && forall k | 0 <= k < |d| && !(o <= k < o + n) :: r[k] == d[k]
    decreases n
  {
    if n == 0 then d else Store(d[o := v % 256], o + 1, n - 1, v / 256)
  }

  lemma {:induction false} StoreThenLoad(d: seq<Byte>, o: nat, n: nat, v: nat)
    requires o + n <= |d| && v < Capacity(n)
    ensures Number(Store(d, o, n, v), o, n) == v
    decreases n
  {
    if n == 0 {
    } else {
      StoreThenLoad(d[o := v % 256], o + 1, n - 1, v / 256);
    }
  }

  /** A field: its offset and its size. */
  datatype Field = Field(at: nat, size: nat)

  ghost predicate Ordered(fs: seq<Field>, size: nat) {
    && (forall i, j | 0 <= i < j < |fs| :: fs[i].at + fs[i].size <= fs[j].at)
    && (forall i | 0 <= i < |fs| :: fs[i].at + fs[i].size <= size)
  }

  ghost predicate Represented(vs: seq<nat>, fs: seq<Field>) {
    |vs| == |fs| && forall i | 0 <= i < |fs| :: vs[i] < Capacity(fs[i].size)
  }

  function StoreAll(d: seq<Byte>, fs: seq<Field>, vs: seq<nat>): (r: seq<Byte>)
    requires |fs| == |vs| && forall i | 0 <= i < |fs| :: fs[i].at + fs[i].size <= |d|
    ensures |r| == |d|
    decreases |fs|
  {
    if fs == [] then d
    else
      var n := |fs| - 1;
      Store(StoreAll(d, fs[..n], vs[..n]), fs[n].at, fs[n].size, vs[n])
  }

  lemma {:induction false} SameSlice<T>(d: seq<T>, e: seq<T>, from: nat, to: nat)
    requires from <= to <= |d| && |d| == |e| && forall k | from <= k < to :: d[k] == e[k]
    ensures d[from..to] == e[from..to]
  {
  }

  lemma {:induction false} FieldsComeBack(d: seq<Byte>, fs: seq<Field>, vs: seq<nat>, i: nat)
    requires Ordered(fs, |d|) && Represented(vs, fs) && i < |fs|
    ensures Number(StoreAll(d, fs, vs), fs[i].at, fs[i].size) == vs[i]
    decreases |fs|
  {
    var n := |fs| - 1;
    var e := StoreAll(d, fs[..n], vs[..n]);
    if i == n {
      StoreThenLoad(e, fs[n].at, fs[n].size, vs[n]);
    } else {
      FieldsComeBack(d, fs[..n], vs[..n], i);
      var r := StoreAll(d, fs, vs);
      SameSlice(r, e, fs[i].at, fs[i].at + fs[i].size);
      LoadSame(r, fs[i].at, e, fs[i].at, fs[i].size);
    }
  }

  // ----- glyph records and the header -----

  const RECORD_SIZE := 36
  const HEADER_SIZE := 112
  const MAGIC := 0x00_46_42_53_4F_41 // "AOSBF" and its NUL
  const FONT_VERSION := 0x100

  const RECORD_FIELDS: seq<Field> := [
    Field(0, 4), Field(4, 4), Field(8, 4), Field(12, 2), Field(14, 2), Field(16, 2), Field(18, 2), Field(20, 2),
        Field(22, 2),
    Field(24, 2), Field(28, 4), Field(32, 1), Field(33, 1)]

  const HEADER_FIELDS: seq<Field> := [
    Field(0, 6), Field(8, 4), Field(12, 2), Field(16, 8), Field(24, 8), Field(32, 8), Field(40, 8), Field(48, 2),
        Field(50, 2),
    Field(52, 2), Field(54, 2), Field(56, 2), Field(64, 8), Field(72, 2), Field(76, 4), Field(80, 4), Field(88, 8),
        Field(96, 8),
    Field(104, 4)]

  lemma {:induction false} RecordIsOrdered()
    ensures Ordered(RECORD_FIELDS, RECORD_SIZE)
  {
    InStepIsOrdered(RECORD_FIELDS, RECORD_SIZE);
  }

  lemma {:induction false} HeaderIsOrdered()
    ensures Ordered(HEADER_FIELDS, HEADER_SIZE)
  {
    InStepIsOrdered(HEADER_FIELDS, HEADER_SIZE);
  }

  /** It is enough to compare neighbours. */
  lemma {:induction false} InStepIsOrdered(fs: seq<Field>, size: nat)
    requires forall i | 0 <= i < |fs| - 1 :: fs[i].at + fs[i].size <= fs[i + 1].at
    requires fs != [] ==> fs[|fs| - 1].at + fs[|fs| - 1].size <= size
    ensures Ordered(fs, size)
    decreases |fs|
  {
    if fs == [] {
    } else {
      var n := |fs| - 1;
      InStepIsOrdered(fs[..n], fs[n].at);
      forall i, j | 0 <= i < j < |fs|
        ensures fs[i].at + fs[i].size <= fs[j].at
      {
        assert fs[i] == fs[..n][i];
        assert j < n ==> fs[j] == fs[..n][j];
      }
    }
  }

  /** A glyph record; signed metrics are kept as their 16-bit patterns. */
  datatype Record = Record(codepoint: nat, atlasX: nat, atlasY: nat, width: nat, height: nat, pitch: nat, bearingX: nat,
                           bearingY: nat, advanceX: nat, advanceY: nat, format: nat, fallback: nat, valid: nat) {
    function Values(): seq<nat> {
      [codepoint, atlasX, atlasY, width, height, pitch, bearingX, bearingY, advanceX, advanceY, format, fallback, valid]
    }

    ghost predicate Fits() { Represented(Values(), RECORD_FIELDS) }

    predicate Usable() { valid != 0 && width != 0 && height != 0 }
  }

  datatype Header = Header(magic: nat, version: nat, revision: nat, stringTable: nat, fontName: nat, family: nat,
          author: nat,
                           fontSize: nat, lineGap: nat, lineHeight: nat, ascent: nat, descent: nat, comments: nat,
                           commentCount: nat, totalW: nat, totalH: nat, atlas: nat, glyphs: nat, glyphCount: nat) {
    function Values(): seq<nat> {
      [magic, version, revision, stringTable, fontName, family, author, fontSize, lineGap, lineHeight, ascent, descent,
          comments,
       commentCount, totalW, totalH, atlas, glyphs, glyphCount]
    }

    ghost predicate Fits() { Represented(Values(), HEADER_FIELDS) }
  }

  function Zeroes(n: nat): (z: seq<Byte>)
    ensures |z| == n
  {
    seq(n, i => 0)
  }

  function RecordBytes(r: Record): (b: seq<Byte>)
    ensures |b| == RECORD_SIZE
  {
    StoreAll(Zeroes(RECORD_SIZE), RECORD_FIELDS, r.Values())
  }

  function HeaderBytes(h: Header): (b: seq<Byte>)
    ensures |b| == HEADER_SIZE
  {
    StoreAll(Zeroes(HEADER_SIZE), HEADER_FIELDS, h.Values())
  }

  predicate FieldsInside(d: seq<Byte>, o: nat, fs: seq<Field>) {
    forall i | 0 <= i < |fs| :: o + fs[i].at + fs[i].size <= |d|
  }

  /** The fields of a structure at `o`. */
  function LoadAll(d: seq<Byte>, o: nat, fs: seq<Field>): (vs: seq<nat>)
    requires FieldsInside(d, o, fs)
    ensures |vs| == |fs|
    decreases |fs|
  {
    if fs == [] then []
    else
      var n := |fs| - 1;
      assert o + fs[n].at + fs[n].size <= |d|;
      LoadAll(d, o, fs[..n]) + [Number(d, o + fs[n].at, fs[n].size)]
  }

  lemma {:induction false} LoadAllAt(d: seq<Byte>, o: nat, fs: seq<Field>, i: nat)
    requires FieldsInside(d, o, fs) && i < |fs|
    ensures LoadAll(d, o, fs)[i] == Number(d, o + fs[i].at, fs[i].size)
    decreases |fs|
  {
    if i < |fs| - 1 {
      LoadAllAt(d, o, fs[..|fs| - 1], i);
    }
  }

  function RecordOfValues(vs: seq<nat>): Record
    requires |vs| == 13
  {
    Record(vs[0], vs[1], vs[2], vs[3], vs[4], vs[5], vs[6], vs[7], vs[8], vs[9], vs[10], vs[11], vs[12])
  }

  function HeaderOfValues(vs: seq<nat>): Header
    requires |vs| == 19
  {
    Header(vs[0], vs[1], vs[2], vs[3], vs[4], vs[5], vs[6], vs[7], vs[8], vs[9], vs[10], vs[11], vs[12], vs[13], vs[14],
        vs[15],
           vs[16], vs[17], vs[18])
  }

  lemma {:induction false} RecordInside(d: seq<Byte>, o: nat)
    requires o + RECORD_SIZE <= |d|
    ensures FieldsInside(d, o, RECORD_FIELDS)
  {
  }

  lemma {:induction false} HeaderInside(d: seq<Byte>)
    requires HEADER_SIZE <= |d|
    ensures FieldsInside(d, 0, HEADER_FIELDS)
  {
  }

  function RecordAt(d: seq<Byte>, o: nat): Record
    requires o + RECORD_SIZE <= |d|
  {
    RecordInside(d, o);
    RecordOfValues(LoadAll(d, o, RECORD_FIELDS))
  }

  function HeaderAt(d: seq<Byte>): Header
    requires |d| >= HEADER_SIZE
  {
    HeaderInside(d);
    HeaderOfValues(LoadAll(d, 0, HEADER_FIELDS))
  }

  /** A field holds no more than its size allows. */
  lemma {:induction false} FieldBound(d: seq<Byte>, o: nat, fs: seq<Field>, i: nat)
    requires FieldsInside(d, o, fs) && i < |fs|
    ensures LoadAll(d, o, fs)[i] < Capacity(fs[i].size)
  {
    LoadAllAt(d, o, fs, i);
    LoadBound(d, o + fs[i].at, fs[i].size);
  }

  lemma {:induction false} RecordBound(d: seq<Byte>, o: nat)
    requires o + RECORD_SIZE <= |d|
    ensures var r := RecordAt(d, o);
            r.atlasX < 0x1_0000_0000 && r.atlasY < 0x1_0000_0000 && r.width < 0x1_0000 && r.height < 0x1_0000 &&
                r.pitch < 0x1_0000
  {
    RecordInside(d, o);
    FieldBound(d, o, RECORD_FIELDS, 1);
    FieldBound(d, o, RECORD_FIELDS, 2);
    FieldBound(d, o, RECORD_FIELDS, 3);
    FieldBound(d, o, RECORD_FIELDS, 4);
    FieldBound(d, o, RECORD_FIELDS, 5);
    Capacities();
  }

  lemma {:induction false} FieldFromFile(d: seq<Byte>, o: nat, e: seq<Byte>, f: Field)
    requires o + |e| <= |d| && d[o..o + |e|] == e && f.at + f.size <= |e|
    ensures Number(d, o + f.at, f.size) == Number(e, f.at, f.size)
  {
    SubSlice(d, o, |e|, f.at, f.at + f.size);
    LoadSame(d, o + f.at, e, f.at, f.size);
  }

  /** Field by field, what was stored is what is read, wherever in a larger file the structure lies. */
  lemma {:induction false} FieldsFromFile(d: seq<Byte>, o: nat, b: seq<Byte>, fs: seq<Field>, vs: seq<nat>)
    requires Ordered(fs, |b|) && Represented(vs, fs)
    requires o + |b| <= |d| && d[o..o + |b|] == StoreAll(b, fs, vs) && FieldsInside(d, o, fs)
    ensures LoadAll(d, o, fs) == vs
  {
    forall i | 0 <= i < |fs|
      ensures LoadAll(d, o, fs)[i] == vs[i]
    {
      LoadAllAt(d, o, fs, i);
      FieldsComeBack(b, fs, vs, i);
      FieldFromFile(d, o, StoreAll(b, fs, vs), fs[i]);
    }
  }

  /** Reading a record where its bytes were written gives the record. */
  lemma {:induction false} RecordFromFile(d: seq<Byte>, o: nat, r: Record)
    requires r.Fits() && o + RECORD_SIZE <= |d| && d[o..o + RECORD_SIZE] == RecordBytes(r)
    ensures RecordAt(d, o) == r
  {
    RecordIsOrdered();
    RecordInside(d, o);
    FieldsFromFile(d, o, Zeroes(RECORD_SIZE), RECORD_FIELDS, r.Values());
  }

  lemma {:induction false} HeaderFromFile(d: seq<Byte>, h: Header)
    requires h.Fits() && HEADER_SIZE <= |d| && d[0..HEADER_SIZE] == HeaderBytes(h)
    ensures HeaderAt(d) == h
  {
    HeaderIsOrdered();
    HeaderInside(d);
    FieldsFromFile(d, 0, Zeroes(HEADER_SIZE), HEADER_FIELDS, h.Values());
  }

  // ----- the same structures, member after member -----

  /** If the members of a structure lie where the fields are, the fields are read as the members were written. */
  lemma {:induction false} MembersAreFields(d: seq<Byte>, o: nat, items: seq<Item>, fs: seq<Field>, vs: seq<nat>,
          at: seq<nat>)
    requires |fs| == |vs| == |at| && FieldsInside(d, o, fs) && Represented(vs, fs)
    requires o + End(items, |items|) <= |d| && d[o..o + End(items, |items|)] == Serial(items, |items|)
    requires forall i | 0 <= i < |at| ::
               at[i] < |items| && items[at[i]] == Item(vs[i], fs[i].size) && End(items, at[i]) == fs[i].at
    ensures LoadAll(d, o, fs) == vs
  {
    forall i | 0 <= i < |fs|
      ensures LoadAll(d, o, fs)[i] == vs[i]
    {
      assert at[i] < |items|;
      LoadAllAt(d, o, fs, i);
      ReadItem(d, o, items, at[i]);
    }
  }

  /** The members of struct aos_bitmap_font_glyph in order, with the padding of their natural alignment. */
  function RecordItems(r: Record): seq<Item> {
    [Item(r.codepoint, 4), Item(r.atlasX, 4), Item(r.atlasY, 4), Item(r.width, 2), Item(r.height, 2),
     Item(r.pitch, 2), Item(r.bearingX, 2), Item(r.bearingY, 2), Item(r.advanceX, 2), Item(r.advanceY, 2),
     Item(0, 2), Item(r.format, 4), Item(r.fallback, 1), Item(r.valid, 1), Item(0, 2)]
  }

  /** The members of `RecordItems` that are not padding. */
  const RECORD_MEMBERS: seq<nat> := [0, 1, 2, 3, 4, 5, 6, 7, 8, 9, 11, 12, 13]

  lemma {:induction false} RecordMembers(r: Record)
    ensures var items := RecordItems(r);
            && End(items, |items|) == RECORD_SIZE
            && forall i | 0 <= i < |RECORD_MEMBERS| ::
                 && items[RECORD_MEMBERS[i]] == Item(r.Values()[i], RECORD_FIELDS[i].size)
                 && End(items, RECORD_MEMBERS[i]) == RECORD_FIELDS[i].at
  {
    var items := RecordItems(r);
    assert End(items, 1) == 4;
    assert End(items, 2) == 8;
    assert End(items, 3) == 12;
    assert End(items, 4) == 14;
    assert End(items, 5) == 16;
    assert End(items, 6) == 18;
    assert End(items, 7) == 20;
    assert End(items, 8) == 22;
    assert End(items, 9) == 24;
    assert End(items, 10) == 26;
    assert End(items, 11) == 28;
    assert End(items, 12) == 32;
    assert End(items, 13) == 33;
    assert End(items, 14) == 34;
    assert End(items, 15) == 36;
  }

  /** The reader's record is what the compiler's layout of the structure holds. */
  lemma {:induction false} RecordFromMembers(d: seq<Byte>, o: nat, r: Record)
    requires r.Fits() && o + RECORD_SIZE <= |d| && d[o..o + RECORD_SIZE] == Serial(RecordItems(r), |RecordItems(r)|)
    ensures RecordAt(d, o) == r
  {
    RecordMembers(r);
    RecordInside(d, o);
    MembersAreFields(d, o, RecordItems(r), RECORD_FIELDS, r.Values(), RECORD_MEMBERS);
  }

  /** The members of struct aos_bitmap_font_hdr. */
  function HeaderItems(h: Header): seq<Item> {
    [Item(h.magic, 6), Item(0, 2), Item(h.version, 4), Item(h.revision, 2), Item(0, 2), Item(h.stringTable, 8),
     Item(h.fontName, 8), Item(h.family, 8), Item(h.author, 8), Item(h.fontSize, 2), Item(h.lineGap, 2),
     Item(h.lineHeight, 2), Item(h.ascent, 2), Item(h.descent, 2), Item(0, 6), Item(h.comments, 8),
     Item(h.commentCount, 2), Item(0, 2), Item(h.totalW, 4), Item(h.totalH, 4), Item(0, 4), Item(h.atlas, 8),
     Item(h.glyphs, 8), Item(h.glyphCount, 4), Item(0, 4)]
  }

  const HEADER_MEMBERS: seq<nat> := [0, 2, 3, 5, 6, 7, 8, 9, 10, 11, 12, 13, 15, 16, 18, 19, 21, 22, 23]

  /** Where the members start, and the end of the structure. */
  const HEADER_STARTS: seq<nat> := [0, 6, 8, 12, 14, 16, 24, 32, 40, 48, 50, 52, 54, 56, 58, 64, 72, 74, 76, 80, 84, 88,
      96, 104, 108, 112]

  lemma {:induction false} HeaderStarts(h: Header, i: nat)
    requires i < |HEADER_STARTS|
    ensures End(HeaderItems(h), i) == HEADER_STARTS[i]
  {
    if i > 0 {
      HeaderStarts(h, i - 1);
      assert HEADER_STARTS[i - 1] + HeaderItems(h)[i - 1].size == HEADER_STARTS[i];
    }
  }

  lemma {:induction false} HeaderMember(h: Header, i: nat)
    requires i < |HEADER_MEMBERS|
    ensures HeaderItems(h)[HEADER_MEMBERS[i]] == Item(h.Values()[i], HEADER_FIELDS[i].size)
  {
  }

  lemma {:induction false} HeaderOffset(i: nat)
    requires i < |HEADER_MEMBERS|
    ensures HEADER_STARTS[HEADER_MEMBERS[i]] == HEADER_FIELDS[i].at
  {
  }

  lemma {:induction false} HeaderMembers(h: Header)
    ensures var items := HeaderItems(h);
            && End(items, |items|) == HEADER_SIZE
            && forall i | 0 <= i < |HEADER_MEMBERS| ::
                 && items[HEADER_MEMBERS[i]] == Item(h.Values()[i], HEADER_FIELDS[i].size)
                 && End(items, HEADER_MEMBERS[i]) == HEADER_FIELDS[i].at
  {
    HeaderStarts(h, |HeaderItems(h)|);
    forall i | 0 <= i < |HEADER_MEMBERS|
      ensures HeaderItems(h)[HEADER_MEMBERS[i]] == Item(h.Values()[i], HEADER_FIELDS[i].size)
      ensures End(HeaderItems(h), HEADER_MEMBERS[i]) == HEADER_FIELDS[i].at
    {
      HeaderMember(h, i);
      HeaderOffset(i);
      HeaderStarts(h, HEADER_MEMBERS[i]);
    }
  }

  lemma {:induction false} HeaderFromMembers(d: seq<Byte>, h: Header)
    requires h.Fits() && HEADER_SIZE <= |d| && d[0..HEADER_SIZE] == Serial(HeaderItems(h), |HeaderItems(h)|)
    ensures HeaderAt(d) == h
  {
    HeaderMembers(h);
    HeaderInside(d);
    MembersAreFields(d, 0, HeaderItems(h), HEADER_FIELDS, h.Values(), HEADER_MEMBERS);
  }

  /** The signature is the text "AOSBF" and its NUL. */
  lemma {:induction false} MagicIsText()
    ensures Bytes(MAGIC, 6) == ['A' as Byte, 'O' as Byte, 'S' as Byte, 'B' as Byte, 'F' as Byte, 0]
  {
    assert Bytes(MAGIC / 256, 5) == [0x4F] + Bytes(MAGIC / 0x1_0000, 4);
    assert Bytes(MAGIC / 0x1_0000, 4) == [0x53] + Bytes(MAGIC / 0x100_0000, 3);
    assert Bytes(MAGIC / 0x100_0000, 3) == [0x42] + Bytes(0x46, 2);
    assert Bytes(0x46, 2) == [0x46] + Bytes(0, 1);
  }
}
