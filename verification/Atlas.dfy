/** The glyph atlas of the kernel's font reader (Kernel/drivers/extra/aosbf.c:13-283): a shelf packer over a pixel
    buffer that grows. */
module Atlas {
  import opened Arithmetic
  import opened Common
  import opened LittleEndian

  const WIDTH := 512
  const INITIAL_HEIGHT := 512
  const PADDING := 1
  const MAX_SIZE := 134217728
  const U32 := 0x1_0000_0000

  // ----- decoding a glyph -----

  /** Bytes in one row of a glyph. The formats are numbered as in Headers/aos_bitmap_font.h. */
  function MinimumPitch(format: nat, width: nat): Option<nat> {
    match format
    case 1 => Some((width + 7) / 8) // MONO
    case 2 => Some((width + 3) / 4) // GRAY2
    case 3 => Some((width + 1) / 2) // GRAY4
    case 4 => Some(width) // A8
    case 5 => Some(width * 3) // RGB
    case 6 => Some(width * 4) // RGBA
    case _ => None
  }

  function Power(n: nat): (p: nat)
    ensures p > 0
  {
    if n == 0 then 1 else 2 * Power(n - 1)
  }

  /** Red, green, blue and alpha. */
  datatype Colour = Colour(r: nat, g: nat, b: nat, a: nat) {
    function Packed(): nat { a * 0x100_0000 + b * 0x1_0000 + g * 0x100 + r }

    predicate Fits() { r < 256 && g < 256 && b < 256 && a < 256 }
  }

  /** A glyph as it is handed to the packer. */
  datatype Glyph = Glyph(bitmap: seq<Byte>, width: nat, height: nat, pitch: nat, format: nat) {
    predicate Sized() { width < U32 && height < U32 && pitch < U32 }

    /** The tests on format, pitch and size: every byte that decoding reads is there. */
    predicate Decodable() {
      && pitch > 0 && pitch * height <= |bitmap|
      && MinimumPitch(format, width).Some? && MinimumPitch(format, width).value <= pitch
    }

    /** The colour of pixel (x, y). */
    function Pixel(x: nat, y: nat): Colour
      requires Decodable() && x < width && y < height
    {
      RowInside(pitch, height, |bitmap|, y);
      InRow(format, width, bitmap[y * pitch..(y + 1) * pitch], x)
    }
  }

  /** The colour of pixel `x` of a row. */
  function InRow(format: nat, width: nat, row: seq<Byte>, x: nat): Colour
    requires MinimumPitch(format, width).Some? && MinimumPitch(format, width).value <= |row| && x < width
  {
    match format
    case 1 => Colour(255, 255, 255, row[x / 8] / Power(7 - x % 8) % 2 * 255)
    case 2 => Colour(255, 255, 255, row[x / 4] / Power(6 - x % 4 * 2) % 4 * 85)
    case 3 => Colour(255, 255, 255, (if x % 2 == 1 then row[x / 2] % 16 else row[x / 2] / 16) * 17)
    case 4 => Colour(255, 255, 255, row[x])
    case 5 => Colour(row[x * 3], row[x * 3 + 1], row[x * 3 + 2], 255)
    case _ => Colour(row[x * 4], row[x * 4 + 1], row[x * 4 + 2], row[x * 4 + 3])
  }

  lemma {:induction false} RowInside(pitch: nat, height: nat, size: nat, y: nat)
    requires y < height && pitch * height <= size
    ensures y * pitch + pitch == (y + 1) * pitch && 0 <= y * pitch <= (y + 1) * pitch <= size
  {
    assert (y + 1) * pitch <= height * pitch;
  }

  // ----- what the formats mean -----

  /** Bits of one pixel. */
  function Depth(format: nat): nat
    requires 1 <= format <= 6
  {
    [1, 2, 4, 8, 24, 32][format - 1]
  }

  /** A pitch is enough exactly when the bits of the row fit into its bytes. */
  lemma {:induction false} PitchIsEnough(format: nat, width: nat, pitch: nat)
    requires 1 <= format <= 6
    ensures MinimumPitch(format, width).value <= pitch <==> width * Depth(format) <= 8 * pitch
  {
  }

  /** The tests on a glyph hold exactly if its format is known, it has a pitch, the bits of a row fit into that many
      bytes and all of its rows are there. */
  lemma {:induction false} DecodableIff(g: Glyph)
    ensures g.Decodable() <==>
            && 1 <= g.format <= 6 && g.pitch > 0 && g.width * Depth(g.format) <= 8 * g.pitch
            && forall y: nat | y < g.height :: RowEnd(g, y) <= |g.bitmap|
  {
    if 1 <= g.format <= 6 {
      PitchIsEnough(g.format, g.width, g.pitch);
    }
    if g.pitch * g.height <= |g.bitmap| {
      forall y: nat | y < g.height
        ensures RowEnd(g, y) <= |g.bitmap|
      {
        RowInside(g.pitch, g.height, |g.bitmap|, y);
      }
    }
    if g.height > 0 {
      assert RowEnd(g, g.height - 1) == g.pitch * g.height;
    }
  }

  function RowEnd(g: Glyph, y: nat): nat { (y + 1) * g.pitch }

  /** A packed colour is its four components as bytes, red first. */
  lemma {:induction false} PackedIsRgba(c: Colour)
    requires c.Fits()
    ensures Bytes(c.Packed(), 4) == [c.r, c.g, c.b, c.a]
  {
    var v := c.Packed();
    DivUnique(v, 256, c.a * 0x1_0000 + c.b * 0x100 + c.g, c.r);
    DivUnique(v / 256, 256, c.a * 0x100 + c.b, c.g);
    DivUnique(v / 256 / 256, 256, c.a, c.b);
    assert Bytes(c.a, 1) == [c.a] + Bytes(c.a / 256, 0);
  }

  /** The samples of one byte, the first one highest; each is below `base`. */
  function Joined(samples: seq<nat>, base: nat): nat
    decreases |samples|
  {
    if samples == [] then 0 else Joined(samples[..|samples| - 1], base) * base + samples[|samples| - 1]
  }

  function Times(base: nat, n: nat): nat { if n == 0 then 1 else base * Times(base, n - 1) }

  lemma {:induction false} TimesPositive(base: nat, n: nat)
    requires base > 0
    ensures Times(base, n) > 0
  {
    if n > 0 {
      TimesPositive(base, n - 1);
      assert base * Times(base, n - 1) >= 1 * Times(base, n - 1);
    }
  }

  lemma {:induction false} LastSample(front: nat, base: nat, s: nat)
    requires s < base
    ensures (front * base + s) % base == s && (front * base + s) / base == front
  {
    assert front * base == base * front;
    DivUnique(front * base + s, base, front, s);
    assert base * front + s == base * ((front * base + s) / base) + (front * base + s) % base;
  }

  /** Shifting the later samples away leaves the wanted one lowest. */
  lemma {:induction false} SampleOf(samples: seq<nat>, base: nat, k: nat)
    requires base > 0 && k < |samples| && forall i | 0 <= i < |samples| :: samples[i] < base
    ensures Times(base, |samples| - 1 - k) > 0
    ensures Joined(samples, base) / Times(base, |samples| - 1 - k) % base == samples[k]
    decreases |samples|
  {
    var front, last := samples[..|samples| - 1], samples[|samples| - 1];
    TimesPositive(base, |samples| - 1 - k);
    LastSample(Joined(front, base), base, last);
    if k < |front| {
      SampleOf(front, base, k);
      TimesPositive(base, |front| - 1 - k);
      NestedDiv(Joined(samples, base), base, Times(base, |front| - 1 - k));
    }
  }

  lemma {:induction false} PowerIsTimes(n: nat)
    ensures Power(n) == Times(2, n) && Power(2 * n) == Times(4, n)
  {
    if n > 0 {
      PowerIsTimes(n - 1);
      assert Power(2 * n) == 2 * Power(2 * n - 1);
      assert Power(2 * n - 1) == 2 * Power(2 * (n - 1));
    }
  }

  /** How many pixels share a byte. */
  function PerByte(format: nat): nat
    requires 1 <= format <= 3
  {
    8 / Depth(format)
  }

  lemma {:induction false} Bases()
    ensures Times(2, 1) == 2 && Times(2, 2) == 4 && Times(2, 4) == 16
  {
    assert Times(2, 1) == 2 * Times(2, 0);
    assert Times(2, 3) == 2 * Times(2, 2);
  }

  lemma {:induction false} MonoSample(b: Byte, k: nat, samples: seq<nat>)
    requires |samples| == 8 && k < 8 && b == Joined(samples, 2) && forall i | 0 <= i < 8 :: samples[i] < 2
    ensures b / Power(7 - k) % 2 == samples[k]
  {
    PowerIsTimes(7 - k);
    SampleOf(samples, 2, k);
  }

  lemma {:induction false} GraySample(b: Byte, k: nat, samples: seq<nat>)
    requires |samples| == 4 && k < 4 && b == Joined(samples, 4) && forall i | 0 <= i < 4 :: samples[i] < 4
    ensures b / Power(6 - k * 2) % 4 == samples[k]
  {
    PowerIsTimes(3 - k);
    SampleOf(samples, 4, k);
  }

  lemma {:induction false} NibbleSample(b: Byte, k: nat, samples: seq<nat>)
    requires |samples| == 2 && k < 2 && b == Joined(samples, 16) && forall i | 0 <= i < 2 :: samples[i] < 16
    ensures (if k == 1 then b % 16 else b / 16) == samples[k]
  {
    NibbleOf(b, k);
    SampleOf(samples, 16, k);
  }

  lemma {:induction false} SmallInRow(format: nat, width: nat, row: seq<Byte>, x: nat, samples: seq<nat>)
    requires MinimumPitch(format, width).Some? && MinimumPitch(format, width).value <= |row| && x < width
    requires 1 <= format <= 3 && |samples| == PerByte(format)
    requires forall i | 0 <= i < |samples| :: samples[i] < Times(2, Depth(format))
    requires row[x / PerByte(format)] == Joined(samples, Times(2, Depth(format)))
    ensures InRow(format, width, row, x).a * (Times(2, Depth(format)) - 1) == samples[x % PerByte(format)] * 255
    ensures InRow(format, width, row, x) == Colour(255, 255, 255, InRow(format, width, row, x).a)
  {
    Bases();
    if format == 1 {
      MonoSample(row[x / 8], x % 8, samples);
    } else if format == 2 {
      GraySample(row[x / 4], x % 4, samples);
    } else {
      NibbleSample(row[x / 2], x % 2, samples);
    }
  }

  lemma {:induction false} NibbleOf(b: Byte, k: nat)
    requires k < 2
    ensures Times(16, 0) == 1 && Times(16, 1) == 16
    ensures b / Times(16, 1 - k) % 16 == if k == 1 then b % 16 else b / 16
  {
    assert Times(16, 1) == 16 * Times(16, 0);
  }

  /** The components of a pixel as they are stored: alpha alone, red, green and blue, or all four. */
  function Components(c: Colour, format: nat): seq<Byte>
    requires c.Fits() && 4 <= format <= 6
  {
    if format == 4 then [c.a] else if format == 5 then [c.r, c.g, c.b] else [c.r, c.g, c.b, c.a]
  }

  /** Components that are not stored are 255. */
  predicate HasFormat(c: Colour, format: nat) {
    && c.Fits() && (format == 4 ==> c.r == 255 && c.g == 255 && c.b == 255) && (format == 5 ==> c.a == 255)
  }

  lemma {:induction false} WideInRow(format: nat, width: nat, row: seq<Byte>, x: nat, c: Colour)
    requires 4 <= format <= 6 && MinimumPitch(format, width).value <= |row| && x < width && HasFormat(c, format)
    requires var n := Depth(format) / 8;
             row[x * n..x * n + n] == Components(c, format)
    ensures InRow(format, width, row, x) == c
  {
    var part := row[x * (Depth(format) / 8)..x * (Depth(format) / 8) + Depth(format) / 8];
    if format == 4 {
      assert row[x] == part[0];
    } else if format == 5 {
      assert row[x * 3] == part[0] && row[x * 3 + 1] == part[1] && row[x * 3 + 2] == part[2];
    } else {
      assert row[x * 4] == part[0] && row[x * 4 + 1] == part[1] && row[x * 4 + 2] == part[2] &&
          row[x * 4 + 3] == part[3];
    }
  }

  /** One, two or four bits for each pixel, the leftmost pixel in the highest bits: the pixel is white, and its alpha
      rises from 0 to 255 in equal steps. `row` is where the row of the pixel starts. */
  lemma {:induction false} SmallPixel(g: Glyph, x: nat, y: nat, row: nat, samples: seq<nat>)
    requires g.Decodable() && x < g.width && y < g.height && 1 <= g.format <= 3 && row == y * g.pitch
    requires |samples| == PerByte(g.format)
    requires forall i | 0 <= i < |samples| :: samples[i] < Times(2, Depth(g.format))
    requires row + x / PerByte(g.format) < |g.bitmap|
    requires g.bitmap[row + x / PerByte(g.format)] == Joined(samples, Times(2, Depth(g.format)))
    ensures g.Pixel(x, y).a * (Times(2, Depth(g.format)) - 1) == samples[x % PerByte(g.format)] * 255
    ensures g.Pixel(x, y) == Colour(255, 255, 255, g.Pixel(x, y).a)
  {
    RowInside(g.pitch, g.height, |g.bitmap|, y);
    var line := g.bitmap[row..(y + 1) * g.pitch];
    assert line[x / PerByte(g.format)] == g.bitmap[row + x / PerByte(g.format)];
    SmallInRow(g.format, g.width, line, x, samples);
  }

  /** Whole bytes for each pixel. */
  lemma {:induction false} WidePixel(g: Glyph, x: nat, y: nat, row: nat, c: Colour)
    requires g.Decodable() && x < g.width && y < g.height && 4 <= g.format <= 6 && row == y * g.pitch
    requires HasFormat(c, g.format)
    requires var n := Depth(g.format) / 8;
             row + x * n + n <= |g.bitmap| && g.bitmap[row + x * n..row + x * n + n] == Components(c, g.format)
    ensures g.Pixel(x, y) == c
  {
    RowInside(g.pitch, g.height, |g.bitmap|, y);
    var n := Depth(g.format) / 8;
    var line := g.bitmap[row..(y + 1) * g.pitch];
    SubSlice(g.bitmap, row, g.pitch, x * n, x * n + n);
    WideInRow(g.format, g.width, line, x, c);
  }

  // ----- placements -----

  /** A glyph and where it was put. */
  datatype Placement = Placement(x: nat, y: nat, glyph: Glyph) {
    predicate Covers(px: int, py: int) { x <= px < x + glyph.width && y <= py < y + glyph.height }

    /** No pixel of either lies within a pixel of the other. */
    predicate Clear(o: Placement) {
      || x + glyph.width + PADDING <= o.x || o.x + o.glyph.width + PADDING <= x
      || y + glyph.height + PADDING <= o.y || o.y + o.glyph.height + PADDING <= y
    }
  }

  /** The shelf discipline: whatever was placed lies left of the cursor on its own shelf, or on a shelf above. */
  ghost predicate Shelved(ps: seq<Placement>, x: nat, y: nat, rowHeight: nat, height: nat) {
    && (forall i | 0 <= i < |ps| :: Behind(ps[i], x, y, rowHeight) && Inside(ps[i], height))
    && (forall i, j | 0 <= i < j < |ps| :: ps[i].Clear(ps[j]))
  }

  predicate Behind(p: Placement, x: nat, y: nat, rowHeight: nat) {
    || (p.y == y && p.glyph.height <= rowHeight && p.x + p.glyph.width + PADDING <= x)
    || p.y + p.glyph.height + PADDING <= y
  }

  predicate Inside(p: Placement, height: nat) {
    && p.glyph.Decodable() && p.glyph.width > 0 && p.glyph.height > 0
    && p.x + p.glyph.width <= WIDTH && p.y + p.glyph.height <= height
  }

  /** The picture: each placed glyph shows its own pixels, and everything else is transparent. */
  ghost predicate Shows(pixels: seq<nat>, ps: seq<Placement>, height: nat) {
    && |pixels| == WIDTH * height
    && (forall i | 0 <= i < |ps| :: Inside(ps[i], height) && Drawn(pixels, ps[i]))
    && (forall k | 0 <= k < |pixels| && pixels[k] != 0 :: exists i ::
          0 <= i < |ps| && ps[i].Covers(k % WIDTH, k / WIDTH))
  }

  ghost predicate Drawn(pixels: seq<nat>, p: Placement)
    requires p.glyph.Decodable()
  {
    forall k | 0 <= k < |pixels| && p.Covers(k % WIDTH, k / WIDTH) ::
      pixels[k] == p.glyph.Pixel(k % WIDTH - p.x, k / WIDTH - p.y).Packed()
  }

  /** Nothing but the placements determines the picture. */
  lemma {:induction false} PictureIsDetermined(a: seq<nat>, b: seq<nat>, ps: seq<Placement>, height: nat)
    requires Shows(a, ps, height) && Shows(b, ps, height)
    ensures a == b
  {
    forall k | 0 <= k < |a|
      ensures a[k] == b[k]
    {
      if i :| 0 <= i < |ps| && ps[i].Covers(k % WIDTH, k / WIDTH) {
        assert Drawn(a, ps[i]) && Drawn(b, ps[i]);
      }
    }
  }

  lemma {:induction false} ClearIsDisjoint(p: Placement, q: Placement, x: int, y: int)
    requires p.Clear(q) && p.Covers(x, y)
    ensures !q.Covers(x, y)
  {
  }

  lemma {:induction false} At(k: nat, x: nat, y: nat)
    requires x < WIDTH
    ensures k == y * WIDTH + x <==> k % WIDTH == x && k / WIDTH == y
  {
  }

  /** Drawing a new glyph clear of all others adds exactly its pixels to the picture. */
  lemma {:induction false} DrawingShows(before: seq<nat>, after: seq<nat>, ps: seq<Placement>, p: Placement,
          height: nat)
    requires Shows(before, ps, height) && Inside(p, height) && |after| == |before| && Drawn(after, p)
    requires forall k | 0 <= k < |after| && !p.Covers(k % WIDTH, k / WIDTH) :: after[k] == before[k]
    requires forall i | 0 <= i < |ps| :: ps[i].Clear(p)
    ensures Shows(after, ps + [p], height)
  {
    var all := ps + [p];
    forall i | 0 <= i < |all|
      ensures Inside(all[i], height) && Drawn(after, all[i])
    {
      if i < |ps| {
        OldStaysDrawn(before, after, ps[i], p);
      }
    }
    forall k | 0 <= k < |after| && after[k] != 0
      ensures exists i :: 0 <= i < |all| && all[i].Covers(k % WIDTH, k / WIDTH)
    {
      if p.Covers(k % WIDTH, k / WIDTH) {
        assert all[|ps|].Covers(k % WIDTH, k / WIDTH);
      } else {
        var i :| 0 <= i < |ps| && ps[i].Covers(k % WIDTH, k / WIDTH);
        assert all[i].Covers(k % WIDTH, k / WIDTH);
      }
    }
  }

  lemma {:induction false} OldStaysDrawn(before: seq<nat>, after: seq<nat>, q: Placement, p: Placement)
    requires q.glyph.Decodable() && Drawn(before, q) && q.Clear(p) && |after| == |before|
    requires forall k | 0 <= k < |after| && !p.Covers(k % WIDTH, k / WIDTH) :: after[k] == before[k]
    ensures Drawn(after, q)
  {
    forall k | 0 <= k < |after| && q.Covers(k % WIDTH, k / WIDTH)
      ensures after[k] == q.glyph.Pixel(k % WIDTH - q.x, k / WIDTH - q.y).Packed()
    {
      ClearIsDisjoint(q, p, k % WIDTH, k / WIDTH);
    }
  }

  /** A taller buffer that starts with the old pixels and is 0 below shows the same picture. */
  lemma {:induction false} GrowingShows(before: seq<nat>, after: seq<nat>, ps: seq<Placement>, height: nat, taller: nat)
    requires Shows(before, ps, height) && height <= taller && |after| == WIDTH * taller
    requires forall k | 0 <= k < |after| :: after[k] == if k < |before| then before[k] else 0
    ensures Shows(after, ps, taller)
  {
    forall i | 0 <= i < |ps|
      ensures Inside(ps[i], taller) && Drawn(after, ps[i])
    {
      forall k | 0 <= k < |after| && ps[i].Covers(k % WIDTH, k / WIDTH)
        ensures after[k] == ps[i].glyph.Pixel(k % WIDTH - ps[i].x, k / WIDTH - ps[i].y).Packed()
      {
        assert k < |before|;
      }
    }
  }

  lemma {:induction false} LowByte(x: nat, v: nat, y: nat, w: nat)
    requires v < 256 && w < 256 && x * 256 + v == y * 256 + w
    ensures x == y && v == w
  {
  }

  /** Different colours are different words. */
  lemma {:induction false} PackedTellsColoursApart(c: Colour, d: Colour)
    requires c.Fits() && d.Fits() && c.Packed() == d.Packed()
    ensures c == d
  {
    LowByte((c.a * 256 + c.b) * 256 + c.g, c.r, (d.a * 256 + d.b) * 256 + d.g, d.r);
    LowByte(c.a * 256 + c.b, c.g, d.a * 256 + d.b, d.g);
    LowByte(c.a, c.b, d.a, d.b);
  }

  lemma {:induction false} PixelFits(g: Glyph, x: nat, y: nat)
    requires g.Decodable() && x < g.width && y < g.height
    ensures g.Pixel(x, y).Fits()
  {
    RowInside(g.pitch, g.height, |g.bitmap|, y);
  }

  /** The atlas word of a pixel determines its colour. */
  lemma {:induction false} WordTellsPixel(g: Glyph, h: Glyph, x: nat, y: nat)
    requires g.Decodable() && h.Decodable() && x < g.width && y < g.height && x < h.width && y < h.height
    requires g.Pixel(x, y).Packed() == h.Pixel(x, y).Packed()
    ensures g.Pixel(x, y) == h.Pixel(x, y)
  {
    PixelFits(g, x, y);
    PixelFits(h, x, y);
    PackedTellsColoursApart(g.Pixel(x, y), h.Pixel(x, y));
  }

  // ----- where the packer puts a glyph -----

  /** The part of the state that decides: whether there is a buffer, its height, and the shelf. */
  datatype Cursor = Cursor(made: bool, height: nat, rowHeight: nat, x: nat, y: nat) {
    predicate Turns(w: nat) { x + w + PADDING > WIDTH }

    /** The shelf for a glyph of width `w`. */
    function ShelfX(w: nat): nat { if Turns(w) then 0 else x }

    function ShelfY(w: nat): nat { if Turns(w) then y + rowHeight + PADDING else y }

    function ShelfHeight(w: nat): nat { if Turns(w) then 0 else rowHeight }

    function Rows(): nat { if made then height else INITIAL_HEIGHT }

    /** What a glyph needs: it can be decoded, is no wider than the atlas, and finds room below the limit. `first` and
        `next` say whether memory is granted for the first and for a later buffer. */
    predicate Accepts(g: Glyph, first: bool, next: bool) {
      && 0 < g.width <= WIDTH && 0 < g.height && g.Decodable() && (made || first)
      && (ShelfY(g.width) + g.height <= Rows() || (next && RoundUp(ShelfY(g.width) + g.height) * WIDTH * 4 <= MAX_SIZE))
    }

    function Beyond(g: Glyph): Cursor {
      var end := ShelfY(g.width) + g.height;
      Cursor(true, if end <= Rows() then Rows() else RoundUp(end), Max(ShelfHeight(g.width), g.height),
             ShelfX(g.width) + g.width + PADDING, ShelfY(g.width))
    }
  }

  const START: Cursor := Cursor(false, 0, 0, 0, 0)

  /** The cursor behind glyphs that are packed one after the other; None when one of them is not accepted. */
  function Packed(gs: seq<Glyph>, first: bool, next: bool): Option<Cursor> {
    if gs == [] then Some(START)
    else
      var before := Packed(gs[..|gs| - 1], first, next);
      if before.Some? && before.value.Accepts(gs[|gs| - 1], first, next) then Some(before.value.Beyond(gs[|gs| - 1]))
          else None
  }

  lemma {:induction false} PackedNext(gs: seq<Glyph>, g: Glyph, first: bool, next: bool)
    ensures Packed(gs + [g], first, next) ==
            var before := Packed(gs, first, next);
            if before.Some? && before.value.Accepts(g, first, next) then Some(before.value.Beyond(g)) else None
  {
    assert (gs + [g])[..|gs|] == gs;
  }

  // ----- the packer -----

  class AtlasData {
    var pixels: array?<nat>
    var width: nat
    var height: nat
    var rowHeight: nat
    var x: nat
    var y: nat
    ghost var placed: seq<Placement>

    ghost predicate Valid()
      reads this, pixels
    {
      && Shelved(placed, x, y, rowHeight, height)
      && (pixels == null ==> placed == [] && x == 0 && y == 0 && rowHeight == 0)
      && (pixels != null ==> width == WIDTH && Shows(pixels[..], placed, height))
    }

    /** True as long as no call has failed: the cursor's shelf lies in the buffer. */
    ghost predicate Steady()
      reads this
    {
      x <= WIDTH + PADDING && (pixels != null ==> y + rowHeight <= height && height * WIDTH * 4 <= MAX_SIZE)
    }

    function Here(): Cursor
      reads this
    {
      Cursor(pixels != null, if pixels != null then height else 0, rowHeight, x, y)
    }

    constructor ()
      ensures Valid() && Steady() && placed == [] && pixels == null && Here() == START
    {
      pixels := null;
      width, height, rowHeight, x, y := 0, 0, 0, 0, 0;
      placed := [];
    }

    /** One row of the inner loop. */
    method DrawRow(p: Placement, row: nat)
      requires pixels != null && Inside(p, height) && row < p.glyph.height && pixels.Length == WIDTH * height
      modifies pixels
      ensures forall k | 0 <= k < pixels.Length :: pixels[k] == if k / WIDTH == p.y + row &&
                p.Covers(k % WIDTH, k / WIDTH)
                then p.glyph.Pixel(k % WIDTH - p.x, row).Packed() else old(pixels[k])
    {
      for col := 0 to p.glyph.width
        invariant forall k | 0 <= k < pixels.Length :: pixels[k] == if k / WIDTH == p.y + row &&
                    p.x <= k % WIDTH < p.x + col
                    then p.glyph.Pixel(k % WIDTH - p.x, row).Packed() else old(pixels[k])
      {
        var index := (p.y + row) * WIDTH + (p.x + col);
        At(index, p.x + col, p.y + row);
        pixels[index] := p.glyph.Pixel(col, row).Packed();
        forall k | 0 <= k < pixels.Length
          ensures k == index <==> k / WIDTH == p.y + row && k % WIDTH == p.x + col
        {
          At(k, p.x + col, p.y + row);
        }
      }
    }

    method Draw(p: Placement)
      requires pixels != null && Inside(p, height) && pixels.Length == WIDTH * height
      modifies pixels
      ensures Drawn(pixels[..], p)
      ensures forall k | 0 <= k < pixels.Length && !p.Covers(k % WIDTH, k / WIDTH) :: pixels[k] == old(pixels[k])
    {
      for row := 0 to p.glyph.height
        invariant forall k | 0 <= k < pixels.Length :: pixels[k] == if p.Covers(k % WIDTH, k / WIDTH) &&
                    k / WIDTH < p.y + row
                    then p.glyph.Pixel(k % WIDTH - p.x, k / WIDTH - p.y).Packed() else old(pixels[k])
      {
        DrawRow(p, row);
      }
    }

    /** The first buffer. */
    method Create(granted: bool) returns (ok: bool)
      requires Valid() && Steady()
      modifies this
      ensures Valid() && placed == old(placed)
      ensures old(pixels) != null ==> pixels == old(pixels)
      ensures old(pixels) == null ==> pixels == null || fresh(pixels)
      ensures ok == (old(pixels) != null || granted)
      ensures ok ==> pixels != null && Steady()
      ensures unchanged(this`placed, this`x, this`y, this`rowHeight)
      ensures old(pixels) == null && ok ==> height == INITIAL_HEIGHT
      ensures old(pixels) != null ==> height == old(height)
    {
      if pixels == null {
        width, height := WIDTH, INITIAL_HEIGHT;
        if !granted {
          return false;
        }
        pixels := new nat[WIDTH * INITIAL_HEIGHT](_ => 0);
        x, y := 0, 0;
      }
      return true;
    }

    /** A glyph that does not fit behind the last one starts a new shelf. */
    method NextShelf(w: nat)
      requires Valid() && Steady() && pixels != null && w <= WIDTH
      modifies this`x, this`y, this`rowHeight
      ensures Valid() && x + w <= WIDTH
      ensures y <= height + PADDING && (rowHeight == 0 || y + rowHeight <= height)
      ensures if old(x) + w + PADDING > WIDTH then x == 0 && y == old(y) + old(rowHeight) + PADDING && rowHeight == 0
              else x == old(x) && y == old(y) && rowHeight == old(rowHeight)
    {
      if x + w + PADDING > width {
        x := 0;
        y := (y + rowHeight + PADDING) % U64;
        rowHeight := 0;
      }
    }

    /** The buffer grows to a multiple of 512 rows, keeping its picture. */
    method MakeRoom(h: nat, granted: bool) returns (ok: bool)
      requires Valid() && pixels != null && h < U32 && y <= height + PADDING && height * WIDTH * 4 <= MAX_SIZE
      modifies this`pixels, this`height
      ensures Valid() && pixels != null && (pixels == old(pixels) || fresh(pixels)) && height >= old(height)
      ensures ok <==> y + h <= old(height) || (granted && RoundUp(y + h) * WIDTH * 4 <= MAX_SIZE)
      ensures ok ==> y + h <= height && height * WIDTH * 4 <= MAX_SIZE
      ensures ok ==> height == if y + h <= old(height) then old(height) else RoundUp(y + h)
    {
      var required := y + h;
      if required > height {
        var newHeight := if required > U64_MAX - 511 then required else RoundUp(required);
        if newHeight < required || newHeight > U64_MAX / width {
          return false;
        }
        var newPixels := width * newHeight;
        if newPixels > U64_MAX / 4 || newPixels * 4 > MAX_SIZE || !granted {
          return false;
        }
        var small: array<nat> := pixels;
        var grown := new nat[newPixels](_ => 0);
        for row := 0 to height
          modifies grown
          invariant forall k | 0 <= k < newPixels :: grown[k] == if k < row * WIDTH then small[k] else 0
        {
          CopyRow(small, grown, row * WIDTH);
        }
        GrowingShows(small[..], grown[..], placed, height, newHeight);
        pixels, height := grown, newHeight;
      }
      return true;
    }

    /** aosbf_convert_glyph_to_rgba8. A call that succeeds places one more glyph, clear of all earlier ones, and leaves
        every earlier pixel; a call that fails leaves the picture. `first` and `next` say whether memory is granted. */
    method Place(g: Glyph, first: bool, next: bool) returns (ok: bool, px: nat, py: nat)
      requires Valid() && Steady() && g.Sized()
      modifies this, pixels
      ensures Valid()
      ensures pixels == old(pixels) || (pixels != null && fresh(pixels))
      ensures !ok ==> placed == old(placed)
      ensures ok ==> Steady() && pixels != null && placed == old(placed) + [Placement(px, py, g)]
      ensures ok == old(Here()).Accepts(g, first, next)
      ensures ok ==> Here() == old(Here()).Beyond(g) && px == old(Here()).ShelfX(g.width) && py == y
    {
      px, py := 0, 0;
      if g.width == 0 || g.height == 0 {
        return false, px, py;
      }
      ok := Create(first);
      if !ok || g.width > width {
        return false, px, py;
      }
      ok, px, py := PlaceMade(g, next);
    }

    /** The rest of the call, once there is a buffer. */
    method PlaceMade(g: Glyph, next: bool) returns (ok: bool, px: nat, py: nat)
      requires Valid() && Steady() && g.Sized() && pixels != null && 0 < g.width <= WIDTH && 0 < g.height
      modifies this, pixels
      ensures Valid() && pixels != null && (pixels == old(pixels) || fresh(pixels))
      ensures !ok ==> placed == old(placed)
      ensures ok ==> Steady() && placed == old(placed) + [Placement(px, py, g)]
      ensures ok == old(Here()).Accepts(g, true, next)
      ensures ok ==> Here() == old(Here()).Beyond(g) && px == old(Here()).ShelfX(g.width) && py == y
    {
      px, py := 0, 0;
      NextShelf(g.width);
      ok := MakeRoom(g.height, next);
      if !ok {
        return;
      }
      if !g.Decodable() {
        return false, px, py;
      }
      px, py := x, y;
      Put(Placement(px, py, g));
    }

    /** The end of a successful call: the pixels and the cursor. */
    method Put(p: Placement)
      requires Valid() && pixels != null && Inside(p, height) && p.x == x && p.y == y
      requires height * WIDTH * 4 <= MAX_SIZE && (rowHeight == 0 || y + rowHeight <= height)
      modifies this`x, this`rowHeight, this`placed, pixels
      ensures Valid() && Steady() && placed == old(placed) + [p]
      ensures x == old(x) + p.glyph.width + PADDING && rowHeight == Max(old(rowHeight), p.glyph.height)
    {
      assert forall i | 0 <= i < |placed| :: placed[i].Clear(p) by {
        forall i | 0 <= i < |placed|
          ensures placed[i].Clear(p)
        {
          assert Behind(placed[i], x, y, rowHeight);
        }
      }
      ghost var before := pixels[..];
      Draw(p);
      DrawingShows(before, pixels[..], placed, p, height);
      placed := placed + [p];
      x := x + p.glyph.width + PADDING;
      if p.glyph.height > rowHeight {
        rowHeight := p.glyph.height;
      }
    }
  }

  /** The next multiple of 512. */
  function RoundUp(n: nat): nat { n + 511 - (n + 511) % 512 }

  lemma {:induction false} RoundUpIsLeast(n: nat, m: nat)
    ensures RoundUp(n) >= n && RoundUp(n) % 512 == 0 && (m >= n && m % 512 == 0 ==> m >= RoundUp(n))
  {
    var q, k := (n + 511) / 512, m / 512;
    assert n + 511 == 512 * q + (n + 511) % 512 && m == 512 * k + m % 512;
    assert RoundUp(n) == 512 * q;
    Multiple(q);
  }

  lemma {:induction false} Multiple(q: nat)
    ensures 512 * q % 512 == 0
  {
  }

  /** memcpy of one row. */
  method CopyRow(from: array<nat>, to: array<nat>, start: nat)
    requires start + WIDTH <= from.Length <= to.Length && from != to
    modifies to
    ensures forall k | 0 <= k < to.Length :: to[k] == if start <= k < start + WIDTH then from[k] else old(to[k])
  {
    for i := 0 to WIDTH
      invariant forall k | 0 <= k < to.Length :: to[k] == if start <= k < start + i then from[k] else old(to[k])
    {
      to[start + i] := from[start + i];
    }
  }
}
