/** The frame buffer object of extmod/modframebuf.c and its fills. */
module FrameBuf {
  import opened Arith
  import opened Bits
  import opened PixelFormats
  import opened Wrappers

  function Solid(v: nat): (int, int) -> nat { (x, y) => v }

  ghost function Rect(x: int, y: int, w: int, h: int): iset<(int, int)> {
    iset p: (int, int) | x <= p.0 < x + w && y <= p.1 < y + h
  }

  /** The columns before `c` of a rectangle, and `j` pixels of column `c`. */
  ghost function Columns(x: int, y: int, h: int, c: int, j: int): iset<(int, int)> {
    iset p: (int, int) | x <= p.0 && y <= p.1 < y + h && (p.0 < c || (p.0 == c && p.1 < y + j))
  }

  /** The rows before `r` of a rectangle, and `j` pixels of row `r`. */
  ghost function Rows(x: int, y: int, w: int, r: int, j: int): iset<(int, int)> {
    iset p: (int, int) | y <= p.1 && x <= p.0 < x + w && (p.1 < r || (p.1 == r && p.0 < x + j))
  }

  lemma ColumnsStep(x: int, y: int, h: int, c: int, j: int)
    requires x <= c && 0 <= j < h
    ensures Columns(x, y, h, c, j) + iset{(c, y + j)} == Columns(x, y, h, c, j + 1)
  {
  }

  lemma ColumnsDone(x: int, y: int, h: int, c: int)
    requires x <= c
    ensures Columns(x, y, h, c, h) == Columns(x, y, h, c + 1, 0)
  {
  }

  lemma ColumnsEnds(x: int, y: int, w: int, h: int)
    requires w >= 0
    ensures Columns(x, y, h, x, 0) == iset{}
    ensures Columns(x, y, h, x + w, 0) == Rect(x, y, w, h)
  {
  }

  lemma RowsStep(x: int, y: int, w: int, r: int, j: int)
    requires y <= r && 0 <= j < w
    ensures Rows(x, y, w, r, j) + iset{(x + j, r)} == Rows(x, y, w, r, j + 1)
  {
  }

  lemma RowsDone(x: int, y: int, w: int, r: int)
    requires y <= r
    ensures Rows(x, y, w, r, w) == Rows(x, y, w, r + 1, 0)
  {
  }

  ghost predicate Covers(g: Geometry, n: nat) {
    forall x, y :: 0 <= x < g.width && 0 <= y < g.height ==> Unit(g, x, y) < n
  }

  /** Where each format keeps a pixel. */
  lemma UnitForms(g: Geometry, x: nat, y: nat)
    ensures Unit(g, x, y) == match g.format
      case Mvlsb => y / 8 * g.stride + x
      case Mhlsb => (x + y * g.stride) / 8
      case Mhmsb => (x + y * g.stride) / 8
      case Gs2Hmsb => (x + y * g.stride) / 4
      case Gs4Hmsb => (x + y * g.stride) / 2
      case Gs8 => x + y * g.stride
      case Rgb565 => x + y * g.stride
  {
  }

  /** The last pixel is inside the buffer. */
  predicate LastFits(g: Geometry, n: nat) {
    g.width == 0 || g.height == 0 || Unit(g, g.width - 1, g.height - 1) < n
  }

  /** The numbers of the formats. */
  function FormatOf(n: int): Option<Format> {
    if n == 0 then Some(Mvlsb)
    else if n == 1 then Some(Rgb565)
    else if n == 2 then Some(Gs4Hmsb)
    else if n == 3 then Some(Mhlsb)
    else if n == 4 then Some(Mhmsb)
    else if n == 5 then Some(Gs2Hmsb)
    else if n == 6 then Some(Gs8)
    else None
  }

  /** MVLSB, RGB565, GS4_HMSB, MHLSB, MHMSB, GS2_HMSB and GS8 in the order of their numbers. */
  const FORMATS: seq<Format> := [Mvlsb, Rgb565, Gs4Hmsb, Mhlsb, Mhmsb, Gs2Hmsb, Gs8]

  /** make_new: a format number that names no format is a ValueError. */
  method MakeNew(buf: array<nat>, width: int, height: int, format: int, stride: Option<int>)
      returns (r: Option<FrameBuffer>)
    requires forall i :: 0 <= i < buf.Length ==> buf[i] < if format % 256 == 1 then 65536 else 256
    ensures r.Some? <==> format % 256 < 7
    ensures r.Some? ==> r.value.buf == buf && r.value.g == Stored(FORMATS[format % 256], width, height, stride)
    ensures r.Some? ==> (r.value.Valid() <==> r.value.g.width <= r.value.g.stride && LastFits(r.value.g, buf.Length))
  {
    match FormatOf(format % 256) {
      case None => r := None;
      case Some(f) =>
        var fb := new FrameBuffer(buf, f, width, height, stride);
        r := Some(fb);
    }
  }

  lemma CoversIff(g: Geometry, n: nat)
    ensures Covers(g, n) <==> LastFits(g, n)
  {
    if g.width > 0 && g.height > 0 {
      forall x, y | 0 <= x < g.width && 0 <= y < g.height
        ensures Unit(g, x, y) <= Unit(g, g.width - 1, g.height - 1)
      {
        UnitMono(g, x, y, g.width - 1, g.height - 1);
      }
    }
  }

  lemma UnitMono(g: Geometry, x: nat, y: nat, x': nat, y': nat)
    requires x <= x' && y <= y'
    ensures Unit(g, x, y) <= Unit(g, x', y')
  {
    MulMono(g.stride, y, y');
    MulMono(g.stride, y / 8, y' / 8);
  }

  class FrameBuffer {
    const g: Geometry
    const buf: array<nat>

    ghost predicate Valid()
      reads this, buf
    {
      WellFormed(g) && Covers(g, buf.Length) && InRange(g, buf[..])
    }

    /** make_new: nothing is checked, so the object is usable exactly when the picture fits. */
    constructor (buf: array<nat>, format: Format, width: int, height: int, stride: Option<int>)
      requires forall i :: 0 <= i < buf.Length ==> buf[i] < if format.Rgb565? then 65536 else 256
      ensures this.buf == buf && g == Stored(format, width, height, stride)
      ensures Valid() <==> g.width <= g.stride && LastFits(g, buf.Length)
    {
      this.buf := buf;
      var given := (match stride case Some(s) => s case None => width) % 65536;
      var n := PerUnit(format);
      g := Geometry(format, width % 65536, height % 65536,
        if format.Mvlsb? then given else AndNot(given + n - 1, n - 1) % 65536);
      new;
      RoundUp(format, given);
      UnitSize(format);
      CoversIff(g, buf.Length);
    }

    /** The buffer so far: `before`, with `area` redrawn from `image`. */
    ghost predicate Drawing(before: seq<nat>, area: iset<(int, int)>, image: (int, int) -> nat)
      reads this, buf
    {
      Valid() && Drawn(g, before, buf[..], area, image)
    }

    lemma UnitHere(x: int, y: int)
      requires Valid() && 0 <= x < g.width && 0 <= y < g.height
      ensures Unit(g, x, y) < buf.Length
      ensures buf[Unit(g, x, y)] < if g.format.Rgb565? then 65536 else 256
    {
      assert Unit(g, x, y) < buf.Length;
      UnitSize(g.format);
    }

    /** Write the unit that holds (x, y) so that only that pixel changes. */
    method Store(i: nat, u: nat, ghost x: int, ghost y: int,
        ghost before: seq<nat>, ghost area: iset<(int, int)>, ghost image: (int, int) -> nat)
      requires Drawing(before, area, image)
      requires 0 <= x < g.width && 0 <= y < g.height && i == Unit(g, x, y) < buf.Length
      requires image(x, y) < Base(g.format)
      requires u == PutField(buf[i], Base(g.format), FieldNo(g, x, y), image(x, y))
      modifies buf
      ensures Drawing(before, area + iset{(x, y)}, image)
    {
      ghost var was := buf[..];
      assert InBuffer(g, buf.Length, x, y);
      SetPixDrawn(g, before, was, x, y, area, image);
      SetPixInRange(g, was, x, y, image(x, y));
      hide Drawn, InRange, Covers;
      buf[i] := u;
      assert buf[..] == SetPix(g, was, x, y, image(x, y));
    }

    /** Set or clear one bit of a monochrome byte. */
    method PutBit(i: nat, offset: nat, v: nat, ghost x: int, ghost y: int,
        ghost before: seq<nat>, ghost area: iset<(int, int)>, ghost image: (int, int) -> nat)
      requires g.format.Mvlsb? || g.format.Mhlsb? || g.format.Mhmsb?
      requires Drawing(before, area, image)
      requires 0 <= x < g.width && 0 <= y < g.height && i == Unit(g, x, y) && offset == FieldNo(g, x, y)
      requires v == image(x, y) < 2
      modifies buf
      ensures Drawing(before, area + iset{(x, y)}, image)
    {
      hide Valid, Drawn, Or, AndNot, Pow2, PutField, Unit, FieldNo;
      UnitHere(x, y);
      var u := buf[i];
      BitPut(u, offset, v);
      Store(i, Or(AndNot(u, Pow2(offset)), v * Pow2(offset)), x, y, before, area, image);
    }

    /** Replace one pair of bits of a GS2 byte. */
    method PutQuad(i: nat, slot: nat, v: nat, ghost x: int, ghost y: int,
        ghost before: seq<nat>, ghost area: iset<(int, int)>, ghost image: (int, int) -> nat)
      requires g.format.Gs2Hmsb? && Drawing(before, area, image)
      requires 0 <= x < g.width && 0 <= y < g.height && i == Unit(g, x, y) && slot == FieldNo(g, x, y)
      requires v == image(x, y) < 4
      modifies buf
      ensures Drawing(before, area + iset{(x, y)}, image)
    {
      hide Valid, Drawn, Or, AndNot, Pow2, PutField, Unit, FieldNo;
      UnitHere(x, y);
      var u, shift := buf[i], 2 * slot;
      QuadPut(u, slot, v);
      Store(i, Or(v * Pow2(shift), AndNot(u, 3 * Pow2(shift))), x, y, before, area, image);
    }

    /** Replace a unit that is one pixel. */
    method PutUnit(i: nat, v: nat, ghost x: int, ghost y: int,
        ghost before: seq<nat>, ghost area: iset<(int, int)>, ghost image: (int, int) -> nat)
      requires (g.format.Gs8? || g.format.Rgb565?) && Drawing(before, area, image)
      requires 0 <= x < g.width && 0 <= y < g.height && i == Unit(g, x, y)
      requires v == image(x, y) < Base(g.format)
      modifies buf
      ensures Drawing(before, area + iset{(x, y)}, image)
    {
      hide Valid, Drawn, PutField, Unit;
      UnitHere(x, y);
      WholePut(buf[i], Base(g.format), v);
      Store(i, v, x, y, before, area, image);
    }

    /** Write one nibble of a GS4 pixel pair. */
    method PutNibble(i: nat, high: bool, c: nat, ghost x: int, ghost y: int,
        ghost before: seq<nat>, ghost area: iset<(int, int)>, ghost image: (int, int) -> nat)
      requires g.format.Gs4Hmsb? && Drawing(before, area, image)
      requires 0 <= x < g.width && 0 <= y < g.height && i == Unit(g, x, y) && high == (x % 2 == 0)
      requires c == image(x, y) < 16
      modifies buf
      ensures Drawing(before, area + iset{(x, y)}, image)
    {
      hide Valid, Drawn, PutField, Unit;
      UnitHere(x, y);
      Nibbles(buf[i], c);
      if high {
        Store(i, c * 16 + buf[i] % 16, x, y, before, area, image);
      } else {
        Store(i, buf[i] / 16 * 16 + c, x, y, before, area, image);
      }
    }

    /** Write both nibbles of a GS4 pixel pair. */
    method PutPair(i: nat, pair: nat, ghost c: nat, ghost x: int, ghost y: int,
        ghost before: seq<nat>, ghost area: iset<(int, int)>, ghost image: (int, int) -> nat)
      requires g.format.Gs4Hmsb? && Drawing(before, area, image)
      requires 0 <= x < g.width - 1 && 0 <= y < g.height && i == Unit(g, x, y) && x % 2 == 0
      requires c == image(x, y) == image(x + 1, y) < 16 && pair == c * 16 + c
      modifies buf
      ensures Drawing(before, area + iset{(x, y)} + iset{(x + 1, y)}, image)
    {
      ghost var was := buf[..];
      assert Unit(g, x, y) < buf.Length;
      PairDrawn(g, before, was, area, image, c, x, y);
      hide Drawn, InRange, Covers;
      buf[i] := pair;
      assert buf[..] == was[i := pair];
    }

    /** setpixel of every format. */
    method SetPixel(x: nat, y: nat, col: nat,
        ghost before: seq<nat>, ghost area: iset<(int, int)>, ghost image: (int, int) -> nat)
      requires x < g.width && y < g.height && image(x, y) == Colour(g.format, col)
      requires Drawing(before, area, image)
      modifies buf
      ensures Drawing(before, area + iset{(x, y)}, image)
    {
      hide Drawing, Unit, PerUnit;
      UnitForms(g, x, y);
      match g.format {
        case Mvlsb =>
          PutBit(y / 8 * g.stride + x, y % 8, if col != 0 then 1 else 0, x, y, before, area, image);
        case Mhlsb =>
          PutBit((x + y * g.stride) / 8, 7 - x % 8, if col != 0 then 1 else 0, x, y, before, area, image);
        case Mhmsb =>
          PutBit((x + y * g.stride) / 8, x % 8, if col != 0 then 1 else 0, x, y, before, area, image);
        case Gs2Hmsb =>
          PutQuad((x + y * g.stride) / 4, x % 4, col % 4, x, y, before, area, image);
        case Gs4Hmsb =>
          PutNibble((x + y * g.stride) / 2, x % 2 == 0, col % 16, x, y, before, area, image);
        case Gs8 =>
          PutUnit(x + y * g.stride, col % 256, x, y, before, area, image);
        case Rgb565 =>
          PutUnit(x + y * g.stride, col % 65536, x, y, before, area, image);
      }
    }

    /** getpixel of every format. */
    method GetPixel(x: nat, y: nat) returns (v: nat)
      requires Valid() && x < g.width && y < g.height
      ensures v == Pix(g, buf[..], x, y)
    {
      hide Valid, Field, Pow2, Pix, Unit, PerUnit;
      UnitForms(g, x, y);
      UnitHere(x, y);
      PixHere(x, y);
      var u;
      match g.format {
        case Mvlsb =>
          u := buf[y / 8 * g.stride + x];
          v := u / Pow2(y % 8) % 2;
        case Mhlsb =>
          u := buf[(x + y * g.stride) / 8];
          v := u / Pow2(7 - x % 8) % 2;
        case Mhmsb =>
          u := buf[(x + y * g.stride) / 8];
          v := u / Pow2(x % 8) % 2;
        case Gs2Hmsb =>
          u := buf[(x + y * g.stride) / 4];
          v := u / Pow2(2 * (x % 4)) % 4;
        case Gs4Hmsb =>
          u := buf[(x + y * g.stride) / 2];
          v := if x % 2 != 0 then u % 16 else u / 16;
        case Gs8 =>
          u := buf[x + y * g.stride];
          v := u;
        case Rgb565 =>
          u := buf[x + y * g.stride];
          v := u;
      }
      FieldForms(g.format, u, FieldNo(g, x, y));
    }

    lemma PixHere(x: nat, y: nat)
      requires Unit(g, x, y) < buf.Length
      ensures Pix(g, buf[..], x, y) == Field(buf[Unit(g, x, y)], Base(g.format), FieldNo(g, x, y))
    {
    }

    /** The inner loop of mono_horiz_fill_rect: one column, `advance` bytes a row. */
    method MonoHorizColumn(x: nat, y: nat, h: nat, col: nat, ghost x0: nat, ghost before: seq<nat>)
      requires g.format.Mhlsb? || g.format.Mhmsb?
      requires WellFormed(g) && x0 <= x < g.width && y + h <= g.height
      requires Drawing(before, Columns(x0, y, h, x, 0), Solid(Colour(g.format, col)))
      modifies buf
      ensures Drawing(before, Columns(x0, y, h, x + 1, 0), Solid(Colour(g.format, col)))
    {
      hide Drawing, Unit, FieldNo, Columns;
      ghost var image := Solid(Colour(g.format, col));
      var advance := g.stride / 8;
      var b := x / 8 + y * advance;
      var offset := if g.format.Mhmsb? then x % 8 else 7 - x % 8;
      var hh := h;
      while hh > 0
        invariant 0 <= hh <= h
        invariant b == x / 8 + (y + h - hh) * advance
        invariant Drawing(before, Columns(x0, y, h, x, h - hh), image)
      {
        MonoHorizAt(g, x, y + h - hh);
        PutBit(b, offset, if col != 0 then 1 else 0, x, y + h - hh, before, Columns(x0, y, h, x, h - hh), image);
        ColumnsStep(x0, y, h, x, h - hh);
        b := b + advance;
        hh := hh - 1;
      }
      ColumnsDone(x0, y, h, x);
    }

    /** mono_horiz_fill_rect. */
    method MonoHorizFill(x: nat, y: nat, w: nat, h: nat, col: nat)
      requires Valid() && (g.format.Mhlsb? || g.format.Mhmsb?)
      requires x + w <= g.width && y + h <= g.height
      modifies buf
      ensures Drawing(old(buf[..]), Rect(x, y, w, h), Solid(Colour(g.format, col)))
    {
      ghost var before, image := buf[..], Solid(Colour(g.format, col));
      ColumnsEnds(x, y, w, h);
      DrawnNone(g, before, image);
      assert Drawing(before, Columns(x, y, h, x, 0), image);
      hide Drawing, Columns, Rect;
      var xx, ww := x, w;
      while ww > 0
        invariant xx == x + w - ww
        invariant Drawing(before, Columns(x, y, h, xx, 0), image)
      {
        ww := ww - 1;
        MonoHorizColumn(xx, y, h, col, x, before);
        xx := xx + 1;
      }
    }

    /** The inner loop of mvlsb_fill_rect: one row. */
    method MvlsbRow(x: nat, r: nat, w: nat, col: nat, ghost y: nat, ghost before: seq<nat>)
      requires g.format.Mvlsb? && x + w <= g.width && y <= r < g.height
      requires Drawing(before, Rows(x, y, w, r, 0), Solid(Colour(g.format, col)))
      modifies buf
      ensures Drawing(before, Rows(x, y, w, r + 1, 0), Solid(Colour(g.format, col)))
    {
      hide Drawing, Rows;
      var b := r / 8 * g.stride + x;
      var offset := r % 8;
      var ww := w;
      while ww > 0
        invariant 0 <= ww <= w
        invariant b == Unit(g, x + w - ww, r)
        invariant Drawing(before, Rows(x, y, w, r, w - ww), Solid(Colour(g.format, col)))
      {
        PutBit(b, offset, if col != 0 then 1 else 0, x + w - ww, r, before, Rows(x, y, w, r, w - ww),
          Solid(Colour(g.format, col)));
        RowsStep(x, y, w, r, w - ww);
        b := b + 1;
        ww := ww - 1;
      }
      RowsDone(x, y, w, r);
    }

    /** mvlsb_fill_rect. */
    method MvlsbFill(x: nat, y: nat, w: nat, h: nat, col: nat)
      requires Valid() && g.format.Mvlsb?
      requires x + w <= g.width && y + h <= g.height
      modifies buf
      ensures Drawing(old(buf[..]), Rect(x, y, w, h), Solid(Colour(g.format, col)))
    {
      hide Drawing, Rows, Rect, Valid;
      ghost var before := buf[..];
      StartRows(x, y, w, h, Solid(Colour(g.format, col)));
      var yy, hh := y, h;
      while hh > 0
        invariant yy == y + h - hh
        invariant Drawing(before, Rows(x, y, w, yy, 0), Solid(Colour(g.format, col)))
      {
        hh := hh - 1;
        MvlsbRow(x, yy, w, col, y, before);
        yy := yy + 1;
      }
    }

    lemma StartRows(x: nat, y: nat, w: nat, h: nat, image: (int, int) -> nat)
      requires Valid()
      ensures Drawing(buf[..], Rows(x, y, w, y, 0), image)
      ensures Rows(x, y, w, y + h, 0) == Rect(x, y, w, h)
    {
    }

    /** `w` equal units in a row: memset for GS8, the `*b++` loop for RGB565. */
    method UnitRow(b0: nat, v: nat, ghost x: nat, w: nat, ghost r: nat, ghost y: nat, ghost before: seq<nat>)
        returns (b: nat)
      requires (g.format.Gs8? || g.format.Rgb565?) && v < Base(g.format)
      requires x + w <= g.width && y <= r < g.height && b0 == x + r * g.stride
      requires Drawing(before, Rows(x, y, w, r, 0), Solid(v))
      modifies buf
      ensures Drawing(before, Rows(x, y, w, r + 1, 0), Solid(v))
      ensures b == b0 + w
    {
      hide Drawing, Rows;
      b := b0;
      var ww := w;
      while ww > 0
        invariant 0 <= ww <= w
        invariant b == b0 + w - ww
        invariant Drawing(before, Rows(x, y, w, r, w - ww), Solid(v))
      {
        PutUnit(b, v, x + w - ww, r, before, Rows(x, y, w, r, w - ww), Solid(v));
        RowsStep(x, y, w, r, w - ww);
        b := b + 1;
        ww := ww - 1;
      }
      RowsDone(x, y, w, r);
    }

    /** rgb565_fill_rect. */
    method Rgb565Fill(x: nat, y: nat, w: nat, h: nat, col: nat)
      requires Valid() && g.format.Rgb565?
      requires x + w <= g.width && y + h <= g.height
      modifies buf
      ensures Drawing(old(buf[..]), Rect(x, y, w, h), Solid(Colour(g.format, col)))
    {
      ghost var before := buf[..];
      StartRows(x, y, w, h, Solid(Colour(g.format, col)));
      assert w <= g.stride;
      hide Drawing, Rows, Rect;
      var b, hh := x + y * g.stride, h;
      ghost var r := y;
      while hh > 0
        invariant 0 <= hh <= h && r == y + h - hh && b == x + r * g.stride
        invariant Drawing(before, Rows(x, y, w, r, 0), Solid(Colour(g.format, col)))
      {
        b := UnitRow(b, col % 65536, x, w, r, y, before);
        b := b + (g.stride - w);
        hh := hh - 1;
        NextRow(r, g.stride);
        r := r + 1;
      }
    }

    /** gs8_fill_rect. */
    method Gs8Fill(x: nat, y: nat, w: nat, h: nat, col: nat)
      requires Valid() && g.format.Gs8?
      requires x + w <= g.width && y + h <= g.height
      modifies buf
      ensures Drawing(old(buf[..]), Rect(x, y, w, h), Solid(Colour(g.format, col)))
    {
      hide Drawing, Rows, Rect, Valid;
      ghost var before := buf[..];
      StartRows(x, y, w, h, Solid(Colour(g.format, col)));
      var pixel, hh := x + y * g.stride, h;
      ghost var r := y;
      while hh > 0
        invariant 0 <= hh <= h && r == y + h - hh && pixel == x + r * g.stride
        invariant Drawing(before, Rows(x, y, w, r, 0), Solid(Colour(g.format, col)))
      {
        var _ := UnitRow(pixel, col % 256, x, w, r, y, before);
        pixel := pixel + g.stride;
        hh := hh - 1;
        NextRow(r, g.stride);
        r := r + 1;
      }
    }

    /** gs2_hmsb_fill_rect. */
    method Gs2Fill(x: nat, y: nat, w: nat, h: nat, col: nat)
      requires Valid() && g.format.Gs2Hmsb?
      requires x + w <= g.width && y + h <= g.height
      modifies buf
      ensures Drawing(old(buf[..]), Rect(x, y, w, h), Solid(Colour(g.format, col)))
    {
      ghost var before, image := buf[..], Solid(Colour(g.format, col));
      ColumnsEnds(x, y, w, h);
      DrawnNone(g, before, image);
      assert Drawing(before, Columns(x, y, h, x, 0), image);
      hide Drawing, Columns, Rect;
      var xx := x;
      while xx < x + w
        invariant x <= xx <= x + w
        invariant Drawing(before, Columns(x, y, h, xx, 0), image)
      {
        var yy := y;
        while yy < y + h
          invariant y <= yy <= y + h
          invariant Drawing(before, Columns(x, y, h, xx, yy - y), image)
        {
          SetPixel(xx, yy, col, before, Columns(x, y, h, xx, yy - y), image);
          ColumnsStep(x, y, h, xx, yy - y);
          yy := yy + 1;
        }
        ColumnsDone(x, y, h, xx);
        xx := xx + 1;
      }
    }

    /** The memset of gs4_hmsb_fill_rect: `n` whole pixel pairs from `xx` on. */
    method Gs4Pairs(p0: nat, n: nat, pair: nat, ghost xx: nat, ghost x: nat, ghost w: nat,
        ghost c: nat, ghost r: nat, ghost y: nat, ghost before: seq<nat>)
      requires g.format.Gs4Hmsb? && WellFormed(g) && c < 16 && pair == c * 16 + c
      requires x <= xx && xx + 2 * n <= x + w <= g.width && y <= r < g.height && (n > 0 ==> xx % 2 == 0)
      requires p0 == PairIndex(g, xx, r)
      requires Drawing(before, Rows(x, y, w, r, xx - x), Solid(c))
      modifies buf
      ensures Drawing(before, Rows(x, y, w, r, xx + 2 * n - x), Solid(c))
    {
      hide Drawing, Rows, Unit, PairIndex;
      var i := 0;
      while i < n
        invariant 0 <= i <= n
        invariant Drawing(before, Rows(x, y, w, r, xx + 2 * i - x), Solid(c))
      {
        PairAt(g, xx + 2 * i, r);
        PairRight(g, xx, i, r);
        PutPair(p0 + i, pair, c, xx + 2 * i, r, before, Rows(x, y, w, r, xx + 2 * i - x), Solid(c));
        RowsStep(x, y, w, r, xx + 2 * i - x);
        RowsStep(x, y, w, r, xx + 2 * i + 1 - x);
        i := i + 1;
      }
    }

    /** One row of gs4_hmsb_fill_rect: a low nibble, whole pairs, a high nibble. */
    method Gs4Row(p0: nat, x: nat, w: nat, c: nat, ghost r: nat, ghost y: nat, ghost before: seq<nat>) returns (p: nat)
      requires g.format.Gs4Hmsb? && WellFormed(g) && c < 16
      requires x + w <= g.width && y <= r < g.height
      requires p0 == PairIndex(g, x, r)
      requires Drawing(before, Rows(x, y, w, r, 0), Solid(c))
      modifies buf
      ensures Drawing(before, Rows(x, y, w, r + 1, 0), Solid(c))
      ensures p == p0 + (w + 1) / 2
    {
      hide Drawing, Rows, Unit, PairIndex;
      p := p0;
      var oddX := x % 2 == 1;
      var ww := w;
      RowsDone(x, y, w, r);
      if oddX && ww > 0 {
        PairAt(g, x, r);
        PairRight(g, x, 0, r);
        RowsStep(x, y, w, r, 0);
        PutNibble(p, false, c, x, r, before, Rows(x, y, w, r, 0), Solid(c));
        p := p + 1;
        ww := ww - 1;
      }
      ghost var xx := x + w - ww;
      Gs4Pairs(p, ww / 2, c * 16 + c, xx, x, w, c, r, y, before);
      PairRight(g, xx, ww / 2, r);
      p := p + ww / 2;
      if ww % 2 != 0 {
        Gs4Last(p, c, x, w, r, y, before);
        if !oddX {
          p := p + 1;
        }
      }
    }

    /** The high nibble at the end of a row. */
    method Gs4Last(p: nat, c: nat, ghost x: nat, ghost w: nat, ghost r: nat, ghost y: nat, ghost before: seq<nat>)
      requires g.format.Gs4Hmsb? && WellFormed(g) && c < 16
      requires w > 0 && x + w <= g.width && y <= r < g.height && (x + w) % 2 == 1
      requires p == PairIndex(g, x + w - 1, r)
      requires Drawing(before, Rows(x, y, w, r, w - 1), Solid(c))
      modifies buf
      ensures Drawing(before, Rows(x, y, w, r, w), Solid(c))
    {
      hide Drawing, Rows, Unit, PairIndex;
      PairAt(g, x + w - 1, r);
      RowsStep(x, y, w, r, w - 1);
      PutNibble(p, true, c, x + w - 1, r, before, Rows(x, y, w, r, w - 1), Solid(c));
    }

    /** gs4_hmsb_fill_rect: whatever the parities, the pointer moves on by
        half the stride. */
    method Gs4Fill(x: nat, y: nat, w: nat, h: nat, col: nat)
      requires Valid() && g.format.Gs4Hmsb?
      requires x + w <= g.width && y + h <= g.height
      modifies buf
      ensures Drawing(old(buf[..]), Rect(x, y, w, h), Solid(Colour(g.format, col)))
    {
      ghost var before := buf[..];
      StartRows(x, y, w, h, Solid(Colour(g.format, col)));
      assert WellFormed(g);
      PairAt(g, x, y);
      HalfStride(g, w);
      hide Drawing, Rows, Rect, WellFormed, PairIndex;
      var c := col % 16;
      var p := (x + y * g.stride) / 2;
      var tillNextLine := (g.stride - w) / 2;
      var hh := h;
      ghost var r := y;
      while hh > 0
        invariant 0 <= hh <= h && r == y + h - hh && p == PairIndex(g, x, r)
        invariant Drawing(before, Rows(x, y, w, r, 0), Solid(c))
      {
        p := Gs4Row(p, x, w, c, r, y, before);
        p := p + tillNextLine;
        hh := hh - 1;
        PairDown(g, x, r);
        r := r + 1;
      }
    }

    /** The formats' fill_rect entries. */
    method FormatFill(x: nat, y: nat, w: nat, h: nat, col: nat)
      requires Valid() && x + w <= g.width && y + h <= g.height
      modifies buf
      ensures Drawing(old(buf[..]), Rect(x, y, w, h), Solid(Colour(g.format, col)))
    {
      hide Drawing, Colour, Valid;
      match g.format {
        case Mvlsb => MvlsbFill(x, y, w, h, col);
        case Mhlsb => MonoHorizFill(x, y, w, h, col);
        case Mhmsb => MonoHorizFill(x, y, w, h, col);
        case Gs2Hmsb => Gs2Fill(x, y, w, h, col);
        case Gs4Hmsb => Gs4Fill(x, y, w, h, col);
        case Gs8 => Gs8Fill(x, y, w, h, col);
        case Rgb565 => Rgb565Fill(x, y, w, h, col);
      }
    }

    /** fill_rect: clip to the frame buffer, then fill. */
    method FillRect(x: int, y: int, w: int, h: int, col: nat)
      requires Valid()
      modifies buf
      ensures Drawing(old(buf[..]), Rect(x, y, w, h) * Rect(0, 0, g.width, g.height), Solid(Colour(g.format, col)))
    {
      if h < 1 || w < 1 || x + w <= 0 || y + h <= 0 || y >= g.height || x >= g.width {
        assert Rect(x, y, w, h) * Rect(0, 0, g.width, g.height) == iset{};
        DrawnNone(g, buf[..], Solid(Colour(g.format, col)));
        return;
      }
      var xend := Min(g.width, x + w);
      var yend := Min(g.height, y + h);
      var x', y' := Max(x, 0), Max(y, 0);
      assert Rect(x, y, w, h) * Rect(0, 0, g.width, g.height) == Rect(x', y', xend - x', yend - y');
      hide Drawing, Rect;
      FormatFill(x', y', xend - x', yend - y', col);
    }
  }

  function Min(a: int, b: int): int { if a < b then a else b }

  function Max(a: int, b: int): int { if a > b then a else b }

  // ----- A fill is setpixel on every pixel, in any order

  function SetAll(g: Geometry, buf: seq<nat>, ps: seq<(nat, nat)>, v: nat): (r: seq<nat>)
    requires forall i :: 0 <= i < |ps| ==> InBuffer(g, |buf|, ps[i].0, ps[i].1)
    ensures |r| == |buf|
  {
    if ps == [] then buf
    else
      var last := |ps| - 1;
      assert InBuffer(g, |buf|, ps[last].0, ps[last].1);
      SetPix(g, SetAll(g, buf, ps[..last], v), ps[last].0, ps[last].1, v)
  }

  ghost function Listed(ps: seq<(nat, nat)>): iset<(int, int)> {
    iset p: (int, int) | 0 <= p.0 && 0 <= p.1 && (p.0 as nat, p.1 as nat) in ps
  }

  lemma {:induction false} SetAllDraws(g: Geometry, buf: seq<nat>, ps: seq<(nat, nat)>, v: nat)
    requires WellFormed(g) && InRange(g, buf) && v < Base(g.format)
    requires forall i :: 0 <= i < |ps| ==> InBuffer(g, |buf|, ps[i].0, ps[i].1)
    ensures InRange(g, SetAll(g, buf, ps, v)) && Drawn(g, buf, SetAll(g, buf, ps, v), Listed(ps), Solid(v))
    decreases |ps|
  {
    if ps == [] {
      assert Listed(ps) == iset{};
      DrawnNone(g, buf, Solid(v));
    } else {
      hide Drawn, InRange;
      var last := |ps| - 1;
      var (x, y) := ps[last];
      SetAllDraws(g, buf, ps[..last], v);
      var mid := SetAll(g, buf, ps[..last], v);
      SetPixDrawn(g, buf, mid, x, y, Listed(ps[..last]), Solid(v));
      SetPixInRange(g, mid, x, y, v);
      assert ps == ps[..last] + [ps[last]];
      assert Listed(ps) == Listed(ps[..last]) + iset{(x, y)};
    }
  }

  /** A fill of `area` leaves the very buffer that setpixel on each of its
      pixels leaves. */
  lemma FillIsSetPixels(g: Geometry, before: seq<nat>, after: seq<nat>, area: iset<(int, int)>,
      ps: seq<(nat, nat)>, v: nat)
    requires WellFormed(g) && g.stride > 0 && InRange(g, before) && InRange(g, after) && v < Base(g.format)
    requires Drawn(g, before, after, area, Solid(v)) && Listed(ps) == area
    requires forall i :: 0 <= i < |ps| ==> InBuffer(g, |before|, ps[i].0, ps[i].1)
    ensures after == SetAll(g, before, ps, v)
  {
    SetAllDraws(g, before, ps, v);
    DrawnUnique(g, before, after, SetAll(g, before, ps, v), area, Solid(v));
  }

  lemma NextRow(r: nat, s: nat)
    ensures (r + 1) * s == r * s + s
  {
  }

  /** The byte of a GS4 pixel pair: half a stride a row, two pixels a byte. */
  function PairIndex(g: Geometry, x: nat, y: nat): nat { x / 2 + y * (g.stride / 2) }

  lemma PairDown(g: Geometry, x: nat, y: nat)
    ensures PairIndex(g, x, y + 1) == PairIndex(g, x, y) + g.stride / 2
  {
    NextRow(y, g.stride / 2);
  }

  lemma PairRight(g: Geometry, x: nat, n: nat, y: nat)
    ensures PairIndex(g, x + 2 * n, y) == PairIndex(g, x, y) + n
    ensures x % 2 == 1 ==> PairIndex(g, x + 1, y) == PairIndex(g, x, y) + 1
  {
  }

  lemma PairAt(g: Geometry, x: nat, y: nat)
    requires WellFormed(g) && g.format.Gs4Hmsb?
    ensures Unit(g, x, y) == PairIndex(g, x, y)
  {
  }

  lemma HalfStride(g: Geometry, w: nat)
    requires WellFormed(g) && g.format.Gs4Hmsb? && w <= g.width
    ensures (w + 1) / 2 + (g.stride - w) / 2 == g.stride / 2
  {
  }

  lemma PairUnit(g: Geometry, x: nat, y: nat)
    requires WellFormed(g) && g.format.Gs4Hmsb? && x % 2 == 0
    ensures Unit(g, x + 1, y) == Unit(g, x, y)
  {
    PairAt(g, x, y);
    PairAt(g, x + 1, y);
  }

  lemma PairDrawn(g: Geometry, before: seq<nat>, was: seq<nat>, area: iset<(int, int)>, image: (int, int) -> nat,
      c: nat, x: nat, y: nat)
    requires WellFormed(g) && g.format.Gs4Hmsb? && InRange(g, was) && Drawn(g, before, was, area, image)
    requires x + 1 < g.stride && Unit(g, x, y) < |was| && x % 2 == 0 && c == image(x, y) == image(x + 1, y) < 16
    ensures var next := was[Unit(g, x, y) := c * 16 + c];
      InRange(g, next) && Drawn(g, before, next, area + iset{(x, y)} + iset{(x + 1, y)}, image)
  {
    hide Drawn, InRange, SetPix;
    var mid := SetPix(g, was, x, y, c);
    PairIsTwo(g, was, x, y, c);
    hide Unit;
    SetPixInRange(g, was, x, y, c);
    SetPixInRange(g, mid, x + 1, y, c);
    SetPixDrawn(g, before, was, x, y, area, image);
    SetPixDrawn(g, before, mid, x + 1, y, area + iset{(x, y)}, image);
  }

  /** One store for both nibbles is two pixels set. */
  lemma PairIsTwo(g: Geometry, was: seq<nat>, x: nat, y: nat, c: nat)
    requires WellFormed(g) && g.format.Gs4Hmsb? && InRange(g, was) && Unit(g, x, y) < |was| && x % 2 == 0 && c < 16
    ensures Unit(g, x + 1, y) == Unit(g, x, y)
    ensures was[Unit(g, x, y) := c * 16 + c] == SetPix(g, SetPix(g, was, x, y, c), x + 1, y, c)
  {
    hide *;
    var i := Unit(g, x, y);
    var u := was[i];
    Gs4Byte(g, was, i);
    PairUnit(g, x, y);
    NibbleNos(g, x, y);
    var v := c * 16 + u % 16;
    Nibbles(u, c);
    Nibbles(v, c);
    SixteensApart(c, u % 16);
    SetAt(g, was, x, y, c);
    SetAt(g, was[i := v], x + 1, y, c);
    TwiceAt(was, i, v, c * 16 + c);
  }

  lemma TwiceAt(s: seq<nat>, i: nat, v: nat, w: nat)
    requires i < |s|
    ensures s[i := v][i] == v && s[i := v][i := w] == s[i := w]
  {
  }

  lemma NibbleNos(g: Geometry, x: nat, y: nat)
    requires g.format.Gs4Hmsb? && x % 2 == 0
    ensures Base(g.format) == 16 && FieldNo(g, x, y) == 1 && FieldNo(g, x + 1, y) == 0
  {
  }

  lemma SetAt(g: Geometry, buf: seq<nat>, x: nat, y: nat, v: nat)
    requires Unit(g, x, y) < |buf|
    ensures var i := Unit(g, x, y);
      SetPix(g, buf, x, y, v) == buf[i := PutField(buf[i], Base(g.format), FieldNo(g, x, y), v)]
  {
  }

  lemma Gs4Byte(g: Geometry, buf: seq<nat>, i: nat)
    requires g.format.Gs4Hmsb? && InRange(g, buf) && i < |buf|
    ensures buf[i] < 256
  {
    UnitSize(g.format);
  }

  lemma SixteensApart(c: nat, r: nat)
    requires r < 16
    ensures (c * 16 + r) / 16 == c
  {
  }

  lemma Nibbles(u: nat, c: nat)
    requires u < 256 && c < 16
    ensures PutField(u, 16, 0, c) == u / 16 * 16 + c < 256
    ensures PutField(u, 16, 1, c) == c * 16 + u % 16 < 256
  {
    var q := u / 16;
    assert q < 16 && q / 16 == 0;
    assert PutField(q, 16, 0, c) == q / 16 * 16 + c;
  }

  lemma NibbleFields(u: nat)
    requires u < 256
    ensures Field(u, 16, 0) == u % 16 && Field(u, 16, 1) == u / 16
  {
  }

  /** How each format reads a field. */
  lemma FieldForms(f: Format, u: nat, k: nat)
    requires k < PerUnit(f) && u < if f.Rgb565? then 65536 else 256
    ensures Base(f) == 2 ==> u / Pow2(k) % 2 == Field(u, 2, k)
    ensures Base(f) == 4 ==> u / Pow2(2 * k) % 4 == Field(u, 4, k)
    ensures Base(f) == 16 ==> Field(u, 16, k) == if k == 0 then u % 16 else u / 16
    ensures Base(f) >= 256 ==> Field(u, Base(f), k) == u
  {
    BitGet(u, k);
    QuadGet(u, k);
    if Base(f) == 16 {
      NibbleFields(u);
    }
    if Base(f) >= 256 {
      WholePut(u, Base(f), 0);
    }
  }

  lemma MonoHorizAt(g: Geometry, x: nat, y: nat)
    requires WellFormed(g) && (g.format.Mhlsb? || g.format.Mhmsb?)
    ensures Unit(g, x, y) == x / 8 + y * (g.stride / 8)
    ensures FieldNo(g, x, y) == if g.format.Mhmsb? then x % 8 else 7 - x % 8
  {
  }

  lemma UnitSize(f: Format)
    ensures Pow(Base(f), PerUnit(f)) == if f.Rgb565? then 65536 else 256
  {
    assert Pow(2, 4) == 16;
    assert Pow(2, 8) == 2 * (2 * (2 * (2 * Pow(2, 4))));
    assert Pow(4, 2) == 16;
    assert Pow(4, 4) == 4 * (4 * Pow(4, 2));
    assert Pow(16, 2) == 256 && Pow(256, 1) == 256 && Pow(65536, 1) == 65536;
  }
}
