/** The blit of extmod/modframebuf.c, also of a buffer onto itself. */
module FrameBlit {
  import opened Arith
  import opened PixelFormats
  import opened FrameBuf
  import opened FrameDraw

  /** A source of geometry `sg` placed at (x, y) on a screen of geometry `g`. */
  datatype Placing = Placing(g: Geometry, sg: Geometry, x: int, y: int, key: nat) {
    /** The clipped rectangle. */
    function X0(): int { Max(0, x) }

    function Y0(): int { Max(0, y) }

    function XEnd(): int { Max(X0(), Min(g.width, x + sg.width)) }

    function YEnd(): int { Max(Y0(), Min(g.height, y + sg.height)) }

    /** A pixel that is on the screen, with its source on the source's. */
    predicate Hit(px: int, py: int) { Visible(g, (px, py)) && Visible(sg, (px - x, py - y)) }
  }

  /** `(uint32_t)key`. */
  function KeyWord(key: int): nat { key % 0x1_0000_0000 }

  // ----- The loops as functions of the buffer

  /** One pixel: `src` is the source's contents at that moment. */
  function BlitPixel(b: Placing, src: seq<nat>, buf: seq<nat>, px: int, py: int): (r: seq<nat>)
    ensures |r| == |buf|
  {
    if !b.Hit(px, py) || Unit(b.g, px, py) >= |buf| then buf
    else
      var col := Pix(b.sg, src, px - b.x, py - b.y);
      if col == b.key then buf else SetPix(b.g, buf, px, py, Colour(b.g.format, col))
  }

  /** Row `r` up to column `c`; a shared source changes along the way. */
  function RowTo(b: Placing, shared: bool, src: seq<nat>, buf: seq<nat>, r: int, c: int): (t: seq<nat>)
    ensures |t| == |buf|
    decreases c - b.X0()
  {
    if c <= b.X0() then buf
    else
      var t := RowTo(b, shared, src, buf, r, c - 1);
      BlitPixel(b, if shared then t else src, t, c - 1, r)
  }

  /** All rows before `r`. */
  function RowsTo(b: Placing, shared: bool, src: seq<nat>, buf: seq<nat>, r: int): (t: seq<nat>)
    ensures |t| == |buf|
    decreases r - b.Y0()
  {
    if r <= b.Y0() then buf
    else RowTo(b, shared, src, RowsTo(b, shared, src, buf, r - 1), r - 1, b.XEnd())
  }

  function Blitted(b: Placing, shared: bool, src: seq<nat>, buf: seq<nat>): seq<nat> {
    RowsTo(b, shared, src, buf, b.YEnd())
  }

  // ----- The pictures

  ghost function Overlap(b: Placing): iset<(int, int)> { iset p: (int, int) | b.Hit(p.0, p.1) }

  /** The new colour of a pixel whose source has colour `col`; the key colour is
      transparent. */
  function Over(b: Placing, before: seq<nat>, col: nat, px: int, py: int): nat {
    if col == b.key then Pix(b.g, before, px, py) else Colour(b.g.format, col)
  }

  /** Copying from a snapshot. */
  ghost function Snapshot(b: Placing, src: seq<nat>, before: seq<nat>): (int, int) -> nat {
    (px, py) => Over(b, before, Pix(b.sg, src, px - b.x, py - b.y), px, py)
  }

  /** The scan comes to a pixel after its source: down, or to the right in a row. */
  predicate Forward(x: int, y: int) { y > 0 || (y == 0 && x > 0) }

  /** Copying a picture onto itself in scan order: going forward, the source has
      been copied over already. */
  ghost function Chase(b: Placing, before: seq<nat>, px: int, py: int): (v: nat)
    requires Forward(b.x, b.y)
    ensures v < Base(b.g.format)
    decreases if b.y > 0 then py else px
  {
    if !b.Hit(px, py) then Pix(b.g, before, px, py)
    else
      var col := Chase(b, before, px - b.x, py - b.y);
      if col == b.key then Pix(b.g, before, px, py) else col
  }

  ghost function Smeared(b: Placing, before: seq<nat>): (int, int) -> nat {
    if Forward(b.x, b.y) then (px, py) => Chase(b, before, px, py) else Snapshot(b, before, before)
  }

  // ----- The scan

  ghost function Covered(b: Placing, c: int, r: int): iset<(int, int)> {
    iset p: (int, int) | b.Hit(p.0, p.1) && (p.1 < r || (p.1 == r && p.0 < c))
  }

  lemma CoveredStep(b: Placing, c: int, r: int)
    ensures Covered(b, c + 1, r) == if b.Hit(c, r) then Covered(b, c, r) + iset{(c, r)} else Covered(b, c, r)
  {
  }

  lemma CoveredRow(b: Placing, r: int)
    ensures Covered(b, b.XEnd(), r) == Covered(b, b.X0(), r + 1)
  {
  }

  lemma CoveredEnds(b: Placing)
    ensures Covered(b, b.X0(), b.Y0()) == iset{}
    ensures Covered(b, b.X0(), b.YEnd()) == Overlap(b)
  {
  }

  /** What a scan step needs: geometry, room and units in range. */
  ghost predicate Fits(g: Geometry, n: nat) { WellFormed(g) && Covers(g, n) }

  lemma KeepDrawn(g: Geometry, before: seq<nat>, buf: seq<nat>, x: int, y: int,
      area: iset<(int, int)>, image: (int, int) -> nat)
    requires Drawn(g, before, buf, area, image) && (x, y) !in area && image(x, y) == Pix(g, before, x, y)
    ensures Drawn(g, before, buf, area + iset{(x, y)}, image)
  {
    hide Pix;
  }

  /** One pixel of the scan, given the colour read from the source. */
  lemma PixelDrawn(b: Placing, src: seq<nat>, before: seq<nat>, buf: seq<nat>, c: int, r: int, image: (int, int) -> nat)
    requires Fits(b.g, |before|) && InRange(b.g, buf) && Drawn(b.g, before, buf, Covered(b, c, r), image)
    requires b.Hit(c, r) ==> image(c, r) == Over(b, before, Pix(b.sg, src, c - b.x, r - b.y), c, r)
    ensures var next := BlitPixel(b, src, buf, c, r);
      InRange(b.g, next) && Drawn(b.g, before, next, Covered(b, c + 1, r), image)
  {
    CoveredStep(b, c, r);
    if b.Hit(c, r) {
      assert Unit(b.g, c, r) < |before|;
      assert InBuffer(b.g, |buf|, c, r);
      var col := Pix(b.sg, src, c - b.x, r - b.y);
      assert (c, r) !in Covered(b, c, r);
      hide Covered, Drawn, Pix, InRange, SetPix, Colour;
      if col == b.key {
        KeepDrawn(b.g, before, buf, c, r, Covered(b, c, r), image);
      } else {
        SetPixDrawn(b.g, before, buf, c, r, Covered(b, c, r), image);
        SetPixInRange(b.g, buf, c, r, Colour(b.g.format, col));
      }
    }
  }

  /** The pictures the two kinds of blit leave. */
  ghost function Picture(b: Placing, shared: bool, src: seq<nat>, before: seq<nat>): (int, int) -> nat {
    if shared then Smeared(b, before) else Snapshot(b, src, before)
  }

  /** The colour read is the one the picture asks for: a fixed source's, or on
      the buffer itself the one left there by the scan so far. */
  lemma ColourRead(b: Placing, shared: bool, src: seq<nat>, before: seq<nat>, buf: seq<nat>, c: int, r: int)
    requires shared ==> b.sg == b.g && Fits(b.g, |before|)
    requires b.Hit(c, r) && Drawn(b.g, before, buf, Covered(b, c, r), Picture(b, shared, src, before))
    ensures Picture(b, shared, src, before)(c, r) ==
      Over(b, before, Pix(b.sg, if shared then buf else src, c - b.x, r - b.y), c, r)
  {
    hide Pix, Colour;
    if shared {
      var sx, sy := c - b.x, r - b.y;
      assert Unit(b.g, sx, sy) < |before|;
      assert InBuffer(b.g, |before|, sx, sy);
      ColourKeeps(b.g.format, Pix(b.g, buf, sx, sy));
      if Forward(b.x, b.y) {
        assert (sx, sy) in Covered(b, c, r) <==> b.Hit(sx, sy);
        assert Pix(b.g, buf, sx, sy) == Chase(b, before, sx, sy);
      } else {
        assert (sx, sy) !in Covered(b, c, r);
      }
    }
  }

  lemma {:induction false} RowDrawn(b: Placing, shared: bool, src: seq<nat>, before: seq<nat>, buf: seq<nat>,
      r: int, c: int)
    requires Fits(b.g, |before|) && InRange(b.g, buf) && (shared ==> b.sg == b.g) && c >= b.X0()
    requires Drawn(b.g, before, buf, Covered(b, b.X0(), r), Picture(b, shared, src, before))
    ensures var t := RowTo(b, shared, src, buf, r, c);
      InRange(b.g, t) && Drawn(b.g, before, t, Covered(b, c, r), Picture(b, shared, src, before))
    decreases c - b.X0()
  {
    hide Covered, Drawn, Picture, InRange, BlitPixel, Fits;
    if c > b.X0() {
      var t := RowTo(b, shared, src, buf, r, c - 1);
      RowDrawn(b, shared, src, before, buf, r, c - 1);
      if b.Hit(c - 1, r) {
        ColourRead(b, shared, src, before, t, c - 1, r);
      }
      PixelDrawn(b, if shared then t else src, before, t, c - 1, r, Picture(b, shared, src, before));
    }
  }

  lemma {:induction false} RowsDrawn(b: Placing, shared: bool, src: seq<nat>, before: seq<nat>, r: int)
    requires Fits(b.g, |before|) && InRange(b.g, before) && (shared ==> b.sg == b.g) && r >= b.Y0()
    ensures var t := RowsTo(b, shared, src, before, r);
      InRange(b.g, t) && Drawn(b.g, before, t, Covered(b, b.X0(), r), Picture(b, shared, src, before))
    decreases r - b.Y0()
  {
    hide Covered, Drawn, Picture, InRange, RowTo, Fits;
    if r > b.Y0() {
      RowsDrawn(b, shared, src, before, r - 1);
      RowDrawn(b, shared, src, before, RowsTo(b, shared, src, before, r - 1), r - 1, b.XEnd());
      CoveredRow(b, r - 1);
    } else {
      CoveredEnds(b);
      DrawnNone(b.g, before, Picture(b, shared, src, before));
    }
  }

  /** A blit from another buffer, and one of a buffer onto itself, redraw exactly
      the overlap: from a snapshot, or in scan order. */
  lemma BlitDraws(b: Placing, shared: bool, src: seq<nat>, before: seq<nat>)
    requires Fits(b.g, |before|) && InRange(b.g, before) && (shared ==> b.sg == b.g)
    ensures var t := Blitted(b, shared, src, before);
      InRange(b.g, t) && Drawn(b.g, before, t, Overlap(b), Picture(b, shared, src, before))
  {
    hide Covered, Drawn, Picture, InRange, RowsTo, Fits, Overlap;
    RowsDrawn(b, shared, src, before, b.YEnd());
    CoveredEnds(b);
  }

  // ----- When a blit of a buffer onto itself is a snapshot copy

  ghost predicate SelfIsSnapshot(b: Placing, before: seq<nat>) {
    forall px, py :: b.Hit(px, py) ==> Smeared(b, before)(px, py) == Snapshot(b, before, before)(px, py)
  }

  /** No pixel two places on is on the screen too, or the scan runs against the
      movement. */
  predicate SnapshotSafe(b: Placing) {
    !Forward(b.x, b.y) || 2 * Abs(b.x) >= b.g.width || 2 * Abs(b.y) >= b.g.height
  }

  /** One step of the chase. */
  lemma ChaseOnce(b: Placing, before: seq<nat>, px: int, py: int)
    requires Forward(b.x, b.y) && b.sg == b.g && b.Hit(px, py)
    ensures Chase(b, before, px, py) == Over(b, before, Chase(b, before, px - b.x, py - b.y), px, py)
  {
    ColourKeeps(b.g.format, Chase(b, before, px - b.x, py - b.y));
  }

  lemma ChaseStops(b: Placing, before: seq<nat>, px: int, py: int)
    requires Forward(b.x, b.y) && !b.Hit(px, py)
    ensures Chase(b, before, px, py) == Pix(b.g, before, px, py)
  {
  }

  lemma SafeIsSnapshot(b: Placing, before: seq<nat>)
    requires b.sg == b.g && SnapshotSafe(b)
    ensures SelfIsSnapshot(b, before)
  {
    hide Chase, Over, Pix;
    if Forward(b.x, b.y) {
      forall px, py | b.Hit(px, py) ensures Smeared(b, before)(px, py) == Snapshot(b, before, before)(px, py) {
        assert !b.Hit(px - b.x, py - b.y);
        ChaseOnce(b, before, px, py);
        ChaseStops(b, before, px - b.x, py - b.y);
      }
    }
  }

  /** All of colour `off` but for one pixel. */
  ghost predicate Spot(g: Geometry, buf: seq<nat>, x: int, y: int, on: nat, off: nat) {
    forall px, py :: Visible(g, (px, py)) ==> Pix(g, buf, px, py) == if (px, py) == (x, y) then on else off
  }

  /** A unit with `n` fields of one colour. */
  function Fill(b: nat, n: nat, v: nat): nat {
    if n == 0 then 0 else v + b * Fill(b, n - 1, v)
  }

  lemma {:induction false} FillRange(b: nat, n: nat, v: nat)
    requires v < b
    ensures Fill(b, n, v) < Pow(b, n)
    decreases n
  {
    if n > 0 {
      FillRange(b, n - 1, v);
      MulBound(v, b, Fill(b, n - 1, v), Pow(b, n - 1));
    }
  }

  lemma {:induction false} FillField(b: nat, n: nat, v: nat, k: nat)
    requires v < b && k < n
    ensures Field(Fill(b, n, v), b, k) == v
    decreases n
  {
    DivMod(Fill(b, n - 1, v), b, v);
    if k > 0 {
      FillField(b, n - 1, v, k - 1);
    }
  }

  /** A buffer like that, for any pixel and colours. */
  lemma OneSpot(g: Geometry, n: nat, x: int, y: int, on: nat, off: nat) returns (before: seq<nat>)
    requires Fits(g, n) && Visible(g, (x, y)) && on < Base(g.format) && off < Base(g.format)
    ensures |before| == n && InRange(g, before) && Spot(g, before, x, y, on, off)
  {
    hide Pow, Fill, Field;
    var b, k := Base(g.format), PerUnit(g.format);
    var blank := seq(n, i => Fill(b, k, off));
    FillRange(b, k, off);
    assert InRange(g, blank);
    assert Unit(g, x, y) < n;
    before := SetPix(g, blank, x, y, on);
    SetPixInRange(g, blank, x, y, on);
    forall px, py | Visible(g, (px, py))
      ensures Pix(g, before, px, py) == if (px, py) == (x, y) then on else off
    {
      assert Unit(g, px, py) < n;
      SetPixAt(g, blank, x, y, on, px, py);
      FillField(b, k, off, FieldNo(g, px, py));
    }
  }

  /** A pixel with two more behind it on the screen. */
  lemma FindThird(b: Placing) returns (px: int, py: int)
    requires b.sg == b.g && !SnapshotSafe(b)
    ensures Forward(b.x, b.y) && b.Hit(px, py) && b.Hit(px - b.x, py - b.y)
    ensures Visible(b.g, (px - b.x, py - b.y)) && Visible(b.g, (px - 2 * b.x, py - 2 * b.y))
  {
    px := if b.x > 0 then 2 * b.x else 0;
    py := if b.y > 0 then 2 * b.y else 0;
  }

  lemma NoKey(b: Placing, before: seq<nat>, col: nat, px: int, py: int)
    requires col < Base(b.g.format) && col != b.key
    ensures Over(b, before, col, px, py) == col
  {
    ColourKeeps(b.g.format, col);
  }

  /** A buffer that is smeared, whatever the key. */
  lemma SmearShows(b: Placing, n: nat) returns (before: seq<nat>)
    requires b.sg == b.g && Fits(b.g, n) && !SnapshotSafe(b)
    ensures |before| == n && InRange(b.g, before) && !SelfIsSnapshot(b, before)
  {
    hide *;
    var px, py := FindThird(b);
    if b.key >= Base(b.g.format) {
      before := OneSpot(b.g, n, px - b.x, py - b.y, 1, 0);
      ThirdSmeared(b, before, px, py);
      ThirdCopied(b, before, px, py);
    } else {
      var on := if b.key == 0 then 1 else 0;
      before := OneSpot(b.g, n, px - 2 * b.x, py - 2 * b.y, on, b.key);
      KeySmeared(b, before, px, py, on);
      KeyCopied(b, before, px, py, on);
    }
    Differs(b, before, px, py);
  }

  lemma ThirdCopied(b: Placing, before: seq<nat>, px: int, py: int)
    requires b.sg == b.g && b.key >= Base(b.g.format) && b.Hit(px, py) && Spot(b.g, before, px - b.x, py - b.y, 1, 0)
    ensures Snapshot(b, before, before)(px, py) == 1
  {
    hide Over, Pix;
    SnapshotAt(b, before, before, px, py);
    assert Pix(b.g, before, px - b.x, py - b.y) == 1;
    NoKey(b, before, 1, px, py);
  }

  /** The snapshot's source is of the key colour, so the pixel stays. */
  lemma KeyCopied(b: Placing, before: seq<nat>, px: int, py: int, on: nat)
    requires Forward(b.x, b.y) && b.sg == b.g && b.Hit(px, py)
    requires Spot(b.g, before, px - 2 * b.x, py - 2 * b.y, on, b.key)
    ensures Snapshot(b, before, before)(px, py) == b.key
  {
    hide Pix;
    SnapshotAt(b, before, before, px, py);
    assert Pix(b.g, before, px - b.x, py - b.y) == b.key;
    assert Pix(b.g, before, px, py) == b.key;
  }

  lemma SnapshotAt(b: Placing, src: seq<nat>, before: seq<nat>, px: int, py: int)
    ensures Snapshot(b, src, before)(px, py) == Over(b, before, Pix(b.sg, src, px - b.x, py - b.y), px, py)
  {
  }

  /** The scan carries the other colour on twice. */
  lemma KeySmeared(b: Placing, before: seq<nat>, px: int, py: int, on: nat)
    requires Forward(b.x, b.y) && b.sg == b.g && on < Base(b.g.format) && on != b.key
    requires b.Hit(px, py) && b.Hit(px - b.x, py - b.y) && Visible(b.g, (px - 2 * b.x, py - 2 * b.y))
    requires Spot(b.g, before, px - 2 * b.x, py - 2 * b.y, on, b.key)
    ensures Chase(b, before, px, py) == on
  {
    hide Chase, Pix;
    var sx, sy := px - b.x, py - b.y;
    KeySource(b, before, sx - b.x, sy - b.y, on);
    ChaseOnce(b, before, sx, sy);
    NoKey(b, before, on, sx, sy);
    ChaseOnce(b, before, px, py);
    NoKey(b, before, on, px, py);
  }

  lemma KeySource(b: Placing, before: seq<nat>, sx: int, sy: int, on: nat)
    requires Forward(b.x, b.y) && b.sg == b.g && Visible(b.g, (sx, sy)) && Spot(b.g, before, sx, sy, on, b.key)
    ensures Chase(b, before, sx, sy) == on
  {
    hide Chase, Pix;
    if b.Hit(sx, sy) {
      ChaseOnce(b, before, sx, sy);
      ChaseDark(b, before, sx - b.x, sy - b.y, sx, sy, on, b.key);
    } else {
      ChaseStops(b, before, sx, sy);
    }
  }

  lemma Differs(b: Placing, before: seq<nat>, px: int, py: int)
    requires Forward(b.x, b.y) && b.Hit(px, py)
    requires Chase(b, before, px, py) != Snapshot(b, before, before)(px, py)
    ensures !SelfIsSnapshot(b, before)
  {
    hide Chase, Snapshot;
    assert Smeared(b, before)(px, py) == Chase(b, before, px, py);
  }

  lemma ThirdSmeared(b: Placing, before: seq<nat>, px: int, py: int)
    requires Forward(b.x, b.y) && b.sg == b.g && b.key >= Base(b.g.format)
    requires b.Hit(px, py) && b.Hit(px - b.x, py - b.y) && Visible(b.g, (px - 2 * b.x, py - 2 * b.y))
    requires Spot(b.g, before, px - b.x, py - b.y, 1, 0)
    ensures Chase(b, before, px, py) == 0
  {
    hide Chase, Over, Pix;
    var sx, sy := px - b.x, py - b.y;
    ChaseOnce(b, before, px, py);
    ChaseOnce(b, before, sx, sy);
    ChaseDark(b, before, sx - b.x, sy - b.y, sx, sy, 1, 0);
    NoKey(b, before, 0, px, py);
    NoKey(b, before, 0, sx, sy);
  }

  /** Behind the spot everything copied is of the other colour, transparent or not. */
  lemma {:induction false} ChaseDark(b: Placing, before: seq<nat>, px: int, py: int, sx: int, sy: int,
      on: nat, off: nat)
    requires Forward(b.x, b.y) && b.sg == b.g && Visible(b.g, (px, py))
    requires if b.y > 0 then py < sy else px < sx
    requires Spot(b.g, before, sx, sy, on, off)
    ensures Chase(b, before, px, py) == off
    decreases if b.y > 0 then py else px
  {
    hide Pix;
    assert Pix(b.g, before, px, py) == off;
    if b.Hit(px, py) {
      ChaseDark(b, before, px - b.x, py - b.y, sx, sy, on, off);
    }
  }

  /** A blit of a buffer onto itself, with any key, is a snapshot copy whatever the
      contents exactly in these cases. */
  lemma SelfBlitExact(b: Placing, n: nat)
    requires b.sg == b.g && Fits(b.g, n)
    ensures (forall before: seq<nat> :: |before| == n && InRange(b.g, before) ==> SelfIsSnapshot(b, before)) <==>
      SnapshotSafe(b)
  {
    hide SelfIsSnapshot, SnapshotSafe, InRange, Fits;
    if SnapshotSafe(b) {
      forall before: seq<nat> | |before| == n && InRange(b.g, before) ensures SelfIsSnapshot(b, before) {
        SafeIsSnapshot(b, before);
      }
    } else {
      var before := SmearShows(b, n);
    }
  }

  /** Three grey pixels moved one to the right over themselves: the first is
      smeared over the last. */
  lemma SmearExample()
    ensures var g := Geometry(Gs8, 3, 1, 3);
      var b := Placing(g, g, 1, 0, KeyWord(-1));
      && Blitted(b, true, [], [1, 2, 3]) == [1, 1, 1]
      && Blitted(b, false, [1, 2, 3], [1, 2, 3]) == [1, 1, 2]
  {
    var g := Geometry(Gs8, 3, 1, 3);
    var b := Placing(g, g, 1, 0, KeyWord(-1));
    ExamplePixel(b, [1, 2, 3], [1, 2, 3], 1);
    ExamplePixel(b, [1, 1, 3], [1, 1, 3], 2);
    ExamplePixel(b, [1, 2, 3], [1, 1, 3], 2);
    ExampleRow(b, true, [], [1, 2, 3]);
    ExampleRow(b, false, [1, 2, 3], [1, 2, 3]);
  }

  lemma ExamplePixel(b: Placing, src: seq<nat>, buf: seq<nat>, px: int)
    requires b == Placing(Geometry(Gs8, 3, 1, 3), Geometry(Gs8, 3, 1, 3), 1, 0, KeyWord(-1)) && 1 <= px <= 2
    requires |src| == |buf| == 3 && src[px - 1] < 256 && buf[px] < 256
    ensures BlitPixel(b, src, buf, px, 0) == buf[px := src[px - 1]]
  {
    hide Field, PutField;
    WholePut(src[px - 1], 256, 0);
    WholePut(buf[px], 256, src[px - 1]);
    GreyRow(b.g, px);
    GreyRow(b.g, px - 1);
    hide Unit;
  }

  lemma GreyRow(g: Geometry, x: nat)
    requires g.format.Gs8?
    ensures Unit(g, x, 0) == x && FieldNo(g, x, 0) == 0
  {
  }

  lemma ExampleRow(b: Placing, shared: bool, src: seq<nat>, buf: seq<nat>)
    requires b == Placing(Geometry(Gs8, 3, 1, 3), Geometry(Gs8, 3, 1, 3), 1, 0, KeyWord(-1))
    ensures var t := BlitPixel(b, if shared then buf else src, buf, 1, 0);
      Blitted(b, shared, src, buf) == BlitPixel(b, if shared then t else src, t, 2, 0)
  {
    hide BlitPixel;
    assert b.X0() == 1 && b.XEnd() == 3 && b.Y0() == 0 && b.YEnd() == 1;
    assert RowsTo(b, shared, src, buf, 0) == buf;
    assert RowTo(b, shared, src, buf, 0, 1) == buf;
    assert RowTo(b, shared, src, buf, 0, 2) == BlitPixel(b, if shared then buf else src, buf, 1, 0);
  }

  // ----- The operation

  /** setpixel, on the buffer's contents. */
  method PutPixel(fb: FrameBuffer, x: nat, y: nat, col: nat)
    requires fb.Valid() && x < fb.g.width && y < fb.g.height
    modifies fb.buf
    ensures fb.Valid() && fb.buf[..] == SetPix(fb.g, old(fb.buf[..]), x, y, Colour(fb.g.format, col))
  {
    ghost var before, image := fb.buf[..], Solid(Colour(fb.g.format, col));
    OnePixel(fb.g, before, x, y, image);
    assert fb.Drawing(before, iset{}, image) && fb.g.stride > 0;
    fb.SetPixel(x, y, col, before, iset{}, image);
    DrawnUnique(fb.g, before, fb.buf[..], SetPix(fb.g, before, x, y, image(x, y)), iset{} + iset{(x, y)}, image);
  }

  lemma OnePixel(g: Geometry, before: seq<nat>, x: nat, y: nat, image: (int, int) -> nat)
    requires Fits(g, |before|) && InRange(g, before) && Visible(g, (x, y)) && image(x, y) < Base(g.format)
    ensures Drawn(g, before, before, iset{}, image) && Unit(g, x, y) < |before|
    ensures var after := SetPix(g, before, x, y, image(x, y));
      InRange(g, after) && Drawn(g, before, after, iset{} + iset{(x, y)}, image)
  {
    assert Unit(g, x, y) < |before|;
    DrawnNone(g, before, image);
    SetPixInRange(g, before, x, y, image(x, y));
    SetPixDrawn(g, before, before, x, y, iset{}, image);
  }

  /** Two views of one array have units of one size. */
  ghost predicate Shareable(fb: FrameBuffer, source: FrameBuffer) {
    source.buf == fb.buf ==> (fb.g.format.Rgb565? <==> source.g.format.Rgb565?)
  }

  lemma SharedValid(fb: FrameBuffer, source: FrameBuffer)
    requires fb.Valid() && source.buf == fb.buf && Shareable(fb, source) && Fits(source.g, source.buf.Length)
    ensures source.Valid()
  {
    UnitSize(fb.g.format);
    UnitSize(source.g.format);
  }

  /** The two buffers during a blit; a source of its own stays `src`. */
  ghost predicate Ready(fb: FrameBuffer, source: FrameBuffer, b: Placing, src: seq<nat>)
    reads fb, source, fb.buf, source.buf
  {
    && fb.Valid() && source.Valid() && Shareable(fb, source) && b.g == fb.g && b.sg == source.g
    && (source.buf != fb.buf ==> source.buf[..] == src)
  }

  /** One pixel of framebuf_blit. */
  method BlitOne(fb: FrameBuffer, source: FrameBuffer, key: nat, cx0: int, y0: int, cx1: int, y1: int,
      ghost b: Placing, ghost src: seq<nat>)
    requires Ready(fb, source, b, src) && b.key == key && b.Hit(cx0, y0) && (cx1, y1) == (cx0 - b.x, y0 - b.y)
    modifies fb.buf
    ensures Ready(fb, source, b, src)
    ensures var was := old(fb.buf[..]);
      fb.buf[..] == BlitPixel(b, if source.buf == fb.buf then was else src, was, cx0, y0)
  {
    assert Unit(fb.g, cx0, y0) < fb.buf.Length;
    assert Fits(source.g, source.buf.Length);
    hide FrameBuffer.Valid, Pix, SetPix, Colour, Fits;
    var col := source.GetPixel(cx1, y1);
    if col != key {
      PutPixel(fb, cx0, y0, col);
    }
    if source.buf == fb.buf {
      SharedValid(fb, source);
    } else {
      assert source.buf[..] == src;
    }
  }

  /** One row of framebuf_blit. */
  method BlitRow(fb: FrameBuffer, source: FrameBuffer, x: int, key: nat, y0: int, y1: int, ghost b: Placing,
      ghost src: seq<nat>)
    requires Ready(fb, source, b, src) && b == Placing(fb.g, source.g, x, y0 - y1, key)
    requires 0 <= y0 < fb.g.height && 0 <= y1 < source.g.height && x < fb.g.width && 0 - x < source.g.width
    modifies fb.buf
    ensures Ready(fb, source, b, src)
    ensures fb.buf[..] == RowTo(b, source.buf == fb.buf, src, old(fb.buf[..]), y0, b.XEnd())
  {
    hide Ready, BlitPixel;
    ghost var was := fb.buf[..];
    var cx1 := Max(0, 0 - x);
    var cx0, x0end := Max(0, x), Min(fb.g.width, x + source.g.width);
    while cx0 < x0end
      invariant Max(0, x) <= cx0 && cx1 == cx0 - x && (cx0 <= x0end || cx0 == Max(0, x))
      invariant Ready(fb, source, b, src)
      invariant fb.buf[..] == RowTo(b, source.buf == fb.buf, src, was, y0, cx0)
    {
      BlitOne(fb, source, key, cx0, y0, cx1, y1, b, src);
      cx1 := cx1 + 1;
      cx0 := cx0 + 1;
    }
  }

  lemma RowsStart(b: Placing, shared: bool, src: seq<nat>, buf: seq<nat>)
    ensures RowsTo(b, shared, src, buf, b.Y0()) == buf
  {
  }

  lemma RowsNext(b: Placing, shared: bool, src: seq<nat>, buf: seq<nat>, r: int)
    requires r >= b.Y0()
    ensures RowsTo(b, shared, src, buf, r + 1) == RowTo(b, shared, src, RowsTo(b, shared, src, buf, r), r, b.XEnd())
  {
    hide RowTo;
  }

  /** The loops of framebuf_blit. */
  method BlitRows(fb: FrameBuffer, source: FrameBuffer, x: int, y: int, key: nat, ghost b: Placing, ghost src: seq<nat>)
    requires Ready(fb, source, b, src) && b == Placing(fb.g, source.g, x, y, key)
    requires x < fb.g.width && 0 - x < source.g.width
    modifies fb.buf
    ensures Ready(fb, source, b, src)
    ensures fb.buf[..] == Blitted(b, source.buf == fb.buf, src, old(fb.buf[..]))
  {
    hide Ready, RowTo, RowsTo;
    ghost var was, shared := fb.buf[..], source.buf == fb.buf;
    RowsStart(b, shared, src, was);
    var y0, y1 := Max(0, y), Max(0, 0 - y);
    var y0end := Min(fb.g.height, y + source.g.height);
    while y0 < y0end
      invariant Max(0, y) <= y0 <= Max(Max(0, y), y0end) && y1 == y0 - y
      invariant Ready(fb, source, b, src)
      invariant fb.buf[..] == RowsTo(b, shared, src, was, y0)
    {
      RowsNext(b, shared, src, was, y0);
      BlitRow(fb, source, x, key, y0, y1, b, src);
      y1 := y1 + 1;
      y0 := y0 + 1;
    }
  }

  /** framebuf_blit. */
  method Blit(fb: FrameBuffer, source: FrameBuffer, x: int, y: int, key: int)
    requires fb.Valid() && source.Valid() && Shareable(fb, source)
    modifies fb.buf
    ensures fb.Valid()
    ensures var b := Placing(fb.g, source.g, x, y, KeyWord(key));
      fb.buf[..] == Blitted(b, source.buf == fb.buf, old(source.buf[..]), old(fb.buf[..]))
    ensures var b := Placing(fb.g, source.g, x, y, KeyWord(key));
      source.buf != fb.buf || source.g == fb.g ==>
        fb.Drawing(old(fb.buf[..]), Overlap(b),
          Picture(b, source.buf == fb.buf, old(source.buf[..]), old(fb.buf[..])))
  {
    ghost var b := Placing(fb.g, source.g, x, y, KeyWord(key));
    ghost var src, was := source.buf[..], fb.buf[..];
    if source.buf != fb.buf || source.g == fb.g {
      BlitDraws(b, source.buf == fb.buf, src, was);
    }
    hide Shareable, Overlap, Picture, Drawn, Covers, InRange, WellFormed, RowsTo;
    if x >= fb.g.width || y >= fb.g.height || 0 - x >= source.g.width || 0 - y >= source.g.height {
      NothingHit(b, source.buf == fb.buf, src, was, b.YEnd());
      return;
    }
    BlitRows(fb, source, x, y, KeyWord(key), b, src);
  }

  /** Clipped away entirely. */
  lemma {:induction false} NothingHit(b: Placing, shared: bool, src: seq<nat>, buf: seq<nat>, r: int)
    requires b.x >= b.g.width || b.y >= b.g.height || 0 - b.x >= b.sg.width || 0 - b.y >= b.sg.height
    requires r <= b.YEnd()
    ensures RowsTo(b, shared, src, buf, r) == buf
    decreases r - b.Y0()
  {
    if r > b.Y0() {
      NothingHit(b, shared, src, buf, r - 1);
      assert b.XEnd() == b.X0();
    }
  }
}
