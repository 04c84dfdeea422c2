/** The drawing operations of extmod/modframebuf.c above the formats: line
    and scroll. */
module FrameDraw {
  import opened Arith
  import opened PixelFormats
  import opened FrameBuf

  function Abs(a: int): nat { if a > 0 then a else -a }

  function Sign(a: int): int { if a > 0 then 1 else -1 }

  // ----- The line

  /** Minor steps taken after `i` of `dm` major steps over `dn` minor ones: the
      ideal line, rounded to the nearest pixel. */
  function Minor(dm: nat, dn: nat, i: nat): (k: nat)
    requires dm > 0
  {
    (2 * dn * i + dm) / (2 * dm)
  }

  function MinorAt(n0: int, sn: int, dm: nat, dn: nat, i: nat): int
    requires dm > 0
  {
    n0 + sn * Minor(dm, dn, i)
  }

  function MajorAt(m0: int, sm: int, i: nat): int { m0 + sm * i }

  /** The error term that decides the minor step after pixel `i`. */
  function Err(dm: nat, dn: nat, i: nat): int
    requires dm > 0
  {
    2 * dn * (i + 1) - dm - 2 * dm * Minor(dm, dn, i)
  }

  datatype LineSpec = LineSpec(x1: int, y1: int, x2: int, y2: int) {
    predicate Steep() { Abs(y2 - y1) > Abs(x2 - x1) }

    function Major(): nat { if Steep() then Abs(y2 - y1) else Abs(x2 - x1) }

    function MinorLength(): nat { if Steep() then Abs(x2 - x1) else Abs(y2 - y1) }

    /** Pixel `i` of the line, 0 <= i <= Major(). */
    function Point(i: nat): (int, int) {
      if Major() == 0 then (x1, y1)
      else if Steep() then
        (MinorAt(x1, Sign(x2 - x1), Major(), MinorLength(), i), MajorAt(y1, Sign(y2 - y1), i))
      else
        (MajorAt(x1, Sign(x2 - x1), i), MinorAt(y1, Sign(y2 - y1), Major(), MinorLength(), i))
    }
  }

  lemma MinorExact(dm: nat, dn: nat, i: nat, k: int)
    requires dm > 0 && 0 - dm <= 2 * dn * i - 2 * dm * k < dm
    ensures k >= 0 && Minor(dm, dn, i) == k
  {
    var n := 2 * dn * i + dm;
    var b := 2 * dm;
    assert 0 <= n - b * k < b;
    assert n == b * (n / b) + n % b;
    QuotientUnique(b, n / b, n % b, k, n - b * k);
  }

  /** Every point is within half a pixel of the ideal line. */
  lemma HalfPixel(dm: nat, dn: nat, i: nat)
    requires dm > 0
    ensures 0 - dm <= 2 * dn * i - 2 * dm * Minor(dm, dn, i) < dm
  {
  }

  /** The error term calls for at most one minor step. */
  lemma MinorNext(dm: nat, dn: nat, i: nat)
    requires 0 < dm && dn <= dm
    ensures Err(dm, dn, i) < 2 * dm
    ensures Minor(dm, dn, i + 1) == Minor(dm, dn, i) + if Err(dm, dn, i) >= 0 then 1 else 0
    ensures Err(dm, dn, i + 1) == Err(dm, dn, i) + 2 * dn - if Err(dm, dn, i) >= 0 then 2 * dm else 0
  {
    HalfPixel(dm, dn, i);
    var k := Minor(dm, dn, i);
    TimesNext(2 * dn, i);
    TimesNext(2 * dn, i + 1);
    TimesNext(2 * dm, k);
    hide Minor;
    MinorExact(dm, dn, i + 1, k + if Err(dm, dn, i) >= 0 then 1 else 0);
  }

  lemma TimesNext(a: int, k: int)
    ensures a * (k + 1) == a * k + a
  {
  }

  lemma MinorAtNext(n0: int, sn: int, dm: nat, dn: nat, i: nat)
    requires 0 < dm && dn <= dm
    ensures MinorAt(n0, sn, dm, dn, i + 1) == MinorAt(n0, sn, dm, dn, i) + if Err(dm, dn, i) >= 0 then sn else 0
  {
    MinorNext(dm, dn, i);
    var k := Minor(dm, dn, i);
    assert sn * (k + 1) == sn * k + sn;
  }

  lemma MajorAtNext(m0: int, sm: int, i: nat)
    ensures MajorAt(m0, sm, i + 1) == MajorAt(m0, sm, i) + sm && MajorAt(m0, sm, 0) == m0
  {
  }

  lemma MinorEnds(dm: nat, dn: nat)
    requires dm > 0
    ensures Minor(dm, dn, 0) == 0 && Minor(dm, dn, dm) == dn
  {
    MinorExact(dm, dn, 0, 0);
    assert 2 * dn * dm == 2 * dm * dn;
    MinorExact(dm, dn, dm, dn);
  }

  /** The line runs from its first to its last end point. */
  lemma LineEnds(l: LineSpec)
    ensures l.Point(0) == (l.x1, l.y1) && l.Point(l.Major()) == (l.x2, l.y2)
  {
    if l.Major() > 0 {
      MinorEnds(l.Major(), l.MinorLength());
    }
  }

  /** Consecutive pixels touch: one major step, at most one minor step. */
  lemma LineConnected(l: LineSpec, i: nat)
    requires i < l.Major()
    ensures Abs(l.Point(i + 1).0 - l.Point(i).0) <= 1 && Abs(l.Point(i + 1).1 - l.Point(i).1) <= 1
    ensures l.Point(i + 1) != l.Point(i)
  {
    var dm, dn := l.Major(), l.MinorLength();
    hide MinorAt, MajorAt, Err;
    if l.Steep() {
      MinorAtNext(l.x1, Sign(l.x2 - l.x1), dm, dn, i);
      MajorAtNext(l.y1, Sign(l.y2 - l.y1), i);
    } else {
      MinorAtNext(l.y1, Sign(l.y2 - l.y1), dm, dn, i);
      MajorAtNext(l.x1, Sign(l.x2 - l.x1), i);
    }
  }

  predicate Visible(g: Geometry, p: (int, int)) {
    0 <= p.0 < g.width && 0 <= p.1 < g.height
  }

  /** The visible ones among the first `n` pixels of a line. */
  ghost function LineArea(g: Geometry, l: LineSpec, n: nat): iset<(int, int)> {
    iset p: (int, int) | Visible(g, p) && exists i: nat :: i < n && l.Point(i) == p
  }

  lemma LineAreaStep(g: Geometry, l: LineSpec, n: nat)
    ensures LineArea(g, l, n + 1) ==
      if Visible(g, l.Point(n)) then LineArea(g, l, n) + iset{l.Point(n)} else LineArea(g, l, n)
  {
  }

  /** Set a pixel of the line if it is on the screen. */
  method Plot(fb: FrameBuffer, x: int, y: int, col: nat, ghost l: LineSpec, ghost n: nat, ghost before: seq<nat>)
    requires l.Point(n) == (x, y)
    requires fb.Drawing(before, LineArea(fb.g, l, n), Solid(Colour(fb.g.format, col)))
    modifies fb.buf
    ensures fb.Drawing(before, LineArea(fb.g, l, n + 1), Solid(Colour(fb.g.format, col)))
  {
    LineAreaStep(fb.g, l, n);
    hide FrameBuffer.Drawing, LineArea;
    if 0 <= x < fb.g.width && 0 <= y < fb.g.height {
      fb.SetPixel(x, y, col, before, LineArea(fb.g, l, n), Solid(Colour(fb.g.format, col)));
    }
  }

  /** The minor steps of one round: the `while (e >= 0)` loop. */
  method MinorSteps(y0: int, e0: int, sn: int, dm: nat, ghost dn: nat, ghost n0: int, ghost i: nat)
      returns (y: int, e: int)
    requires 0 < dm && dn <= dm && y0 == MinorAt(n0, sn, dm, dn, i) && e0 == Err(dm, dn, i)
    ensures y == MinorAt(n0, sn, dm, dn, i + 1) && e + 2 * dn == Err(dm, dn, i + 1)
  {
    MinorNext(dm, dn, i);
    MinorAtNext(n0, sn, dm, dn, i);
    hide Minor, MinorAt, Err;
    y, e := y0, e0;
    while e >= 0
      invariant (y, e) == (y0, e0) || (e0 >= 0 && (y, e) == (y0 + sn, e0 - 2 * dm))
      decreases e + 2 * dm
    {
      y := y + sn;
      e := e - 2 * dm;
    }
  }

  /** framebuf_line. */
  method Line(fb: FrameBuffer, x1: int, y1: int, x2: int, y2: int, col: nat)
    requires fb.Valid()
    modifies fb.buf
    ensures var l := LineSpec(x1, y1, x2, y2);
      fb.Drawing(old(fb.buf[..]), LineArea(fb.g, l, l.Major() + 1), Solid(Colour(fb.g.format, col)))
  {
    hide FrameBuffer.Drawing, FrameBuffer.Valid, LineArea, MinorAt, MajorAt, Err;
    ghost var l := LineSpec(x1, y1, x2, y2);
    ghost var before, image := fb.buf[..], Solid(Colour(fb.g.format, col));
    StartLine(fb, l, image);
    LineEnds(l);
    var dx, sx := Abs(x2 - x1), Sign(x2 - x1);
    var dy, sy := Abs(y2 - y1), Sign(y2 - y1);
    var x, y := x1, y1;
    var steep := dy > dx;
    if steep {
      x, y := y, x;
      dx, dy := dy, dx;
      sx, sy := sy, sx;
    }
    ghost var m0, n0 := x, y;
    var e := 2 * dy - dx;
    if dx > 0 {
      StartErr(m0, n0, sx, sy, dx, dy);
    }
    var i := 0;
    while i < dx
      invariant 0 <= i <= dx
      invariant dx > 0 ==> x == MajorAt(m0, sx, i) && y == MinorAt(n0, sy, dx, dy, i) && e == Err(dx, dy, i)
      invariant fb.Drawing(before, LineArea(fb.g, l, i), image)
    {
      if steep {
        Plot(fb, y, x, col, l, i, before);
      } else {
        Plot(fb, x, y, col, l, i, before);
      }
      y, e := MinorSteps(y, e, sy, dx, dy, n0, i);
      MajorAtNext(m0, sx, i);
      x := x + sx;
      e := e + 2 * dy;
      i := i + 1;
    }
    Plot(fb, x2, y2, col, l, dx, before);
  }

  lemma StartLine(fb: FrameBuffer, l: LineSpec, image: (int, int) -> nat)
    requires fb.Valid()
    ensures fb.Drawing(fb.buf[..], LineArea(fb.g, l, 0), image)
  {
  }

  lemma StartErr(m0: int, n0: int, sm: int, sn: int, dm: nat, dn: nat)
    requires dm > 0
    ensures MajorAt(m0, sm, 0) == m0 && MinorAt(n0, sn, dm, dn, 0) == n0 && Err(dm, dn, 0) == 2 * dn - dm
  {
  }

  // ----- The scroll

  /** The old picture, moved. */
  ghost function Shifted(g: Geometry, before: seq<nat>, xstep: int, ystep: int): (int, int) -> nat {
    (x, y) => Pix(g, before, x - xstep, y - ystep)
  }

  /** Pixels whose source is on the screen too. */
  ghost predicate Moves(g: Geometry, xstep: int, ystep: int, p: (int, int)) {
    Visible(g, p) && Visible(g, (p.0 - xstep, p.1 - ystep))
  }

  ghost function Moved(g: Geometry, xstep: int, ystep: int): iset<(int, int)> {
    iset p: (int, int) | Moves(g, xstep, ystep, p)
  }

  predicate Passed(d: int, a: int, b: int) { if d > 0 then a < b else a > b }

  /** The pixels moved once the scan in direction (dx, dy) has come to (x, y). */
  ghost function Scanned(g: Geometry, xstep: int, ystep: int, x: int, y: int): iset<(int, int)> {
    iset p: (int, int) | Moves(g, xstep, ystep, p) &&
      (Passed(Down(ystep), p.1, y) || (p.1 == y && Passed(Down(xstep), p.0, x)))
  }

  /** Scan direction: against the movement. */
  function Down(step: int): int { if step < 0 then 1 else -1 }

  function ScanStart(size: nat, step: int): int { if step < 0 then 0 else size - 1 }

  function ScanEnd(size: nat, step: int): int { if step < 0 then size + step else step - 1 }

  /** The loop over one axis ends: its counter, never tested for order, meets
      the end value. */
  ghost predicate Ends(size: nat, step: int) {
    exists n: nat :: ScanAt(size, step, n) == ScanEnd(size, step)
  }

  /** It does exactly when the step fits the size. */
  lemma ScanEnds(size: nat, step: int)
    ensures Ends(size, step) <==> Abs(step) <= size
  {
    if Abs(step) <= size {
      assert ScanAt(size, step, size - Abs(step)) == ScanEnd(size, step);
    }
  }

  function ScanAt(size: nat, step: int, n: nat): int { ScanStart(size, step) + Down(step) * n }

  /** The steps for which both loops of scroll end: the inner one runs only if
      the outer one has a row. */
  predicate ScrollEnds(g: Geometry, xstep: int, ystep: int) {
    Abs(ystep) <= g.height && (Abs(xstep) <= g.width || Abs(ystep) == g.height)
  }

  lemma ScrollEndsIff(g: Geometry, xstep: int, ystep: int)
    ensures ScrollEnds(g, xstep, ystep) <==>
      && Ends(g.height, ystep)
      && (ScanStart(g.height, ystep) == ScanEnd(g.height, ystep) || Ends(g.width, xstep))
  {
    ScanEnds(g.height, ystep);
    ScanEnds(g.width, xstep);
  }

  /** A step one wider than the screen: the column counter passes the end value
      by, whatever the number of rounds. */
  lemma ScrollStuck(n: nat)
    ensures var g := Geometry(Gs8, 8, 8, 8);
      !ScrollEnds(g, 9, 0) && ScanStart(g.height, 0) != ScanEnd(g.height, 0)
      && ScanAt(g.width, 9, n) != ScanEnd(g.width, 9)
  {
    ScanEnds(8, 9);
  }

  /** The source of a pixel is read before it is overwritten. */
  lemma SourceIntact(fb: FrameBuffer, before: seq<nat>, xstep: int, ystep: int, x: int, y: int)
    requires fb.Drawing(before, Scanned(fb.g, xstep, ystep, x, y), Shifted(fb.g, before, xstep, ystep))
    requires Moves(fb.g, xstep, ystep, (x, y))
    ensures Pix(fb.g, fb.buf[..], x - xstep, y - ystep) == Pix(fb.g, before, x - xstep, y - ystep)
  {
  }

  lemma ScannedStep(g: Geometry, xstep: int, ystep: int, x: int, y: int)
    requires Moves(g, xstep, ystep, (x, y))
    ensures Scanned(g, xstep, ystep, x, y) + iset{(x, y)} == Scanned(g, xstep, ystep, x + Down(xstep), y)
  {
  }

  lemma ScannedRow(g: Geometry, xstep: int, ystep: int, y: int)
    requires Abs(xstep) <= g.width
    ensures Scanned(g, xstep, ystep, ScanEnd(g.width, xstep), y) ==
      Scanned(g, xstep, ystep, ScanStart(g.width, xstep), y + Down(ystep))
  {
  }

  lemma ScannedEnds(g: Geometry, xstep: int, ystep: int)
    requires Abs(ystep) <= g.height
    ensures Scanned(g, xstep, ystep, ScanStart(g.width, xstep), ScanStart(g.height, ystep)) == iset{}
    ensures Scanned(g, xstep, ystep, ScanStart(g.width, xstep), ScanEnd(g.height, ystep)) ==
      Moved(g, xstep, ystep)
  {
  }

  /** Between the ends of both scans lie exactly the pixels that move. */
  predicate Within(size: nat, step: int, a: int) {
    if step < 0 then 0 <= a <= size + step else step - 1 <= a <= size - 1
  }

  /** The colour a pixel of the scroll takes: still that of the old picture. */
  method ReadSource(fb: FrameBuffer, xstep: int, ystep: int, x: int, y: int, ghost before: seq<nat>) returns (v: nat)
    requires Moves(fb.g, xstep, ystep, (x, y))
    requires fb.Drawing(before, Scanned(fb.g, xstep, ystep, x, y), Shifted(fb.g, before, xstep, ystep))
    ensures Shifted(fb.g, before, xstep, ystep)(x, y) == Colour(fb.g.format, v)
  {
    hide FrameBuffer.Valid, Drawn, Scanned, Pix, Colour;
    SourceIntact(fb, before, xstep, ystep, x, y);
    v := fb.GetPixel(x - xstep, y - ystep);
    ColourKeeps(fb.g.format, v);
  }

  /** One pixel of the scroll. */
  method MovePixel(fb: FrameBuffer, xstep: int, ystep: int, x: int, y: int, ghost before: seq<nat>)
    requires Moves(fb.g, xstep, ystep, (x, y))
    requires fb.Drawing(before, Scanned(fb.g, xstep, ystep, x, y), Shifted(fb.g, before, xstep, ystep))
    modifies fb.buf
    ensures fb.Drawing(before, Scanned(fb.g, xstep, ystep, x + Down(xstep), y), Shifted(fb.g, before, xstep, ystep))
  {
    var v := ReadSource(fb, xstep, ystep, x, y, before);
    ScannedStep(fb.g, xstep, ystep, x, y);
    assert Visible(fb.g, (x, y));
    hide FrameBuffer.Drawing, Scanned, Colour, Shifted, Moves;
    fb.SetPixel(x, y, v, before, Scanned(fb.g, xstep, ystep, x, y), Shifted(fb.g, before, xstep, ystep));
  }

  method ScrollRow(fb: FrameBuffer, xstep: int, ystep: int, y: int, ghost before: seq<nat>)
    requires Abs(xstep) <= fb.g.width && 0 <= y < fb.g.height && 0 <= y - ystep < fb.g.height
    requires fb.Drawing(before, Scanned(fb.g, xstep, ystep, ScanStart(fb.g.width, xstep), y),
      Shifted(fb.g, before, xstep, ystep))
    modifies fb.buf
    ensures fb.Drawing(before, Scanned(fb.g, xstep, ystep, ScanStart(fb.g.width, xstep), y + Down(ystep)),
      Shifted(fb.g, before, xstep, ystep))
  {
    hide FrameBuffer.Drawing, Scanned, Shifted;
    var x, xend := ScanStart(fb.g.width, xstep), ScanEnd(fb.g.width, xstep);
    while x != xend
      invariant Within(fb.g.width, xstep, x)
      invariant fb.Drawing(before, Scanned(fb.g, xstep, ystep, x, y), Shifted(fb.g, before, xstep, ystep))
      decreases if xstep < 0 then xend - x else x - xend
    {
      MovePixel(fb, xstep, ystep, x, y, before);
      x := x + Down(xstep);
    }
    ScannedRow(fb.g, xstep, ystep, y);
  }

  /** framebuf_scroll: the in-place move is the move of a snapshot. */
  method Scroll(fb: FrameBuffer, xstep: int, ystep: int)
    requires fb.Valid() && ScrollEnds(fb.g, xstep, ystep)
    modifies fb.buf
    ensures fb.Drawing(old(fb.buf[..]), Moved(fb.g, xstep, ystep),
      Shifted(fb.g, old(fb.buf[..]), xstep, ystep))
  {
    var g := fb.g;
    ghost var before := fb.buf[..];
    ghost var image := Shifted(g, before, xstep, ystep);
    ScannedEnds(g, xstep, ystep);
    DrawnNone(g, before, image);
    var y, yend := ScanStart(g.height, ystep), ScanEnd(g.height, ystep);
    assert fb.Drawing(before, Scanned(g, xstep, ystep, ScanStart(g.width, xstep), y), image);
    hide FrameBuffer.Drawing, Scanned, Moves;
    while y != yend
      invariant Within(g.height, ystep, y)
      invariant fb.Drawing(before, Scanned(g, xstep, ystep, ScanStart(g.width, xstep), y), image)
      decreases if ystep < 0 then yend - y else y - yend
    {
      ScrollRow(fb, xstep, ystep, y, before);
      y := y + Down(ystep);
    }
  }
}
