/** The pixel formats of extmod/modframebuf.c: packed pixels, and fills that
    work on whole units, columns or rows. */
module PixelFormats {
  import opened Arith
  import opened Bits
  import opened Wrappers

  // ----- Fields of a unit

  /** Field `k` of a unit, counted from the low end, for fields of base `b`. */
  function Field(u: nat, b: nat, k: nat): nat
    requires b > 0
    decreases k
  {
    if k == 0 then u % b else Field(u / b, b, k - 1)
  }

  function PutField(u: nat, b: nat, k: nat, v: nat): nat
    requires b > 0
    decreases k
  {
    if k == 0 then u / b * b + v else u % b + b * PutField(u / b, b, k - 1, v)
  }

  function Pow(b: nat, n: nat): (r: nat) {
    if n == 0 then 1 else b * Pow(b, n - 1)
  }

  lemma {:induction false} FieldPut(u: nat, b: nat, k: nat, v: nat)
    requires b > 0 && v < b
    ensures Field(PutField(u, b, k, v), b, k) == v
    decreases k
  {
    if k == 0 {
      DivMod(u / b, b, v);
    } else {
      DivMod(PutField(u / b, b, k - 1, v), b, u % b);
      FieldPut(u / b, b, k - 1, v);
    }
  }

  lemma {:induction false} FieldKeep(u: nat, b: nat, k: nat, v: nat, j: nat)
    requires b > 0 && v < b && j != k
    ensures Field(PutField(u, b, k, v), b, j) == Field(u, b, j)
    decreases k
  {
    if k == 0 {
      DivMod(u / b, b, v);
    } else {
      DivMod(PutField(u / b, b, k - 1, v), b, u % b);
      if j > 0 {
        FieldKeep(u / b, b, k - 1, v, j - 1);
      }
    }
  }

  lemma {:induction false} PutRange(u: nat, b: nat, k: nat, v: nat, n: nat)
    requires b > 0 && v < b && k < n && u < Pow(b, n)
    ensures PutField(u, b, k, v) < Pow(b, n)
    decreases k
  {
    DivBound(u, b, Pow(b, n - 1));
    if k == 0 {
      MulBound(v, b, u / b, Pow(b, n - 1));
      DivMod(u / b, b, v);
    } else {
      PutRange(u / b, b, k - 1, v, n - 1);
      MulBound(u % b, b, PutField(u / b, b, k - 1, v), Pow(b, n - 1));
    }
  }

  /** A unit is determined by its fields. */
  lemma {:induction false} FieldsDetermine(u: nat, w: nat, b: nat, n: nat)
    requires b > 0 && u < Pow(b, n) && w < Pow(b, n)
    requires forall k :: 0 <= k < n ==> Field(u, b, k) == Field(w, b, k)
    ensures u == w
    decreases n
  {
    hide Field, Pow;
    PowStep(b, n);
    if n > 0 {
      FieldStep(u, b, 0);
      FieldStep(w, b, 0);
      assert Field(u, b, 0) == Field(w, b, 0);
      DivBound(u, b, Pow(b, n - 1));
      DivBound(w, b, Pow(b, n - 1));
      forall k | 0 <= k < n - 1 ensures Field(u / b, b, k) == Field(w / b, b, k) {
        assert Field(u, b, k + 1) == Field(w, b, k + 1);
        FieldStep(u, b, k + 1);
        FieldStep(w, b, k + 1);
      }
      FieldsDetermine(u / b, w / b, b, n - 1);
      SameParts(u, w, b);
    }
  }

  lemma PowStep(b: nat, n: nat)
    ensures Pow(b, n) == if n == 0 then 1 else b * Pow(b, n - 1)
  {
  }

  lemma FieldStep(u: nat, b: nat, k: nat)
    requires b > 0
    ensures Field(u, b, k) == if k == 0 then u % b else Field(u / b, b, k - 1)
  {
  }

  // ----- Fields by masks and shifts

  /** `(u & ~(1 << k)) | (v << k)` sets bit `k`. */
  lemma {:induction false} BitPut(u: nat, k: nat, v: nat)
    requires v < 2
    ensures Or(AndNot(u, Pow2(k)), v * Pow2(k)) == PutField(u, 2, k, v)
    decreases k
  {
    hide Or, AndNot;
    if k == 0 {
      AndNotDouble(u, 0);
      AndNotZero(u / 2);
      LowBits(u / 2, v);
    } else {
      var p := Pow2(k - 1);
      AndNotDouble(u, p);
      Twice(v, p);
      OrDouble(AndNot(u / 2, p), u % 2, v * p);
      BitPut(u / 2, k - 1, v);
    }
  }

  lemma LowBits(x: nat, v: nat)
    requires v < 2
    ensures Or(2 * x, v) == 2 * x + v && Or(v, 2 * x) == 2 * x + v
  {
    hide Or;
    OrZero(x);
    OrSame(0, x);
    OrDouble(0, v, x);
    OrSame(v, 2 * x);
  }

  lemma {:induction false} OrSame(x: nat, y: nat)
    ensures Or(x, y) == Or(y, x)
    decreases x + y
  {
    if x != 0 || y != 0 {
      OrSame(x / 2, y / 2);
    }
  }

  /** `(v << 2k) | (u & ~(3 << 2k))` sets the pair of bits number `k`. */
  lemma {:induction false} QuadPut(u: nat, k: nat, v: nat)
    requires v < 4
    ensures Or(v * Pow2(2 * k), AndNot(u, 3 * Pow2(2 * k))) == PutField(u, 4, k, v)
    decreases k
  {
    hide Or, AndNot, Pow2;
    if k == 0 {
      assert Pow2(0) == 1 by { FourTimes(0); }
      QuadLow(u, v);
    } else {
      var p := Pow2(2 * (k - 1));
      FourTimes(k - 1);
      QuadStep(u, v * p, 3 * p);
      Twice(v, p);
      Twice(v, 2 * p);
      QuadPut(u / 4, k - 1, v);
    }
  }

  lemma FourTimes(k: nat)
    ensures Pow2(0) == 1 && Pow2(2 * (k + 1)) == 4 * Pow2(2 * k)
  {
    assert Pow2(2 * (k + 1)) == 2 * Pow2(2 * k + 1);
  }

  lemma QuadLow(u: nat, v: nat)
    requires v < 4
    ensures Or(v, AndNot(u, 3)) == u / 4 * 4 + v
  {
    hide *;
    AndNotDouble(u, 1);
    AndNotDouble(u / 2, 0);
    AndNotZero(u / 2 / 2);
    Quarters(u);
    Quarters(v);
    var q := u / 4;
    OrDouble(v / 2, v % 2, 2 * q);
    LowBits(q, v / 2);
  }

  lemma Quarters(u: nat)
    ensures u / 2 / 2 == u / 4 && u % 2 + 2 * (u / 2 % 2) == u % 4 && u == u % 2 + 2 * (u / 2)
  {
  }

  /** Two bits down. */
  lemma QuadStep(u: nat, y: nat, m: nat)
    ensures Or(4 * y, AndNot(u, 4 * m)) == u % 4 + 4 * Or(y, AndNot(u / 4, m))
  {
    hide *;
    AndNotDouble(u, 2 * m);
    AndNotDouble(u / 2, m);
    Quarters(u);
    var t := AndNot(u / 4, m);
    var b, c := u % 2, u / 2 % 2;
    OrSame(4 * y, b + 2 * (c + 2 * t));
    OrDouble(c + 2 * t, b, 2 * y);
    OrDouble(t, c, y);
    OrSame(t, y);
    assert 2 * (2 * m) == 4 * m && 2 * (2 * y) == 4 * y;
  }

  /** `(u >> k) & 1` reads bit `k`. */
  lemma {:induction false} BitGet(u: nat, k: nat)
    ensures u / Pow2(k) % 2 == Field(u, 2, k)
    decreases k
  {
    if k > 0 {
      DivDiv(u, 2, Pow2(k - 1));
      BitGet(u / 2, k - 1);
    }
  }

  /** `(u >> 2k) & 3` reads the pair of bits number `k`. */
  lemma {:induction false} QuadGet(u: nat, k: nat)
    ensures u / Pow2(2 * k) % 4 == Field(u, 4, k)
    decreases k
  {
    if k > 0 {
      var p := Pow2(2 * (k - 1));
      FourTimes(k - 1);
      DivDiv(u, 4, p);
      QuadGet(u / 4, k - 1);
    }
  }

  /** A unit of one field. */
  lemma WholePut(u: nat, b: nat, v: nat)
    requires u < b
    ensures PutField(u, b, 0, v) == v && Field(u, b, 0) == u
  {
    DivMod(0, b, u);
  }

  // ----- Where a pixel lives

  datatype Format = Mvlsb | Rgb565 | Gs4Hmsb | Mhlsb | Mhmsb | Gs2Hmsb | Gs8

  datatype Geometry = Geometry(format: Format, width: nat, height: nat, stride: nat)

  /** The values one pixel can take. */
  function Base(f: Format): (b: nat)
    ensures b >= 2
  {
    match f
    case Mvlsb => 2
    case Mhlsb => 2
    case Mhmsb => 2
    case Gs2Hmsb => 4
    case Gs4Hmsb => 16
    case Gs8 => 256
    case Rgb565 => 65536
  }

  function PerUnit(f: Format): (n: nat)
    ensures n >= 1
  {
    match f
    case Mvlsb => 8
    case Mhlsb => 8
    case Mhmsb => 8
    case Gs2Hmsb => 4
    case Gs4Hmsb => 2
    case Gs8 => 1
    case Rgb565 => 1
  }

  /** The stride rounded up to whole units, `(stride + n - 1) & ~(n - 1)` in sixteen bits. */
  function RoundStride(f: Format, stride: nat): nat {
    if f.Mvlsb? then stride else AndNot(stride + PerUnit(f) - 1, PerUnit(f) - 1) % 65536
  }

  /** What make_new stores: sixteen bits of each number, the width standing in for a missing stride. */
  function Stored(f: Format, width: int, height: int, stride: Option<int>): Geometry {
    var given := match stride case Some(s) => s case None => width;
    Geometry(f, width % 65536, height % 65536, RoundStride(f, given % 65536))
  }

  /** Numbers of sixteen bits are stored as they are, others modulo 2 to the 16. */
  lemma StoredFits(f: Format, width: int, height: int, stride: Option<int>)
    ensures var g := Stored(f, width, height, stride);
      && g.format == f && g.width < 65536 && g.height < 65536
      && (width - g.width) % 65536 == 0 && (height - g.height) % 65536 == 0
      && (0 <= width < 65536 ==> g.width == width) && (0 <= height < 65536 ==> g.height == height)
      && (0 <= width < 65536 && stride.None? ==> g.stride == RoundStride(f, width))
      && (stride.Some? && 0 <= stride.value < 65536 ==> g.stride == RoundStride(f, stride.value))
  {
    hide RoundStride;
  }

  lemma UnitPower(f: Format) returns (k: nat)
    ensures k <= 3 && PerUnit(f) == Pow2(k)
  {
    assert Pow2(1) == 2 && Pow2(2) == 4 && Pow2(3) == 8;
    k := match f
      case Mvlsb => 3
      case Mhlsb => 3
      case Mhmsb => 3
      case Gs2Hmsb => 2
      case Gs4Hmsb => 1
      case Gs8 => 0
      case Rgb565 => 0;
  }

  /** A stored stride is a whole number of units, and is no less than the one given unless it wrapped to 0. */
  lemma RoundUp(f: Format, stride: nat)
    requires stride < 65536
    ensures !f.Mvlsb? ==> RoundStride(f, stride) % PerUnit(f) == 0
    ensures stride <= RoundStride(f, stride) < stride + PerUnit(f) || RoundStride(f, stride) == 0
    ensures RoundStride(f, stride) == 0 ==> stride == 0 || stride > 65536 - PerUnit(f)
  {
    hide AndNot, Pow2;
    if !f.Mvlsb? {
      var n := PerUnit(f);
      var k := UnitPower(f);
      var q := AndNotOnes(stride + n - 1, k);
      AndNotFacts(stride + n - 1, n - 1);
      assert AndNot(stride + n - 1, n - 1) == q * n;
      WholeUnits(q, n, stride);
    }
  }

  lemma WholeUnits(q: nat, n: nat, stride: nat)
    requires n == 1 || n == 2 || n == 4 || n == 8
    requires stride < 65536 && stride <= q * n < stride + n
    ensures q * n % 65536 % n == 0
    ensures q * n % 65536 == q * n || (q * n % 65536 == 0 && q * n == 65536)
  {
  }

  ghost predicate WellFormed(g: Geometry) {
    && g.width <= g.stride
    && (!g.format.Mvlsb? ==> g.stride % PerUnit(g.format) == 0)
  }

  function Unit(g: Geometry, x: nat, y: nat): nat {
    if g.format.Mvlsb? then y / 8 * g.stride + x else (x + y * g.stride) / PerUnit(g.format)
  }

  function FieldNo(g: Geometry, x: nat, y: nat): (k: nat)
    ensures k < PerUnit(g.format)
  {
    match g.format
    case Mvlsb => y % 8
    case Mhlsb => 7 - x % 8
    case Mhmsb => x % 8
    case Gs2Hmsb => x % 4
    case Gs4Hmsb => 1 - x % 2
    case Gs8 => 0
    case Rgb565 => 0
  }

  /** The colour a pixel takes when it is set to `col`. */
  function Colour(f: Format, col: nat): (v: nat)
    ensures v < Base(f)
  {
    if f.Mvlsb? || f.Mhlsb? || f.Mhmsb? then (if col != 0 then 1 else 0) else col % Base(f)
  }

  lemma ColourKeeps(f: Format, v: nat)
    requires v < Base(f)
    ensures Colour(f, v) == v
  {
  }

  // ----- Every field of the buffer is exactly one pixel

  lemma DistinctFields(g: Geometry, x: nat, y: nat, x': nat, y': nat)
    requires WellFormed(g) && x < g.stride && x' < g.stride
    requires Unit(g, x, y) == Unit(g, x', y') && FieldNo(g, x, y) == FieldNo(g, x', y')
    ensures x == x' && y == y'
  {
    if g.format.Mvlsb? {
      FlatParts(x, y / 8, g.stride);
      FlatParts(x', y' / 8, g.stride);
      assert y == y / 8 * 8 + y % 8;
    } else {
      DistinctFlat(x, y, x', y', g.stride, PerUnit(g.format));
    }
  }

  /** The pixels of one row of bytes. */
  predicate OneRow(g: Geometry) {
    g.width == 0 || g.height <= if g.format.Mvlsb? then 8 else 1
  }

  predicate InPicture(g: Geometry, x: nat, y: nat) { x < g.width && y < g.height }

  predicate SamePlace(g: Geometry, x: nat, y: nat, x': nat, y': nat) {
    Unit(g, x, y) == Unit(g, x', y') && FieldNo(g, x, y) == FieldNo(g, x', y')
  }

  /** Two pixels of the picture share a place. */
  predicate Clash(g: Geometry, x: nat, y: nat, x': nat, y': nat) {
    InPicture(g, x, y) && InPicture(g, x', y') && SamePlace(g, x, y, x', y') && !(x == x' && y == y')
  }

  ghost predicate Separate(g: Geometry) {
    forall x: nat, y: nat, x': nat, y': nat :: !Clash(g, x, y, x', y')
  }

  /** Exactly when no two pixels of a picture share a place in the buffer. */
  lemma SeparateIff(g: Geometry)
    requires !g.format.Mvlsb? ==> g.stride % PerUnit(g.format) == 0
    ensures Separate(g) <==> g.width <= g.stride || OneRow(g)
  {
    if g.width <= g.stride || OneRow(g) {
      forall x: nat, y: nat, x': nat, y': nat | Clash(g, x, y, x', y') ensures false {
        if g.width <= g.stride {
          DistinctFields(g, x, y, x', y');
        } else {
          OneRowSeparate(g, x, y, x', y');
        }
      }
    } else {
      NarrowShares(g);
    }
  }

  lemma OneRowSeparate(g: Geometry, x: nat, y: nat, x': nat, y': nat)
    requires OneRow(g) && InPicture(g, x, y) && InPicture(g, x', y') && SamePlace(g, x, y, x', y')
    ensures x == x' && y == y'
  {
    hide Unit;
    if g.format.Mvlsb? {
      OneColumn(g, x, y, x', y');
    } else {
      OneLine(g, x);
      OneLine(g, x');
      SlotOf(g, x, x');
      Split(x, PerUnit(g.format));
      Split(x', PerUnit(g.format));
    }
  }

  lemma OneColumn(g: Geometry, x: nat, y: nat, x': nat, y': nat)
    requires g.format.Mvlsb? && y < 8 && y' < 8 && SamePlace(g, x, y, x', y')
    ensures x == x' && y == y'
  {
    assert y / 8 == 0 && y' / 8 == 0;
  }

  lemma OneLine(g: Geometry, x: nat)
    requires !g.format.Mvlsb?
    ensures Unit(g, x, 0) == x / PerUnit(g.format)
  {
  }

  lemma SlotOf(g: Geometry, x: nat, x': nat)
    requires !g.format.Mvlsb? && FieldNo(g, x, 0) == FieldNo(g, x', 0)
    ensures x % PerUnit(g.format) == x' % PerUnit(g.format)
  {
  }

  /** With a stride below the width the first pixel of a row is also a pixel of the row before. */
  lemma NarrowShares(g: Geometry)
    requires g.stride < g.width && !OneRow(g)
    requires !g.format.Mvlsb? ==> g.stride % PerUnit(g.format) == 0
    ensures !Separate(g)
  {
    var y := if g.format.Mvlsb? then 8 else 1;
    if !g.format.Mvlsb? {
      RowSlot(0, 1, g.stride, PerUnit(g.format));
    }
    assert Clash(g, 0, y, g.stride, 0);
  }

  lemma DistinctFlat(x: nat, y: nat, x': nat, y': nat, s: nat, n: nat)
    requires n > 0 && s % n == 0 && x < s && x' < s
    requires (x + y * s) / n == (x' + y' * s) / n && x % n == x' % n
    ensures x == x' && y == y'
  {
    RowSlot(x, y, s, n);
    RowSlot(x', y', s, n);
    SameParts(x + y * s, x' + y' * s, n);
    FlatParts(x, y, s);
    FlatParts(x', y', s);
  }

  lemma SameParts(p: nat, p': nat, n: nat)
    requires n > 0 && p / n == p' / n && p % n == p' % n
    ensures p == p'
  {
    Split(p, n);
    Split(p', n);
  }

  lemma EveryFlat(s: nat, n: nat, i: nat, slot: nat) returns (x: nat, y: nat)
    requires s > 0 && n > slot && s % n == 0
    ensures x < s && (x + y * s) / n == i && x % n == slot
  {
    var flat := slot + n * i;
    x, y := flat % s, flat / s;
    FlatJoin(flat, s);
    RowSlot(x, y, s, n);
    DivMod(i, n, slot);
  }

  lemma EveryField(g: Geometry, i: nat, k: nat) returns (x: nat, y: nat)
    requires WellFormed(g) && g.stride > 0 && k < PerUnit(g.format)
    ensures x < g.stride && Unit(g, x, y) == i && FieldNo(g, x, y) == k
  {
    if g.format.Mvlsb? {
      var q := i / g.stride;
      x, y := i % g.stride, q * 8 + k;
      FlatJoin(i, g.stride);
      DivMod(q, 8, k);
    } else {
      var n := PerUnit(g.format);
      x, y := EveryFlat(g.stride, n, i, if g.format.Mhlsb? || g.format.Gs4Hmsb? then n - 1 - k else k);
    }
  }

  // ----- Images

  /** The pixel at (x, y), x within the stride; 0 outside the buffer. */
  function Pix(g: Geometry, buf: seq<nat>, x: int, y: int): (v: nat)
    ensures v < Base(g.format)
  {
    if x < 0 || y < 0 || Unit(g, x, y) >= |buf| then 0
    else
      FieldBound(buf[Unit(g, x, y)], Base(g.format), FieldNo(g, x, y));
      Field(buf[Unit(g, x, y)], Base(g.format), FieldNo(g, x, y))
  }

  lemma {:induction false} FieldBound(u: nat, b: nat, k: nat)
    requires b > 0
    ensures Field(u, b, k) < b
    decreases k
  {
    if k > 0 {
      FieldBound(u / b, b, k - 1);
    }
  }

  predicate InBuffer(g: Geometry, n: nat, x: int, y: int) {
    0 <= x < g.stride && 0 <= y && Unit(g, x, y) < n
  }

  /** `after` is `before` with the pixels of `area` redrawn from `image`. */
  ghost predicate Drawn(g: Geometry, before: seq<nat>, after: seq<nat>, area: iset<(int, int)>,
      image: (int, int) -> nat)
  {
    && |after| == |before|
    && forall x, y :: InBuffer(g, |before|, x, y) ==>
      Pix(g, after, x, y) == if (x, y) in area then image(x, y) else Pix(g, before, x, y)
  }

  ghost predicate InRange(g: Geometry, buf: seq<nat>) {
    forall i :: 0 <= i < |buf| ==> buf[i] < Pow(Base(g.format), PerUnit(g.format))
  }

  lemma DrawnNone(g: Geometry, buf: seq<nat>, image: (int, int) -> nat)
    ensures Drawn(g, buf, buf, iset{}, image)
  {
  }

  /** What one setpixel does to the buffer. */
  function SetPix(g: Geometry, buf: seq<nat>, x: nat, y: nat, v: nat): (r: seq<nat>)
    requires Unit(g, x, y) < |buf|
    ensures |r| == |buf|
  {
    buf[Unit(g, x, y) := PutField(buf[Unit(g, x, y)], Base(g.format), FieldNo(g, x, y), v)]
  }

  lemma {:induction false} PutBlank(b: nat, k: nat, v: nat)
    requires b > 0
    ensures PutField(0, b, k, v) == v * Pow(b, k)
  {
    if k > 0 {
      PutBlank(b, k - 1, v);
      Reorder(b, v, Pow(b, k - 1));
    }
  }

  lemma Reorder(b: nat, v: nat, p: nat)
    ensures b * (v * p) == v * (b * p)
  {
  }

  /** `after` is `before` with `u` at `i`. */
  ghost predicate Marked(before: seq<nat>, after: seq<nat>, i: int, u: nat) {
    0 <= i < |before| && after == before[i := u]
  }

  /** What one pixel of value `v` leaves in a blank buffer: the unit it is in,
      and there the bits it takes. */
  lemma BlankPixel(g: Geometry, n: nat, x: nat, y: nat, v: nat)
    requires Unit(g, x, y) < n
    ensures var blank: seq<nat> := seq(n, _ => 0);
      var after := SetPix(g, blank, x, y, v);
      match g.format
      case Mvlsb => Marked(blank, after, y / 8 * g.stride + x, v * Pow(2, y % 8))
      case Mhlsb => Marked(blank, after, (x + y * g.stride) / 8, v * Pow(2, 7 - x % 8))
      case Mhmsb => Marked(blank, after, (x + y * g.stride) / 8, v * Pow(2, x % 8))
      case Gs2Hmsb => Marked(blank, after, (x + y * g.stride) / 4, v * Pow(4, x % 4))
      case Gs4Hmsb => Marked(blank, after, (x + y * g.stride) / 2, v * Pow(16, 1 - x % 2))
      case Gs8 => Marked(blank, after, x + y * g.stride, v)
      case Rgb565 => Marked(blank, after, x + y * g.stride, v)
  {
    hide PutField, Pow;
    PutBlank(Base(g.format), FieldNo(g, x, y), v);
    PowStep(Base(g.format), 0);
  }

  lemma SetPixAt(g: Geometry, buf: seq<nat>, x: nat, y: nat, v: nat, px: nat, py: nat)
    requires WellFormed(g) && InBuffer(g, |buf|, x, y) && InBuffer(g, |buf|, px, py) && v < Base(g.format)
    ensures Pix(g, SetPix(g, buf, x, y, v), px, py) == if (px, py) == (x, y) then v else Pix(g, buf, px, py)
  {
    var b, k := Base(g.format), FieldNo(g, x, y);
    var u := Unit(g, x, y);
    if Unit(g, px, py) == u {
      if FieldNo(g, px, py) == k {
        DistinctFields(g, x, y, px, py);
        FieldPut(buf[u], b, k, v);
      } else {
        FieldKeep(buf[u], b, k, v, FieldNo(g, px, py));
      }
    }
  }

  lemma SetPixDrawn(g: Geometry, before: seq<nat>, buf: seq<nat>, x: nat, y: nat,
      area: iset<(int, int)>, image: (int, int) -> nat)
    requires WellFormed(g) && InBuffer(g, |buf|, x, y) && image(x, y) < Base(g.format)
    requires Drawn(g, before, buf, area, image)
    ensures Drawn(g, before, SetPix(g, buf, x, y, image(x, y)), area + iset{(x, y)}, image)
  {
    hide Pix, SetPix;
    var next := SetPix(g, buf, x, y, image(x, y));
    forall px, py | InBuffer(g, |before|, px, py)
      ensures Pix(g, next, px, py) ==
        if (px, py) in area + iset{(x, y)} then image(px, py) else Pix(g, before, px, py)
    {
      SetPixAt(g, buf, x, y, image(x, y), px, py);
      assert Pix(g, buf, px, py) == if (px, py) in area then image(px, py) else Pix(g, before, px, py);
    }
  }

  lemma SetPixInRange(g: Geometry, buf: seq<nat>, x: nat, y: nat, v: nat)
    requires InRange(g, buf) && Unit(g, x, y) < |buf| && v < Base(g.format)
    ensures InRange(g, SetPix(g, buf, x, y, v))
  {
    PutRange(buf[Unit(g, x, y)], Base(g.format), FieldNo(g, x, y), v, PerUnit(g.format));
  }

  /** The redrawn buffer is unique: pixels outside the area, padding included,
      are untouched and nothing is left open. */
  lemma DrawnUnique(g: Geometry, before: seq<nat>, a: seq<nat>, b: seq<nat>, area: iset<(int, int)>,
      image: (int, int) -> nat)
    requires WellFormed(g) && g.stride > 0 && InRange(g, a) && InRange(g, b)
    requires Drawn(g, before, a, area, image) && Drawn(g, before, b, area, image)
    ensures a == b
  {
    forall i | 0 <= i < |a| ensures a[i] == b[i] {
      forall k | 0 <= k < PerUnit(g.format)
        ensures Field(a[i], Base(g.format), k) == Field(b[i], Base(g.format), k)
      {
        SameField(g, before, a, b, area, image, i, k);
      }
      FieldsDetermine(a[i], b[i], Base(g.format), PerUnit(g.format));
    }
  }

  lemma SameField(g: Geometry, before: seq<nat>, a: seq<nat>, b: seq<nat>, area: iset<(int, int)>,
      image: (int, int) -> nat, i: nat, k: nat)
    requires WellFormed(g) && g.stride > 0 && k < PerUnit(g.format) && i < |before|
    requires Drawn(g, before, a, area, image) && Drawn(g, before, b, area, image)
    ensures Field(a[i], Base(g.format), k) == Field(b[i], Base(g.format), k)
  {
    var x, y := EveryField(g, i, k);
    assert InBuffer(g, |before|, x, y);
    assert Pix(g, a, x, y) == Pix(g, b, x, y);
  }
}
