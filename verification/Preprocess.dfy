/**
 Detector preprocessing: a camera frame is scaled by the nearest-lower source pixel into the top-left corner of
 three normalised planes, and the rest of each plane is padding. Arithmetic is exact.
 */
module Preprocess {
  import opened Bytes
  import Grid

  const NORM_SUB: real := 127.5
  const NORM_DIV: real := 1.0 / 128.0
  const PAD: real := -NORM_SUB * NORM_DIV

  function Normal(b: byte): real { (b as real - NORM_SUB) * NORM_DIV }

  /** A source frame of `srcW` by `srcH` pixels and a detector input of `detW` by `detH` pixels. */
  datatype Letterbox = Letterbox(srcW: nat, srcH: nat, detW: nat, detH: nat) {

    predicate Valid() { srcW > 0 && srcH > 0 }

    function Scale(): real
      requires Valid()
    {
      var horizontal, vertical := detW as real / srcW as real, detH as real / srcH as real;
      if horizontal <= vertical then horizontal else vertical
    }

    function NewW(): nat
      requires Valid()
    {
      assert srcW as real * Scale() >= 0.0;
      (srcW as real * Scale()).Floor
    }

    function NewH(): nat
      requires Valid()
    {
      assert srcH as real * Scale() >= 0.0;
      (srcH as real * Scale()).Floor
    }
  }

  function Least(a: nat, b: nat): nat { if a < b then a else b }

  /** The source coordinate sampled for detector coordinate `x`, clamped below `limit`. */
  function Source(x: nat, scale: real, limit: nat): int
    requires scale > 0.0 && limit > 0
  {
    var s := (x as real / scale).Floor;
    if s < limit - 1 then s else limit - 1
  }

  // ----- geometry -----

  lemma TimesQuotient(n: nat, d: nat, s: real)
    requires d > 0
    requires s <= n as real / d as real
    ensures d as real * s <= n as real
    ensures s == n as real / d as real ==> d as real * s == n as real
  {
    var q := n as real / d as real;
    assert d as real * q == n as real;
    assert d as real * s <= d as real * q;
  }

  /** The scaled image fits in the detector input and touches its right or its bottom edge. */
  lemma FitsAndTouches(l: Letterbox)
    requires l.Valid()
    ensures l.NewW() <= l.detW && l.NewH() <= l.detH
    ensures l.NewW() == l.detW || l.NewH() == l.detH
    ensures l.Scale() >= 0.0
    ensures l.NewW() > 0 || l.NewH() > 0 ==> l.Scale() > 0.0
  {
    var s := l.Scale();
    assert l.detW as real / l.srcW as real >= 0.0 && l.detH as real / l.srcH as real >= 0.0;
    TimesQuotient(l.detW, l.srcW, s);
    TimesQuotient(l.detH, l.srcH, s);
    assert l.srcW as real * s >= 0.0 && l.srcH as real * s >= 0.0;
    if s == 0.0 {
      assert l.srcW as real * s == 0.0 && l.srcH as real * s == 0.0;
    }
  }

  lemma ScaledOrder(a: real, b: real, scale: real)
    requires scale > 0.0
    ensures a <= b <==> a * scale <= b * scale
    ensures a < b <==> a * scale < b * scale
  {}

  lemma SpanHolds(q: real, x: nat, scale: real, limit: nat)
    requires scale > 0.0 && q * scale == x as real && x as real < limit as real * scale
    ensures 0.0 <= q < limit as real
    ensures q.Floor as real * scale <= x as real < (q.Floor + 1) as real * scale
  {
    assert 0.0 * scale == 0.0;
    ScaledOrder(0.0, q, scale);
    ScaledOrder(q, limit as real, scale);
    var s := q.Floor;
    assert s as real <= q < (s + 1) as real;
    ScaledOrder(s as real, q, scale);
    ScaledOrder(q, (s + 1) as real, scale);
    assert x as real < (s + 1) as real * scale;
  }

  /** Source coordinate `s` is within `limit`, and its span, scaled, holds detector coordinate `x`. */
  predicate Covers(s: int, x: nat, scale: real, limit: nat) {
    0 <= s < limit && s as real * scale <= x as real < (s + 1) as real * scale
  }

  /** Inside the scaled image the clamp never binds: the sampled source pixel is the one whose scaled span
      holds the detector coordinate. */
  lemma SamplesCovering(x: nat, scale: real, limit: nat)
    requires scale > 0.0 && limit > 0 && x < (limit as real * scale).Floor
    ensures Covers(Source(x, scale, limit), x, scale, limit)
  {
    var q := x as real / scale;
    assert q * scale == x as real;
    SpanHolds(q, x, scale, limit);
  }

  /** The guard of the identity path holds only at scale one, where every source coordinate is itself. */
  lemma IdentityScale(l: Letterbox)
    requires l.Valid() && l.srcW == l.detW && l.NewW() == l.detW
    ensures l.Scale() == 1.0 && l.NewH() == l.srcH <= l.detH
    ensures forall x: nat, limit: nat :: x < limit ==> Source(x, 1.0, limit) == x
  {
    var s := l.Scale();
    assert l.detW as real / l.srcW as real == 1.0;
    ScaledOrder(1.0, s, l.srcW as real);
    TimesQuotient(l.detH, l.srcH, s);
    forall x: nat, limit: nat | x < limit ensures Source(x, 1.0, limit) == x {
      assert x as real / 1.0 == x as real;
    }
  }

  // ----- the frame and the planes -----

  datatype Frame = Frame(data: seq<byte>, gray: bool) {
    /** What frame-buffer validation establishes. */
    predicate Holds(l: Letterbox) {
      l.Valid() && |data| >= l.srcW * l.srcH * (if gray then 1 else 3)
    }
  }

  /** Channel `c` (0 red, 1 green, 2 blue) of a source pixel; colour frames store blue first. */
  function Sample(f: Frame, l: Letterbox, c: nat, y: nat, x: nat): byte
    requires f.Holds(l) && c < 3 && y < l.srcH && x < l.srcW
  {
    Grid.InRange(y, x, l.srcW, l.srcH);
    if f.gray then f.data[y * l.srcW + x] else f.data[(y * l.srcW + x) * 3 + 2 - c]
  }

  lemma SourceCovers(l: Letterbox, y: nat, x: nat)
    requires l.Valid() && y < l.NewH() && x < l.NewW()
    ensures l.Scale() > 0.0
    ensures Covers(Source(y, l.Scale(), l.srcH), y, l.Scale(), l.srcH)
    ensures Covers(Source(x, l.Scale(), l.srcW), x, l.Scale(), l.srcW)
  {
    hide Source, Letterbox.Scale, Covers;
    FitsAndTouches(l);
    SamplesCovering(y, l.Scale(), l.srcH);
    SamplesCovering(x, l.Scale(), l.srcW);
  }

  /** The value the detector is meant to see at row `y`, column `x` of plane `c`. */
  function Cell(f: Frame, l: Letterbox, c: nat, y: nat, x: nat): real
    requires f.Holds(l) && c < 3
  {
    if y < l.NewH() && x < l.NewW() then
      SourceCovers(l, y, x);
      Normal(Sample(f, l, c, Source(y, l.Scale(), l.srcH), Source(x, l.Scale(), l.srcW)))
    else PAD
  }

  predicate Planes(dst: array<real>, l: Letterbox) { dst.Length == 3 * (l.detW * l.detH) }

  function At(l: Letterbox, c: nat, y: nat, x: nat): nat { c * (l.detW * l.detH) + (y * l.detW + x) }

  lemma AtInRange(l: Letterbox, c: nat, y: nat, x: nat)
    requires c < 3 && y < l.detH && x < l.detW
    ensures At(l, c, y, x) < 3 * (l.detW * l.detH)
  {
    Grid.InRange(y, x, l.detW, l.detH);
    Grid.InRange(c, y * l.detW + x, l.detW * l.detH, 3);
  }

  lemma AtInjective(l: Letterbox, c: nat, y: nat, x: nat, c': nat, y': nat, x': nat)
    requires c < 3 && y < l.detH && x < l.detW && c' < 3 && y' < l.detH && x' < l.detW
    requires At(l, c, y, x) == At(l, c', y', x')
    ensures c == c' && y == y' && x == x'
  {
    Grid.InRange(y, x, l.detW, l.detH);
    Grid.InRange(y', x', l.detW, l.detH);
    Grid.Injective(c, y * l.detW + x, c', y' * l.detW + x', l.detW * l.detH);
    Grid.Injective(y, x, y', x', l.detW);
  }

  function Pixel(dst: array<real>, l: Letterbox, c: nat, y: nat, x: nat): real
    requires Planes(dst, l) && c < 3 && y < l.detH && x < l.detW
    reads dst
  {
    AtInRange(l, c, y, x);
    dst[At(l, c, y, x)]
  }

  /** The planes agree with `Cell` on the rows and columns of a rectangle. */
  ghost predicate Filled(dst: array<real>, f: Frame, l: Letterbox, top: nat, bottom: nat, left: nat, right: nat)
    requires Planes(dst, l) && f.Holds(l) && bottom <= l.detH && right <= l.detW
    reads dst
  {
    forall c: nat, y: nat, x: nat :: c < 3 && top <= y < bottom && left <= x < right ==>
      Pixel(dst, l, c, y, x) == Cell(f, l, c, y, x)
  }

  twostate predicate Untouched(dst: array<real>, l: Letterbox, row: nat, left: nat, right: nat)
    requires Planes(dst, l)
    reads dst
  {
    forall c: nat, y: nat, x: nat :: c < 3 && y < l.detH && x < l.detW && !(y == row && left <= x < right) ==>
      Pixel(dst, l, c, y, x) == old(Pixel(dst, l, c, y, x))
  }

  /** One pixel of all three planes. */
  method Put(dst: array<real>, l: Letterbox, y: nat, x: nat, r: real, g: real, b: real)
    requires Planes(dst, l) && y < l.detH && x < l.detW
    modifies dst
    ensures Pixel(dst, l, 0, y, x) == r && Pixel(dst, l, 1, y, x) == g && Pixel(dst, l, 2, y, x) == b
    ensures Untouched(dst, l, y, x, x + 1)
  {
    var plane := l.detW * l.detH;
    AtInRange(l, 0, y, x);
    AtInRange(l, 1, y, x);
    AtInRange(l, 2, y, x);
    Grid.InRange(y, x, l.detW, l.detH);
    var di := y * l.detW + x;
    dst[di] := r;
    dst[plane + di] := g;
    dst[2 * plane + di] := b;
    forall c: nat, y': nat, x': nat | c < 3 && y' < l.detH && x' < l.detW && !(y' == y && x <= x' < x + 1)
      ensures Pixel(dst, l, c, y', x') == old(Pixel(dst, l, c, y', x'))
    {
      AtInRange(l, c, y', x');
      if At(l, c, y', x') == At(l, 0, y, x) { AtInjective(l, c, y', x', 0, y, x); }
      if At(l, c, y', x') == At(l, 1, y, x) { AtInjective(l, c, y', x', 1, y, x); }
      if At(l, c, y', x') == At(l, 2, y, x) { AtInjective(l, c, y', x', 2, y, x); }
    }
  }

  /** Padding from column `left` to the right edge of a row. */
  method PadRow(dst: array<real>, f: Frame, l: Letterbox, y: nat, left: nat)
    requires Planes(dst, l) && f.Holds(l) && y < l.detH && left <= l.detW
    requires y >= l.NewH() || left >= l.NewW()
    modifies dst
    ensures Filled(dst, f, l, y, y + 1, left, l.detW)
    ensures Untouched(dst, l, y, left, l.detW)
  {
    for x := left to l.detW
      invariant Filled(dst, f, l, y, y + 1, left, x)
      invariant Untouched(dst, l, y, left, x)
    {
      Put(dst, l, y, x, PAD, PAD, PAD);
    }
  }

  /** A row of the scaled image, each pixel sampled from the source frame. */
  method RemapRow(dst: array<real>, f: Frame, l: Letterbox, y: nat)
    requires Planes(dst, l) && f.Holds(l) && y < l.NewH() <= l.detH && l.NewW() <= l.detW
    modifies dst
    ensures Filled(dst, f, l, y, y + 1, 0, l.NewW())
    ensures Untouched(dst, l, y, 0, l.NewW())
  {
    FitsAndTouches(l);
    var srcY := Source(y, l.Scale(), l.srcH);
    for x := 0 to l.NewW()
      invariant Filled(dst, f, l, y, y + 1, 0, x)
      invariant Untouched(dst, l, y, 0, x)
    {
      SourceCovers(l, y, x);
      var srcX := Source(x, l.Scale(), l.srcW);
      Grid.InRange(srcY, srcX, l.srcW, l.srcH);
      if f.gray {
        var val := Normal(f.data[srcY * l.srcW + srcX]);
        Put(dst, l, y, x, val, val, val);
      } else {
        var si := srcY * l.srcW * 3 + srcX * 3;
        Put(dst, l, y, x, Normal(f.data[si + 2]), Normal(f.data[si + 1]), Normal(f.data[si]));
      }
    }
  }

  /** A row of the identity path, where source and detector columns coincide. */
  method CopyRow(dst: array<real>, f: Frame, l: Letterbox, y: nat)
    requires Planes(dst, l) && f.Holds(l) && l.srcW == l.detW == l.NewW() && y < l.NewH() == l.srcH <= l.detH
    modifies dst
    ensures Filled(dst, f, l, y, y + 1, 0, l.detW)
    ensures Untouched(dst, l, y, 0, l.detW)
  {
    IdentityScale(l);
    for x := 0 to l.srcW
      invariant Filled(dst, f, l, y, y + 1, 0, x)
      invariant Untouched(dst, l, y, 0, x)
    {
      Grid.InRange(y, x, l.srcW, l.srcH);
      if f.gray {
        var val := Normal(f.data[y * l.srcW + x]);
        Put(dst, l, y, x, val, val, val);
      } else {
        var si := y * l.srcW * 3 + x * 3;
        Put(dst, l, y, x, Normal(f.data[si + 2]), Normal(f.data[si + 1]), Normal(f.data[si]));
      }
    }
  }

  /** Padding below the scaled image. */
  method PadBottom(dst: array<real>, f: Frame, l: Letterbox)
    requires Planes(dst, l) && f.Holds(l) && l.NewH() <= l.detH
    modifies dst
    ensures Filled(dst, f, l, l.NewH(), l.detH, 0, l.detW)
    ensures forall c: nat, y: nat, x: nat :: c < 3 && y < l.NewH() && x < l.detW ==>
      Pixel(dst, l, c, y, x) == old(Pixel(dst, l, c, y, x))
  {
    for y := l.NewH() to l.detH
      invariant Filled(dst, f, l, l.NewH(), y, 0, l.detW)
      invariant forall c: nat, y': nat, x: nat :: c < 3 && y' < l.NewH() && x < l.detW ==>
        Pixel(dst, l, c, y', x) == old(Pixel(dst, l, c, y', x))
    {
      PadRow(dst, f, l, y, 0);
    }
  }

  /** Whatever the buffer held before, every cell of every plane ends up as `Cell` says, on both paths. */
  method PreprocessDetection(dst: array<real>, f: Frame, l: Letterbox)
    requires Planes(dst, l) && f.Holds(l)
    modifies dst
    ensures Filled(dst, f, l, 0, l.detH, 0, l.detW)
  {
    FitsAndTouches(l);
    if l.srcW == l.detW && l.NewW() == l.detW {
      IdentityScale(l);
      for y := 0 to Least(l.NewH(), l.srcH)
        invariant Filled(dst, f, l, 0, y, 0, l.detW)
      {
        CopyRow(dst, f, l, y);
      }
      PadBottom(dst, f, l);
      return;
    }
    for y := 0 to l.NewH()
      invariant Filled(dst, f, l, 0, y, l.NewW(), l.detW)
    {
      PadRow(dst, f, l, y, l.NewW());
    }
    PadBottom(dst, f, l);
    for y := 0 to l.NewH()
      invariant Filled(dst, f, l, 0, y, 0, l.NewW())
      invariant Filled(dst, f, l, 0, l.NewH(), l.NewW(), l.detW)
      invariant Filled(dst, f, l, l.NewH(), l.detH, 0, l.detW)
    {
      RemapRow(dst, f, l, y);
    }
  }

  lemma NormalExact(b: byte)
    ensures Normal(b) * 128.0 + 127.5 == b as real
  {}

  /** A reference cell inside the scaled image is a byte of the frame, of the pixel whose scaled span holds the
      coordinate, taken back through the normalisation. Plane 0 is red, and a colour frame stores blue, green and red
      in this order. */
  lemma CellSees(f: Frame, l: Letterbox, c: nat, y: nat, x: nat) returns (sy: nat, sx: nat)
    requires f.Holds(l) && c < 3 && y < l.NewH() && x < l.NewW()
    ensures sy < l.srcH && sx < l.srcW && Covers(sy, y, l.Scale(), l.srcH) && Covers(sx, x, l.Scale(), l.srcW)
    ensures 0 <= sy * l.srcW + sx && (if f.gray then sy * l.srcW + sx else 3 * (sy * l.srcW + sx) + 2) < |f.data|
    ensures Cell(f, l, c, y, x) * 128.0 + 127.5
         == f.data[if f.gray then sy * l.srcW + sx else 3 * (sy * l.srcW + sx) + (2 - c)] as real
    ensures l.Scale() == 1.0 ==> sy == y && sx == x
  {
    hide Letterbox.Scale, Letterbox.NewW, Letterbox.NewH, Source, Normal, Sample, Covers;
    SourceCovers(l, y, x);
    InLimits(Source(y, l.Scale(), l.srcH), y, l.Scale(), l.srcH);
    InLimits(Source(x, l.Scale(), l.srcW), x, l.Scale(), l.srcW);
    sy, sx := Source(y, l.Scale(), l.srcH), Source(x, l.Scale(), l.srcW);
    SampleIs(f, l, c, sy, sx);
    NormalExact(Sample(f, l, c, sy, sx));
  }

  lemma SampleIs(f: Frame, l: Letterbox, c: nat, y: nat, x: nat)
    requires f.Holds(l) && c < 3 && y < l.srcH && x < l.srcW
    ensures 0 <= y * l.srcW + x && (if f.gray then y * l.srcW + x else 3 * (y * l.srcW + x) + 2) < |f.data|
    ensures Sample(f, l, c, y, x) == f.data[if f.gray then y * l.srcW + x else 3 * (y * l.srcW + x) + (2 - c)]
  {
    Grid.InRange(y, x, l.srcW, l.srcH);
  }

  lemma InLimits(s: int, x: nat, scale: real, limit: nat)
    requires Covers(s, x, scale, limit)
    ensures 0 <= s < limit && (scale == 1.0 ==> s == x)
  {}

  /** Outside the image it is the value of a black pixel. */
  lemma PaddingSees(f: Frame, l: Letterbox, c: nat, y: nat, x: nat)
    requires f.Holds(l) && c < 3 && (y >= l.NewH() || x >= l.NewW())
    ensures Cell(f, l, c, y, x) * 128.0 + 127.5 == 0.0
  {
    hide Letterbox.NewW, Letterbox.NewH;
  }

  /** The planes follow one another, each row by row. */
  lemma DetectorSees(dst: array<real>, f: Frame, l: Letterbox, c: nat, y: nat, x: nat)
    requires Planes(dst, l) && f.Holds(l) && Filled(dst, f, l, 0, l.detH, 0, l.detW)
    requires c < 3 && y < l.detH && x < l.detW
    ensures 0 <= c * (l.detW * l.detH) + (y * l.detW + x) < dst.Length
    ensures dst[c * (l.detW * l.detH) + (y * l.detW + x)] == Cell(f, l, c, y, x)
  {
    hide Cell;
    AtInRange(l, c, y, x);
    assert Pixel(dst, l, c, y, x) == Cell(f, l, c, y, x);
  }
}
