// The software canvas of sdk/botui/src/canvas.c: a flat array of ARGB words, compositing, and the
// clipped writes of pixels and of horizontal and vertical runs.
module BotCanvas {
  import opened Arithmetic

  datatype Point = Point(x: int, y: int)

  // An unsigned word 0xAARRGGBB; shifts and masks are written as division.
  type Color = c: int | 0 <= c < 0x1_0000_0000

  // What a canvas shows: a colour for every in-bounds point.
  type Image = map<Point, Color>

  function Alpha(color: Color): int {
    color / 0x100_0000
  }

  function Red(color: Color): int {
    color / 0x1_0000 % 0x100
  }

  function Green(color: Color): int {
    color / 0x100 % 0x100
  }

  function Blue(color: Color): int {
    color % 0x100
  }

  predicate Opaque(color: Color) {
    Alpha(color) == 0xFF
  }

  // The mean of two channels, weighted a to 255 - a and rounded down; no product reaches 2^32.
  function Mixed(s: int, d: int, a: int): (v: int)
    requires 0 <= s <= 255 && 0 <= d <= 255 && 0 <= a <= 255
    ensures 0 <= v <= 255
    ensures 255 * v <= s * a + d * (255 - a) < 255 * v + 255
  {
    WeightBound(s, a);
    WeightBound(d, 255 - a);
    (s * a + d * (255 - a)) / 255
  }

  lemma WeightBound(s: int, a: int)
    requires 0 <= s <= 255 && 0 <= a
    ensures 0 <= s * a <= 255 * a
  {
  }

  // SRC_OVER compositing of src on top of dst.
  function AlphaBlend(dst: Color, src: Color): Color {
    var sa := Alpha(src);
    if sa == 0xFF then src
    else if sa == 0 then dst
    else 0xFF00_0000 + Mixed(Red(src), Red(dst), sa) * 0x1_0000
         + Mixed(Green(src), Green(dst), sa) * 0x100 + Mixed(Blue(src), Blue(dst), sa)
  }

  // The colour a pixel shows after the same source colour was composited onto it n times.
  function BlendTimes(dst: Color, src: Color, n: nat): Color {
    if n == 0 then dst
    else if Opaque(src) then src
    else AlphaBlend(BlendTimes(dst, src, n - 1), src)
  }

  // One pixel write: composited when on the canvas, clipped otherwise.
  ghost function Plot(img: Image, p: Point, color: Color): Image {
    if p in img then img[p := BlendTimes(img[p], color, 1)] else img
  }

  // v is not above the mean of s and d, weighted a to 255 - a, and less than one below it.
  ghost predicate IsMean(v: int, s: int, d: int, a: int) {
    255 * v <= s * a + d * (255 - a) < 255 * v + 255
  }

  // A clear colour leaves the pixel and an opaque one replaces it; any other makes it opaque, with
  // each of red, green and blue the weighted mean of what is drawn and what was there.
  lemma PixelBlends(img: Image, p: Point, color: Color)
    requires p in img
    ensures var now, was, a := Plot(img, p, color)[p], img[p], color / 0x100_0000;
            && (a == 255 ==> now == color) && (a == 0 ==> now == was)
            && (0 < a < 255 ==>
                  && now / 0x100_0000 == 255
                  && IsMean(now / 0x1_0000 % 0x100, color / 0x1_0000 % 0x100, was / 0x1_0000 % 0x100, a)
                  && IsMean(now / 0x100 % 0x100, color / 0x100 % 0x100, was / 0x100 % 0x100, a)
                  && IsMean(now % 0x100, color % 0x100, was % 0x100, a))
    ensures Plot(img, p, color) - {p} == img - {p}
  {
    var was, a := img[p], Alpha(color);
    assert BlendTimes(was, color, 0) == was && Plot(img, p, color)[p] == BlendTimes(was, color, 1);
    if 0 < a < 255 {
      Packed(Mixed(Red(color), Red(was), a), Mixed(Green(color), Green(was), a), Mixed(Blue(color), Blue(was), a));
      hide Mixed;
    }
  }

  lemma Packed(r: int, g: int, b: int)
    requires 0 <= r <= 255 && 0 <= g <= 255 && 0 <= b <= 255
    ensures var c := 0xFF00_0000 + r * 0x1_0000 + g * 0x100 + b;
            c / 0x100_0000 == 255 && c / 0x1_0000 % 0x100 == r && c / 0x100 % 0x100 == g && c % 0x100 == b
  {
  }

  // v lies between a and b, in either order.
  predicate InSpan(a: int, b: int, v: int) {
    Min(a, b) <= v <= Max(a, b)
  }

  // Every point of the image is composited as often as `times` says.
  ghost function Paint(img: Image, times: Point -> nat, color: Color): Image {
    map p | p in img :: BlendTimes(img[p], color, times(p))
  }

  // The points of one row (or column) whose other coordinate is at least lo and below hi.
  predicate OnRun(vertical: bool, fixed: int, lo: int, hi: int, p: Point) {
    if vertical then p.x == fixed && lo <= p.y < hi else p.y == fixed && lo <= p.x < hi
  }

  // Exactly the points of a run were composited once.
  ghost predicate RunDrawn(before: Image, now: Image, vertical: bool, fixed: int, lo: int, hi: int, color: Color) {
    && now.Keys == before.Keys
    && forall p :: p in before ==> now[p] == if OnRun(vertical, fixed, lo, hi, p) then BlendTimes(before[p], color, 1) else before[p]
  }

  lemma RunStart(img: Image, vertical: bool, fixed: int, lo: int, color: Color)
    ensures RunDrawn(img, img, vertical, fixed, lo, lo, color)
  {
  }

  lemma RunStep(before: Image, now: Image, vertical: bool, fixed: int, lo: int, hi: int, color: Color)
    requires RunDrawn(before, now, vertical, fixed, lo, hi, color) && lo <= hi
    ensures var p := if vertical then Point(fixed, hi) else Point(hi, fixed);
            p in now ==>
              RunDrawn(before, now[p := BlendTimes(now[p], color, 1)], vertical, fixed, lo, hi + 1, color)
  {
    hide BlendTimes;
  }

  // A run clipped to the image shows as the whole span between its ends.
  lemma RunDone(before: Image, now: Image, vertical: bool, fixed: int, a: int, b: int, lo: int, hi: int, color: Color)
    requires RunDrawn(before, now, vertical, fixed, lo, hi, color)
    requires forall p :: p in before && (if vertical then p.x else p.y) == fixed ==>
               (InSpan(a, b, if vertical then p.y else p.x) <==> OnRun(vertical, fixed, lo, hi, p))
    ensures now == if vertical then Paint(before, (p: Point) => if InSpan(a, b, p.y) && p.x == fixed then 1 else 0, color)
                   else Paint(before, (p: Point) => if InSpan(a, b, p.x) && p.y == fixed then 1 else 0, color)
  {
    hide InSpan;
  }

  class Canvas {
    const width: int
    const height: int
    const stride: int
    const pixels: array<Color>

    ghost predicate Valid() {
      width > 0 && height > 0 && stride == width && pixels.Length == width * height
    }

    predicate InBounds(p: Point) {
      0 <= p.x < width && 0 <= p.y < height
    }

    function Index(p: Point): (i: nat)
      requires Valid() && InBounds(p)
      ensures i < pixels.Length
    {
      RowMajorBounds(width, height, p.x, p.y);
      p.y * stride + p.x
    }

    function At(p: Point): Color
      requires Valid() && InBounds(p)
      reads pixels
    {
      pixels[Index(p)]
    }

    ghost function Image(): (img: Image)
      requires Valid()
      reads pixels
      ensures forall p :: p in img <==> InBounds(p)
      ensures forall p :: p in img ==> img[p] == At(p)
    {
      map x, y | 0 <= x < width && 0 <= y < height :: Point(x, y) := At(Point(x, y))
    }

    constructor (width: int, height: int)
      requires width > 0 && height > 0
      ensures Valid() && fresh(pixels)
      ensures this.width == width && this.height == height
      ensures forall p :: InBounds(p) ==> At(p) == 0
    {
      this.width, this.height, this.stride := width, height, width;
      RowMajorBounds(width, height, 0, 0);
      pixels := new Color[width * height](_ => 0);
    }

    // Writes one in-bounds pixel; distinct points have distinct array slots.
    method Store(p: Point, color: Color)
      requires Valid() && InBounds(p)
      modifies pixels
      ensures Image() == old(Image())[p := color]
    {
      pixels[Index(p)] := color;
      forall q | InBounds(q) && q != p
        ensures Index(q) != Index(p)
      {
        if Index(q) == Index(p) {
          RowMajorInjective(width, p.x, p.y, q.x, q.y);
        }
      }
    }

    // Composites onto a pixel known to be on the canvas.
    method Composite(p: Point, color: Color)
      requires Valid() && InBounds(p)
      modifies pixels
      ensures Image() == old(Image())[p := BlendTimes(old(Image())[p], color, 1)]
    {
      hide Index, Image, AlphaBlend;
      if Opaque(color) {
        Store(p, color);
      } else {
        Store(p, AlphaBlend(At(p), color));
      }
    }

    method PutPixel(x: int, y: int, color: Color)
      requires Valid()
      modifies pixels
      ensures Image() == Plot(old(Image()), Point(x, y), color)
    {
      hide Index, Image, AlphaBlend;
      if 0 <= x < width && 0 <= y < height {
        Composite(Point(x, y), color);
      }
    }

    method HLine(x1: int, x2: int, y: int, color: Color)
      requires Valid()
      modifies pixels
      ensures Image() == Paint(old(Image()), (p: Point) => if InSpan(x1, x2, p.x) && p.y == y then 1 else 0, color)
    {
      hide Index, Image, AlphaBlend, RunDrawn, BlendTimes;
      if y < 0 || y >= height {
        RunStart(Image(), false, y, 0, color);
        RunDone(Image(), Image(), false, y, x1, x2, 0, 0, color);
        return;
      }
      var left, right := Max(Min(x1, x2), 0), Min(Max(x1, x2), width - 1);
      RunStart(Image(), false, y, left, color);
      var x := left;
      while x <= right
        invariant left <= x && (x <= right + 1 || x == left)
        invariant RunDrawn(old(Image()), Image(), false, y, left, x, color)
      {
        RunStep(old(Image()), Image(), false, y, left, x, color);
        Composite(Point(x, y), color);
        x := x + 1;
      }
      RunDone(old(Image()), Image(), false, y, x1, x2, left, x, color);
    }

    method VLine(x: int, y1: int, y2: int, color: Color)
      requires Valid()
      modifies pixels
      ensures Image() == Paint(old(Image()), (p: Point) => if InSpan(y1, y2, p.y) && p.x == x then 1 else 0, color)
    {
      hide Index, Image, AlphaBlend, RunDrawn, BlendTimes;
      if x < 0 || x >= width {
        RunStart(Image(), true, x, 0, color);
        RunDone(Image(), Image(), true, x, y1, y2, 0, 0, color);
        return;
      }
      var top, bottom := Max(Min(y1, y2), 0), Min(Max(y1, y2), height - 1);
      RunStart(Image(), true, x, top, color);
      var y := top;
      while y <= bottom
        invariant top <= y && (y <= bottom + 1 || y == top)
        invariant RunDrawn(old(Image()), Image(), true, x, top, y, color)
      {
        RunStep(old(Image()), Image(), true, x, top, y, color);
        Composite(Point(x, y), color);
        y := y + 1;
      }
      RunDone(old(Image()), Image(), true, x, y1, y2, top, y, color);
    }
  }
}
