/** RGB images and the two ways the compositors write them: pasting an image
    onto a canvas at an offset (PIL `Image.paste`, clipped to the canvas) and
    assigning one colour channel from another image (numpy
    `out[:, :, c] = src[:, :, c]`, with broadcasting).

    `Image` is an image as a value (rows of pixels, `px[y][x]`); the functions
    on it are the specification. A canvas is an `array2<Pixel>` indexed
    `[y, x]` that the methods update in place; `Shows(c, img)` says the canvas
    holds exactly the image. */
module Raster {
  import opened Common

  datatype Pixel = Pixel(r: byte, g: byte, b: byte)

  const Black := Pixel(0, 0, 0)

  datatype Image = Image(w: nat, h: nat, px: seq<seq<Pixel>>) {
    predicate Valid() {
      |px| == h && forall y :: 0 <= y < |px| ==> |px[y]| == w
    }
  }

  /** The pixel at column `x`, row `y`; black outside the image. */
  function PixelAt(img: Image, x: int, y: int): Pixel {
    if 0 <= y < |img.px| && 0 <= x < |img.px[y]| then img.px[y][x] else Black
  }

  /** The image whose pixel at `(x, y)` is `f(x, y)`. */
  function Tabulate(w: nat, h: nat, f: (int, int) -> Pixel): (r: Image)
    ensures r.Valid() && r.w == w && r.h == h
    ensures forall x, y :: 0 <= x < w && 0 <= y < h ==> PixelAt(r, x, y) == f(x, y)
  {
    Image(w, h, seq(h, y => seq(w, x => f(x, y))))
  }

  /** `Image.new('RGB', (w, h))`: a black canvas. */
  function Blank(w: nat, h: nat): Image {
    Tabulate(w, h, (x, y) => Black)
  }

  /** `canvas.paste(img, (ox, oy))`: the part of `img` that falls inside the
      canvas replaces what was there; the rest of the canvas is unchanged. */
  function Paste(canvas: Image, img: Image, ox: nat, oy: nat): Image {
    Tabulate(canvas.w, canvas.h, (x, y) =>
      if ox <= x < ox + img.w && oy <= y < oy + img.h then PixelAt(img, x - ox, y - oy) else PixelAt(canvas, x, y))
  }

  datatype Channel = Red | Green | Blue

  function GetChannel(p: Pixel, ch: Channel): byte {
    match ch
    case Red => p.r
    case Green => p.g
    case Blue => p.b
  }

  function SetChannel(p: Pixel, ch: Channel, v: byte): Pixel {
    match ch
    case Red => p.(r := v)
    case Green => p.(g := v)
    case Blue => p.(b := v)
  }

  /** numpy accepts `out[:, :, c] = src[:, :, c]` when each dimension of `src`
      equals that of `out` or is 1; otherwise the assignment raises. */
  predicate BroadcastsTo(src: Image, w: nat, h: nat) {
    (src.w == w || src.w == 1) && (src.h == h || src.h == 1)
  }

  /** The pixel of `src` that broadcasting puts at `(x, y)`. */
  function Broadcast(src: Image, x: int, y: int): Pixel {
    PixelAt(src, if src.w == 1 then 0 else x, if src.h == 1 then 0 else y)
  }

  /** `out[:, :, c] = src[:, :, c]`: channel `c` taken from `src`, the other two
      channels kept. */
  function AssignChannel(canvas: Image, src: Image, ch: Channel): Image {
    Tabulate(canvas.w, canvas.h, (x, y) => SetChannel(PixelAt(canvas, x, y), ch, GetChannel(Broadcast(src, x, y), ch)))
  }

  // ---------------------------------------------------------------------------
  // Canvases.

  ghost predicate Shows(c: array2<Pixel>, img: Image)
    reads c
  {
    && img.Valid() && c.Length0 == img.h && c.Length1 == img.w
    && forall y, x :: 0 <= y < c.Length0 && 0 <= x < c.Length1 ==> c[y, x] == PixelAt(img, x, y)
  }

  /** A canvas holds one image only. */
  lemma ShowsUnique(c: array2<Pixel>, a: Image, b: Image)
    requires Shows(c, a) && Shows(c, b)
    ensures a == b
  {
    assert |a.px| == |b.px|;
    forall y | 0 <= y < |a.px| ensures a.px[y] == b.px[y] {
      forall x | 0 <= x < |a.px[y]| ensures a.px[y][x] == b.px[y][x] {
        assert c[y, x] == PixelAt(a, x, y) == PixelAt(b, x, y);
      }
    }
  }

  /** `Image.new('RGB', (w, h))` / `np.zeros_like`. */
  method NewCanvas(w: nat, h: nat) returns (c: array2<Pixel>)
    ensures fresh(c) && Shows(c, Blank(w, h))
  {
    c := new Pixel[h, w]((y, x) => Black);
  }

  /** `canvas.paste(img, (ox, oy))` on the canvas in place: the rows and columns
      where `img` overlaps the canvas are overwritten one pixel at a time. */
  method PasteInto(c: array2<Pixel>, img: Image, ox: nat, oy: nat, ghost before: Image)
    requires img.Valid() && Shows(c, before)
    modifies c
    ensures Shows(c, Paste(before, img, ox, oy))
  {
    var yEnd := Min(oy + img.h, c.Length0);
    var xEnd := Min(ox + img.w, c.Length1);
    var y := oy;
    while y < yEnd
      invariant oy <= y && (y <= yEnd || y == oy)
      invariant forall i, j :: 0 <= i < c.Length0 && 0 <= j < c.Length1 ==>
        c[i, j] == if oy <= i < y && ox <= j < xEnd then PixelAt(img, j - ox, i - oy) else PixelAt(before, j, i)
    {
      var x := ox;
      while x < xEnd
        invariant ox <= x && (x <= xEnd || x == ox)
        invariant forall i, j :: 0 <= i < c.Length0 && 0 <= j < c.Length1 ==>
          c[i, j] == if (oy <= i < y && ox <= j < xEnd) || (i == y && ox <= j < x) then PixelAt(img, j - ox, i - oy) else PixelAt(before, j, i)
      {
        c[y, x] := PixelAt(img, x - ox, y - oy);
        x := x + 1;
      }
      y := y + 1;
    }
  }

  /** `out[:, :, ch] = src[:, :, ch]` on the canvas in place. */
  method CopyChannel(c: array2<Pixel>, src: Image, ch: Channel, ghost before: Image)
    requires Shows(c, before)
    modifies c
    ensures Shows(c, AssignChannel(before, src, ch))
  {
    var y := 0;
    while y < c.Length0
      invariant 0 <= y <= c.Length0
      invariant forall i, j :: 0 <= i < c.Length0 && 0 <= j < c.Length1 ==>
        c[i, j] == if i < y then SetChannel(PixelAt(before, j, i), ch, GetChannel(Broadcast(src, j, i), ch)) else PixelAt(before, j, i)
    {
      var x := 0;
      while x < c.Length1
        invariant 0 <= x <= c.Length1
        invariant forall i, j :: 0 <= i < c.Length0 && 0 <= j < c.Length1 ==>
          c[i, j] == if i < y || (i == y && j < x) then SetChannel(PixelAt(before, j, i), ch, GetChannel(Broadcast(src, j, i), ch)) else PixelAt(before, j, i)
      {
        c[y, x] := SetChannel(c[y, x], ch, GetChannel(Broadcast(src, x, y), ch));
        x := x + 1;
      }
      y := y + 1;
    }
  }
}
