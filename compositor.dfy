/** The stereogram compositors shared by `stereogrampo.py`,
    `stereogrampo.mpo-test.py` and both MPOrama versions: the red/cyan
    anaglyph, the two-panel side-by-side layouts (parallel: left image first;
    crossview: right image first) and the three-panel left-right-left layout.

    Every layout takes its panel width and its height from the LEFT image
    (`w, h = left_img.size`) on a black canvas; a right image of another size is
    cut off at the canvas edge or leaves black where it does not reach. The
    anaglyph fails (`None` in the stereogram tools, an exception in MPOrama)
    exactly when numpy cannot broadcast the right image onto the left's shape. */
module Compositor {
  import opened Common
  import opened Raster

  /** `create_anaglyph`: red from the left image, green and blue from the right,
      on `np.zeros_like(left)`. */
  function Anaglyph(left: Image, right: Image): (r: Option<Image>)
    requires left.Valid()
    ensures r.Some? <==> BroadcastsTo(right, left.w, left.h)
    ensures r.Some? ==> r.value.Valid() && r.value.w == left.w && r.value.h == left.h
    ensures r.Some? ==> forall x, y :: 0 <= x < left.w && 0 <= y < left.h ==>
      PixelAt(r.value, x, y) == Pixel(PixelAt(left, x, y).r, Broadcast(right, x, y).g, Broadcast(right, x, y).b)
  {
    var red := AssignChannel(Blank(left.w, left.h), left, Red);
    if BroadcastsTo(right, left.w, left.h) then Some(AssignChannel(AssignChannel(red, right, Green), right, Blue))
    else None
  }

  /** Parallel view (`create_parallel`, `create_side_by_side` without reverse):
      left image in the first panel, right image in the second. */
  function Parallel(left: Image, right: Image): (r: Image)
    requires left.Valid() && right.Valid()
    ensures r.Valid() && r.w == 2 * left.w && r.h == left.h
    ensures forall x, y :: 0 <= x < r.w && 0 <= y < r.h ==>
      PixelAt(r, x, y) == if x < left.w then PixelAt(left, x, y) else PixelAt(right, x - left.w, y)
  {
    var w := left.w;
    Paste(Paste(Blank(2 * w, left.h), left, 0, 0), right, w, 0)
  }

  /** Crossview (`create_crossview`, `create_side_by_side(reverse=True)`): right
      image in the first panel, left image in the second. The right image is
      pasted first, so any part of it wider than the left image is covered. */
  function Crossview(left: Image, right: Image): (r: Image)
    requires left.Valid() && right.Valid()
    ensures r.Valid() && r.w == 2 * left.w && r.h == left.h
    ensures forall x, y :: 0 <= x < r.w && 0 <= y < r.h ==>
      PixelAt(r, x, y) == if x < left.w then PixelAt(right, x, y) else PixelAt(left, x - left.w, y)
  {
    var w := left.w;
    Paste(Paste(Blank(2 * w, left.h), right, 0, 0), left, w, 0)
  }

  /** `create_side_by_side(left_img, right_img, reverse)`. */
  function SideBySide(left: Image, right: Image, reverse: bool): Image
    requires left.Valid() && right.Valid()
  {
    if reverse then Crossview(left, right) else Parallel(left, right)
  }

  /** `create_left_right_left`: left, right, left again. */
  function Lrl(left: Image, right: Image): (r: Image)
    requires left.Valid() && right.Valid()
    ensures r.Valid() && r.w == 3 * left.w && r.h == left.h
    ensures forall x, y :: 0 <= x < left.w && 0 <= y < left.h ==>
      PixelAt(r, x, y) == PixelAt(left, x, y)
    ensures forall x, y :: left.w <= x < 2 * left.w && 0 <= y < left.h ==>
      PixelAt(r, x, y) == PixelAt(right, x - left.w, y)
    ensures forall x, y :: 2 * left.w <= x < 3 * left.w && 0 <= y < left.h ==>
      PixelAt(r, x, y) == PixelAt(left, x - 2 * left.w, y)
  {
    var r := Paste(Paste(Paste(Blank(3 * left.w, left.h), left, 0, 0), right, left.w, 0), left, 2 * left.w, 0);
    LrlPanels(left, right, r);
    r
  }

  /** The three pastes of `create_left_right_left`, panel by panel: the third
      paste covers only the third panel and the second only the second, so each
      panel shows the image pasted onto it. */
  lemma LrlPanels(left: Image, right: Image, r: Image)
    requires left.Valid() && right.Valid()
    requires r == Paste(Paste(Paste(Blank(3 * left.w, left.h), left, 0, 0), right, left.w, 0), left, 2 * left.w, 0)
    ensures forall x, y :: 0 <= x < left.w && 0 <= y < left.h ==>
      PixelAt(r, x, y) == PixelAt(left, x, y)
    ensures forall x, y :: left.w <= x < 2 * left.w && 0 <= y < left.h ==>
      PixelAt(r, x, y) == PixelAt(right, x - left.w, y)
    ensures forall x, y :: 2 * left.w <= x < 3 * left.w && 0 <= y < left.h ==>
      PixelAt(r, x, y) == PixelAt(left, x - 2 * left.w, y)
  {
    forall x, y | 0 <= x < left.w && 0 <= y < left.h ensures PixelAt(r, x, y) == PixelAt(left, x, y) {
      LrlFirstPanel(left, right, r, x, y);
    }
    forall x, y | left.w <= x < 2 * left.w && 0 <= y < left.h ensures PixelAt(r, x, y) == PixelAt(right, x - left.w, y) {
      LrlMiddlePanel(left, right, r, x, y);
    }
  }

  lemma LrlFirstPanel(left: Image, right: Image, r: Image, x: int, y: int)
    requires left.Valid() && right.Valid()
    requires r == Paste(Paste(Paste(Blank(3 * left.w, left.h), left, 0, 0), right, left.w, 0), left, 2 * left.w, 0)
    requires 0 <= x < left.w && 0 <= y < left.h
    ensures PixelAt(r, x, y) == PixelAt(left, x, y)
  {
    var one := Paste(Blank(3 * left.w, left.h), left, 0, 0);
    var two := Paste(one, right, left.w, 0);
    assert PixelAt(r, x, y) == PixelAt(two, x, y) == PixelAt(one, x, y);
  }

  lemma LrlMiddlePanel(left: Image, right: Image, r: Image, x: int, y: int)
    requires left.Valid() && right.Valid()
    requires r == Paste(Paste(Paste(Blank(3 * left.w, left.h), left, 0, 0), right, left.w, 0), left, 2 * left.w, 0)
    requires left.w <= x < 2 * left.w && 0 <= y < left.h
    ensures PixelAt(r, x, y) == PixelAt(right, x - left.w, y)
  {
    var one := Paste(Blank(3 * left.w, left.h), left, 0, 0);
    var two := Paste(one, right, left.w, 0);
    assert PixelAt(r, x, y) == PixelAt(two, x, y);
    if !(x - left.w < right.w && y < right.h) {
      assert PixelAt(one, x, y) == Black;
    }
  }

  /** Two images are equal when they agree pixel by pixel. */
  lemma SameImage(a: Image, b: Image)
    requires a.Valid() && b.Valid() && a.w == b.w && a.h == b.h
    requires forall x, y :: 0 <= x < a.w && 0 <= y < a.h ==> PixelAt(a, x, y) == PixelAt(b, x, y)
    ensures a == b
  {
    forall y | 0 <= y < a.h ensures a.px[y] == b.px[y] {
      forall x | 0 <= x < a.w ensures a.px[y][x] == b.px[y][x] {
        assert PixelAt(a, x, y) == PixelAt(b, x, y);
      }
    }
  }

  /** For two images of one size, crossview is parallel view with the images
      swapped, so `reverse` only exchanges the panels. */
  lemma CrossviewSwapsPanels(left: Image, right: Image)
    requires left.Valid() && right.Valid() && left.w == right.w && left.h == right.h
    ensures Crossview(left, right) == Parallel(right, left)
    ensures SideBySide(left, right, true) == SideBySide(right, left, false)
  {
    SameImage(Crossview(left, right), Parallel(right, left));
  }

  /** The two outer panels of a left-right-left image are the same. */
  lemma LrlOuterPanelsAgree(left: Image, right: Image, x: nat, y: nat)
    requires left.Valid() && right.Valid()
    requires x < left.w && y < left.h
    ensures PixelAt(Lrl(left, right), x, y) == PixelAt(Lrl(left, right), x + 2 * left.w, y)
  {
  }

  /** Anaglyph of an image with itself keeps every pixel. */
  lemma AnaglyphOfSame(img: Image)
    requires img.Valid()
    ensures Anaglyph(img, img) == Some(img)
  {
    var a := Anaglyph(img, img).value;
    forall x, y | 0 <= x < img.w && 0 <= y < img.h ensures PixelAt(a, x, y) == PixelAt(img, x, y) {
      assert Broadcast(img, x, y) == PixelAt(img, x, y) by {
        if img.w == 1 { assert x == 0; }
        if img.h == 1 { assert y == 0; }
      }
    }
    SameImage(a, img);
  }

  // ---------------------------------------------------------------------------
  // The compositors on canvases, as the source builds them.

  method CreateAnaglyph(left: Image, right: Image) returns (out: Option<array2<Pixel>>)
    requires left.Valid()
    ensures out.Some? <==> Anaglyph(left, right).Some?
    ensures out.Some? ==> fresh(out.value) && Shows(out.value, Anaglyph(left, right).value)
  {
    var c := NewCanvas(left.w, left.h);
    ghost var img := Blank(left.w, left.h);
    CopyChannel(c, left, Red, img);
    img := AssignChannel(img, left, Red);
    if !BroadcastsTo(right, left.w, left.h) {
      return None;
    }
    CopyChannel(c, right, Green, img);
    img := AssignChannel(img, right, Green);
    CopyChannel(c, right, Blue, img);
    return Some(c);
  }

  method CreateSideBySide(left: Image, right: Image, reverse: bool) returns (c: array2<Pixel>)
    requires left.Valid() && right.Valid()
    ensures fresh(c) && Shows(c, SideBySide(left, right, reverse))
  {
    var w := left.w;
    c := NewCanvas(2 * w, left.h);
    ghost var img := Blank(2 * w, left.h);
    if reverse {
      PasteInto(c, right, 0, 0, img);
      img := Paste(img, right, 0, 0);
      PasteInto(c, left, w, 0, img);
    } else {
      PasteInto(c, left, 0, 0, img);
      img := Paste(img, left, 0, 0);
      PasteInto(c, right, w, 0, img);
    }
  }

  method CreateLrl(left: Image, right: Image) returns (c: array2<Pixel>)
    requires left.Valid() && right.Valid()
    ensures fresh(c) && Shows(c, Lrl(left, right))
  {
    var w := left.w;
    c := NewCanvas(3 * w, left.h);
    ghost var img := Blank(3 * w, left.h);
    PasteInto(c, left, 0, 0, img);
    img := Paste(img, left, 0, 0);
    PasteInto(c, right, w, 0, img);
    img := Paste(img, right, w, 0);
    PasteInto(c, left, 2 * w, 0, img);
  }
}
