/**
 * Grayscale ('L' mode) images as values, and the three PIL operations the
 * endpoint applies to them: Image.new with a zero fill, crop and paste.
 */
module Images {
  /** One 8-bit grayscale intensity. */
  type Pixel = v: int | 0 <= v <= 255

  /** An image of size (width, height); px holds its rows, top row first. */
  datatype Image = Image(width: nat, height: nat, px: seq<seq<Pixel>>) {
    predicate Valid() {
      |px| == height && forall y :: 0 <= y < height ==> |px[y]| == width
    }
  }

  /** A well-formed image: every row has `width` pixels. */
  type Gray = img: Image | img.Valid() witness Image(0, 0, [])

  /** Image.new('L', (w, h), 0): a canvas of the given size, all black. */
  function Blank(w: nat, h: nat): (img: Gray)
    ensures img.width == w && img.height == h
    ensures forall y, x :: 0 <= y < h && 0 <= x < w ==> img.px[y][x] == 0
  {
    Image(w, h, seq(h, _ => seq(w, _ => 0)))
  }

  /** The pixel at row y, column x, or 0 where that position lies outside the image. */
  function PixelOrZero(img: Gray, y: int, x: int): Pixel {
    if 0 <= y < img.height && 0 <= x < img.width then img.px[y][x] else 0
  }

  /**
   * img.crop((left, upper, right, lower)). The right and lower bounds are
   * exclusive; positions beyond the image's edge come out 0. PIL refuses a box
   * whose right lies left of its left, or whose lower lies above its upper.
   */
  function Crop(img: Gray, left: int, upper: int, right: int, lower: int): (c: Gray)
    requires left <= right && upper <= lower
    ensures c.width == right - left && c.height == lower - upper
    ensures forall i, j :: 0 <= i < c.height && 0 <= j < c.width ==>
              c.px[i][j] == PixelOrZero(img, upper + i, left + j)
  {
    var rows := seq(lower - upper, i => seq<Pixel>(right - left, j => PixelOrZero(img, upper + i, left + j)));
    assert forall i :: 0 <= i < |rows| ==> |rows[i]| == right - left;
    Image(right - left, lower - upper, rows)
  }

  /** True when row y, column x falls under `src` pasted with its top-left corner at (left, top). */
  predicate Covers(src: Gray, left: int, top: int, y: int, x: int) {
    top <= y < top + src.height && left <= x < left + src.width
  }

  /** The pixel at row y, column x of `dst` after pasting `src` at (left, top). */
  function PastedPixel(dst: Gray, src: Gray, left: int, top: int, y: nat, x: nat): Pixel
    requires y < dst.height && x < dst.width
  {
    if Covers(src, left, top, y, x) then src.px[y - top][x - left] else dst.px[y][x]
  }

  /**
   * dst.paste(src, (left, top)) as a value: the part of `src` that falls on
   * `dst` replaces those pixels, the part beyond `dst`'s edges is clipped away,
   * and the size of `dst` does not change.
   */
  function Paste(dst: Gray, src: Gray, left: int, top: int): (r: Gray)
    ensures r.width == dst.width && r.height == dst.height
  {
    Image(dst.width, dst.height,
          seq(dst.height, y requires 0 <= y < dst.height =>
            seq(dst.width, x requires 0 <= x < dst.width => PastedPixel(dst, src, left, top, y, x))))
  }

  /** Two images of the same size with the same pixels are the same image. */
  lemma SamePixels(a: Gray, b: Gray)
    requires a.width == b.width && a.height == b.height
    requires forall y, x :: 0 <= y < a.height && 0 <= x < a.width ==> a.px[y][x] == b.px[y][x]
    ensures a == b
  {
    forall y | 0 <= y < a.height
      ensures a.px[y] == b.px[y]
    {
      assert |a.px[y]| == |b.px[y]| == a.width;
    }
    assert a.px == b.px;
  }
}
