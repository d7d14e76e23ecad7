/**
 * The MNIST framing of a drawing, as values: crop to the ink's box, centre
 * the crop on a square black canvas, resize that to 20x20, and paste the
 * result at (4, 4) on a 28x28 black canvas.
 */
module Framing {
  import opened Wrappers
  import opened Images
  import opened Bounds

  /** The digit area MNIST expects, and the black border around it. */
  const TileSize := 20
  const FinalSize := 28
  const Margin := 4

  /** The output of the resampling step: always 20x20. */
  type Tile = t: Gray | t.width == 20 && t.height == 20
    witness Image(20, 20, seq(20, _ => seq(20, _ => 0)))

  /** Why framing can fail: no pixel is above the threshold. */
  datatype Failure = NoDrawing

  /**
   * image.crop((cmin, rmin, cmax, rmax)): the box's last row and last column
   * fall outside the crop, because PIL's right and lower bounds are exclusive.
   */
  function CropToBox(img: Gray, b: Box): (c: Gray)
    requires b.cmin <= b.cmax && b.rmin <= b.rmax
  {
    Crop(img, b.cmin, b.rmin, b.cmax, b.rmax)
  }

  /** The crop of a box inside the image is (cmax-cmin) x (rmax-rmin) and copies the source from (rmin, cmin) on. */
  lemma CropToBoxPixels(img: Gray, b: Box)
    requires b.rmin <= b.rmax < img.height && b.cmin <= b.cmax < img.width
    ensures var c := CropToBox(img, b);
            c.width == b.cmax - b.cmin && c.height == b.rmax - b.rmin &&
            forall i, j :: 0 <= i < c.height && 0 <= j < c.width ==> c.px[i][j] == img.px[b.rmin + i][b.cmin + j]
  {
  }

  /** max(width, height): the side of the square canvas. */
  function Side(w: nat, h: nat): (side: nat)
    ensures w <= side && h <= side && (side == w || side == h)
  {
    if w < h then h else w
  }

  /**
   * ((max_dim - width) // 2, (max_dim - height) // 2): where the crop's
   * top-left corner goes on the square canvas.
   */
  function Offset(w: nat, h: nat): (o: (nat, nat))
    ensures o.0 + w <= Side(w, h) && o.1 + h <= Side(w, h)
    ensures Side(w, h) - (o.0 + w) == o.0 || Side(w, h) - (o.0 + w) == o.0 + 1
    ensures Side(w, h) - (o.1 + h) == o.1 || Side(w, h) - (o.1 + h) == o.1 + 1
    ensures w == Side(w, h) ==> o.0 == 0
    ensures h == Side(w, h) ==> o.1 == 0
  {
    var side := Side(w, h);
    ((side - w) / 2, (side - h) / 2)
  }

  /** The crop pasted at its offset on a black max_dim x max_dim canvas. */
  function Squared(crop: Gray): (sq: Gray) {
    var side := Side(crop.width, crop.height);
    var o := Offset(crop.width, crop.height);
    Paste(Blank(side, side), crop, o.0, o.1)
  }

  /**
   * The square canvas is max_dim on each side, holds the whole crop at the
   * offset (nothing is clipped), and is black everywhere else.
   */
  lemma SquaredLayout(crop: Gray)
    ensures var sq, side, o := Squared(crop), Side(crop.width, crop.height), Offset(crop.width, crop.height);
            sq.width == side && sq.height == side &&
            (forall i, j :: 0 <= i < crop.height && 0 <= j < crop.width ==>
               sq.px[o.1 + i][o.0 + j] == crop.px[i][j]) &&
            (forall y, x :: 0 <= y < side && 0 <= x < side && !Covers(crop, o.0, o.1, y, x) ==>
               sq.px[y][x] == 0)
  {
    var sq, side, o := Squared(crop), Side(crop.width, crop.height), Offset(crop.width, crop.height);
    forall i, j | 0 <= i < crop.height && 0 <= j < crop.width
      ensures sq.px[o.1 + i][o.0 + j] == crop.px[i][j]
    {
      assert Covers(crop, o.0, o.1, o.1 + i, o.0 + j);
    }
  }

  /** The 20x20 tile pasted at (4, 4) on a black 28x28 canvas. */
  function Framed(tile: Tile): (f: Gray) {
    Paste(Blank(FinalSize, FinalSize), tile, Margin, Margin)
  }

  /**
   * Whatever the tile holds, the framed image is 28x28, its 4-pixel border is
   * black, and pixel (4+i, 4+j) is the tile's pixel (i, j).
   */
  lemma FramedLayout(tile: Tile)
    ensures var f := Framed(tile);
            f.width == 28 && f.height == 28 &&
            (forall y, x :: 0 <= y < 28 && 0 <= x < 28 && (y < 4 || y >= 24 || x < 4 || x >= 24) ==>
               f.px[y][x] == 0) &&
            (forall i, j :: 0 <= i < 20 && 0 <= j < 20 ==> f.px[4 + i][4 + j] == tile.px[i][j])
  {
    var f := Framed(tile);
    forall i, j | 0 <= i < 20 && 0 <= j < 20
      ensures f.px[4 + i][4 + j] == tile.px[i][j]
    {
      assert Covers(tile, 4, 4, 4 + i, 4 + j);
    }
  }

  /**
   * The whole preprocessing of the endpoint, lines 47-72: the "no drawing"
   * failure when no pixel is above the threshold, otherwise the 28x28 frame of
   * the resized square crop. `resize` stands for the LANCZOS resampling.
   */
  function Normalize(img: Gray, resize: Gray -> Tile): (r: Result<Gray, Failure>)
    ensures r.Failure? <==> !HasDrawing(img)
    ensures r.Success? ==> r.value.width == 28 && r.value.height == 28
  {
    match FindBox(img)
    case None => Failure(NoDrawing)
    case Some(b) => Success(Framed(resize(Squared(CropToBox(img, b)))))
  }

  /** Any drawing frames the crop of its one tight box. */
  lemma NormalizeFramesTightBox(img: Gray, resize: Gray -> Tile, b: Box)
    requires Tight(img, b)
    ensures Normalize(img, resize) == Success(Framed(resize(Squared(CropToBox(img, b)))))
  {
    assert HasDrawing(img) by {
      var x :| 0 <= x < img.width && Foreground(img.px[b.rmin][x]);
    }
    TightUnique(img, FindBox(img).value, b);
  }

  /**
   * A mark of one pixel gives a one-pixel box, an empty 0x0 crop (its only row
   * and column are the excluded lower and right bounds) and a 0x0 square, and
   * framing still succeeds.
   */
  lemma SinglePixelMark(img: Gray, resize: Gray -> Tile, y0: nat, x0: nat)
    requires y0 < img.height && x0 < img.width && Foreground(img.px[y0][x0])
    requires forall y, x :: 0 <= y < img.height && 0 <= x < img.width && Foreground(img.px[y][x]) ==>
               y == y0 && x == x0
    ensures FindBox(img) == Some(Box(y0, y0, x0, x0))
    ensures CropToBox(img, Box(y0, y0, x0, x0)) == Blank(0, 0)
    ensures Squared(Blank(0, 0)) == Blank(0, 0)
    ensures Normalize(img, resize) == Success(Framed(resize(Blank(0, 0))))
  {
    var b := Box(y0, y0, x0, x0);
    assert RowHasInk(img, y0) && ColHasInk(img, x0);
    assert Tight(img, b);
    TightUnique(img, FindBox(img).value, b);
    SamePixels(CropToBox(img, b), Blank(0, 0));
    SamePixels(Squared(Blank(0, 0)), Blank(0, 0));
  }
}
