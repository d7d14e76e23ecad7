/**
 * Locating the drawing: the foreground threshold, the per-row and per-column
 * "any pixel above the threshold" masks, the positions of their true entries,
 * and the bounding box read off the first and last of those positions.
 */
module Bounds {
  import opened Wrappers
  import opened Images

  /** Intensities strictly above this count as ink on the black background. */
  const Threshold := 30

  predicate Foreground(v: Pixel) {
    v > Threshold
  }

  /** np.any(line > 30): some pixel of the line is foreground. */
  function AnyForeground(line: seq<Pixel>): (r: bool)
    ensures r <==> exists i :: 0 <= i < |line| && Foreground(line[i])
  {
    if line == [] then false
    else Foreground(line[0]) || AnyForeground(line[1..])
  }

  /** Column x of the image, top to bottom. */
  function Column(img: Gray, x: nat): (col: seq<Pixel>)
    requires x < img.width
    ensures |col| == img.height
    ensures forall y :: 0 <= y < img.height ==> col[y] == img.px[y][x]
  {
    seq(img.height, y requires 0 <= y < img.height => img.px[y][x])
  }

  ghost predicate RowHasInk(img: Gray, y: nat)
    requires y < img.height
  {
    exists x :: 0 <= x < img.width && Foreground(img.px[y][x])
  }

  ghost predicate ColHasInk(img: Gray, x: nat)
    requires x < img.width
  {
    exists y :: 0 <= y < img.height && Foreground(img.px[y][x])
  }

  /** Some pixel of the image is above the threshold. */
  ghost predicate HasDrawing(img: Gray) {
    exists y, x :: 0 <= y < img.height && 0 <= x < img.width && Foreground(img.px[y][x])
  }

  /** rows = np.any(img_np > 30, axis=1): one entry per row, true where that row holds ink. */
  function Rows(img: Gray): (rows: seq<bool>)
    ensures |rows| == img.height
    ensures forall y :: 0 <= y < img.height ==> (rows[y] <==> RowHasInk(img, y))
  {
    seq(img.height, y requires 0 <= y < img.height => AnyForeground(img.px[y]))
  }

  /** cols = np.any(img_np > 30, axis=0): one entry per column, true where that column holds ink. */
  function Cols(img: Gray): (cols: seq<bool>)
    ensures |cols| == img.width
    ensures forall x :: 0 <= x < img.width ==> (cols[x] <==> ColHasInk(img, x))
  {
    seq(img.width, x requires 0 <= x < img.width => AnyForeground(Column(img, x)))
  }

  /** np.where(mask)[0]: the positions of the true entries of `mask`, each once, in increasing order. */
  function Where(mask: seq<bool>): (idx: seq<nat>)
    ensures forall k :: 0 <= k < |idx| ==> idx[k] < |mask| && mask[idx[k]]
    ensures forall i :: 0 <= i < |mask| && mask[i] ==> i in idx
    ensures forall k, l :: 0 <= k < l < |idx| ==> idx[k] < idx[l]
  {
    if mask == [] then []
    else
      var n := |mask| - 1;
      Where(mask[..n]) + (if mask[n] then [n] else [])
  }

  /** The first and last position of a true entry are the smallest and the largest such position. */
  lemma WhereEnds(mask: seq<bool>, i: nat)
    requires i < |mask| && mask[i]
    ensures var idx := Where(mask); |idx| > 0 && idx[0] <= i <= idx[|idx| - 1]
  {
    var idx := Where(mask);
    var k :| 0 <= k < |idx| && idx[k] == i;
    assert k > 0 ==> idx[0] < idx[k];
    assert k < |idx| - 1 ==> idx[k] < idx[|idx| - 1];
  }

  /** Some row is marked in `rows` exactly when the image holds ink, and likewise some column in `cols`. */
  lemma MasksSeeDrawing(img: Gray)
    ensures (true in Rows(img)) <==> HasDrawing(img)
    ensures (true in Cols(img)) <==> HasDrawing(img)
  {
    var rows, cols := Rows(img), Cols(img);
    if HasDrawing(img) {
      var y, x :| 0 <= y < img.height && 0 <= x < img.width && Foreground(img.px[y][x]);
      assert rows[y];
      assert cols[x];
    }
    if true in rows {
      var y :| 0 <= y < |rows| && rows[y];
      assert RowHasInk(img, y);
    }
    if true in cols {
      var x :| 0 <= x < |cols| && cols[x];
      assert ColHasInk(img, x);
    }
  }

  /** The bounding box of the ink: first and last row, first and last column, all inclusive. */
  datatype Box = Box(rmin: nat, rmax: nat, cmin: nat, cmax: nat)

  /**
   * The tightest box around the ink: it lies inside the image, its four edges
   * each touch a foreground pixel, and every foreground pixel lies within it.
   */
  ghost predicate Tight(img: Gray, b: Box) {
    b.rmin <= b.rmax < img.height && b.cmin <= b.cmax < img.width &&
    RowHasInk(img, b.rmin) && RowHasInk(img, b.rmax) &&
    ColHasInk(img, b.cmin) && ColHasInk(img, b.cmax) &&
    (forall y :: 0 <= y < img.height && RowHasInk(img, y) ==> b.rmin <= y <= b.rmax) &&
    (forall x :: 0 <= x < img.width && ColHasInk(img, x) ==> b.cmin <= x <= b.cmax) &&
    (forall y, x :: 0 <= y < img.height && 0 <= x < img.width && Foreground(img.px[y][x]) ==>
       b.rmin <= y <= b.rmax && b.cmin <= x <= b.cmax)
  }

  /** The first and last marked row and column enclose the ink tightly. */
  lemma EndsAreTight(img: Gray)
    requires |Where(Rows(img))| > 0 && |Where(Cols(img))| > 0
    ensures var rs, cs := Where(Rows(img)), Where(Cols(img));
            Tight(img, Box(rs[0], rs[|rs| - 1], cs[0], cs[|cs| - 1]))
  {
    var rows, cols := Rows(img), Cols(img);
    var rs, cs := Where(rows), Where(cols);
    var b := Box(rs[0], rs[|rs| - 1], cs[0], cs[|cs| - 1]);
    assert rows[b.rmin] && rows[b.rmax] && cols[b.cmin] && cols[b.cmax];
    WhereEnds(rows, b.rmin);
    WhereEnds(cols, b.cmin);
    forall y | 0 <= y < img.height && RowHasInk(img, y)
      ensures b.rmin <= y <= b.rmax
    {
      WhereEnds(rows, y);
    }
    forall x | 0 <= x < img.width && ColHasInk(img, x)
      ensures b.cmin <= x <= b.cmax
    {
      WhereEnds(cols, x);
    }
    forall y, x | 0 <= y < img.height && 0 <= x < img.width && Foreground(img.px[y][x])
      ensures b.rmin <= y <= b.rmax && b.cmin <= x <= b.cmax
    {
      assert RowHasInk(img, y);
      assert ColHasInk(img, x);
    }
  }

  /**
   * The box search of the endpoint: None when neither mask has a true entry (the
   * "no drawing" case), otherwise the first and last true position of each.
   */
  function FindBox(img: Gray): (r: Option<Box>)
    ensures r.None? <==> !HasDrawing(img)
    ensures r.Some? ==> Tight(img, r.value)
  {
    var rows := Rows(img);
    var cols := Cols(img);
    MasksSeeDrawing(img);
    if !(true in rows) || !(true in cols) then None
    else
      var rs := Where(rows);
      var cs := Where(cols);
      assert |rs| > 0 && |cs| > 0 by {
        var y :| 0 <= y < |rows| && rows[y];
        var x :| 0 <= x < |cols| && cols[x];
        WhereEnds(rows, y);
        WhereEnds(cols, x);
      }
      EndsAreTight(img);
      Some(Box(rs[0], rs[|rs| - 1], cs[0], cs[|cs| - 1]))
  }

  /** At most one box is tight around a given drawing, so FindBox's answer is the only right one. */
  lemma TightUnique(img: Gray, a: Box, b: Box)
    requires Tight(img, a) && Tight(img, b)
    ensures a == b
  {
  }
}
