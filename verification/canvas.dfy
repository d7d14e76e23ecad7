/**
 * The framing as the endpoint performs it: PIL canvases are pixel buffers
 * that Image.new allocates black and paste overwrites in place.
 */
module Canvas {
  import opened Wrappers
  import opened Images
  import opened Bounds
  import opened Framing

  /** The image a canvas currently holds: Length0 rows of Length1 pixels. */
  function Snapshot(a: array2<Pixel>): (img: Gray)
    reads a
    ensures img.width == a.Length1 && img.height == a.Length0
    ensures forall y, x :: 0 <= y < a.Length0 && 0 <= x < a.Length1 ==> img.px[y][x] == a[y, x]
  {
    var rows := seq(a.Length0, y requires 0 <= y < a.Length0 reads a =>
                  seq(a.Length1, x requires 0 <= x < a.Length1 reads a => a[y, x]));
    assert forall y :: 0 <= y < |rows| ==> |rows[y]| == a.Length1;
    Image(a.Length1, a.Length0, rows)
  }

  /** Image.new('L', (w, h), 0): a fresh all-black canvas. */
  method NewCanvas(w: nat, h: nat) returns (c: array2<Pixel>)
    ensures fresh(c)
    ensures Snapshot(c) == Blank(w, h)
  {
    c := new Pixel[h, w]((y, x) => 0);
    SamePixels(Snapshot(c), Blank(w, h));
  }

  /** canvas.paste(src, (left, top)): overwrites the covered pixels that lie on the canvas. */
  method PasteInto(canvas: array2<Pixel>, src: Gray, left: int, top: int)
    modifies canvas
    ensures Snapshot(canvas) == Paste(old(Snapshot(canvas)), src, left, top)
  {
    ghost var before := Snapshot(canvas);
    var i := 0;
    while i < src.height
      invariant 0 <= i <= src.height
      invariant forall y, x :: 0 <= y < canvas.Length0 && 0 <= x < canvas.Length1 ==>
                  canvas[y, x] == if top <= y < top + i && left <= x < left + src.width
                                  then src.px[y - top][x - left] else before.px[y][x]
    {
      var j := 0;
      while j < src.width
        invariant 0 <= j <= src.width
        invariant forall y, x :: 0 <= y < canvas.Length0 && 0 <= x < canvas.Length1 ==>
                    canvas[y, x] == if (top <= y < top + i && left <= x < left + src.width) ||
                                       (y == top + i && left <= x < left + j)
                                    then src.px[y - top][x - left] else before.px[y][x]
      {
        var y, x := top + i, left + j;
        if 0 <= y < canvas.Length0 && 0 <= x < canvas.Length1 {
          canvas[y, x] := src.px[i][j];
        }
        j := j + 1;
      }
      i := i + 1;
    }
    SamePixels(Snapshot(canvas), Paste(before, src, left, top));
  }

  /**
   * Lines 47-72 of the endpoint: the "no drawing" failure, or a fresh 28x28
   * canvas holding exactly the frame that Normalize describes.
   */
  method Frame(img: Gray, resize: Gray -> Tile) returns (r: Result<array2<Pixel>, Failure>)
    ensures r.Failure? <==> Normalize(img, resize).Failure?
    ensures r.Failure? ==> r.error == NoDrawing
    ensures r.Success? ==> fresh(r.value) && Snapshot(r.value) == Normalize(img, resize).value
  {
    var found := FindBox(img);
    if found.None? {
      return Failure(NoDrawing);
    }
    var b := found.value;
    var cropped := CropToBox(img, b);
    var side := Side(cropped.width, cropped.height);
    var offset := Offset(cropped.width, cropped.height);
    var square := NewCanvas(side, side);
    PasteInto(square, cropped, offset.0, offset.1);
    var tile := resize(Snapshot(square));
    var final := NewCanvas(FinalSize, FinalSize);
    PasteInto(final, tile, Margin, Margin);
    return Success(final);
  }
}
