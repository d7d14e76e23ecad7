# DigitVision-AI: preprocessing and model cache of the prediction endpoint

This project models the part of the handwritten-digit demo's web server that
is deterministic: the `/predict` handler in `app.py`, which frames a grayscale
drawing the way MNIST digits are framed, and `get_model`, which loads the
trained network lazily into a process-wide slot.

The framing works on a grayscale pixel grid (values 0..255):

1. A pixel is foreground when its value is above 30. `rows` and `cols` mark
   the rows and columns that hold foreground (`Bounds.Rows`, `Bounds.Cols`).
2. If no row (equivalently, no column) is marked, the answer is
   400 "Çizim bulunamadı". Otherwise the box is the first and last marked
   row and column (`Bounds.FindBox`). It is proved to be the one tight box
   (`Bounds.Tight`, `Bounds.TightUnique`).
3. The image is cropped with PIL's box `(cmin, rmin, cmax, rmax)`. Its right
   and lower bounds are exclusive, so the crop is `(cmax-cmin) x (rmax-rmin)`.
   The box's last row and last column are not part of it. A one-pixel mark
   gives a 0x0 crop (`Framing.SinglePixelMark`).
4. The crop is pasted on a black square of side `max(width, height)` at
   offset `((side-width) // 2, (side-height) // 2)` (`Framing.Squared`).
5. The square is resized to 20x20 and pasted at (4, 4) on a black 28x28
   canvas (`Framing.Framed`).

`Framing.Normalize` states the whole pipeline as a function on values.
`Canvas.Frame` performs it as the handler does: it allocates black canvases
(`Canvas.NewCanvas`) and pastes into them in place (`Canvas.PasteInto`).
It is proved to produce exactly `Normalize`'s result.
`ModelCache.Cache` is the global `model` slot. `Endpoint.Predict` is the
handler, proved against the function `Endpoint.Respond`.

Files: `wrappers.dfy` (Option, Result), `images.dfy` (images as values; PIL's
new, crop and paste), `bounds.dfy` (threshold, masks, box), `framing.dfy`
(crop, square, 28x28 frame), `canvas.dfy` (the in-place canvases),
`model_cache.dfy` (`get_model`), `endpoint.dfy` (the handler).

## Model

| member | source | states |
|---|---|---|
| `Images.Blank` | app.py:63 | `Image.new('L', size, 0)` has the requested size and every pixel is 0 |
| `Images.Crop` | app.py:58 | the crop of box (left, upper, right, lower) is (right-left) x (lower-upper); crop pixel (i, j) is source pixel (upper+i, left+j), or 0 beyond the source's edge |
| `Images.Paste` | app.py:65 | pasting never changes the size of the canvas pasted on |
| `Bounds.AnyForeground` | app.py:48-49 | `np.any(line > 30)` is true exactly when some pixel of the line is above 30 |
| `Bounds.Rows` | app.py:48 | `rows` has one entry per image row, true exactly when that row holds a pixel above 30 |
| `Bounds.Cols` | app.py:49 | `cols` has one entry per image column, true exactly when that column holds a pixel above 30 |
| `Bounds.Where` | app.py:54-55 | `np.where(mask)[0]` lists every true position of the mask, only those, strictly increasing |
| `Bounds.WhereEnds` | app.py:54-55 | the first and last listed positions are the smallest and largest true positions |
| `Bounds.MasksSeeDrawing` | app.py:48-51 | some row is marked exactly when some pixel is above 30, exactly when some column is marked, so the two tests of line 51 agree |
| `Bounds.EndsAreTight` | app.py:54-55 | the first and last marked row and column form a tight box |
| `Bounds.FindBox` | app.py:47-55 | no box exactly when no pixel is above 30; otherwise `rmin <= rmax`, `cmin <= cmax`, rows rmin and rmax (columns cmin and cmax) are the smallest and largest holding ink, and every pixel above 30 lies in `[rmin..rmax] x [cmin..cmax]` |
| `Bounds.TightUnique` | app.py:54-55 | two tight boxes of the same image are equal |
| `Framing.CropToBoxPixels` | app.py:58 | the crop of the box is (cmax-cmin) wide and (rmax-rmin) high; its pixel (i, j) is source pixel (rmin+i, cmin+j) |
| `Framing.Side` | app.py:62 | `max_dim` is at least the width and the height and equals one of them |
| `Framing.Offset` | app.py:64 | the offsets are non-negative, offset+size <= side on both axes, the margin after the crop equals the one before it or exceeds it by one, and the offset along the longer side is 0 |
| `Framing.SquaredLayout` | app.py:62-65 | the square canvas is side x side, holds every crop pixel at offset+(i, j), and is 0 everywhere outside the pasted rectangle |
| `Framing.FramedLayout` | app.py:71-72 | whatever the 20x20 image holds, the final image is 28x28, every pixel with row or column < 4 or >= 24 is 0, and pixel (4+i, 4+j) is pixel (i, j) of the 20x20 image |
| `Framing.Normalize` | app.py:47-72 | preprocessing fails with "no drawing" exactly when no pixel is above 30, and otherwise yields a 28x28 image |
| `Framing.NormalizeFramesTightBox` | app.py:47-72 | for any drawing, the result is the frame of the resized square made from the crop of its tight box |
| `Framing.SinglePixelMark` | app.py:54-58 | a single pixel above 30 gives a one-pixel box, a 0x0 crop and a 0x0 square, and preprocessing still succeeds |
| `Canvas.NewCanvas` | app.py:63 | a new canvas is fresh, of the requested size, and all 0 |
| `Canvas.PasteInto` | app.py:65 | after pasting in place, the canvas holds the paste of the source onto its previous contents |
| `Canvas.Frame` | app.py:47-72 | the in-place framing fails exactly when `Normalize` does, with "no drawing", and otherwise returns a fresh 28x28 canvas holding `Normalize`'s image |
| `ModelCache.GetModel` | app.py:16-24 | a call loads the file exactly when the slot is empty and the file exists; a filled slot is returned unchanged; an absent file leaves an empty slot empty; the call returns the slot |
| `ModelCache.LoadsAtMostOnce` | app.py:16-24 | over any series of calls the file is loaded at most once; never when the slot starts filled (it then stays the same); from an empty slot, once exactly when some call finds the file, which then fills the slot |
| `ModelCache.Cache.constructor` | app.py:13-14 | the server starts with an empty slot and no load |
| `ModelCache.Cache.Get` | app.py:16-24 | the slot, the returned value and the load count change as `GetModel` says, and at most one load ever happens |
| `Endpoint.Respond` | app.py:34-90 | 400 "Görüntü verisi bulunamadı" exactly when the `image` key is missing, and then the slot is untouched; 400 "Çizim bulunamadı" exactly when the key is present and no pixel is above 30, and then the model is not consulted; a prediction exactly when there is a drawing and the slot is filled or the file exists; 500 "Model henüz hazır değil" exactly when there is a drawing, the slot is empty and the file is absent; a prediction is the network's answer on `Normalize`'s 28x28 image |
| `Endpoint.Predict` | app.py:32-90 | the handler's answer and the slot it leaves are those of `Respond`; a 400 answer never loads the model |

## Left out

- The LANCZOS resize (app.py:68) is the parameter `resize`. It is assumed to return a 20x20 image for every input, including the 0x0 square of a one-pixel mark. How Pillow resamples an empty image is not modelled.
- The division by 255 and the reshape into a 1x28x28x1 tensor (app.py:75-76) are floating point and tensor layout. The model hands the 28x28 integer image to the network.
- Decoding (app.py:39-42) is the parameter `decode`: data-URL split, base64 (RFC 4648 section 4), PNG decoding and grayscale conversion. A value without a comma, bad base64 or a non-image raises an uncaught exception in the source; those failures are not modelled.
- A request body that is not a JSON object (app.py:34), or an `image` value that is not a string, is not modelled: the request is a map from keys to strings.
- Inference, argmax and confidence (app.py:83-85) are the parameter `infer`.
- Whether the model file exists, and the network that `load_model` returns, are inputs (`fileExists`, `onDisk`). The console message of app.py:23 is output only and is left out.
- A failing load is not modelled: a file that exists is assumed to load. In the source, `load_model` (app.py:21) can raise on an unreadable or incompatible file; `model` then stays None and the exception escapes `predict` as an unhandled 500, where the model answers with a prediction.
- Flask routing, `render_template`, `jsonify` and `app.run` (app.py:26-29, 92-94) are web plumbing.
- Thread safety of the global `model`: the cache is modelled as a sequential state machine.
- train_model.py is framework configuration, training and plotting. static/script.js is browser UI. Neither is part of this model.
- Images.Paste: its own contract states only that the size is unchanged. What lands where is stated, for the handler's two pastes, by `Framing.SquaredLayout` and `Framing.FramedLayout`.
