/**
 * POST /predict: the request's `image` field is checked, decoded and framed,
 * then the lazily loaded network classifies the frame. Decoding (data-URL
 * split, base64, PNG, grayscale conversion), resampling and inference are
 * inputs to the handler.
 */
module Endpoint {
  import opened Wrappers
  import opened Images
  import opened Bounds
  import opened Framing
  import opened ModelCache
  import Canvas

  /** The JSON answer: a digit and its probability, or an HTTP error status with a message. */
  datatype Response = Prediction(digit: int, confidence: real) | Error(status: nat, message: string)

  const MissingImage: string := "Görüntü verisi bulunamadı"
  const NoDrawingFound: string := "Çizim bulunamadı"
  const ModelNotReady: string := "Model henüz hazır değil"

  /**
   * The handler's answer and the model slot it leaves behind, for a request
   * whose JSON body is `request`, given the slot before the call.
   */
  function Respond<M>(request: map<string, string>, decode: string -> Gray, resize: Gray -> Tile,
                      slot: Option<M>, fileExists: bool, onDisk: M,
                      infer: (M, Gray) -> (int, real)): (out: (Response, Option<M>))
    ensures "image" !in request ==> out.1 == slot
    ensures out.0 == Error(400, MissingImage) <==> "image" !in request
    ensures "image" in request && !HasDrawing(decode(request["image"])) ==> out.1 == slot
    ensures out.0 == Error(400, NoDrawingFound) <==>
              "image" in request && !HasDrawing(decode(request["image"]))
    ensures "image" in request && HasDrawing(decode(request["image"])) ==>
              out.1 == GetModel(slot, fileExists, onDisk).slot
    ensures out.0 == Error(500, ModelNotReady) <==>
              "image" in request && HasDrawing(decode(request["image"])) && slot.None? && !fileExists
    ensures out.0.Prediction? <==>
              "image" in request && HasDrawing(decode(request["image"])) && (slot.Some? || fileExists)
    ensures out.0.Prediction? ==>
              "image" in request && out.1.Some? &&
              Normalize(decode(request["image"]), resize).Success? &&
              (out.0.digit, out.0.confidence) ==
                infer(out.1.value, Normalize(decode(request["image"]), resize).value)
  {
    if "image" !in request then (Error(400, MissingImage), slot)
    else
      match Normalize(decode(request["image"]), resize)
      case Failure(_) => (Error(400, NoDrawingFound), slot)
      case Success(frame) =>
        var s := GetModel(slot, fileExists, onDisk);
        match s.returned
        case None => (Error(500, ModelNotReady), s.slot)
        case Some(m) =>
          var p := infer(m, frame);
          (Prediction(p.0, p.1), s.slot)
  }

  /**
   * predict(): frames the drawing on canvases and consults the cache only
   * when there is a drawing to classify.
   */
  method Predict<M>(cache: Cache<M>, request: map<string, string>, decode: string -> Gray,
                    resize: Gray -> Tile, fileExists: bool, onDisk: M,
                    infer: (M, Gray) -> (int, real)) returns (resp: Response)
    requires cache.Valid()
    modifies cache
    ensures cache.Valid()
    ensures (resp, cache.model) == Respond(request, decode, resize, old(cache.model), fileExists, onDisk, infer)
    ensures resp.Error? && resp.status == 400 ==> cache.loads == old(cache.loads)
  {
    if "image" !in request {
      return Error(400, MissingImage);
    }
    var img := decode(request["image"]);
    var framed := Canvas.Frame(img, resize);
    if framed.Failure? {
      return Error(400, NoDrawingFound);
    }
    var frame := Canvas.Snapshot(framed.value);
    var m := cache.Get(fileExists, onDisk);
    if m.None? {
      return Error(500, ModelNotReady);
    }
    var p := infer(m.value, frame);
    return Prediction(p.0, p.1);
  }
}
