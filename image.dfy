/** The value types the face parser produces, shaped as the parser builds them. */
module Image {

  /** A face's bounding box in source-image pixels, taken as the detector reports it. */
  datatype Rect = Rect(x: int, y: int, width: int, height: int)

  /** One detected face: its (emotion label, confidence) pairs and its bounding box. */
  datatype Face = Face(scores: seq<(string, real)>, rect: Rect)
}
