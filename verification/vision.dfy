/** The parts of the image-analysis service's response that the worker
    reads: caption, tags, detected objects and read (OCR) text. Each of the
    four may be absent from a response. */
module Vision {
  import opened Wrappers

  /** A confidence score. The service returns a floating-point number; the
      model carries it through unchanged as its decimal text. */
  datatype Score = Score(lexeme: string)

  /** Pixel rectangle of a detected object. */
  datatype BoundingBox = BoundingBox(x: int, y: int, width: int, height: int)

  datatype Caption = Caption(text: string, confidence: Score)

  datatype DetectedTag = DetectedTag(name: string, confidence: Score)

  /** An object with its box and the tags the service proposes for it, most
      likely first. */
  datatype DetectedObject = DetectedObject(boundingBox: BoundingBox, tags: seq<DetectedTag>)

  datatype Line = Line(text: string)

  datatype Block = Block(lines: seq<Line>)

  datatype ReadResult = ReadResult(blocks: seq<Block>)

  datatype AnalysisResult = AnalysisResult(
    caption: Option<Caption>,
    tags: Option<seq<DetectedTag>>,
    objects: Option<seq<DetectedObject>>,
    read: Option<ReadResult>)
}
