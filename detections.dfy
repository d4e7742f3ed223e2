/** What the detector reports and how the `detections` column holds it. */
module Detections {

  /** One object the detector found: its class name (the `label` key) and its
      confidence score. */
  datatype Detection = Detection(name: string, confidence: real)

  /** The nullable TEXT column `detections`. The app writes `str(detections)`
      (Serialized); a NULL or an empty text can only come from a database the app
      did not write, and reads back as no detections. */
  datatype StoredDetections = NullText | EmptyText | Serialized(value: seq<Detection>)

  /** `str(detections)` on insert and update. The stored text is never empty, even
      for no detections, and reading it back gives the same detections. */
  function Serialize(detections: seq<Detection>): (stored: StoredDetections)
    ensures !stored.NullText? && !stored.EmptyText?
    ensures Deserialize(stored) == detections
  {
    Serialized(detections)
  }

  /** `ast.literal_eval(text) if text else []` of `index`. A list with detections
      in it can only come from text the app wrote for that same list. */
  function Deserialize(stored: StoredDetections): (detections: seq<Detection>)
    ensures detections != [] ==> stored == Serialized(detections)
  {
    match stored
    case NullText => []
    case EmptyText => []
    case Serialized(detections) => detections
  }

  /** NULL and empty text read back as an empty list, however they got there. */
  lemma MissingTextReadsEmpty(stored: StoredDetections)
    requires stored.NullText? || stored.EmptyText?
    ensures Deserialize(stored) == []
  {
  }
}
