/** The value types of the corner-selection logic: points, the four ranked
    candidate lists, probe measurements and the per-edge trace entries.
    All of them are immutable records. */
module Model {

  /** An integer pixel position, as produced by the keypoint detector. */
  datatype Point = Point(x: int, y: int)

  /** Four copies of the candidate list, each ranked for one corner role,
      together with the number of candidates. */
  datatype MaxCornerPoints = MaxCornerPoints(
    topLeft: seq<Point>,
    topRight: seq<Point>,
    bottomLeft: seq<Point>,
    bottomRight: seq<Point>,
    length: nat)

  /** The four coordinates examined at one probe radius. */
  datatype MidPointMeasurement = MidPointMeasurement(posX: int, negX: int, posY: int, negY: int)

  /** The outcome of probing one point: whether an edge was found and the
      measurements taken, one per radius tried. */
  datatype MeasuredMidPoint = MeasuredMidPoint(
    point: Point,
    hitEdge: bool,
    midPointMeasurements: seq<MidPointMeasurement>)

  /** One attempted pair of corner candidates for one edge of the document. */
  datatype EdgePoints = EdgePoints(
    point1: Point,
    point2: Point,
    bestMatch: bool,
    measuredMidPoint: MeasuredMidPoint)

  /** The run-time error of the search: a list slot that holds no point was
      dereferenced. `index` is the slot that was read. */
  datatype SearchError = UndefinedPoint(index: int)

  /** Either a value or the error that ended the computation; usable with `:-`. */
  datatype Result<T> = Success(value: T) | Failure(error: SearchError) {

    predicate IsFailure() {
      Failure?
    }

    function PropagateFailure<U>(): Result<U>
      requires Failure?
    {
      Failure(error)
    }

    function Extract(): T
      requires Success?
    {
      value
    }
  }

  /** A value that may be missing; a missing buffer byte reads as `None`. */
  datatype Option<T> = None | Some(value: T)

  function Min(a: int, b: int): int {
    if a <= b then a else b
  }

  function Max(a: int, b: int): int {
    if a <= b then b else a
  }
}
