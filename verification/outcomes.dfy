/** Optional values, results, and the failures the crop pipeline can raise. */
module Outcomes {

  datatype Option<+T> = None | Some(value: T)

  /** The ways the modelled Python code raises instead of returning. */
  datatype Failure =
    | NotAnInterval                  // assert_interval: "Must be an interval"
    | BadLiteral(text: string)       // int() of a field that is not a decimal literal
    | MissingField                   // IndexError: too few '_'-separated fields or tile names
    | BigRoundingError               // special_round: "Big rounding error induced !"
    | TransformNotInvertible         // from_bounds on a transform with a zero pixel size
    | NegativeShape                  // np.full with a negative dimension
    | WindowOutOfRange               // a pixel window that does not lie inside its array
    | WindowShapeMismatch            // source and destination windows of different sizes
    | InvalidDatum                   // datum neither "ellipsoidal" nor "orthometric"
    | TileIdsNotAscending            // assert lon_ids[0] <= lon_ids[1] (or lat)
    | DownloadFailed(lonId: int, latId: int)  // a download error other than ConnectionError
    | OpenFailed(lonId: int, latId: int)      // rasterio.open of a tile file that is not there
    | NoDemFound                     // ValueError("No DEM found on bounds")
    | InvalidLonInterval             // crop: "Not valid lon interval"
    | HeightsUnchanged               // to_ellipsoid: the conversion changed no height

  datatype Result<+T> = Ok(value: T) | Err(error: Failure) {
    predicate IsFailure() { Err? }

    function PropagateFailure<U>(): Result<U>
      requires Err?
    {
      Err(error)
    }

    function Extract(): T
      requires Ok?
    {
      value
    }
  }
}
