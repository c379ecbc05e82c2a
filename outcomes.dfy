/** The ways one invocation of the handler can stop with an exception, and
    the Success/Failure wrapper the model uses in place of raising. */
module Outcomes {

  /** Each constructor is one exception the handler lets propagate. */
  datatype Error =
    | NoContents                  // the listing has no 'Contents' entry: the bucket is empty
    | Unreadable(key: string)     // download_file or read_parquet failed for this key
    | NoObjectsToConcatenate      // pd.concat was handed an empty list
    | NoPartitionValue(name: string)   // split('=')[1] on a name without '='
    | NotYearAndMonth(name: string)    // the value does not unpack into exactly (year, month)

  datatype Result<+T> = Success(value: T) | Failure(error: Error)
}
