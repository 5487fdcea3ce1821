/** What an operation of the search engine can raise, and a result type that carries it. */
module Outcome {

  /** The exceptions the modelled code can raise:
      - InvalidPattern: an empty keyword, on which the shift table's `pattern[-1]` fails;
      - FileNotFound: the file cannot be opened;
      - DecodeFailed: a read of the file meets bytes that are not valid UTF-8;
      - NoWorkers: a worker count of zero, by which the partition size is divided. */
  datatype SearchError = InvalidPattern | FileNotFound | DecodeFailed | NoWorkers

  datatype Result<T> = Success(value: T) | Failure(error: SearchError)
}
