/** Optional values (a missing work-item field is JavaScript's `undefined`)
    and results (an operation that throws in the source returns `Failure`). */
module Wrappers {

  datatype Option<+T> = None | Some(value: T)

  datatype Result<+R, +E> = Success(value: R) | Failure(error: E)
}

/** The ways in which the core throws. Each is a `TypeError` in the source:
    indexing the `null` that a failed `match` returns, or calling
    `toUpperCase` on `undefined`. */
module Errors {

  datatype Error =
    | MalformedContact      // toMailto: `null[2]` when the contact pattern does not match
    | MissingWorkItemId     // getWorkitem: `null[1]` when the link holds no work-item id
    | MissingWorkItemType   // createAttachment: `undefined.toUpperCase()`
}
