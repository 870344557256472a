/** The optional-value type shared by every module of the model.  `None`
    stands for a value that is absent: JavaScript's `undefined`, or `null`
    where the modelled code treats the two alike.  Where they differ (a
    `claimedBy` sent as `null` is written to the column as `NULL`, one that
    is left out keeps the column) the model has only the absent case. */
module Wrappers {

  datatype Option<+T> = None | Some(value: T)
}
