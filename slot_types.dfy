/** Basic vocabulary of the sparse vector: a buffer cell and the failures its
    checked operations report. */
module SlotTypes {

  /** One cell of the buffer: the C++ `value_info` pair of a value slot and an
      `exist` flag. `Live(v)` is a cell whose flag is set and whose value is
      constructed; `Free` is a cell whose flag is clear (no constructed value).
      Placement construction sets a cell to `Live`, destruction sets it to `Free`. */
  datatype Cell<T> = Free | Live(value: T)

  /** The failures the container throws as `std::out_of_range`, told apart by
      their messages. */
  datatype Error =
    | IndexOutOfRange     // "out of sparse_vector range" / "index out of sparse_vector size"
    | ValueMissing        // "value doesnt exist in sparse_vector on this index"
    | ValueAlreadyExists  // "value already exist in sparse_vector on this index"
    | EmptyContainer      // "sparse_vector is empty on pop_back"

  /** The outcome of an operation that may throw. */
  datatype Result<T> = Ok(value: T) | Err(error: Error)
}
