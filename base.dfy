/** Failure-carrying values shared by every module of the model. */
module Base {

  /** Ruby's `nil` is `None`; a present value is `Some`. */
  datatype Option<+T> = None | Some(value: T)

  /** Why a `TypeError` was raised. */
  datatype Reason =
    | WrongArgumentType   // Check_Type on a value of the wrong Ruby class
    | PackedNotBoolean    // "Expected packed: to be a boolean"
    | UnknownDtype        // "Expected :dtype to be one of :float, :double"
    | NilToFloat          // NUM2DBL applied to nil (an element read past the end of an array)

  /** The only exception class the extension raises. */
  datatype Error = TypeError(reason: Reason)

  datatype Result<+T> = Ok(value: T) | Err(error: Error)

  /**
   * Ruby's `arr[i]`, which is also what `rb_ary_entry(arr, i)` returns: a
   * negative index counts from the end, and an index past either end is `nil`.
   */
  function Entry(arr: seq<real>, i: int): (e: Option<real>)
    ensures e.Some? <==> -|arr| <= i < |arr|
    ensures e.Some? ==> e.value in arr
    ensures 0 <= i < |arr| ==> e == Some(arr[i])
    ensures -|arr| <= i < 0 ==> e == Some(arr[|arr| + i])
  {
    if 0 <= i < |arr| then Some(arr[i])
    else if -|arr| <= i < 0 then Some(arr[|arr| + i])
    else None
  }
}
