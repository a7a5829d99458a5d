/** Failure-carrying results shared by every module of the model. */
module Wrappers {

  /** `None` stands for JavaScript's `undefined` / `null`. */
  datatype Option<T> = None | Some(value: T)

  /** The exceptions the modelled code can throw. */
  datatype Error =
    | MalformedTree   // `throw new Error('Malformed tree. ...')` in insertInTree
    | TypeError       // a property read on `undefined`, or `.length` of `undefined`
    | RangeError      // a Buffer read past its end
    | OutsideModel    // a prefix length outside 0..32 reaching the prefix arithmetic, or a walk that would not advance

  datatype Result<T> = Ok(value: T) | Err(error: Error) {
    predicate IsFailure() { Err? }

    function PropagateFailure<U>(): Result<U>
      requires Err?
    {
      Err(error)
    }

    function Extract(): T
      requires Ok?
    {
      value
    }
  }
}
