/** Failure-carrying results shared by every module: the source reports
    its errors by throwing `Error(message)`; here an error is a value. */
module Outcomes {

  datatype Option<+T> = None | Some(value: T)

  datatype Result<+T> = Ok(value: T) | Err(msg: string) {
    predicate IsFailure() { Err? }

    function PropagateFailure<U>(): Result<U>
      requires Err?
    {
      Err(msg)
    }

    function Extract(): T
      requires Ok?
    {
      value
    }
  }

  /** Regrouping a concatenation; the solver finds this only by
      extensionality, which is costly inside larger proofs. */
  lemma Assoc<T>(x: seq<T>, y: seq<T>, z: seq<T>)
    ensures (x + y) + z == x + (y + z)
  {
  }

  lemma AppendEmpty<T>(x: seq<T>)
    ensures [] + x == x && x + [] == x && x[0..] == x
  {
  }
}
