/** Failure-carrying results shared by every stage of the language pipeline. */
module Common {

  datatype Option<+T> = None | Some(value: T)

  /** The outcome of one stage: a value, a thrown error carrying its message, or (for the
      two tree walkers, which are modelled with a fuel bound) the exhaustion of that bound. */
  datatype Result<+T> = Ok(value: T) | Err(msg: string) | OutOfFuel {
    predicate IsFailure() { !Ok? }
    function PropagateFailure<U>(): Result<U>
      requires !Ok?
    {
      if Err? then Err(msg) else OutOfFuel
    }
    function Extract(): T
      requires Ok?
    {
      value
    }
  }
}
