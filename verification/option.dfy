/** An optional value usable with `:-`. In this model `None` always stands for a
    null-pointer dereference in the modelled code: the run has no defined result. */
module Maybe {

  datatype Option<+T> = None | Some(value: T) {

    predicate IsFailure() {
      None?
    }

    function PropagateFailure<U>(): Option<U>
      requires None?
    {
      None
    }

    function Extract(): T
      requires Some?
    {
      value
    }
  }
}
