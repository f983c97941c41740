/** Result types shared by every module. */
module Wrappers {

  datatype Option<+T> = None | Some(value: T)

  /** Why a run leaves the model: the program called panic(); it touched an
      address that is not backed by RAM; the C code has no defined result; or the
      instruction is a floating-point one. */
  datatype Reason = Panic | OutsideRam | Undefined | FloatingPoint

  /** The result of code that can stop the emulator. */
  datatype Outcome<+T> = Ok(value: T) | Stop(reason: Reason) {
    predicate IsFailure() { Stop? }

    function PropagateFailure<U>(): Outcome<U>
      requires Stop?
    {
      Stop(reason)
    }

    function Extract(): T
      requires Ok?
    {
      value
    }
  }
}
