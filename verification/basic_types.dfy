/**
 Shared vocabulary of the library: the length type, the optional value used
 for possibly-null pointers, and the outcome of a mutator that reports success
 through a boolean.
 */
module BasicTypes {

  /** `vsl::len`: an unsigned count of elements. */
  type Len = nat

  /** A value that may be absent; `None` stands for a null pointer. */
  datatype Option<+T> = None | Some(value: T)

  /** The boolean a mutator returns, together with the object it leaves behind. */
  datatype Step<+S> = Step(ok: bool, after: S)
}
