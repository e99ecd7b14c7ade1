/** Small types shared by every component of the model. */
module Common {

  type Byte = b: int | 0 <= b < 256

  type Bit = b: int | 0 <= b < 2

  /** Device serials. */
  type Serial = string

  /** The source's nil slices, missing map entries and failed lookups. */
  datatype Option<+T> = None | Some(value: T) {
    predicate IsFailure() {
      None?
    }

    function PropagateFailure<U>(): Option<U>
      requires None?
    {
      None
    }

    function Extract(): T
      requires Some?
    {
      value
    }
  }
}
