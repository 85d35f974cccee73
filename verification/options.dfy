/** A small failure-compatible Option type, used by every reader in the model
    (a short or malformed bit stream, a missing jitter-buffer entry). */
module Options {

  datatype Option<+T> = None | Some(value: T) {

    predicate IsFailure() {
      None?
    }

    function PropagateFailure<U>(): Option<U>
      requires None?
    {
      None
    }

    function Extract(): T
      requires Some?
    {
      value
    }
  }

  /** What a reader returns: the value it read and the unread remainder of
      its input stream (bits for the packet codec, bytes for the image file). */
  datatype Read<+T, +E> = Read(value: T, rest: seq<E>)
}
