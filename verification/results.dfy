/** Outcomes shared by the whole model: an optional value (Java's null), and a
    computation that either returns or throws one of the Java exceptions the
    modelled code can raise. */
module Results {

  datatype Option<T> = None | Some(value: T)

  /** The exceptions the modelled code lets escape or catches. */
  datatype JavaException =
    | NumberFormat           // Integer.parseInt on a non-number
    | IndexOutOfBounds       // array or list index outside its bounds
    | NullPointer            // a method called on null
    | NoSuchElement          // Optional.get() on an empty Optional
    | Backend                // any failure reported by the repository or file system
    | Runtime                // a checked failure rethrown as a RuntimeException

  datatype Result<T> = Ok(value: T) | Throws(error: JavaException)

  /** A Java double, idealised as a real number, or NaN. */
  datatype Cell = NaN | Num(x: real)
}
