/** Values shared by the list and the sorter: Java's `null`, its exceptions
    and the bounds of its 32-bit `int`. */
module Wrappers {

  /** A slot of the backing array: `None` is Java's `null`, which the list
      stores as an ordinary element. */
  datatype Option<+T> = None | Some(value: T)

  /** The exceptions the list can throw. */
  datatype Exception =
    | ArrayIndexOutOfBounds  // a bad index, checked by the list or by the JVM
    | IllegalState           // "List Is Full": size already equals Integer.MAX_VALUE
    | Arithmetic             // integer division by zero
    | NegativeArraySize      // an array allocated with a negative length

  /** The outcome of a Java method that returns a value or throws. */
  datatype Result<+R> = Ok(value: R) | Err(error: Exception)

  /** The outcome of a Java `void` method. */
  datatype Outcome = Done | Thrown(error: Exception)

  /** Integer.MAX_VALUE: no Java array or list is longer. */
  const INT_MAX: int := 0x7fff_ffff

  /** Java's `int`. */
  type int32 = x: int | -0x8000_0000 <= x <= INT_MAX
}
