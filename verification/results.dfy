/** Failure-compatible outcome types shared by the trees and the dual-stack set.

    The library signals every rejected input with an `IllegalArgumentException`
    (or its subclass `NumberFormatException`); `Error` keeps apart the checks
    that raise them so that contracts can say which check fires first. The one
    other exception, `ArrayIndexOutOfBoundsException`, comes from reading past
    the end of a 16-byte key.
 */
module Results {

  datatype Error =
    | InvalidArgument      // null, empty or whitespace-only input string
    | InvalidCidrFormat    // splitting on '/' did not give exactly two fields
    | InvalidAddress       // the address literal is not an address of its family
    | InvalidNumber        // Integer.parseInt rejected a decimal field
    | InvalidPrefixLength  // the prefix length lies outside [0, W]
    | InvalidKeyLength     // a pre-parsed IPv6 key is not 16 bytes long
    | IndexOutOfBounds     // a walk read bit 128 of a 16-byte key

  datatype Option<+T> = None | Some(value: T)

  datatype Result<+T> = Ok(value: T) | Err(error: Error) {

    predicate IsFailure() {
      Err?
    }

    function PropagateFailure<U>(): Result<U>
      requires Err?
    {
      Err(error)
    }

    function Extract(): T
      requires Ok?
    {
      value
    }
  }
}
