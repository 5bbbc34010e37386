/** Shared vocabulary of the store: bytes, C strings, the machine word and
    the return codes declared in rottDB.h. */
module Basics {

  /** One `char` of a key or value, read as an unsigned byte. */
  type byte = x: int | 0 <= x < 256

  /** The bytes of a NUL-terminated C string, without the terminator. */
  type CStr = s: seq<byte> | 0 !in s

  datatype Option<T> = None | Some(value: T)

  /** 2^64: `unsigned long` and `size_t` on the LP64 hosts the library targets. */
  const WORD: nat := 0x1_0000_0000_0000_0000

  // Error codes: every failure is negative, and callers test `code < 0`.
  const Error: int := -1
  const NoMemory: int := -2
  const KeyInvalid: int := -3  // declared in the header, never returned
  const KeyExist: int := -4
  const KeyNotExist: int := -5

  // Success codes: never negative.
  const Success: int := 0
  const Added: int := 1
  const Updated: int := 2

  /** The test every caller in the library applies to a return code. */
  predicate Failed(code: int) {
    code < 0
  }

  /** Every error code reads as a failure and every success code does not. */
  lemma CodeSigns()
    ensures Failed(Error) && Failed(NoMemory) && Failed(KeyInvalid)
    ensures Failed(KeyExist) && Failed(KeyNotExist)
    ensures !Failed(Success) && !Failed(Added) && !Failed(Updated)
  {
  }
}
