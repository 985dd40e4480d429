/** Strings of 16-bit characters as gnu-efi passes them: in a buffer, up to a NUL. */
module WideStrings {
  type CHAR16 = x: int | 0 <= x < 0x10000

  const SPACE: CHAR16 := 32

  /** A buffer holding a string and its NUL. */
  predicate Terminated(b: seq<CHAR16>)
  {
    |b| != 0 && b[|b| - 1] == 0 && forall k :: 0 <= k < |b| - 1 ==> b[k] != 0
  }
}
