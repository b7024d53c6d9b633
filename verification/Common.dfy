/** Shared by the models: missing values, C strings, and the case of letters. */
module Common {
  /** A value that may be missing: a null pointer or an error return. */
  datatype Option<+T> = None | Some(value: T)

  const NUL: char := 0 as char

  /** A string as seen by code that stops at the first NUL. */
  function CString(s: string): string {
    if s == "" || s[0] == NUL then "" else [s[0]] + CString(s[1..])
  }

  /** tolower in the C locale. */
  function LowerChar(c: char): char {
    if 'A' <= c <= 'Z' then c - 'A' + 'a' else c
  }

  function Lower(s: string): (r: string)
    ensures |r| == |s|
  {
    seq(|s|, i requires 0 <= i < |s| => LowerChar(s[i]))
  }
}
