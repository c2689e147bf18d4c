/** JavaScript strings as sequences of UTF-16 code units. */
module Utf16 {

  /** One UTF-16 code unit; `String.prototype.length` counts these. */
  newtype CodeUnit = x: int | 0 <= x < 0x1_0000

  /** The first half of a surrogate pair. */
  predicate IsHighSurrogate(u: CodeUnit) {
    0xD800 <= u < 0xDC00
  }

  /** The second half of a surrogate pair. */
  predicate IsLowSurrogate(u: CodeUnit) {
    0xDC00 <= u < 0xE000
  }

  /**
   * The code units of a text whose characters all lie in the Basic
   * Multilingual Plane: each character is a single unit of the same value.
   * Such a text never holds half of a surrogate pair.
   */
  function FromBmp(s: string): (units: seq<CodeUnit>)
    requires forall i :: 0 <= i < |s| ==> (s[i] as int) < 0x1_0000
    ensures forall i :: 0 <= i < |units| ==> !IsHighSurrogate(units[i]) && !IsLowSurrogate(units[i])
  {
    seq(|s|, i requires 0 <= i < |s| => s[i] as int as CodeUnit)
  }
}
