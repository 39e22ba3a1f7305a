/**
 * The few members of .NET's `System.String` and `System.Char` that the
 * formatting utilities rely on. A `string` is a sequence of Unicode scalar
 * values, so lengths count scalars, and a .NET string holding a lone
 * surrogate has no counterpart; a possibly-null string reference is an
 * `Option<string>`.
 */
module Strings {
  import opened Wrappers

  /**
   * `Char.IsWhiteSpace`: the Unicode space, line and paragraph separators
   * together with the control characters U+0009..U+000D and U+0085.
   * Nothing below depends on this list except through the lemma
   * `QuoteIsNotWhiteSpace`.
   */
  predicate IsWhiteSpace(c: char)
  {
    var n := c as int;
    || (0x09 <= n <= 0x0D)
    || n == 0x20 || n == 0x85 || n == 0xA0 || n == 0x1680
    || (0x2000 <= n <= 0x200A)
    || n == 0x2028 || n == 0x2029 || n == 0x202F || n == 0x205F || n == 0x3000
  }

  /** The double quote that bounds a quoted token is not white space. */
  lemma QuoteIsNotWhiteSpace()
    ensures !IsWhiteSpace('"')
  {
  }

  /** `String.IsNullOrWhiteSpace`: null, empty, or white space only. */
  predicate IsNullOrWhiteSpace(s: Option<string>)
  {
    match s
    case None => true
    case Some(t) => forall i | 0 <= i < |t| :: IsWhiteSpace(t[i])
  }

  /** `s.StartsWith(c, StringComparison.Ordinal)` for a one-character prefix. */
  predicate StartsWith(s: string, c: char)
  {
    |s| > 0 && s[0] == c
  }

  /** `s.EndsWith(c, StringComparison.Ordinal)` for a one-character suffix. */
  predicate EndsWith(s: string, c: char)
  {
    |s| > 0 && s[|s| - 1] == c
  }
}
