# Formatting utilities of System.Net.Http.Formatting

A Dafny model of the self-contained helpers in `FormattingUtilities`, the
internal utility class of the web stack's HTTP content-formatting library:

- `UnquoteToken` removes one pair of bounding double quotes from a header
  token, such as a quoted-string parameter value (section 3.2.6 of RFC 7230).
  A null, empty or white-space-only token comes back unchanged.
- `ValidateCollection` compares a collection of media-type header values with
  an expected array. It requires equal counts, and then it checks that every
  expected element is contained in the actual collection. The loop stops at
  the first missing element.
- `CreateDefaultReaderQuotas` builds the XML reader quotas the formatters start
  from. The depth limit comes from `DefaultMaxDepth` (256). The four size
  limits are set to `Int32.MaxValue`. `DefaultMinDepth` (1) is the smallest
  depth the formatters accept.

Files:

- `wrappers.dfy` holds `Option`. `None` stands for a null reference.
- `strings.dfy` models the .NET string members the code calls:
  `Char.IsWhiteSpace`, `String.IsNullOrWhiteSpace`, and ordinal
  `StartsWith`/`EndsWith`.
- `formatting_utilities.dfy` holds the three operations and the lemmas about
  them.

Modelling choices:

- `UnquoteToken` is a pure function on `Option<string>`.
- `ValidateCollection` is a method with a loop and an early return. It is
  proved against the predicate `Matches`, and the lemmas about the comparison
  are stated on `Matches`. `actual` is passed as its contents (a `seq`), since
  the method only reads it. `Collection.Contains` becomes sequence membership.
  `expected` is an `array`. The method has no `modifies` clause, so Dafny
  checks that it changes neither input.
- The media-type element type is a type parameter with equality. Dafny's `==`
  stands in for `MediaTypeHeaderValue.Equals`.
- The quotas are a datatype of five `Int32` fields.

Where the comments and the code disagree, the model follows the code:

- The comment on `CreateDefaultReaderQuotas` speaks of a depth quota of "1K".
  The code uses `DefaultMaxDepth`, which is 256.
- The comment on `ValidateCollection` says the method checks that the
  collections are "identical". The code checks containment in one direction
  only: actual `[a, b]` matches expected `[a, a]` (`MatchesIsOneWay`).
  `DistinctExpectedMatchIsPermutation` proves that, when the expected array
  has no duplicates, a match holds exactly when the two collections are
  identical (same elements, same multiplicities).
  `DuplicateExpectedAdmitsNonPermutation` proves the converse for every
  expected array with a duplicate and a value missing from it: some
  collection that is not identical still matches.

## Model

| member | source | states |
|---|---|---|
| `Strings.QuoteIsNotWhiteSpace` | src/System.Net.Http.Formatting/FormattingUtilities.cs:173 | the double quote is not white space, so a token that starts with a quote never takes the blank branch |
| `FormattingUtilities.CreateDefaultReaderQuotas` | src/System.Net.Http.Formatting/FormattingUtilities.cs:154-164 | MaxDepth is DefaultMaxDepth (256, within [DefaultMinDepth, 1024)); MaxArrayLength, MaxBytesPerRead, MaxNameTableCharCount and MaxStringContentLength are Int32.MaxValue; every quota is a positive 32-bit value |
| `FormattingUtilities.DepthRangeNonEmpty` | src/System.Net.Http.Formatting/FormattingUtilities.cs:17-25 | 0 < DefaultMinDepth <= DefaultMaxDepth < Int32.MaxValue |
| `FormattingUtilities.ValidateCollection` | src/System.Net.Http.Formatting/FormattingUtilities.cs:132-148 | returns true exactly when the counts are equal and every element of expected is contained in actual; it modifies neither input |
| `FormattingUtilities.CountMismatchFails` | src/System.Net.Http.Formatting/FormattingUtilities.cs:134-137 | collections of different counts never match |
| `FormattingUtilities.MatchesAsSets` | src/System.Net.Http.Formatting/FormattingUtilities.cs:139-147 | the containment loop is the same as inclusion of expected's element set in actual's element set, given equal counts |
| `FormattingUtilities.MatchesReflexive` | src/System.Net.Http.Formatting/FormattingUtilities.cs:132-148 | every collection matches itself |
| `FormattingUtilities.MatchesOrderIndependent` | src/System.Net.Http.Formatting/FormattingUtilities.cs:132-148 | reordering actual or expected (same multisets) does not change the result |
| `FormattingUtilities.PermutationMatches` | src/System.Net.Http.Formatting/FormattingUtilities.cs:132-148 | a permutation of expected always matches |
| `FormattingUtilities.MatchesIsOneWay` | src/System.Net.Http.Formatting/FormattingUtilities.cs:139-147 | for a != b: [a, b] matches expected [a, a], [a, a] does not match expected [a, b], and [a, b] and [a, a] are not permutations of each other |
| `FormattingUtilities.DistinctExpectedMatchIsPermutation` | src/System.Net.Http.Formatting/FormattingUtilities.cs:126-148 | when expected has no duplicates, a match holds exactly when actual is a permutation of expected ("identical") |
| `FormattingUtilities.DuplicateExpectedAdmitsNonPermutation` | src/System.Net.Http.Formatting/FormattingUtilities.cs:139-147 | when expected[i] == expected[j] for some i < j and some b is missing from expected, replacing expected[j] by b gives a collection that matches but is not a permutation of expected |
| `FormattingUtilities.UnquoteToken` | src/System.Net.Http.Formatting/FormattingUtilities.cs:171-184 | null in, null out; the result is never longer than the token; a result different from the token is the token with one pair of bounding quotes removed |
| `FormattingUtilities.UnquoteBlankUnchanged` | src/System.Net.Http.Formatting/FormattingUtilities.cs:173-176 | a null, empty or white-space-only token is returned unchanged |
| `FormattingUtilities.UnquoteStripsOnePair` | src/System.Net.Http.Formatting/FormattingUtilities.cs:178-181 | a token of length > 1 that starts and ends with a quote becomes its interior characters 1..n-2, of length exactly n-2 |
| `FormattingUtilities.UnquoteOtherwiseUnchanged` | src/System.Net.Http.Formatting/FormattingUtilities.cs:178-183 | a token missing either bounding quote, or shorter than two characters, is returned unchanged |
| `FormattingUtilities.UnquoteLoneQuote` | src/System.Net.Http.Formatting/FormattingUtilities.cs:178 | the one-character token consisting of a quote is kept by the length guard |
| `FormattingUtilities.UnquoteRoundTrip` | src/System.Net.Http.Formatting/FormattingUtilities.cs:173-181 | for every string s, unquoting `"s"` gives s, including when s is empty or blank |
| `FormattingUtilities.UnquoteOneLayer` | src/System.Net.Http.Formatting/FormattingUtilities.cs:178-181 | only one layer of quotes is removed: unquoting `""s""` gives `"s"` |

## Left out

- `CreateEmptyContentHeaders` (FormattingUtilities.cs:104-124): it allocates a `StringContent`, clears its headers and disposes it. This is resource handling on a foreign library object, with no behaviour to state.
- `IsJTokenType` and the `Type` constants (FormattingUtilities.cs:50-97): these are reflection over Json.NET and framework types.
- The HTTP header-name and version string constants (FormattingUtilities.cs:27-45): they are bare literals with no logic.
- Null arguments to `ValidateCollection` are not modelled. The source would throw a `NullReferenceException`; Dafny's `seq` and `array` types are never null.
- `MediaTypeHeaderValue.Equals` is kept abstract as `==` on a type parameter. Its case-insensitive comparison of media types and parameters is not modelled.
- `Strings.IsWhiteSpace` lists the code points of `Char.IsWhiteSpace`. The proofs rely only on `QuoteIsNotWhiteSpace`. Strings are sequences of Unicode scalar values. Lone surrogates cannot be represented, and a supplementary character counts as one element where .NET's `Length` counts two. Culture is not modelled.
- The other members of `XmlDictionaryReaderQuotas`, and the range checks its setters make, are not part of this model. `QuotasInRange` only states that the five values used are positive.
- The validator, model-binder and marker-attribute files of the repository are not part of this model. Their behaviour lives in sources that are not shown.
