/**
 * The self-contained helpers of `System.Net.Http.FormattingUtilities`:
 * the formatter's depth constants and default XML reader quotas, the
 * media-type collection comparison, and the removal of the bounding quotes
 * of a header token.
 */
module FormattingUtilities {
  import opened Wrappers
  import opened Strings

  // ---------------------------------------------------------------------
  // Depth constants and reader quotas
  // ---------------------------------------------------------------------

  /** The 32-bit signed integers of .NET (`System.Int32`). */
  newtype Int32 = x: int | -0x8000_0000 <= x <= 0x7FFF_FFFF

  /** `Int32.MaxValue`. */
  const Int32MaxValue: Int32 := 0x7FFF_FFFF

  /** The default maximum depth of the formatter's readers. */
  const DefaultMaxDepth: Int32 := 256

  /** The smallest maximum depth the formatter accepts. */
  const DefaultMinDepth: Int32 := 1

  /** The five settable limits of an `XmlDictionaryReaderQuotas` object. */
  datatype XmlDictionaryReaderQuotas = XmlDictionaryReaderQuotas(
    maxArrayLength: Int32,
    maxBytesPerRead: Int32,
    maxDepth: Int32,
    maxNameTableCharCount: Int32,
    maxStringContentLength: Int32)

  /** Every quota is a positive 32-bit value, as the quota setters demand. */
  predicate QuotasInRange(q: XmlDictionaryReaderQuotas)
  {
    q.maxArrayLength > 0 && q.maxBytesPerRead > 0 && q.maxDepth > 0
    && q.maxNameTableCharCount > 0 && q.maxStringContentLength > 0
  }

  /**
   * The quotas the formatters start from: the depth is limited to
   * `DefaultMaxDepth` (256, not the 1K the source's comment mentions), and
   * every size limit is lifted to `Int32.MaxValue`.
   */
  function CreateDefaultReaderQuotas(): (q: XmlDictionaryReaderQuotas)
    ensures q.maxDepth == DefaultMaxDepth
    ensures q.maxArrayLength == Int32MaxValue && q.maxBytesPerRead == Int32MaxValue
    ensures q.maxNameTableCharCount == Int32MaxValue && q.maxStringContentLength == Int32MaxValue
    ensures DefaultMinDepth <= q.maxDepth < 1024
    ensures QuotasInRange(q)
  {
    XmlDictionaryReaderQuotas(
      maxArrayLength := Int32MaxValue,
      maxBytesPerRead := Int32MaxValue,
      maxDepth := DefaultMaxDepth,
      maxNameTableCharCount := Int32MaxValue,
      maxStringContentLength := Int32MaxValue)
  }

  /** The depth range is not empty, and every size limit lies above the depth. */
  lemma DepthRangeNonEmpty()
    ensures 0 < DefaultMinDepth <= DefaultMaxDepth < Int32MaxValue
  {
  }

  // ---------------------------------------------------------------------
  // Collection comparison
  // ---------------------------------------------------------------------

  /**
   * The comparison `ValidateCollection` performs: equal counts, and every
   * expected element contained in `actual`. Containment is checked in one
   * direction only and by element, so duplicates are not counted.
   */
  predicate Matches<V(==)>(actual: seq<V>, expected: seq<V>)
  {
    |actual| == |expected| && forall i | 0 <= i < |expected| :: expected[i] in actual
  }

  /**
   * Whether `actual` holds the media types of `expected`. `actual` is passed
   * by its contents, since the method only reads it; `expected` is the array
   * itself, which the method does not modify.
   */
  method ValidateCollection<V(==)>(actual: seq<V>, expected: array<V>) returns (ok: bool)
    ensures ok <==> |actual| == expected.Length
                    && forall i | 0 <= i < expected.Length :: expected[i] in actual
    ensures ok == Matches(actual, expected[..])
  {
    if |actual| != expected.Length {
      return false;
    }
    var i := 0;
    while i < expected.Length
      invariant 0 <= i <= expected.Length
      invariant forall j | 0 <= j < i :: expected[j] in actual
    {
      if expected[i] !in actual {
        return false;
      }
      i := i + 1;
    }
    return true;
  }

  /** The set of elements of a sequence. */
  function Elements<V>(s: seq<V>): (r: set<V>)
  {
    set x | x in s
  }

  /** No element occurs twice. */
  predicate Distinct<V(==)>(s: seq<V>)
  {
    forall i, j | 0 <= i < j < |s| :: s[i] != s[j]
  }

  /** Collections of different sizes never match. */
  lemma CountMismatchFails<V>(actual: seq<V>, expected: seq<V>)
    requires |actual| != |expected|
    ensures !Matches(actual, expected)
  {
  }

  /** The containment part of `Matches` is inclusion of the element sets. */
  lemma MatchesAsSets<V>(actual: seq<V>, expected: seq<V>)
    ensures Matches(actual, expected) <==>
            |actual| == |expected| && Elements(expected) <= Elements(actual)
  {
    if |actual| == |expected| && Elements(expected) <= Elements(actual) {
      forall i | 0 <= i < |expected| ensures expected[i] in actual {
        assert expected[i] in Elements(expected);
      }
    }
  }

  /** Every collection matches itself. */
  lemma MatchesReflexive<V>(s: seq<V>)
    ensures Matches(s, s)
  {
  }

  /** The result does not depend on the order of either collection. */
  lemma MatchesOrderIndependent<V>(a1: seq<V>, a2: seq<V>, e1: seq<V>, e2: seq<V>)
    requires multiset(a1) == multiset(a2) && multiset(e1) == multiset(e2)
    ensures Matches(a1, e1) == Matches(a2, e2)
  {
    assert |a1| == |multiset(a1)| == |a2|;
    assert |e1| == |multiset(e1)| == |e2|;
    assert Elements(a1) == Elements(a2) by {
      forall x ensures x in a1 <==> x in a2 {
        assert x in a1 <==> x in multiset(a1);
        assert x in a2 <==> x in multiset(a2);
      }
    }
    assert Elements(e1) == Elements(e2) by {
      forall x ensures x in e1 <==> x in e2 {
        assert x in e1 <==> x in multiset(e1);
        assert x in e2 <==> x in multiset(e2);
      }
    }
    MatchesAsSets(a1, e1);
    MatchesAsSets(a2, e2);
  }

  /** A permutation of the expected elements always matches. */
  lemma PermutationMatches<V>(actual: seq<V>, expected: seq<V>)
    requires multiset(actual) == multiset(expected)
    ensures Matches(actual, expected)
  {
    MatchesReflexive(expected);
    MatchesOrderIndependent(expected, actual, expected, expected);
  }

  /**
   * Containment is one-way: `[a, b]` matches the expected `[a, a]`, but
   * `[a, a]` does not match the expected `[a, b]` when `a != b`.
   */
  lemma MatchesIsOneWay<V>(a: V, b: V)
    requires a != b
    ensures Matches([a, b], [a, a])
    ensures !Matches([a, a], [a, b])
    ensures multiset([a, b]) != multiset([a, a])
  {
    assert [a, a][1] == a;
    assert b !in [a, a];
    assert multiset([a, b])[b] == 1;
  }

  /** A sequence has at most as many distinct elements as it is long, and exactly as many iff it is distinct. */
  lemma {:induction false} ElementsCardinality<V>(s: seq<V>)
    ensures |Elements(s)| <= |s|
    ensures |Elements(s)| == |s| <==> Distinct(s)
  {
    if s != [] {
      var t := s[1..];
      ElementsCardinality(t);
      assert Elements(s) == {s[0]} + Elements(t) by {
        forall x ensures x in s <==> x == s[0] || x in t {
          if x in s {
            var k :| 0 <= k < |s| && s[k] == x;
            if k > 0 { assert t[k - 1] == x; }
          }
        }
      }
      if s[0] in t {
        assert Elements(s) == Elements(t);
        var k :| 0 <= k < |t| && t[k] == s[0];
        assert s[k + 1] == s[0];
      } else {
        assert |Elements(s)| == |Elements(t)| + 1;
        if Distinct(t) {
          forall i, j | 0 <= i < j < |s| ensures s[i] != s[j] {
            if i == 0 { assert s[j] == t[j - 1]; } else { assert s[i] == t[i - 1] && s[j] == t[j - 1]; }
          }
        }
        if Distinct(s) {
          forall i, j | 0 <= i < j < |t| ensures t[i] != t[j] {
            assert t[i] == s[i + 1] && t[j] == s[j + 1];
          }
        }
      }
    }
  }

  /** A subset is no larger than its superset. */
  lemma {:induction false} SubsetCardinality<V>(x: set<V>, y: set<V>)
    requires x <= y
    ensures |x| <= |y|
  {
    if x != {} {
      var e :| e in x;
      SubsetCardinality(x - {e}, y - {e});
    }
  }

  /** A distinct sequence holds each of its elements exactly once. */
  lemma {:induction false} DistinctMultiset<V>(s: seq<V>)
    requires Distinct(s)
    ensures multiset(s) == multiset(Elements(s))
  {
    if s != [] {
      var t := s[1..];
      assert s == [s[0]] + t;
      assert Distinct(t) by {
        forall i, j | 0 <= i < j < |t| ensures t[i] != t[j] {
          assert t[i] == s[i + 1] && t[j] == s[j + 1];
        }
      }
      DistinctMultiset(t);
      assert s[0] !in t by {
        forall k | 0 <= k < |t| ensures t[k] != s[0] {
          assert t[k] == s[k + 1];
        }
      }
      assert Elements(s) == {s[0]} + Elements(t);
      assert s[0] !in Elements(t);
      assert multiset(Elements(s)) == multiset{s[0]} + multiset(Elements(t));
    }
  }

  /**
   * When the expected media types are distinct, a match holds exactly
   * when the two collections are identical: they hold the same elements
   * the same number of times.
   */
  lemma DistinctExpectedMatchIsPermutation<V>(actual: seq<V>, expected: seq<V>)
    requires Distinct(expected)
    ensures Matches(actual, expected) <==> multiset(actual) == multiset(expected)
  {
    if Matches(actual, expected) {
      MatchesAsSets(actual, expected);
      ElementsCardinality(actual);
      ElementsCardinality(expected);
      var A, E := Elements(actual), Elements(expected);
      assert E <= A;
      assert |A| <= |E|;
      assert A == E by {
        if A != E {
          var x :| x in A && x !in E;
          assert E <= A - {x};
          SubsetCardinality(E, A - {x});
        }
      }
      assert Distinct(actual);
      DistinctMultiset(actual);
      DistinctMultiset(expected);
    } else if multiset(actual) == multiset(expected) {
      PermutationMatches(actual, expected);
    }
  }

  /**
   * When the expected array has a duplicate, and some value `b` is missing
   * from it, a collection that is not identical still matches: replacing
   * the second copy of the duplicate by `b` keeps the match.
   */
  lemma DuplicateExpectedAdmitsNonPermutation<V>(expected: seq<V>, i: nat, j: nat, b: V)
    requires i < j < |expected| && expected[i] == expected[j]
    requires b !in expected
    ensures Matches(expected[j := b], expected)
    ensures multiset(expected[j := b]) != multiset(expected)
  {
    var actual := expected[j := b];
    forall k | 0 <= k < |expected| ensures expected[k] in actual {
      if k == j {
        assert actual[i] == expected[k];
      } else {
        assert actual[k] == expected[k];
      }
    }
    assert actual[j] == b;
    assert multiset(actual)[b] > 0;
    assert multiset(expected)[b] == 0;
  }

  // ---------------------------------------------------------------------
  // Unquoting header tokens
  // ---------------------------------------------------------------------

  /** The token `s` enclosed in one pair of double quotes. */
  function Quote(s: string): (t: string)
    ensures |t| == |s| + 2 && t[0] == '"' && t[|t| - 1] == '"'
    ensures t[1..|t| - 1] == s
  {
    ['"'] + s + ['"']
  }

  /**
   * Removes the bounding double quotes of a token, if it has both. A null,
   * empty or blank token comes back unchanged. Whatever is returned is the
   * token itself, or the token with one pair of bounding quotes removed.
   */
  function UnquoteToken(token: Option<string>): (r: Option<string>)
    ensures r.None? <==> token.None?
    ensures token.Some? ==> |r.value| <= |token.value|
    ensures r != token ==> token.value == Quote(r.value)
  {
    if IsNullOrWhiteSpace(token) then
      token
    else
      var t := token.value;
      if StartsWith(t, '"') && EndsWith(t, '"') && |t| > 1 then
        Some(t[1..|t| - 1])
      else
        token
  }

  /** A null, empty or white-space-only token is returned unchanged. */
  lemma UnquoteBlankUnchanged(token: Option<string>)
    requires IsNullOrWhiteSpace(token)
    ensures UnquoteToken(token) == token
  {
  }

  /**
   * A token of two or more characters that starts and ends with a quote
   * loses exactly those two characters and keeps its interior, whatever the
   * interior holds.
   */
  lemma UnquoteStripsOnePair(t: string)
    requires |t| > 1 && t[0] == '"' && t[|t| - 1] == '"'
    ensures UnquoteToken(Some(t)).Some?
    ensures UnquoteToken(Some(t)).value == t[1..|t| - 1]
    ensures |UnquoteToken(Some(t)).value| == |t| - 2
  {
    QuoteIsNotWhiteSpace();
  }

  /** A non-null token that lacks either bounding quote, or is a lone quote, is returned unchanged. */
  lemma UnquoteOtherwiseUnchanged(t: string)
    requires !(|t| > 1 && t[0] == '"' && t[|t| - 1] == '"')
    ensures UnquoteToken(Some(t)) == Some(t)
  {
  }

  /** The lone quote `"` starts and ends with a quote but is kept by the length guard. */
  lemma UnquoteLoneQuote()
    ensures UnquoteToken(Some("\"")) == Some("\"")
  {
  }

  /** Unquoting undoes quoting, for every string, including the blank ones. */
  lemma UnquoteRoundTrip(s: string)
    ensures UnquoteToken(Some(Quote(s))) == Some(s)
  {
    UnquoteStripsOnePair(Quote(s));
  }

  /** Only one layer of quotes is removed. */
  lemma UnquoteOneLayer(s: string)
    ensures UnquoteToken(Some(Quote(Quote(s)))) == Some(Quote(s))
  {
    UnquoteRoundTrip(Quote(s));
  }
}
