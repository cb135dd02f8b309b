/**
 * The pieces of Python's `str` and `re` that the parsers are built from, written out so
 * that their quirks are part of the model: `in` is a plain substring test, `strip()`
 * removes Unicode whitespace, `\b` is a word boundary, and `re.search` reports the
 * leftmost match.
 *
 * `\s` and `str.isspace()` are modelled on their full Unicode set; `\w` and `str.lower()`
 * on ASCII only.
 */
module Text {
  import opened Values

  /** `str.isspace()` on one character; `\s` in a str pattern matches the same set. */
  predicate IsSpace(c: char) {
    var n := c as int;
    n == 0x20 || 0x09 <= n <= 0x0D || 0x1C <= n <= 0x1F || n == 0x85 || n == 0xA0
    || n == 0x1680 || 0x2000 <= n <= 0x200A || n == 0x2028 || n == 0x2029
    || n == 0x202F || n == 0x205F || n == 0x3000
  }

  predicate IsAsciiAlnum(c: char) {
    'a' <= c <= 'z' || 'A' <= c <= 'Z' || '0' <= c <= '9'
  }

  /** `\w`, on ASCII. */
  predicate IsWordChar(c: char) {
    IsAsciiAlnum(c) || c == '_'
  }

  predicate IsUpper(c: char) {
    'A' <= c <= 'Z'
  }

  function LowerChar(c: char): (d: char)
    ensures !IsUpper(d)
    ensures IsSpace(d) == IsSpace(c) && IsWordChar(d) == IsWordChar(c) && IsAsciiAlnum(d) == IsAsciiAlnum(c)
    ensures !IsUpper(c) ==> d == c
  {
    if IsUpper(c) then (c as int + 32) as char else c
  }

  /** `str.lower()`. */
  function Lower(s: string): (r: string)
    ensures |r| == |s|
    ensures forall i :: 0 <= i < |s| ==> r[i] == LowerChar(s[i])
  {
    seq(|s|, i requires 0 <= i < |s| => LowerChar(s[i]))
  }

  predicate AllSpace(s: string) {
    forall i :: 0 <= i < |s| ==> IsSpace(s[i])
  }

  /** The end of the run of characters satisfying P that starts at i. */
  function RunEnd(s: string, i: nat, P: char -> bool): (k: nat)
    requires i <= |s|
    ensures i <= k <= |s|
    ensures forall j :: i <= j < k ==> P(s[j])
    ensures k == |s| || !P(s[k])
    decreases |s| - i
  {
    if i == |s| || !P(s[i]) then i else RunEnd(s, i + 1, P)
  }

  /** A run is determined by where it stops. */
  lemma {:induction false} RunEndAt(s: string, i: nat, P: char -> bool, k: nat)
    requires i <= k <= |s|
    requires forall j :: i <= j < k ==> P(s[j])
    requires k == |s| || !P(s[k])
    ensures RunEnd(s, i, P) == k
    decreases k - i
  {
    if i < k {
      RunEndAt(s, i + 1, P, k);
    }
  }

  /** The start of the run of characters satisfying P that ends at j. */
  function RunStart(s: string, j: nat, P: char -> bool): (k: nat)
    requires j <= |s|
    ensures k <= j
    ensures forall m :: k <= m < j ==> P(s[m])
    ensures k == 0 || !P(s[k - 1])
    decreases j
  {
    if j == 0 || !P(s[j - 1]) then j else RunStart(s, j - 1, P)
  }

  /** `str.strip()`: the text between the leading and the trailing whitespace. */
  function Strip(s: string): (r: string)
    ensures r == "" <==> AllSpace(s)
    ensures r != "" ==> !IsSpace(r[0]) && !IsSpace(r[|r| - 1])
    ensures |r| <= |s|
  {
    var a := RunEnd(s, 0, IsSpace);
    var b := RunStart(s, |s|, IsSpace);
    if a == |s| then "" else s[a..b]
  }

  /** `s.strip().lower()`, the normal form the parsers test keywords against. */
  function StripLower(s: string): string {
    Lower(Strip(s))
  }

  /** A string that starts and ends with a non-space character is its own strip. */
  lemma StripUnpadded(s: string)
    requires s != [] && !IsSpace(s[0]) && !IsSpace(s[|s| - 1])
    ensures Strip(s) == s
  {
  }

  lemma StripIdempotent(s: string)
    ensures Strip(Strip(s)) == Strip(s)
  {
    if Strip(s) != "" {
      StripUnpadded(Strip(s));
    }
  }

  /** Lower-casing works character by character, so it distributes over concatenation. */
  lemma LowerConcat(a: string, b: string)
    ensures Lower(a + b) == Lower(a) + Lower(b)
  {
  }

  lemma LowerIdempotent(s: string)
    ensures Lower(Lower(s)) == Lower(s)
  {
  }

  /** `w` occurs in `s` starting at index i. */
  predicate OccursAt(s: string, w: string, i: int) {
    0 <= i && i + |w| <= |s| && s[i..i + |w|] == w
  }

  /** Python's `w in s`. */
  predicate Contains(s: string, w: string) {
    exists i | 0 <= i <= |s| :: OccursAt(s, w, i)
  }

  /** `s.startswith(w)`. */
  predicate StartsWith(s: string, w: string) {
    OccursAt(s, w, 0)
  }

  /** A sequence that contains `pre + w + post` at i contains w at i + |pre|. */
  lemma OccursInside(s: string, pre: string, w: string, post: string, i: int)
    requires OccursAt(s, pre + w + post, i)
    ensures OccursAt(s, w, i + |pre|)
  {
    var u := pre + w + post;
    forall k | 0 <= k < |w|
      ensures s[i + |pre| + k] == w[k]
    {
      assert s[i + |pre| + k] == s[i..i + |u|][|pre| + k] == u[|pre| + k];
    }
  }

  /** The characters of an occurrence. */
  lemma CharAt(s: string, w: string, p: int, k: int)
    ensures OccursAt(s, w, p) && p <= k < p + |w| ==> s[k] == w[k - p]
  {
    if OccursAt(s, w, p) && p <= k < p + |w| {
      assert s[k] == s[p..p + |w|][k - p];
    }
  }

  /** An occurrence inside s[a..b] is an occurrence in that slice. */
  lemma OccursInSlice(s: string, w: string, p: int, a: int, b: int)
    requires OccursAt(s, w, p) && 0 <= a <= p && p + |w| <= b <= |s|
    ensures OccursAt(s[a..b], w, p - a)
  {
    forall k | 0 <= k < |w|
      ensures s[a..b][p - a + k] == w[k]
    {
      assert s[a..b][p - a + k] == s[p + k] == s[p..p + |w|][k];
    }
  }

  /** A string that lacks the character w[j] does not contain w. */
  lemma NotContainsChar(s: string, w: string, j: int)
    requires 0 <= j < |w| && forall i :: 0 <= i < |s| ==> s[i] != w[j]
    ensures !Contains(s, w)
  {
    forall i | 0 <= i <= |s|
      ensures !OccursAt(s, w, i)
    {
      if i + |w| <= |s| {
        assert s[i..i + |w|][j] == s[i + j];
      }
    }
  }

  /** A string in which w[j] is never followed by w[j + 1] does not contain w. */
  lemma NotContainsPair(s: string, w: string, j: int)
    requires 0 <= j && j + 1 < |w|
    requires forall i :: 0 <= i < |s| - 1 ==> s[i] != w[j] || s[i + 1] != w[j + 1]
    ensures !Contains(s, w)
  {
    forall i | 0 <= i <= |s|
      ensures !OccursAt(s, w, i)
    {
      if i + |w| <= |s| {
        assert s[i..i + |w|][j] == s[i + j] && s[i..i + |w|][j + 1] == s[i + j + 1];
      }
    }
  }

  /** The characters of strip(s) are characters of s. */
  lemma StripChars(s: string, P: char -> bool)
    requires forall i :: 0 <= i < |s| ==> P(s[i])
    ensures forall i :: 0 <= i < |Strip(s)| ==> P(Strip(s)[i])
  {
  }

  /** Is there a `\b` at position i? */
  predicate Boundary(s: string, i: int)
    requires 0 <= i <= |s|
  {
    (i > 0 && IsWordChar(s[i - 1])) != (i < |s| && IsWordChar(s[i]))
  }

  /** The pattern `\bw\b` matches at i. */
  predicate WordAt(s: string, w: string, i: int) {
    OccursAt(s, w, i) && Boundary(s, i) && Boundary(s, i + |w|)
  }

  /**
   * The leftmost match of `re.search`: f(i) is the match of the pattern anchored at i,
   * and positions from, from + 1, ..., n are tried in turn.
   */
  function Search<X>(f: int -> Option<X>, from: int, n: int): Option<X>
    decreases n - from
  {
    if from > n then None
    else if f(from).Some? then f(from)
    else Search(f, from + 1, n)
  }

  lemma {:induction false} SearchFinds<X>(f: int -> Option<X>, from: int, n: int, j: int)
    requires from <= j <= n && f(j).Some?
    requires forall k :: from <= k < j ==> f(k).None?
    ensures Search(f, from, n) == f(j)
    decreases j - from
  {
    if from < j {
      SearchFinds(f, from + 1, n, j);
    }
  }

  lemma {:induction false} SearchNone<X>(f: int -> Option<X>, from: int, n: int)
    requires forall k :: from <= k <= n ==> f(k).None?
    ensures Search(f, from, n) == None
    decreases n - from
  {
    if from <= n {
      SearchNone(f, from + 1, n);
    }
  }

  lemma {:induction false} SearchFound<X>(f: int -> Option<X>, from: int, n: int) returns (j: int)
    requires Search(f, from, n).Some?
    ensures from <= j <= n && f(j) == Search(f, from, n)
    ensures forall k :: from <= k < j ==> f(k).None?
    decreases n - from
  {
    if f(from).Some? {
      j := from;
    } else {
      j := SearchFound(f, from + 1, n);
    }
  }

  lemma {:induction false} SearchSomeIfAny<X>(f: int -> Option<X>, from: int, n: int, j: int)
    requires from <= j <= n && f(j).Some?
    ensures Search(f, from, n).Some?
    decreases j - from
  {
    if from < j && f(from).None? {
      SearchSomeIfAny(f, from + 1, n, j);
    }
  }

  /** When every value f can produce has property P, so does the value the search finds. */
  lemma {:induction false} SearchValue<X>(f: int -> Option<X>, from: int, n: int, P: X -> bool)
    requires forall k :: from <= k <= n && f(k).Some? ==> P(f(k).value)
    ensures Search(f, from, n).Some? ==> P(Search(f, from, n).value)
    decreases n - from
  {
    if from <= n && f(from).None? {
      SearchValue(f, from + 1, n, P);
    }
  }

  /** `s.replace(pat, rep)`: every non-overlapping occurrence, scanning left to right. */
  function ReplaceAll(s: string, pat: string, rep: string): string
    requires pat != ""
    decreases |s|
  {
    if |s| < |pat| then s
    else if s[..|pat|] == pat then rep + ReplaceAll(s[|pat|..], pat, rep)
    else [s[0]] + ReplaceAll(s[1..], pat, rep)
  }

  /** Removing occurrences keeps only characters that were there. */
  lemma {:induction false} ReplaceAllChars(s: string, pat: string, P: char -> bool)
    requires pat != ""
    requires forall i :: 0 <= i < |s| ==> P(s[i])
    ensures forall i :: 0 <= i < |ReplaceAll(s, pat, "")| ==> P(ReplaceAll(s, pat, "")[i])
    decreases |s|
  {
    if |s| >= |pat| {
      if s[..|pat|] == pat {
        ReplaceAllChars(s[|pat|..], pat, P);
        assert ReplaceAll(s, pat, "") == ReplaceAll(s[|pat|..], pat, "");
      } else {
        ReplaceAllChars(s[1..], pat, P);
      }
    }
  }
}
