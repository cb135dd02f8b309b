/**
 * utils/nlp/parser.py: the keyword parser that turns one text message into a list of
 * (intent, entities) commands.
 *
 * The message is stripped and lower-cased, then tested against keyword groups in a
 * fixed order by plain substring tests.  A message that mentions add, assign or give
 * is split on the whole word "and" and yields one add command per chunk that mentions
 * one of them again; every other message yields exactly one command.
 */
module NlpParser {
  import opened Values
  import opened Text

  /** parse_natural_date: the empty text never reaches the date parser. */
  function NaturalDate(text: string, parse: DateParser): (r: Option<Timestamp>)
    ensures text == "" ==> r == None
    ensures text != "" ==> r == parse(text, true)
  {
    if text == "" then None else parse(text, true)
  }

  /** Python's `a or b` on two optional strings: a when it is a non-empty string, else b. */
  function OrElse(a: Option<string>, b: Option<string>): (r: Option<string>)
    ensures r == a || r == b
    ensures a.Some? && a.value != "" ==> r == a
    ensures !(a.Some? && a.value != "") ==> r == b
  {
    if a.Some? && a.value != "" then a else b
  }

  /** A Python `str | None` stored in an entities dict. */
  function OptionValue(o: Option<string>): Value {
    if o.Some? then Str(o.value) else Null
  }

  // ---------------------------------------------------------------------------
  // The pattern `keyword\s+([a-zA-Z0-9\s]+)` of extract_after_keyword, and its
  // variant `keyword\s+([a-zA-Z0-9,\s]+)` of extract_due_date.
  // ---------------------------------------------------------------------------

  /** In the class [a-zA-Z0-9\s], or [a-zA-Z0-9,\s] when comma holds. */
  predicate InGroupClass(c: char, comma: bool) {
    IsAsciiAlnum(c) || IsSpace(c) || (comma && c == ',')
  }

  /**
   * What `\s+([...]+)` anchored at j captures in its group.  The greedy `\s+` takes
   * the whole run of whitespace; when no class character follows, it gives its last
   * whitespace character back, and the group is that one character.
   */
  function GroupAfterSpaces(s: string, j: nat, comma: bool): (r: Option<string>)
    requires j <= |s|
    ensures r.Some? <==> j + 1 < |s| && IsSpace(s[j]) && InGroupClass(s[j + 1], comma)
    ensures r.Some? ==> r.value != "" && forall k :: 0 <= k < |r.value| ==> InGroupClass(r.value[k], comma)
    ensures r.Some? ==>
      var w := RunEnd(s, j, IsSpace);
      var a := if w < |s| && InGroupClass(s[w], comma) then w else w - 1;
      j < a + |r.value| <= |s| && r.value == s[a..a + |r.value|]
      && (a + |r.value| == |s| || !InGroupClass(s[a + |r.value|], comma))
  {
    var w := RunEnd(s, j, IsSpace);
    if w == j then None
    else if w < |s| && InGroupClass(s[w], comma) then Some(s[w..RunEnd(s, w, c => InGroupClass(c, comma))])
    else if w - j >= 2 then Some(s[w - 1..w])
    else None
  }

  function KeywordGroupAt(s: string, keyword: string, comma: bool, i: int): Option<string> {
    if OccursAt(s, keyword, i) then GroupAfterSpaces(s, i + |keyword|, comma) else None
  }

  function KeywordMatcher(s: string, keyword: string, comma: bool): int -> Option<string> {
    i => KeywordGroupAt(s, keyword, comma, i)
  }

  /** `re.search(keyword + r"\s+([...]+)", s)`: group 1 of the leftmost match. */
  function KeywordGroup(s: string, keyword: string, comma: bool): Option<string> {
    Search(KeywordMatcher(s, keyword, comma), 0, |s|)
  }

  /** The pattern matches at i: the keyword, a whitespace character, then a class character. */
  predicate PatternMatchesAt(s: string, keyword: string, comma: bool, i: int) {
    OccursAt(s, keyword, i) && i + |keyword| + 1 < |s|
    && IsSpace(s[i + |keyword|]) && InGroupClass(s[i + |keyword| + 1], comma)
  }

  predicate PatternOccurs(s: string, keyword: string, comma: bool) {
    exists i | 0 <= i <= |s| :: PatternMatchesAt(s, keyword, comma, i)
  }

  /** i is the leftmost position where the pattern matches. */
  predicate FirstMatchAt(s: string, keyword: string, comma: bool, i: int) {
    PatternMatchesAt(s, keyword, comma, i) && forall j :: 0 <= j < i ==> !PatternMatchesAt(s, keyword, comma, j)
  }

  /**
   * The search finds a group exactly when the pattern occurs; the group is made of class
   * characters, and it is the group of the leftmost match.
   */
  lemma KeywordGroupIff(s: string, keyword: string, comma: bool)
    ensures KeywordGroup(s, keyword, comma).Some? <==> PatternOccurs(s, keyword, comma)
    ensures KeywordGroup(s, keyword, comma).Some? ==>
      var g := KeywordGroup(s, keyword, comma).value;
      g != "" && forall k :: 0 <= k < |g| ==> InGroupClass(g[k], comma)
    ensures KeywordGroup(s, keyword, comma).Some? ==>
      exists i :: FirstMatchAt(s, keyword, comma, i) && KeywordGroup(s, keyword, comma) == GroupAfterSpaces(s, i + |keyword|, comma)
  {
    var f := KeywordMatcher(s, keyword, comma);
    if KeywordGroup(s, keyword, comma).Some? {
      var j := SearchFound(f, 0, |s|);
      assert PatternMatchesAt(s, keyword, comma, j);
      forall k | 0 <= k < j
        ensures !PatternMatchesAt(s, keyword, comma, k)
      {
        assert f(k).None?;
      }
      assert FirstMatchAt(s, keyword, comma, j);
    }
    if PatternOccurs(s, keyword, comma) {
      var i :| 0 <= i <= |s| && PatternMatchesAt(s, keyword, comma, i);
      assert f(i).Some?;
      SearchSomeIfAny(f, 0, |s|, i);
    }
  }

  /**
   * extract_after_keyword: None exactly when `keyword\s+[a-zA-Z0-9\s]+` occurs nowhere;
   * otherwise the stripped group of the leftmost match, made only of ASCII letters,
   * digits and whitespace.  The group can be a lone whitespace character, so the result
   * can be "".
   */
  function ExtractAfterKeyword(text: string, keyword: string): (r: Option<string>)
    ensures r.None? <==> !PatternOccurs(text, keyword, false)
    ensures r.Some? ==> Strip(r.value) == r.value
    ensures r.Some? ==> forall k :: 0 <= k < |r.value| ==> IsAsciiAlnum(r.value[k]) || IsSpace(r.value[k])
    ensures r.Some? ==>
      exists i :: FirstMatchAt(text, keyword, false, i) && r.value == Strip(GroupAfterSpaces(text, i + |keyword|, false).value)
  {
    KeywordGroupIff(text, keyword, false);
    match KeywordGroup(text, keyword, false)
    case None => None
    case Some(g) =>
      StripIdempotent(g);
      StripChars(g, c => InGroupClass(c, false));
      Some(Strip(g))
  }

  // ---------------------------------------------------------------------------
  // extract_chore_name
  // ---------------------------------------------------------------------------

  const ChoreStopWords: seq<string> := ["add", "assign", "give", "to", "for", "due", "on", "by"]

  /** The alternative of `\b(add|assign|give|to|for|due|on|by)\b` that matches at i, in order. */
  function StopWordAt(s: string, i: int, words: seq<string>): (r: Option<string>)
    ensures r.Some? ==> r.value in words && WordAt(s, r.value, i)
    ensures r.None? ==> forall w :: w in words ==> !WordAt(s, w, i)
    decreases |words|
  {
    if words == [] then None
    else if WordAt(s, words[0], i) then Some(words[0])
    else StopWordAt(s, i, words[1..])
  }

  /** No alternative of the pattern is empty, so every removal advances. */
  predicate NonEmptyWords(words: seq<string>) {
    forall w :: w in words ==> |w| > 0
  }

  /**
   * `re.sub(pattern, "", s)` applied from index i on, with `\b` judged against all of s.
   * The pattern is the alternation of `words`, tried in order at each position.
   */
  function RemoveStopWords(s: string, i: nat, words: seq<string>): (r: string)
    requires i <= |s| && NonEmptyWords(words)
    ensures |r| <= |s| - i
    ensures StopWordAt(s, i, words).None? && i < |s| ==> |r| > 0 && r[0] == s[i]
    ensures StopWordAt(s, i, words).Some? ==> |r| <= |s| - i - |StopWordAt(s, i, words).value|
    ensures (forall k :: i <= k < |s| ==> StopWordAt(s, k, words).None?) ==> r == s[i..]
    decreases |s| - i
  {
    if i == |s| then ""
    else match StopWordAt(s, i, words)
      case Some(w) => RemoveStopWords(s, i + |w|, words)
      case None => [s[i]] + RemoveStopWords(s, i + 1, words)
  }

  /** Removing words keeps only characters of the input. */
  lemma {:induction false} RemoveStopWordsChars(s: string, i: nat, words: seq<string>, P: char -> bool)
    requires i <= |s| && NonEmptyWords(words)
    requires forall k :: i <= k < |s| ==> P(s[k])
    ensures forall k :: 0 <= k < |RemoveStopWords(s, i, words)| ==> P(RemoveStopWords(s, i, words)[k])
    decreases |s| - i
  {
    if i < |s| {
      match StopWordAt(s, i, words)
      case Some(w) =>
        RemoveStopWordsChars(s, i + |w|, words, P);
      case None =>
        RemoveStopWordsChars(s, i + 1, words, P);
    }
  }

  /** The text after the keyword words and the assignee have been removed. */
  function ChoreRemainder(text: string, assignee: Option<string>): string {
    var removed := RemoveStopWords(text, 0, ChoreStopWords);
    if assignee.Some? && assignee.value != "" then ReplaceAll(removed, assignee.value, "") else removed
  }

  /** Removing things from a blank text leaves a blank text. */
  lemma ChoreRemainderBlank(text: string, assignee: Option<string>)
    ensures AllSpace(text) ==> AllSpace(ChoreRemainder(text, assignee))
  {
    if AllSpace(text) {
      RemoveStopWordsChars(text, 0, ChoreStopWords, IsSpace);
      if assignee.Some? && assignee.value != "" {
        ReplaceAllChars(RemoveStopWords(text, 0, ChoreStopWords), assignee.value, IsSpace);
      }
    }
  }

  /**
   * extract_chore_name: the text without the keyword words and without the assignee,
   * stripped; when nothing is left, the stripped original.  The result is empty only
   * when the text is all whitespace.
   */
  function ExtractChoreName(text: string, assignee: Option<string>): (r: string)
    ensures Strip(r) == r
    ensures r == "" <==> AllSpace(text)
  {
    var t := ChoreRemainder(text, assignee);
    StripIdempotent(t);
    StripIdempotent(text);
    ChoreRemainderBlank(text, assignee);
    if Strip(t) != "" then Strip(t) else Strip(text)
  }

  // ---------------------------------------------------------------------------
  // extract_due_date
  // ---------------------------------------------------------------------------

  const DueKeywords: seq<string> := ["due", "on", "by"]

  /** The date one keyword gives: its pattern's group, parsed. */
  function TriedDate(text: string, keyword: string, parse: DateParser): Option<Timestamp> {
    match KeywordGroup(text, keyword, true)
    case None => None
    case Some(g) => NaturalDate(g, parse)
  }

  /** The first of the keywords, in order, whose group parses. */
  function FirstParsedDate(text: string, keywords: seq<string>, parse: DateParser): Option<Timestamp>
    decreases |keywords|
  {
    if keywords == [] then None
    else if TriedDate(text, keywords[0], parse).Some? then TriedDate(text, keywords[0], parse)
    else FirstParsedDate(text, keywords[1..], parse)
  }

  function DueDate(text: string, parse: DateParser): Option<Timestamp> {
    FirstParsedDate(text, DueKeywords, parse)
  }

  /** The k-th keyword decides exactly when every earlier one gave nothing. */
  lemma {:induction false} FirstParsedDateIsFirst(text: string, keywords: seq<string>, parse: DateParser, k: nat)
    requires k < |keywords|
    requires forall j :: 0 <= j < k ==> TriedDate(text, keywords[j], parse).None?
    ensures FirstParsedDate(text, keywords, parse) ==
      if TriedDate(text, keywords[k], parse).Some? then TriedDate(text, keywords[k], parse)
      else FirstParsedDate(text, keywords[k + 1..], parse)
    decreases k
  {
    if k > 0 {
      assert TriedDate(text, keywords[0], parse).None?;
      FirstParsedDateIsFirst(text, keywords[1..], parse, k - 1);
      assert keywords[1..][k - 1 + 1..] == keywords[k + 1..];
    }
  }

  /** Nothing is found only when every keyword gave nothing. */
  lemma {:induction false} FirstParsedDateNone(text: string, keywords: seq<string>, parse: DateParser)
    ensures FirstParsedDate(text, keywords, parse).None? <==>
      forall j :: 0 <= j < |keywords| ==> TriedDate(text, keywords[j], parse).None?
    decreases |keywords|
  {
    if keywords != [] {
      FirstParsedDateNone(text, keywords[1..], parse);
      assert forall j :: 1 <= j < |keywords| ==> keywords[j] == keywords[1..][j - 1];
    }
  }

  /**
   * extract_due_date tries "due", then "on", then "by": the first whose group
   * parses gives the date, and there is no date only when all three fail.
   */
  lemma DueDateOrder(text: string, parse: DateParser)
    ensures TriedDate(text, "due", parse).Some? ==> DueDate(text, parse) == TriedDate(text, "due", parse)
    ensures TriedDate(text, "due", parse).None? && TriedDate(text, "on", parse).Some? ==>
      DueDate(text, parse) == TriedDate(text, "on", parse)
    ensures TriedDate(text, "due", parse).None? && TriedDate(text, "on", parse).None? ==>
      DueDate(text, parse) == TriedDate(text, "by", parse)
  {
    var ks := DueKeywords;
    FirstParsedDateIsFirst(text, ks, parse, 0);
    if TriedDate(text, "due", parse).None? {
      FirstParsedDateIsFirst(text, ks, parse, 1);
      if TriedDate(text, "on", parse).None? {
        FirstParsedDateIsFirst(text, ks, parse, 2);
        assert ks[3..] == [];
      }
    }
  }

  /** extract_due_date, as the loop over the keywords with an early return. */
  method ExtractDueDate(text: string, parse: DateParser) returns (r: Option<Timestamp>)
    ensures r == DueDate(text, parse)
  {
    var keywords := ["due", "on", "by"];
    for i := 0 to |keywords|
      invariant FirstParsedDate(text, keywords[i..], parse) == DueDate(text, parse)
    {
      var m := KeywordGroup(text, keywords[i], true);
      if m.Some? {
        var parsed := NaturalDate(m.value, parse);
        if parsed.Some? {
          return parsed;
        }
      }
      assert keywords[i..][1..] == keywords[i + 1..];
    }
    return None;
  }

  // ---------------------------------------------------------------------------
  // re.split(r"\band\b", message)
  // ---------------------------------------------------------------------------

  /** The chunks of s[start..], where no `\band\b` starts in [start, i). */
  function SplitFrom(s: string, start: nat, i: nat): (r: seq<string>)
    requires start <= i <= |s|
    ensures |r| >= 1
    decreases |s| - i
  {
    if i == |s| then [s[start..]]
    else if WordAt(s, "and", i) then [s[start..i]] + SplitFrom(s, i + 3, i + 3)
    else SplitFrom(s, start, i + 1)
  }

  /** `re.split(r"\band\b", s)`: joining the chunks with "and" gives s back. */
  function SplitOnAnd(s: string): (r: seq<string>)
    ensures |r| >= 1
    ensures JoinWith(r, "and") == s
  {
    SplitFromJoin(s, 0, 0);
    SplitFrom(s, 0, 0)
  }

  /** "and".join(parts) with a general separator. */
  function JoinWith(parts: seq<string>, sep: string): string
    decreases |parts|
  {
    if parts == [] then ""
    else if |parts| == 1 then parts[0]
    else parts[0] + sep + JoinWith(parts[1..], sep)
  }

  lemma {:induction false} SplitFromJoin(s: string, start: nat, i: nat)
    requires start <= i <= |s|
    ensures JoinWith(SplitFrom(s, start, i), "and") == s[start..]
    decreases |s| - i
  {
    if i < |s| {
      if WordAt(s, "and", i) {
        var rest := SplitFrom(s, i + 3, i + 3);
        SplitFromJoin(s, i + 3, i + 3);
        var parts := [s[start..i]] + rest;
        assert parts[1..] == rest;
        assert s[start..] == s[start..i] + s[i..i + 3] + s[i + 3..];
      } else {
        SplitFromJoin(s, start, i + 1);
      }
    }
  }


  /** Where chunk k starts when the chunks, starting at base, are separated by "and". */
  function ChunkStart(parts: seq<string>, base: int, k: nat): int
    requires k <= |parts|
    decreases k
  {
    if k == 0 then base else ChunkStart(parts[1..], base + |parts[0]| + 3, k - 1)
  }

  /** Every chunk, laid out from base, is the slice of s where it lies. */
  predicate ChunksAreSlices(s: string, parts: seq<string>, base: int) {
    forall k :: 0 <= k < |parts| ==>
      0 <= base <= ChunkStart(parts, base, k) && ChunkStart(parts, base, k) + |parts[k]| <= |s|
      && parts[k] == s[ChunkStart(parts, base, k)..ChunkStart(parts, base, k) + |parts[k]|]
  }

  /** Every boundary between two chunks is a cut position. */
  predicate BoundariesAreCuts(parts: seq<string>, base: int, cut: int -> bool) {
    forall k :: 0 <= k < |parts| - 1 ==> cut(ChunkStart(parts, base, k) + |parts[k]|)
  }

  /** No cut position lies inside a chunk. */
  predicate NoCutInside(parts: seq<string>, base: int, cut: int -> bool) {
    forall k, q :: 0 <= k < |parts| && ChunkStart(parts, base, k) <= q < ChunkStart(parts, base, k) + |parts[k]| ==>
      !cut(q)
  }

  /** The positions where `\band\b` matches in s. */
  function AndCut(s: string): int -> bool {
    q => WordAt(s, "and", q)
  }

  /**
   * parts, laid out from base, cover s[base..] and are cut at whole-word "and" only: each
   * chunk is a slice of s, the last one ends at the end of s, every boundary is a whole-word
   * "and", and no whole-word "and" starts inside a chunk.
   */
  predicate CutsOf(s: string, parts: seq<string>, base: int) {
    && |parts| >= 1
    && ChunksAreSlices(s, parts, base)
    && EndsAt(parts, base, |s|)
    && BoundariesAreCuts(parts, base, AndCut(s))
    && NoCutInside(parts, base, AndCut(s))
  }

  /** The last of the (non-empty) chunks ends at position n. */
  predicate EndsAt(parts: seq<string>, base: int, n: int) {
    |parts| >= 1 && ChunkStart(parts, base, |parts| - 1) + |parts[|parts| - 1]| == n
  }

  /** Chunk k of a list with one more chunk in front is chunk k - 1 of the rest. */
  lemma ChunkStartCons(first: string, rest: seq<string>, base: int, next: int, k: nat)
    requires next == base + |first| + 3 && 1 <= k <= |rest|
    ensures ChunkStart([first] + rest, base, k) == ChunkStart(rest, next, k - 1)
    ensures ([first] + rest)[k] == rest[k - 1]
  {
    assert ([first] + rest)[1..] == rest;
  }

  /** Chunk k of the longer list is laid out where chunk k - 1 of the rest was. */
  lemma SliceConsAt(s: string, start: nat, i: nat, rest: seq<string>, k: nat, c: int)
    requires start <= i && i + 3 <= |s| && 1 <= k <= |rest|
    requires c == ChunkStart(rest, i + 3, k - 1)
    requires i + 3 <= c && c + |rest[k - 1]| <= |s| && rest[k - 1] == s[c..c + |rest[k - 1]|]
    ensures var r := [s[start..i]] + rest;
      start <= ChunkStart(r, start, k) && ChunkStart(r, start, k) + |r[k]| <= |s|
      && r[k] == s[ChunkStart(r, start, k)..ChunkStart(r, start, k) + |r[k]|]
  {
    ChunkStartCons(s[start..i], rest, start, i + 3, k);
  }

  lemma SlicesCons(s: string, start: nat, i: nat, rest: seq<string>)
    requires start <= i && i + 3 <= |s| && ChunksAreSlices(s, rest, i + 3)
    ensures ChunksAreSlices(s, [s[start..i]] + rest, start)
  {
    var r := [s[start..i]] + rest;
    forall k | 1 <= k < |r|
      ensures start <= ChunkStart(r, start, k) && ChunkStart(r, start, k) + |r[k]| <= |s|
      ensures r[k] == s[ChunkStart(r, start, k)..ChunkStart(r, start, k) + |r[k]|]
    {
      SliceConsAt(s, start, i, rest, k, ChunkStart(rest, i + 3, k - 1));
    }
  }

  lemma BoundariesCons(first: string, rest: seq<string>, base: int, next: int, cut: int -> bool)
    requires next == base + |first| + 3
    requires cut(base + |first|) && |rest| >= 1 && BoundariesAreCuts(rest, next, cut)
    ensures BoundariesAreCuts([first] + rest, base, cut)
  {
    var r := [first] + rest;
    forall k | 0 <= k < |r| - 1
      ensures cut(ChunkStart(r, base, k) + |r[k]|)
    {
      if k > 0 {
        ChunkStartCons(first, rest, base, next, k);
      }
    }
  }

  lemma NoCutInsideCons(first: string, rest: seq<string>, base: int, next: int, cut: int -> bool)
    requires next == base + |first| + 3
    requires forall q :: base <= q < base + |first| ==> !cut(q)
    requires NoCutInside(rest, next, cut)
    ensures NoCutInside([first] + rest, base, cut)
  {
    var r := [first] + rest;
    forall k, q | 0 <= k < |r| && ChunkStart(r, base, k) <= q < ChunkStart(r, base, k) + |r[k]|
      ensures !cut(q)
    {
      if k > 0 {
        ChunkStartCons(first, rest, base, next, k);
      }
    }
  }

  /** The last chunk still ends at the end of s. */
  lemma LastEndCons(s: string, first: string, rest: seq<string>, base: int, next: int)
    requires next == base + |first| + 3
    requires EndsAt(rest, next, |s|)
    ensures EndsAt([first] + rest, base, |s|)
  {
    var r := [first] + rest;
    assert r[1..] == rest;
    assert ChunkStart(r, base, |r| - 1) == ChunkStart(rest, next, |rest| - 1);
  }

  /** A chunk cut off by a whole-word "and" at i, followed by properly cut chunks. */
  lemma CutsCons(s: string, start: nat, i: nat, rest: seq<string>)
    requires start <= i && i + 3 <= |s| && WordAt(s, "and", i)
    requires forall q :: start <= q < i ==> !WordAt(s, "and", q)
    requires CutsOf(s, rest, i + 3)
    ensures CutsOf(s, [s[start..i]] + rest, start)
  {
    var first := s[start..i];
    var cut := AndCut(s);
    var r := [first] + rest;
    assert ChunksAreSlices(s, r, start) by {
      SlicesCons(s, start, i, rest);
    }
    assert EndsAt(r, start, |s|) by {
      LastEndCons(s, first, rest, start, i + 3);
    }
    assert BoundariesAreCuts(r, start, cut) by {
      assert cut(start + |first|);
      BoundariesCons(first, rest, start, i + 3, cut);
    }
    assert NoCutInside(r, start, cut) by {
      assert forall q :: start <= q < start + |first| ==> !cut(q);
      NoCutInsideCons(first, rest, start, i + 3, cut);
    }
  }

  /** The chunks of SplitFrom are cut at whole-word "and" only. */
  lemma {:induction false} SplitFromCuts(s: string, start: nat, i: nat)
    requires start <= i <= |s|
    requires forall q :: start <= q < i ==> !WordAt(s, "and", q)
    ensures CutsOf(s, SplitFrom(s, start, i), start)
    decreases |s| - i
  {
    if i == |s| {
      assert SplitFrom(s, start, i) == [s[start..]];
    } else if WordAt(s, "and", i) {
      SplitFromCuts(s, i + 3, i + 3);
      CutsCons(s, start, i, SplitFrom(s, i + 3, i + 3));
    } else {
      SplitFromCuts(s, start, i + 1);
    }
  }

  /**
   * The cuts of `re.split(r"\band\b", s)` are exactly the whole-word occurrences of "and":
   * each chunk is the text between two cuts, every boundary between chunks is a whole-word
   * "and", and no whole-word "and" starts inside a chunk.  An "and" inside a word, as in
   * "candy", is never a cut.
   */
  lemma SplitOnAndCuts(s: string)
    ensures CutsOf(s, SplitOnAnd(s), 0)
  {
    SplitFromCuts(s, 0, 0);
  }

  // ---------------------------------------------------------------------------
  // parse_multiple_intents
  // ---------------------------------------------------------------------------

  predicate MentionsAdd(s: string) {
    Contains(s, "add") || Contains(s, "assign") || Contains(s, "give")
  }

  /** An occurrence of add, assign or give never overlaps an occurrence of "and". */
  lemma AddWordsAvoidAnd(s: string, w: string, p: int, i: int)
    requires w in ["add", "assign", "give"]
    requires OccursAt(s, w, p) && OccursAt(s, "and", i)
    ensures p + |w| <= i || i + 3 <= p
  {
    // the first shared position, or the second one when both start together
    var k := if p == i then p + 1 else if p < i then i else p;
    CharAt(s, w, p, k);
    CharAt(s, "and", i, k);
  }

  lemma {:induction false} SplitFromKeepsWord(s: string, start: nat, i: nat, w: string, p: int)
    requires start <= i <= |s|
    requires w in ["add", "assign", "give"]
    requires OccursAt(s, w, p) && start <= p
    ensures exists c :: c in SplitFrom(s, start, i) && Contains(c, w)
    decreases |s| - i
  {
    var r := SplitFrom(s, start, i);
    if i == |s| {
      OccursInSlice(s, w, p, start, |s|);
      assert s[start..|s|] == s[start..];
      assert r[0] == s[start..];
    } else if WordAt(s, "and", i) {
      AddWordsAvoidAnd(s, w, p, i);
      if p + |w| <= i {
        OccursInSlice(s, w, p, start, i);
        assert s[start..i] in r && Contains(s[start..i], w);
      } else {
        SplitFromKeepsWord(s, i + 3, i + 3, w, p);
        var c :| c in SplitFrom(s, i + 3, i + 3) && Contains(c, w);
        assert c in r;
      }
    } else {
      SplitFromKeepsWord(s, start, i + 1, w, p);
    }
  }

  /** Some chunk of a message that mentions add, assign or give mentions one of them again. */
  lemma SplitKeepsAddWord(s: string)
    requires MentionsAdd(s)
    ensures exists c :: c in SplitOnAnd(s) && MentionsAdd(c)
  {
    var w := if Contains(s, "add") then "add" else if Contains(s, "assign") then "assign" else "give";
    var p :| 0 <= p <= |s| && OccursAt(s, w, p);
    SplitFromKeepsWord(s, 0, 0, w, p);
  }

  /** The entities of an add command, from what the three extractors returned. */
  function AddEntities(chore: string, assignee: Option<string>, due: Option<Timestamp>): (e: Entities)
    ensures e.Keys == {"chore", "assignee", "due_date"}
    ensures e["due_date"].Time? <==> due.Some?
  {
    map[
      "chore" := if chore != "" then Str(Strip(chore)) else Null,
      "assignee" := if assignee.Some? && assignee.value != "" then Str(Strip(assignee.value)) else Null,
      "due_date" := if due.Some? then Time(due.value) else Null]
  }

  /** The command for one chunk of the add branch. */
  function AddCommand(chunk: string, parse: DateParser): (r: Command)
    ensures r.intent == "add" && r.entities.Keys == {"chore", "assignee", "due_date"}
  {
    var assignee := OrElse(ExtractAfterKeyword(chunk, "to"), ExtractAfterKeyword(chunk, "for"));
    Command("add", AddEntities(ExtractChoreName(chunk, assignee), assignee, DueDate(chunk, parse)))
  }

  /** The chunks the add branch keeps, in order. */
  function AddChunks(chunks: seq<string>): seq<string>
    decreases |chunks|
  {
    if chunks == [] then []
    else
      var last := chunks[|chunks| - 1];
      AddChunks(chunks[..|chunks| - 1]) + (if MentionsAdd(last) then [last] else [])
  }

  /** The add branch: one command per chunk that mentions add, assign or give. */
  function AddCommands(chunks: seq<string>, parse: DateParser): seq<Command>
    decreases |chunks|
  {
    if chunks == [] then []
    else
      var last := chunks[|chunks| - 1];
      AddCommands(chunks[..|chunks| - 1], parse) + (if MentionsAdd(last) then [AddCommand(last, parse)] else [])
  }

  lemma {:induction false} AddChunksMembers(chunks: seq<string>)
    ensures forall c :: c in AddChunks(chunks) <==> c in chunks && MentionsAdd(c)
    decreases |chunks|
  {
    if chunks != [] {
      var init := chunks[..|chunks| - 1];
      AddChunksMembers(init);
      assert chunks == init + [chunks[|chunks| - 1]];
    }
  }

  /** Extending the chunks by one extends the add commands by at most that chunk's command. */
  lemma AddCommandsSnoc(chunks: seq<string>, i: int, parse: DateParser)
    requires 0 <= i < |chunks|
    ensures AddCommands(chunks[..i + 1], parse) ==
      AddCommands(chunks[..i], parse) + (if MentionsAdd(chunks[i]) then [AddCommand(chunks[i], parse)] else [])
  {
    assert chunks[..i + 1][..i] == chunks[..i];
  }

  /** The k-th add command is the command of the k-th kept chunk. */
  lemma {:induction false} AddCommandsPerChunk(chunks: seq<string>, parse: DateParser)
    ensures |AddCommands(chunks, parse)| == |AddChunks(chunks)|
    ensures forall k :: 0 <= k < |AddChunks(chunks)| ==> AddCommands(chunks, parse)[k] == AddCommand(AddChunks(chunks)[k], parse)
    decreases |chunks|
  {
    if chunks != [] {
      var init := chunks[..|chunks| - 1];
      AddCommandsPerChunk(init, parse);
      PerChunkSnoc(AddCommands(init, parse), AddChunks(init), chunks[|chunks| - 1], parse);
    }
  }

  /** Appending a kept chunk and its command keeps commands and chunks in step. */
  lemma PerChunkSnoc(cs: seq<Command>, ks: seq<string>, last: string, parse: DateParser)
    requires |cs| == |ks| && forall k :: 0 <= k < |ks| ==> cs[k] == AddCommand(ks[k], parse)
    ensures var ext := MentionsAdd(last);
      var cs', ks' := cs + (if ext then [AddCommand(last, parse)] else []), ks + (if ext then [last] else []);
      |cs'| == |ks'| && forall k :: 0 <= k < |ks'| ==> cs'[k] == AddCommand(ks'[k], parse)
  {
    if MentionsAdd(last) {
      var c := AddCommand(last, parse);
      forall k | 0 <= k < |ks| + 1
        ensures (cs + [c])[k] == AddCommand((ks + [last])[k], parse)
      {
        if k < |ks| {
          assert (cs + [c])[k] == cs[k] && (ks + [last])[k] == ks[k];
        }
      }
    } else {
      assert cs + [] == cs && ks + [] == ks;
    }
  }

  /** The single command of a message that does not mention add, assign or give. */
  function KeywordCommand(m: string): (r: Command)
    ensures r.intent in {"done", "list", "claim", "delete", "unassign", "broadcast", "greetings", "unknown"}
  {
    if Contains(m, "done") || Contains(m, "complete") then
      Command("done", map["chore" := OptionValue(OrElse(ExtractAfterKeyword(m, "done"), ExtractAfterKeyword(m, "complete")))])
    else if Contains(m, "list") then
      Command("list", map[])
    else if Contains(m, "claim") then
      Command("claim", map["chore" := OptionValue(ExtractAfterKeyword(m, "claim"))])
    else if Contains(m, "delete") || Contains(m, "remove") then
      Command("delete", map["chore" := OptionValue(OrElse(ExtractAfterKeyword(m, "delete"), ExtractAfterKeyword(m, "remove")))])
    else if Contains(m, "unassign") then
      Command("unassign", map["chore" := OptionValue(ExtractAfterKeyword(m, "unassign"))])
    else if Contains(m, "broadcast") then
      Command("broadcast", map["message" := OptionValue(ExtractAfterKeyword(m, "broadcast"))])
    else if Contains(m, "hi") || Contains(m, "hello") || Contains(m, "dusty") then
      Command("greetings", map[])
    else
      Command("unknown", map[])
  }

  /** What parse_multiple_intents returns: never an empty list. */
  function MultipleIntents(message: string, parse: DateParser): (r: seq<Command>)
    ensures |r| >= 1
  {
    var m := StripLower(message);
    if MentionsAdd(m) then
      AddBranchNonEmpty(m, parse);
      AddCommands(SplitOnAnd(m), parse)
    else [KeywordCommand(m)]
  }

  /** A message that mentions add, assign or give keeps at least one chunk. */
  lemma AddBranchNonEmpty(m: string, parse: DateParser)
    requires MentionsAdd(m)
    ensures |AddCommands(SplitOnAnd(m), parse)| >= 1
  {
    SplitKeepsAddWord(m);
    var c :| c in SplitOnAnd(m) && MentionsAdd(c);
    AddChunksMembers(SplitOnAnd(m));
    assert c in AddChunks(SplitOnAnd(m));
    AddCommandsPerChunk(SplitOnAnd(m), parse);
  }

  /** The body of the add loop for one chunk: assignee, due date and chore, in that order. */
  method ParseAddChunk(chunk: string, parse: DateParser) returns (command: Command)
    ensures command == AddCommand(chunk, parse)
  {
    var assignee := OrElse(ExtractAfterKeyword(chunk, "to"), ExtractAfterKeyword(chunk, "for"));
    var due := ExtractDueDate(chunk, parse);
    var chore := ExtractChoreName(chunk, assignee);
    command := Command("add", AddEntities(chore, assignee, due));
  }

  /** The add loop: one command per chunk that mentions add, assign or give, in order. */
  method ParseAddChunks(chunks: seq<string>, parse: DateParser) returns (intents: seq<Command>)
    ensures intents == AddCommands(chunks, parse)
  {
    intents := [];
    for i := 0 to |chunks|
      invariant intents == AddCommands(chunks[..i], parse)
    {
      AddCommandsSnoc(chunks, i, parse);
      if MentionsAdd(chunks[i]) {
        var command := ParseAddChunk(chunks[i], parse);
        intents := intents + [command];
      }
    }
    assert chunks[..|chunks|] == chunks;
  }

  /** parse_multiple_intents: the add loop over the chunks, or the single keyword command. */
  method ParseMultipleIntents(message: string, parse: DateParser) returns (intents: seq<Command>)
    ensures intents == MultipleIntents(message, parse)
  {
    var m := StripLower(message);
    if MentionsAdd(m) {
      intents := ParseAddChunks(SplitOnAnd(m), parse);
    } else {
      intents := [KeywordCommand(m)];
    }
  }

  // ---------------------------------------------------------------------------
  // Properties of parse_multiple_intents
  // ---------------------------------------------------------------------------

  /**
   * The keyword groups are tested in a fixed order and the first substring hit wins:
   * done/complete, list, claim, delete/remove, unassign, broadcast, hi/hello/dusty,
   * and otherwise unknown.  Each intent carries the keys it is documented to carry.
   */
  lemma KeywordCommandPrecedence(m: string)
    ensures var c := KeywordCommand(m);
      && (Contains(m, "done") || Contains(m, "complete") ==> c.intent == "done")
      && (!(Contains(m, "done") || Contains(m, "complete")) && Contains(m, "list") ==> c.intent == "list")
      && (!(Contains(m, "done") || Contains(m, "complete") || Contains(m, "list")) && Contains(m, "claim") ==>
            c.intent == "claim")
      && ((!(Contains(m, "done") || Contains(m, "complete") || Contains(m, "list") || Contains(m, "claim"))
             && (Contains(m, "delete") || Contains(m, "remove"))) ==> c.intent == "delete")
      && ((!(Contains(m, "done") || Contains(m, "complete") || Contains(m, "list") || Contains(m, "claim")
             || Contains(m, "delete") || Contains(m, "remove"))
             && Contains(m, "unassign")) ==> c.intent == "unassign")
      && ((!(Contains(m, "done") || Contains(m, "complete") || Contains(m, "list") || Contains(m, "claim")
             || Contains(m, "delete") || Contains(m, "remove") || Contains(m, "unassign"))
             && Contains(m, "broadcast")) ==> c.intent == "broadcast")
      && ((!(Contains(m, "done") || Contains(m, "complete") || Contains(m, "list") || Contains(m, "claim")
             || Contains(m, "delete") || Contains(m, "remove") || Contains(m, "unassign") || Contains(m, "broadcast"))
             && (Contains(m, "hi") || Contains(m, "hello") || Contains(m, "dusty"))) ==> c.intent == "greetings")
      && (c.intent == "unknown" <==>
            !(Contains(m, "done") || Contains(m, "complete") || Contains(m, "list") || Contains(m, "claim")
              || Contains(m, "delete") || Contains(m, "remove") || Contains(m, "unassign") || Contains(m, "broadcast")
              || Contains(m, "hi") || Contains(m, "hello") || Contains(m, "dusty")))
    ensures var c := KeywordCommand(m);
      && (c.intent in {"done", "claim", "delete", "unassign"} ==> c.entities.Keys == {"chore"})
      && (c.intent == "broadcast" ==> c.entities.Keys == {"message"})
      && (c.intent in {"list", "greetings", "unknown"} ==> c.entities == map[])
      && c.intent in {"done", "list", "claim", "delete", "unassign", "broadcast", "greetings", "unknown"}
  {
  }

  /** "done" is tried before "complete". */
  lemma DoneBeforeComplete(m: string)
    ensures KeywordCommand(m).intent == "done" ==>
      var d := ExtractAfterKeyword(m, "done");
      KeywordCommand(m) == Command("done", map["chore" :=
        if d.Some? && d.value != "" then Str(d.value) else OptionValue(ExtractAfterKeyword(m, "complete"))])
  {
  }

  /** "delete" is tried before "remove". */
  lemma DeleteBeforeRemove(m: string)
    ensures KeywordCommand(m).intent == "delete" ==>
      var d := ExtractAfterKeyword(m, "delete");
      KeywordCommand(m) == Command("delete", map["chore" :=
        if d.Some? && d.value != "" then Str(d.value) else OptionValue(ExtractAfterKeyword(m, "remove"))])
  {
    if Contains(m, "done") || Contains(m, "complete") || Contains(m, "list") || Contains(m, "claim") {
    } else if Contains(m, "delete") || Contains(m, "remove") {
      assert KeywordCommand(m) ==
        Command("delete", map["chore" := OptionValue(OrElse(ExtractAfterKeyword(m, "delete"), ExtractAfterKeyword(m, "remove")))]);
    }
  }

  /** The assignee of an add chunk: the text after "to", else the text after "for", else none. */
  lemma AddAssigneeOrder(chunk: string, parse: DateParser)
    ensures var viaTo, viaFor := ExtractAfterKeyword(chunk, "to"), ExtractAfterKeyword(chunk, "for");
      AddCommand(chunk, parse).entities["assignee"] ==
        if viaTo.Some? && viaTo.value != "" then Str(viaTo.value)
        else if viaFor.Some? && viaFor.value != "" then Str(viaFor.value)
        else Null
  {
    var viaTo, viaFor := ExtractAfterKeyword(chunk, "to"), ExtractAfterKeyword(chunk, "for");
    var assignee := OrElse(viaTo, viaFor);
    assert AddCommand(chunk, parse).entities["assignee"] ==
      if assignee.Some? && assignee.value != "" then Str(Strip(assignee.value)) else Null;
    if assignee.Some? {
      assert Strip(assignee.value) == assignee.value;
    }
  }

  /** Every message that contains "unassign" contains "assign", so no unassign command is ever produced. */
  lemma UnassignUnreachable(message: string, parse: DateParser)
    ensures forall c :: c in MultipleIntents(message, parse) ==> c.intent != "unassign"
  {
    var m := StripLower(message);
    UnassignMentionsAssign(m);
    if MentionsAdd(m) {
      AddCommandsAreAdds(SplitOnAnd(m), parse);
      assert MultipleIntents(message, parse) == AddCommands(SplitOnAnd(m), parse);
    } else {
      KeywordCommandUnassign(m);
      assert MultipleIntents(message, parse) == [KeywordCommand(m)];
    }
  }

  /** "unassign" contains "assign". */
  lemma UnassignMentionsAssign(m: string)
    ensures Contains(m, "unassign") ==> MentionsAdd(m)
  {
    if Contains(m, "unassign") {
      var i :| 0 <= i <= |m| && OccursAt(m, "unassign", i);
      assert "unassign" == "un" + "assign" + "";
      OccursInside(m, "un", "assign", "", i);
    }
  }

  /** The keyword command is unassign only for a message containing "unassign". */
  lemma KeywordCommandUnassign(m: string)
    ensures KeywordCommand(m).intent == "unassign" ==> Contains(m, "unassign")
  {
  }

  /** Every command of the add branch is an add. */
  lemma {:induction false} AddCommandsAreAdds(chunks: seq<string>, parse: DateParser)
    ensures forall c :: c in AddCommands(chunks, parse) ==> c.intent == "add"
    decreases |chunks|
  {
    if chunks != [] {
      AddCommandsAreAdds(chunks[..|chunks| - 1], parse);
    }
  }


  /** A text that mentions add, assign or give is not blank. */
  lemma MentionsAddNotBlank(s: string)
    requires MentionsAdd(s)
    ensures !AllSpace(s)
  {
    var w := if Contains(s, "add") then "add" else if Contains(s, "assign") then "assign" else "give";
    var p :| 0 <= p <= |s| && OccursAt(s, w, p);
    CharAt(s, w, p, p);
  }

  /** The command of a kept chunk always names a chore. */
  lemma AddCommandShape(chunk: string, parse: DateParser)
    requires MentionsAdd(chunk)
    ensures AddCommand(chunk, parse).entities["chore"].Str?
  {
    var assignee := OrElse(ExtractAfterKeyword(chunk, "to"), ExtractAfterKeyword(chunk, "for"));
    var chore := ExtractChoreName(chunk, assignee);
    MentionsAddNotBlank(chunk);
    assert chore != "";
    assert AddCommand(chunk, parse).entities["chore"] == Str(Strip(chore));
  }

  /**
   * The add branch: one command per chunk that mentions add, assign or give, in chunk
   * order, at least one in all; each is an add with exactly the keys chore, assignee and
   * due_date, and its chore is never None.
   */
  lemma AddBranchShape(message: string, parse: DateParser)
    requires MentionsAdd(StripLower(message))
    ensures var chunks := AddChunks(SplitOnAnd(StripLower(message)));
      var r := MultipleIntents(message, parse);
      && |r| == |chunks| >= 1
      && forall k :: 0 <= k < |r| ==>
           && r[k] == AddCommand(chunks[k], parse)
           && r[k].intent == "add"
           && r[k].entities.Keys == {"chore", "assignee", "due_date"}
           && r[k].entities["chore"].Str?
  {
    var m := StripLower(message);
    var all := SplitOnAnd(m);
    var chunks := AddChunks(all);
    AddCommandsPerChunk(all, parse);
    AddChunksMembers(all);
    SplitKeepsAddWord(m);
    var c :| c in all && MentionsAdd(c);
    assert c in chunks;
    forall k | 0 <= k < |chunks|
      ensures MentionsAdd(chunks[k])
    {
      assert chunks[k] in chunks;
    }
    forall k | 0 <= k < |chunks|
      ensures AddCommand(chunks[k], parse).intent == "add"
      ensures AddCommand(chunks[k], parse).entities.Keys == {"chore", "assignee", "due_date"}
      ensures AddCommand(chunks[k], parse).entities["chore"].Str?
    {
      AddCommandShape(chunks[k], parse);
    }
  }

  /** Outside the add branch there is exactly one command. */
  lemma SingleCommandOutsideAdd(message: string, parse: DateParser)
    requires !MentionsAdd(StripLower(message))
    ensures MultipleIntents(message, parse) == [KeywordCommand(StripLower(message))]
    ensures MultipleIntents(message, parse)[0].intent != "add"
  {
  }

  /**
   * `\s+` gives back its last whitespace character when no letter or digit follows, so
   * the group can be a lone space and the keyword's text comes back as "", not None.
   */
  lemma BlankKeywordText(s: string)
    requires s == "done  !"
    ensures ExtractAfterKeyword(s, "done") == Some("")
  {
    assert OccursAt(s, "done", 0);
    assert RunEnd(s, 6, IsSpace) == 6;
    assert RunEnd(s, 4, IsSpace) == 6;
    assert !InGroupClass(s[6], false) && s[5..6] == " ";
    assert GroupAfterSpaces(s, 4, false) == Some(" ");
    assert KeywordMatcher(s, "done", false)(0) == Some(" ");
    assert Strip(" ") == "";
  }

  // ---------------------------------------------------------------------------
  // The multi-chunk example of the comment in parse_multiple_intents
  // ---------------------------------------------------------------------------

  /** "a" is never directly followed by "n" in x. */
  predicate NoAnPair(x: string) {
    forall i :: 0 <= i < |x| - 1 ==> x[i] != 'a' || x[i + 1] != 'n'
  }

  /** Without a whole-word "and" in [i, j), the split scan moves from i to j unchanged. */
  lemma {:induction false} SplitFromSkip(s: string, start: nat, i: nat, j: nat)
    requires start <= i <= j <= |s|
    requires forall q :: i <= q < j ==> !WordAt(s, "and", q)
    ensures SplitFrom(s, start, i) == SplitFrom(s, start, j)
    decreases j - i
  {
    if i < j {
      SplitFromSkip(s, start, i + 1, j);
    }
  }

  /** x + "and" + y with spaces around the "and" and no other "an" splits into x and y. */
  lemma SplitAtOneAnd(x: string, y: string)
    requires |x| >= 1 && |y| >= 1 && x[|x| - 1] == ' ' && y[0] == ' '
    requires NoAnPair(x) && NoAnPair(y)
    ensures SplitOnAnd(x + "and" + y) == [x, y]
  {
    var s := x + "and" + y;
    var n := |x|;
    assert s[n - 1] == ' ' && s[n] == 'a' && s[n + 1] == 'n' && s[n + 2] == 'd' && s[n + 3] == ' ';
    assert s[n..n + 3] == "and";
    assert WordAt(s, "and", n);
    forall q | 0 <= q < n
      ensures !WordAt(s, "and", q)
    {
      CharAt(s, "and", q, q);
      CharAt(s, "and", q, q + 1);
      if q + 1 < n {
        assert s[q] == x[q] && s[q + 1] == x[q + 1];
      }
    }
    forall q | n + 3 <= q < |s|
      ensures !WordAt(s, "and", q)
    {
      CharAt(s, "and", q, q);
      CharAt(s, "and", q, q + 1);
      if q + 1 < |s| {
        assert s[q] == y[q - n - 3] && s[q + 1] == y[q - n - 2];
      }
    }
    SplitFromSkip(s, 0, 0, n);
    SplitFromSkip(s, n + 3, n + 3, |s|);
    assert s[0..n] == x && s[n + 3..] == y;
  }

  lemma CommentExampleChunks(x: string, y: string)
    requires x == "add laundry to becky due friday " && y == " dishes to me due monday"
    ensures NoAnPair(x) && NoAnPair(y) && x[|x| - 1] == ' ' && y[0] == ' '
  {
  }

  /** A text that begins with the letters of "add" mentions add. */
  lemma StartsWithAdd(x: string)
    requires |x| >= 3 && x[0] == 'a' && x[1] == 'd' && x[2] == 'd'
    ensures OccursAt(x, "add", 0) && MentionsAdd(x)
  {
    assert x[0..3] == [x[0], x[1], x[2]] == "add";
    assert OccursAt(x, "add", 0);
    assert Contains(x, "add");
  }

  lemma CommentExampleLeftWords(x: string)
    requires x == "add laundry to becky due friday "
    ensures OccursAt(x, "add", 0) && MentionsAdd(x)
  {
    assert |x| >= 3 && x[0] == 'a' && x[1] == 'd' && x[2] == 'd';
    StartsWithAdd(x);
  }

  lemma CommentExampleRightWords(y: string)
    requires y == " dishes to me due monday"
    ensures !MentionsAdd(y)
  {
    NotContainsPair(y, "add", 0);
    NotContainsPair(y, "assign", 0);
    NotContainsChar(y, "give", 0);
  }

  /** The comment's message, cut around its "and". */
  const CommentLeft: string := "add laundry to Becky due Friday "
  const CommentRight: string := " dishes to me due Monday"

  lemma CommentExampleStrip(message: string)
    requires message == CommentLeft + "and" + CommentRight
    ensures Strip(message) == message
  {
    assert message[0] == CommentLeft[0] && message[|message| - 1] == CommentRight[|CommentRight| - 1];
    StripUnpadded(message);
  }

  lemma CommentExampleLower(message: string)
    requires message == CommentLeft + "and" + CommentRight
    ensures Lower(message) == "add laundry to becky due friday " + "and" + " dishes to me due monday"
  {
    LowerConcat(CommentLeft, "and");
    LowerConcat(CommentLeft + "and", CommentRight);
    assert Lower(CommentLeft) == "add laundry to becky due friday ";
    assert Lower(CommentRight) == " dishes to me due monday";
  }

  lemma CommentExampleSplit(x: string, y: string)
    requires x == "add laundry to becky due friday " && y == " dishes to me due monday"
    ensures MentionsAdd(x + "and" + y)
    ensures SplitOnAnd(x + "and" + y) == [x, y]
  {
    var s := x + "and" + y;
    assert |x| >= 3 && s[0] == x[0] == 'a' && s[1] == x[1] == 'd' && s[2] == x[2] == 'd';
    StartsWithAdd(s);
    CommentExampleChunks(x, y);
    SplitAtOneAnd(x, y);
  }

  /** Of two chunks, only the first mentions an add word: one command. */
  lemma AddCommandsFirstOfTwo(x: string, y: string, parse: DateParser)
    requires MentionsAdd(x) && !MentionsAdd(y)
    ensures AddCommands([x, y], parse) == [AddCommand(x, parse)]
  {
    assert [x][..0] == [];
    assert AddCommands([x], parse) == [AddCommand(x, parse)];
    assert [x, y][..1] == [x];
  }

  /**
   * The comment's example of several add chunks, "add laundry to Becky due Friday and
   * dishes to me due Monday", gives a single command: the second chunk mentions none of
   * add, assign and give, so the loop drops it.
   */
  lemma CommentExampleOneCommand(message: string, parse: DateParser)
    requires message == CommentLeft + "and" + CommentRight
    ensures MultipleIntents(message, parse) == [AddCommand("add laundry to becky due friday ", parse)]
  {
    var x, y := "add laundry to becky due friday ", " dishes to me due monday";
    CommentExampleStrip(message);
    CommentExampleLower(message);
    CommentExampleSplit(x, y);
    CommentExampleLeftWords(x);
    CommentExampleRightWords(y);
    AddCommandsFirstOfTwo(x, y, parse);
  }
}
