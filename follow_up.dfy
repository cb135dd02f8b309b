/**
 * utils/context/follow_up.py: turns a terse follow-up ("do it", "assign it to Becky",
 * "remind her tomorrow") into a command, taking the chore and the assignee from the
 * conversation's tracker when the message only refers to them.
 */
module FollowUp {
  import opened Values
  import opened Text
  import opened ContextUtils
  import NlpParser

  /** `message.lower().strip()` */
  function Normalize(message: string): string {
    Strip(Lower(message))
  }

  /** The alternatives of `\b(done|do it|mark (it )?done)\b`, the optional group tried first. */
  const DonePhrases: seq<string> := ["done", "do it", "mark it done", "mark done"]

  /** `re.search(r"\b(done|do it|mark (it )?done)\b", text)` finds a match. */
  predicate DonePattern(text: string) {
    exists i, w | 0 <= i <= |text| && w in DonePhrases :: WordAt(text, w, i)
  }

  /** The intent of the if/elif chain, before the "unknown" fallback. */
  function InferIntent(text: string): (r: Option<string>)
    ensures r.Some? ==> r.value in {"done", "delete", "add"}
    ensures r.None? <==>
      !DonePattern(text) && !Contains(text, "delete") && !Contains(text, "remove") && !Contains(text, "assign")
      && !Contains(text, "add") && !Contains(text, "remind") && !Contains(text, "postpone") && !Contains(text, "move")
  {
    if DonePattern(text) then Some("done")
    else if Contains(text, "delete") || Contains(text, "remove") then Some("delete")
    else if Contains(text, "assign") || Contains(text, "add") then Some("add")
    else if Contains(text, "remind") || Contains(text, "postpone") || Contains(text, "move") then Some("add")
    else None
  }

  /** The chore fallback applies: the text refers to a chore and the tracker has one. */
  predicate RefersToChore(text: string, lastChore: Value) {
    (Contains(text, "it") || Contains(text, "remind") || Contains(text, "postpone")) && Truthy(lastChore)
  }

  // ---------------------------------------------------------------------------
  // `(to|for)\s+(\w+)`
  // ---------------------------------------------------------------------------

  /** `\s+\w` matches at j: some whitespace, then a word character. */
  predicate SpacesThenWord(s: string, j: int) {
    exists k | 0 <= j < k < |s| :: AllSpace(s[j..k]) && IsWordChar(s[k])
  }

  /** `\s+(\w+)` anchored at j: group 2 is the run of word characters after the whitespace. */
  function WordAfterSpaces(s: string, j: nat): (r: Option<string>)
    requires j <= |s|
    ensures r.Some? <==> SpacesThenWord(s, j)
    ensures r.Some? ==> r.value != "" && forall k :: 0 <= k < |r.value| ==> IsWordChar(r.value[k])
    ensures r.Some? ==> var w, v := RunEnd(s, j, IsSpace), RunEnd(s, j, IsSpace) + |r.value|;
      j < w && v <= |s| && r.value == s[w..v] && (v == |s| || !IsWordChar(s[v]))
  {
    var w := RunEnd(s, j, IsSpace);
    SpacesThenWordAt(s, j);
    if w > j && w < |s| && IsWordChar(s[w]) then Some(s[w..RunEnd(s, w, IsWordChar)]) else None
  }

  /** The whitespace run after j is where `\s+\w` needs its word character. */
  lemma SpacesThenWordAt(s: string, j: nat)
    requires j <= |s|
    ensures var w := RunEnd(s, j, IsSpace);
      SpacesThenWord(s, j) <==> w > j && w < |s| && IsWordChar(s[w])
  {
    var w := RunEnd(s, j, IsSpace);
    if w > j && w < |s| && IsWordChar(s[w]) {
      assert AllSpace(s[j..w]);
    }
    if SpacesThenWord(s, j) {
      var k :| 0 <= j < k < |s| && AllSpace(s[j..k]) && IsWordChar(s[k]);
      assert forall m :: j <= m < k ==> IsSpace(s[m]) by {
        forall m | j <= m < k ensures IsSpace(s[m]) {
          assert s[j..k][m - j] == s[m];
        }
      }
      RunEndAt(s, j, IsSpace, k);
    }
  }

  /** The match anchored at i.  "to" and "for" cannot both start at one position. */
  function AssigneeAt(s: string, i: int): Option<string> {
    if OccursAt(s, "to", i) then WordAfterSpaces(s, i + 2)
    else if OccursAt(s, "for", i) then WordAfterSpaces(s, i + 3)
    else None
  }

  function AssigneeMatcher(s: string): int -> Option<string> {
    i => AssigneeAt(s, i)
  }

  /** A word of `\w` characters, as group 2 of `(to|for)\s+(\w+)` always is. */
  predicate IsWord(w: string) {
    w != "" && forall k :: 0 <= k < |w| ==> IsWordChar(w[k])
  }

  /** Group 2 of the leftmost match of `(to|for)\s+(\w+)`. */
  function AssigneeWord(s: string): (r: Option<string>)
    ensures r.Some? ==> IsWord(r.value)
  {
    SearchValue(AssigneeMatcher(s), 0, |s|, IsWord);
    Search(AssigneeMatcher(s), 0, |s|)
  }

  // ---------------------------------------------------------------------------
  // `(due|to|for)\s+(.*)`
  // ---------------------------------------------------------------------------

  predicate NotNewline(c: char) {
    c != '\n'
  }

  /** No line break in w: `.` does not match one. */
  predicate OneLine(w: string) {
    forall k :: 0 <= k < |w| ==> w[k] != '\n'
  }

  /** `\s+(.*)` anchored at j: group 2 runs from the end of the whitespace to the end of the line. */
  function RestAfterSpaces(s: string, j: nat): (r: Option<string>)
    requires j <= |s|
    ensures r.Some? <==> j < |s| && IsSpace(s[j])
    ensures r.Some? ==> OneLine(r.value)
    ensures r.Some? ==> var w, v := RunEnd(s, j, IsSpace), RunEnd(s, j, IsSpace) + |r.value|;
      j < w && v <= |s| && r.value == s[w..v] && (v == |s| || s[v] == '\n')
  {
    var w := RunEnd(s, j, IsSpace);
    if w > j then Some(s[w..RunEnd(s, w, NotNewline)]) else None
  }

  function DueTextAt(s: string, i: int): Option<string> {
    if OccursAt(s, "due", i) then RestAfterSpaces(s, i + 3)
    else if OccursAt(s, "to", i) then RestAfterSpaces(s, i + 2)
    else if OccursAt(s, "for", i) then RestAfterSpaces(s, i + 3)
    else None
  }

  function DueMatcher(s: string): int -> Option<string> {
    i => DueTextAt(s, i)
  }

  /** Group 2 of the leftmost match of `(due|to|for)\s+(.*)`. */
  function DueText(s: string): (r: Option<string>)
    ensures r.Some? ==> OneLine(r.value)
  {
    SearchValue(DueMatcher(s), 0, |s|, OneLine);
    Search(DueMatcher(s), 0, |s|)
  }

  // ---------------------------------------------------------------------------
  // resolve_follow_up
  // ---------------------------------------------------------------------------

  /** The assignee entry: the matched word, else the tracked assignee for "her", else the sender for "me". */
  function AssigneeEntry(text: string, lastAssignee: Value, sender: string): (r: Option<Value>)
    ensures AssigneeWord(text).Some? ==>
      r.Some? && r.value.Str? && IsWord(r.value.s) && forall k :: 0 <= k < |r.value.s| ==> !IsUpper(r.value.s[k])
    ensures r.None? <==> AssigneeWord(text).None? && !(Contains(text, "her") && Truthy(lastAssignee)) && !Contains(text, "me")
    ensures r.Some? && r.value != Str(sender) ==> Truthy(r.value)
  {
    match AssigneeWord(text)
    case Some(g) => Some(Str(Lower(g)))
    case None =>
      if Contains(text, "her") && Truthy(lastAssignee) then Some(lastAssignee)
      else if Contains(text, "me") then Some(Str(sender))
      else None
  }

  /** The due-date entry: the parse of the text after due/to/for, else of "tomorrow" when the text says it. */
  function DueEntry(text: string, parse: DateParser): (r: Option<Value>)
    ensures r.Some? ==> r.value.Time?
    ensures r.Some? ==> DueText(text).Some? || Contains(text, "tomorrow")
    ensures DueText(text) == Some("") ==> r.None?
  {
    var parsed :=
      match DueText(text)
      case Some(g) => NlpParser.NaturalDate(g, parse)
      case None => if Contains(text, "tomorrow") then NlpParser.NaturalDate("tomorrow", parse) else None;
    if parsed.Some? then Some(Time(parsed.value)) else None
  }

  /** The entities map built from optional entries. */
  function Entries(chore: Option<Value>, assignee: Option<Value>, due: Option<Value>): (e: Entities)
    ensures e.Keys <= {"chore", "assignee", "due_date"}
    ensures ("chore" in e <==> chore.Some?) && (chore.Some? ==> e["chore"] == chore.value)
    ensures ("assignee" in e <==> assignee.Some?) && (assignee.Some? ==> e["assignee"] == assignee.value)
    ensures ("due_date" in e <==> due.Some?) && (due.Some? ==> e["due_date"] == due.value)
  {
    var e0: Entities := map[];
    var e1 := if chore.Some? then e0["chore" := chore.value] else e0;
    var e2 := if assignee.Some? then e1["assignee" := assignee.value] else e1;
    if due.Some? then e2["due_date" := due.value] else e2
  }

  /**
   * resolve_follow_up.  The intent is one of done, delete, add and unknown; the entities
   * have no keys beyond chore, assignee and due_date; the chore is the tracked chore,
   * present exactly when the text refers to one; a due date, when present, is a datetime.
   */
  function ResolveFollowUp(message: string, context: ContextTracker, sender: string, parse: DateParser): (r: Command)
    reads context
    ensures r.intent in {"done", "delete", "add", "unknown"}
    ensures r.entities.Keys <= {"chore", "assignee", "due_date"}
    ensures "chore" in r.entities <==> RefersToChore(Normalize(message), context.lastChore)
    ensures "chore" in r.entities ==> r.entities["chore"] == context.lastChore
    ensures "due_date" in r.entities ==> r.entities["due_date"].Time?
  {
    var text := Normalize(message);
    var intent := InferIntent(text);
    var chore := if RefersToChore(text, context.lastChore) then Some(context.lastChore) else None;
    Command(if intent.Some? then intent.value else "unknown",
            Entries(chore, AssigneeEntry(text, context.lastAssignee, sender), DueEntry(text, parse)))
  }

  // ---------------------------------------------------------------------------
  // Properties
  // ---------------------------------------------------------------------------

  /** Upper and lower case are never told apart. */
  lemma CaseInsensitive(message: string, context: ContextTracker, sender: string, parse: DateParser)
    ensures ResolveFollowUp(Lower(message), context, sender, parse) == ResolveFollowUp(message, context, sender, parse)
  {
    LowerIdempotent(message);
  }

  /** The tracked intent and due date play no part: only the tracked chore and assignee do. */
  lemma IgnoresLastDueDate(message: string, c1: ContextTracker, c2: ContextTracker, sender: string, parse: DateParser)
    requires c1.lastChore == c2.lastChore && c1.lastAssignee == c2.lastAssignee
    ensures ResolveFollowUp(message, c1, sender, parse) == ResolveFollowUp(message, c2, sender, parse)
  {
  }

  /**
   * The first test that matches decides the intent: the done pattern, then
   * delete/remove, then assign/add, then remind/postpone/move; otherwise unknown.
   */
  lemma IntentPrecedence(message: string, context: ContextTracker, sender: string, parse: DateParser)
    ensures var t, i := Normalize(message), ResolveFollowUp(message, context, sender, parse).intent;
      && (DonePattern(t) ==> i == "done")
      && (!DonePattern(t) && (Contains(t, "delete") || Contains(t, "remove")) ==> i == "delete")
      && (i == "add" <==>
            !DonePattern(t) && !Contains(t, "delete") && !Contains(t, "remove")
            && (Contains(t, "assign") || Contains(t, "add") || Contains(t, "remind") || Contains(t, "postpone")
                || Contains(t, "move")))
      && (i == "unknown" <==> InferIntent(t).None?)
  {
  }

  /** `(to|for)\s+(\w+)` matches at i. */
  predicate AssigneeMatchesAt(s: string, i: int) {
    (OccursAt(s, "to", i) && SpacesThenWord(s, i + 2)) || (OccursAt(s, "for", i) && SpacesThenWord(s, i + 3))
  }

  lemma AssigneeAtIff(s: string, i: int)
    ensures AssigneeMatcher(s)(i).Some? <==> AssigneeMatchesAt(s, i)
  {
    if OccursAt(s, "to", i) {
      assert !OccursAt(s, "for", i) by {
        CharAt(s, "to", i, i);
        CharAt(s, "for", i, i);
      }
    }
  }

  /**
   * The assignee search finds a word exactly when the pattern matches somewhere, and the
   * word is the one captured at the leftmost position where it matches.
   */
  lemma AssigneeWordIff(s: string)
    ensures AssigneeWord(s).Some? <==> exists i | 0 <= i <= |s| :: AssigneeMatchesAt(s, i)
    ensures AssigneeWord(s).Some? ==> exists i ::
      0 <= i <= |s| && AssigneeMatchesAt(s, i) && (forall k :: 0 <= k < i ==> !AssigneeMatchesAt(s, k))
      && AssigneeWord(s) == AssigneeAt(s, i)
  {
    var f := AssigneeMatcher(s);
    if AssigneeWord(s).Some? {
      var j := SearchFound(f, 0, |s|);
      AssigneeAtIff(s, j);
      forall k | 0 <= k < j
        ensures !AssigneeMatchesAt(s, k)
      {
        AssigneeAtIff(s, k);
      }
    }
    if exists i | 0 <= i <= |s| :: AssigneeMatchesAt(s, i) {
      var i :| 0 <= i <= |s| && AssigneeMatchesAt(s, i);
      AssigneeAtIff(s, i);
      SearchSomeIfAny(f, 0, |s|, i);
    }
  }

  /** `(to|for)\s+(\w+)` matches somewhere in s. */
  predicate AssigneeMatches(s: string) {
    exists i | 0 <= i <= |s| :: AssigneeMatchesAt(s, i)
  }

  /** `(due|to|for)\s+(.*)` matches at i: a keyword followed by at least one whitespace character. */
  predicate DueMatchesAt(s: string, i: int) {
    || (OccursAt(s, "due", i) && i + 3 < |s| && IsSpace(s[i + 3]))
    || (OccursAt(s, "to", i) && i + 2 < |s| && IsSpace(s[i + 2]))
    || (OccursAt(s, "for", i) && i + 3 < |s| && IsSpace(s[i + 3]))
  }

  lemma DueTextAtIff(s: string, i: int)
    ensures DueMatcher(s)(i).Some? <==> DueMatchesAt(s, i)
  {
    CharAt(s, "due", i, i);
    CharAt(s, "to", i, i);
    CharAt(s, "for", i, i);
  }

  /**
   * The due-date search finds a text exactly when the pattern matches somewhere, and the
   * text is the one captured at the leftmost position where it matches.
   */
  lemma DueTextIff(s: string)
    ensures DueText(s).Some? <==> exists i | 0 <= i <= |s| :: DueMatchesAt(s, i)
    ensures DueText(s).Some? ==> exists i ::
      0 <= i <= |s| && DueMatchesAt(s, i) && (forall k :: 0 <= k < i ==> !DueMatchesAt(s, k))
      && DueText(s) == DueTextAt(s, i)
  {
    var f := DueMatcher(s);
    if DueText(s).Some? {
      var j := SearchFound(f, 0, |s|);
      DueTextAtIff(s, j);
      forall k | 0 <= k < j
        ensures !DueMatchesAt(s, k)
      {
        DueTextAtIff(s, k);
      }
    }
    if exists i | 0 <= i <= |s| :: DueMatchesAt(s, i) {
      var i :| 0 <= i <= |s| && DueMatchesAt(s, i);
      DueTextAtIff(s, i);
      SearchSomeIfAny(f, 0, |s|, i);
    }
  }

  /** The priority order of the assignee entry, on the normalised text. */
  lemma AssigneeEntryOrder(t: string, lastAssignee: Value, sender: string)
    ensures var a := AssigneeEntry(t, lastAssignee, sender);
      && (AssigneeMatches(t) ==> AssigneeWord(t).Some? && a == Some(Str(Lower(AssigneeWord(t).value))))
      && (!AssigneeMatches(t) && Contains(t, "her") && Truthy(lastAssignee) ==> a == Some(lastAssignee))
      && (!AssigneeMatches(t) && !(Contains(t, "her") && Truthy(lastAssignee)) && Contains(t, "me") ==>
            a == Some(Str(sender)))
      && (!AssigneeMatches(t) && !(Contains(t, "her") && Truthy(lastAssignee)) && !Contains(t, "me") ==> a == None)
  {
    AssigneeWordIff(t);
  }

  /**
   * The assignee, in priority order: a `(to|for)\s+(\w+)` match gives its lower-cased
   * word; failing that, "her" and a tracked assignee give the tracked assignee; failing
   * that, "me" gives the sender; otherwise there is no assignee.
   */
  lemma AssigneePriority(message: string, context: ContextTracker, sender: string, parse: DateParser)
    ensures var t, e := Normalize(message), ResolveFollowUp(message, context, sender, parse).entities;
      && (AssigneeMatches(t) ==>
            AssigneeWord(t).Some? && "assignee" in e && e["assignee"] == Str(Lower(AssigneeWord(t).value)))
      && (!AssigneeMatches(t) && Contains(t, "her") && Truthy(context.lastAssignee) ==>
            "assignee" in e && e["assignee"] == context.lastAssignee)
      && (!AssigneeMatches(t) && !(Contains(t, "her") && Truthy(context.lastAssignee)) && Contains(t, "me") ==>
            "assignee" in e && e["assignee"] == Str(sender))
      && (!AssigneeMatches(t) && !(Contains(t, "her") && Truthy(context.lastAssignee)) && !Contains(t, "me") ==>
            "assignee" !in e)
  {
    var t := Normalize(message);
    AssigneeEntryOrder(t, context.lastAssignee, sender);
    ResolveEntries(message, context, sender, parse);
  }

  /** The entities of the resolver, entry by entry. */
  lemma ResolveEntries(message: string, context: ContextTracker, sender: string, parse: DateParser)
    ensures var t, e := Normalize(message), ResolveFollowUp(message, context, sender, parse).entities;
      && ("assignee" in e <==> AssigneeEntry(t, context.lastAssignee, sender).Some?)
      && ("assignee" in e ==> e["assignee"] == AssigneeEntry(t, context.lastAssignee, sender).value)
      && ("due_date" in e <==> DueEntry(t, parse).Some?)
      && ("due_date" in e ==> e["due_date"] == DueEntry(t, parse).value)
  {
  }

  /**
   * The due date is parsed from the text after due/to/for when that pattern matches;
   * only when it matches nowhere is "tomorrow" tried.  The tracked due date is never used.
   */
  lemma DueDateRule(message: string, context: ContextTracker, sender: string, parse: DateParser)
    ensures var t, e := Normalize(message), ResolveFollowUp(message, context, sender, parse).entities;
      && (DueText(t).Some? ==>
            ("due_date" in e <==> NlpParser.NaturalDate(DueText(t).value, parse).Some?)
            && ("due_date" in e ==> e["due_date"] == Time(NlpParser.NaturalDate(DueText(t).value, parse).value)))
      && (DueText(t).None? && Contains(t, "tomorrow") ==>
            ("due_date" in e <==> parse("tomorrow", true).Some?)
            && ("due_date" in e ==> e["due_date"] == Time(parse("tomorrow", true).value)))
      && (DueText(t).None? && !Contains(t, "tomorrow") ==> "due_date" !in e)
  {
  }

  // ---------------------------------------------------------------------------
  // The cases of the follow-up tests, with the tracker holding chore "dishes" and
  // assignee "erica", and sender "ronnie"
  // ---------------------------------------------------------------------------

  /** Neither `(to|for)\s+(\w+)` nor `(due|to|for)\s+(.*)` can match a text without those words. */
  lemma NoKeywordMatches(t: string)
    requires !Contains(t, "to") && !Contains(t, "for") && !Contains(t, "due")
    ensures AssigneeWord(t) == None && DueText(t) == None
  {
    forall i | 0 <= i <= |t|
      ensures AssigneeMatcher(t)(i).None? && DueMatcher(t)(i).None?
    {
    }
    SearchNone(AssigneeMatcher(t), 0, |t|);
    SearchNone(DueMatcher(t), 0, |t|);
  }

  /** A text that contains none of the done phrases does not match the done pattern. */
  lemma NoDonePhrase(t: string)
    requires forall w :: w in DonePhrases ==> !Contains(t, w)
    ensures !DonePattern(t)
  {
  }

  /** No keyword of either pattern starts before position p. */
  predicate NoKeywordBefore(t: string, p: int) {
    forall k :: 0 <= k < p ==> !OccursAt(t, "to", k) && !OccursAt(t, "for", k) && !OccursAt(t, "due", k)
  }

  /** The match at a "to" whose whitespace run ends at w and whose word ends at v. */
  lemma MatchesAfterTo(t: string, i: int, w: int, v: int, e: int)
    requires OccursAt(t, "to", i) && !OccursAt(t, "due", i)
    requires i + 2 < w < |t| && RunEnd(t, i + 2, IsSpace) == w && IsWordChar(t[w])
    requires RunEnd(t, w, IsWordChar) == v && RunEnd(t, w, NotNewline) == e
    ensures AssigneeAt(t, i) == Some(t[w..v]) && DueTextAt(t, i) == Some(t[w..e])
  {
    SpacesThenWordAt(t, i + 2);
  }

  lemma MiddleSlice(a: string, b: string, c: string)
    ensures (a + b + c)[|a|..|a| + |b|] == b
  {
  }

  lemma SearchesStartAt(t: string, p: int)
    requires 0 <= p <= |t| && NoKeywordBefore(t, p)
    requires AssigneeMatcher(t)(p).Some? && DueMatcher(t)(p).Some?
    ensures AssigneeWord(t) == AssigneeAt(t, p) && DueText(t) == DueTextAt(t, p)
  {
    SearchFinds(AssigneeMatcher(t), 0, |t|, p);
    SearchFinds(DueMatcher(t), 0, |t|, p);
  }

  /** The resolver assembled from its parts. */
  lemma ResolveParts(message: string, context: ContextTracker, sender: string, parse: DateParser)
    ensures var t := Normalize(message);
      ResolveFollowUp(message, context, sender, parse) ==
        Command(if InferIntent(t).Some? then InferIntent(t).value else "unknown",
                Entries(if RefersToChore(t, context.lastChore) then Some(context.lastChore) else None,
                        AssigneeEntry(t, context.lastAssignee, sender), DueEntry(t, parse)))
  {
  }

  /** A lower-case text without surrounding whitespace is its own normal form. */
  lemma NormalizedAlready(t: string)
    requires t != "" && !IsSpace(t[0]) && !IsSpace(t[|t| - 1])
    requires forall i :: 0 <= i < |t| ==> !IsUpper(t[i])
    ensures Normalize(t) == t
  {
    assert Lower(t) == t;
    StripUnpadded(t);
  }

  /** The due-date entry when the date parser is handed g. */
  function ParsedEntry(g: string, parse: DateParser): Option<Value> {
    if parse(g, true).Some? then Some(Time(parse(g, true).value)) else None
  }

  /** The entities of a resolved command, from its optional entries. */
  lemma EntriesShape(chore: Value, assignee: Option<Value>, due: Option<Value>)
    ensures Entries(Some(chore), assignee, due) ==
      map["chore" := chore]
      + (if assignee.Some? then map["assignee" := assignee.value] else map[])
      + (if due.Some? then map["due_date" := due.value] else map[])
  {
  }

  lemma DoItText(t: string)
    requires t == "do it"
    ensures InferIntent(t) == Some("done") && Contains(t, "it")
    ensures !Contains(t, "to") && !Contains(t, "for") && !Contains(t, "due")
    ensures !Contains(t, "her") && !Contains(t, "me") && !Contains(t, "tomorrow")
  {
    assert WordAt(t, "do it", 0);
    assert OccursAt(t, "it", 3);
    NotContainsPair(t, "to", 0);
    NotContainsChar(t, "for", 0);
    NotContainsChar(t, "due", 1);
    NotContainsChar(t, "her", 0);
    NotContainsChar(t, "me", 0);
    NotContainsChar(t, "tomorrow", 2);
  }

  /** "do it" is done with the tracked chore, and nothing else. */
  lemma DoIt(context: ContextTracker, parse: DateParser)
    requires context.lastChore == Str("dishes")
    ensures ResolveFollowUp("do it", context, "ronnie", parse) == Command("done", map["chore" := Str("dishes")])
  {
    var t := "do it";
    NormalizedAlready(t);
    DoItText(t);
    NoKeywordMatches(t);
    ResolveParts(t, context, "ronnie", parse);
    EntriesShape(Str("dishes"), None, None);
  }

  lemma MarkItDoneText(t: string)
    requires t == "mark it done"
    ensures InferIntent(t) == Some("done") && Contains(t, "it")
    ensures !Contains(t, "to") && !Contains(t, "for") && !Contains(t, "due")
    ensures !Contains(t, "her") && !Contains(t, "me") && !Contains(t, "tomorrow")
  {
    assert WordAt(t, "mark it done", 0);
    assert OccursAt(t, "it", 5);
    NotContainsPair(t, "to", 0);
    NotContainsChar(t, "for", 0);
    NotContainsChar(t, "due", 1);
    NotContainsChar(t, "her", 0);
    NotContainsPair(t, "me", 0);
    NotContainsPair(t, "tomorrow", 0);
  }

  /** "mark it done" is done with the tracked chore, and nothing else. */
  lemma MarkItDone(context: ContextTracker, parse: DateParser)
    requires context.lastChore == Str("dishes")
    ensures ResolveFollowUp("mark it done", context, "ronnie", parse) == Command("done", map["chore" := Str("dishes")])
  {
    var t := "mark it done";
    NormalizedAlready(t);
    MarkItDoneText(t);
    NoKeywordMatches(t);
    ResolveParts(t, context, "ronnie", parse);
    EntriesShape(Str("dishes"), None, None);
  }

  lemma DeleteItText(t: string)
    requires t == "delete it"
    ensures InferIntent(t) == Some("delete") && Contains(t, "it")
    ensures !Contains(t, "to") && !Contains(t, "for") && !Contains(t, "due")
    ensures !Contains(t, "her") && !Contains(t, "me") && !Contains(t, "tomorrow")
  {
    NotContainsPair(t, "done", 0);
    NotContainsPair(t, "do it", 0);
    NotContainsChar(t, "mark it done", 0);
    NotContainsChar(t, "mark done", 0);
    NoDonePhrase(t);
    assert OccursAt(t, "delete", 0);
    assert OccursAt(t, "it", 7);
    NotContainsPair(t, "to", 0);
    NotContainsChar(t, "for", 0);
    NotContainsChar(t, "due", 1);
    NotContainsChar(t, "her", 0);
    NotContainsChar(t, "me", 0);
    NotContainsPair(t, "tomorrow", 0);
  }

  /** "delete it" is delete with the tracked chore, and nothing else. */
  lemma DeleteIt(context: ContextTracker, parse: DateParser)
    requires context.lastChore == Str("dishes")
    ensures ResolveFollowUp("delete it", context, "ronnie", parse) == Command("delete", map["chore" := Str("dishes")])
  {
    var t := "delete it";
    NormalizedAlready(t);
    DeleteItText(t);
    NoKeywordMatches(t);
    ResolveParts(t, context, "ronnie", parse);
    EntriesShape(Str("dishes"), None, None);
  }

  lemma LowerWord()
    ensures Lower("becky") == "becky" && Lower("next") == "next"
  {
    assert Lower("becky") == "becky";
    assert Lower("next") == "next";
  }

  lemma AssignItToBeckyNormal(m: string, t: string)
    requires m == "assign it to Becky" && t == "assign it to becky"
    ensures Normalize(m) == t
  {
    assert Lower(m) == t;
    StripUnpadded(t);
  }

  lemma AssignItToBeckyIntent(t: string)
    requires t == "assign it to becky"
    ensures InferIntent(t) == Some("add") && Contains(t, "it")
  {
    NotContainsChar(t, "done", 0);
    NotContainsChar(t, "do it", 0);
    NotContainsChar(t, "mark it done", 0);
    NotContainsChar(t, "mark done", 0);
    NoDonePhrase(t);
    NotContainsChar(t, "delete", 0);
    NotContainsChar(t, "remove", 0);
    assert OccursAt(t, "assign", 0);
    assert OccursAt(t, "it", 7);
  }

  lemma AssignItToBeckyNoKeyword(t: string)
    requires t == "assign it to becky"
    ensures NoKeywordBefore(t, 10)
  {
    forall k | 0 <= k < 10
      ensures !OccursAt(t, "to", k) && !OccursAt(t, "for", k) && !OccursAt(t, "due", k)
    {
      CharAt(t, "to", k, k);
      CharAt(t, "to", k, k + 1);
      CharAt(t, "for", k, k);
      CharAt(t, "due", k, k);
    }
  }

  lemma AssignItToBeckyRuns(t: string)
    requires t == "assign it to becky"
    ensures OccursAt(t, "to", 10) && !OccursAt(t, "due", 10) && IsWordChar(t[13])
    ensures RunEnd(t, 12, IsSpace) == 13 && RunEnd(t, 13, IsWordChar) == 18 && RunEnd(t, 13, NotNewline) == 18
  {
    RunEndAt(t, 12, IsSpace, 13);
    AssignItToBeckyWordRuns(t);
  }

  lemma AssignItToBeckyWordRuns(t: string)
    requires t == "assign it to becky"
    ensures RunEnd(t, 13, IsWordChar) == 18 && RunEnd(t, 13, NotNewline) == 18
  {
    RunEndAt(t, 13, IsWordChar, 18);
    RunEndAt(t, 13, NotNewline, 18);
  }


  lemma AssignItToBeckyGroups(t: string)
    requires t == "assign it to becky"
    ensures AssigneeAt(t, 10) == Some("becky") && DueTextAt(t, 10) == Some("becky")
  {
    AssignItToBeckyRuns(t);
    MatchesAfterTo(t, 10, 13, 18, 18);
    MiddleSlice("assign it to ", "becky", "");
    assert t == "assign it to " + "becky" + "";
  }

  lemma AssignItToBeckyMatches(t: string)
    requires t == "assign it to becky"
    ensures AssigneeWord(t) == Some("becky") && DueText(t) == Some("becky")
  {
    AssignItToBeckyNoKeyword(t);
    AssignItToBeckyGroups(t);
    SearchesStartAt(t, 10);
  }

  /**
   * "assign it to Becky" is add with the tracked chore and assignee "becky"; the word
   * after "to" is also what the date parser is handed.
   */
  lemma AssignItToBecky(context: ContextTracker, parse: DateParser)
    requires context.lastChore == Str("dishes")
    ensures ResolveFollowUp("assign it to Becky", context, "ronnie", parse) ==
      Command("add", Entries(Some(Str("dishes")), Some(Str("becky")), ParsedEntry("becky", parse)))
  {
    var m, t := "assign it to Becky", "assign it to becky";
    AssignItToBeckyNormal(m, t);
    AssignItToBeckyIntent(t);
    AssignItToBeckyMatches(t);
    LowerWord();
    ResolveParts(m, context, "ronnie", parse);
  }

  lemma RemindHerTomorrowNotDone(t: string)
    requires t == "remind her tomorrow"
    ensures !DonePattern(t)
  {
    NotContainsPair(t, "done", 0);
    NotContainsPair(t, "do it", 0);
    NotContainsPair(t, "mark it done", 0);
    NotContainsPair(t, "mark done", 0);
    NoDonePhrase(t);
  }

  lemma RemindHerTomorrowText(t: string)
    requires t == "remind her tomorrow"
    ensures InferIntent(t) == Some("add") && Contains(t, "remind")
    ensures Contains(t, "her") && Contains(t, "tomorrow")
  {
    RemindHerTomorrowNotDone(t);
    NotContainsPair(t, "delete", 0);
    NotContainsChar(t, "remove", 4);
    NotContainsChar(t, "assign", 0);
    NotContainsChar(t, "add", 0);
    assert OccursAt(t, "remind", 0);
    assert OccursAt(t, "her", 7);
    assert OccursAt(t, "tomorrow", 11);
  }

  lemma RemindHerTomorrowNoKeyword(t: string)
    requires t == "remind her tomorrow"
    ensures forall k :: 0 <= k <= |t| && k != 11 ==>
      !OccursAt(t, "to", k) && !OccursAt(t, "for", k) && !OccursAt(t, "due", k)
  {
    forall k | 0 <= k <= |t| && k != 11
      ensures !OccursAt(t, "to", k) && !OccursAt(t, "for", k) && !OccursAt(t, "due", k)
    {
      CharAt(t, "to", k, k);
      CharAt(t, "to", k, k + 1);
      CharAt(t, "for", k, k);
      CharAt(t, "due", k, k + 1);
    }
  }

  lemma RemindHerTomorrowMatches(t: string)
    requires t == "remind her tomorrow"
    ensures AssigneeWord(t) == None && DueText(t) == None
  {
    RemindHerTomorrowNoKeyword(t);
    assert AssigneeMatcher(t)(11).None? && DueMatcher(t)(11).None? by {
      assert OccursAt(t, "to", 11);
      CharAt(t, "due", 11, 11);
      CharAt(t, "for", 11, 11);
      RunEndAt(t, 13, IsSpace, 13);
    }
    SearchNone(AssigneeMatcher(t), 0, |t|);
    SearchNone(DueMatcher(t), 0, |t|);
  }

  /**
   * "remind her tomorrow" is add with the tracked chore, the tracked assignee for "her",
   * and the parse of "tomorrow" as its due date.
   */
  lemma RemindHerTomorrow(context: ContextTracker, parse: DateParser)
    requires context.lastChore == Str("dishes") && context.lastAssignee == Str("erica")
    ensures ResolveFollowUp("remind her tomorrow", context, "ronnie", parse) ==
      Command("add", Entries(Some(Str("dishes")), Some(Str("erica")), ParsedEntry("tomorrow", parse)))
  {
    var t := "remind her tomorrow";
    NormalizedAlready(t);
    RemindHerTomorrowText(t);
    RemindHerTomorrowMatches(t);
    assert Truthy(context.lastAssignee);
    assert AssigneeEntry(t, context.lastAssignee, "ronnie") == Some(Str("erica"));
    assert DueEntry(t, parse) == ParsedEntry("tomorrow", parse);
    ResolveParts(t, context, "ronnie", parse);
  }

  lemma PostponeItText(t: string)
    requires t == "postpone it to next week"
    ensures InferIntent(t) == Some("add") && Contains(t, "it")
  {
    NotContainsChar(t, "done", 0);
    NotContainsChar(t, "do it", 0);
    NotContainsChar(t, "mark it done", 0);
    NotContainsChar(t, "mark done", 0);
    NoDonePhrase(t);
    NotContainsChar(t, "delete", 0);
    NotContainsChar(t, "remove", 0);
    NotContainsChar(t, "assign", 0);
    NotContainsChar(t, "add", 0);
    NotContainsChar(t, "remind", 0);
    assert OccursAt(t, "postpone", 0);
    assert OccursAt(t, "it", 9);
  }

  lemma PostponeItNoKeywordBefore(t: string)
    requires t == "postpone it to next week"
    ensures NoKeywordBefore(t, 12)
  {
    PostponeItNoTo(t);
    forall k | 0 <= k < 12
      ensures !OccursAt(t, "for", k) && !OccursAt(t, "due", k)
    {
      CharAt(t, "for", k, k);
      CharAt(t, "due", k, k + 1);
    }
  }

  lemma PostponeItNoTo(t: string)
    requires t == "postpone it to next week"
    ensures forall k :: 0 <= k < 12 ==> !OccursAt(t, "to", k)
  {
    forall k | 0 <= k < 12
      ensures !OccursAt(t, "to", k)
    {
      CharAt(t, "to", k, k);
      CharAt(t, "to", k, k + 1);
    }
  }

  lemma PostponeItRuns(t: string)
    requires t == "postpone it to next week"
    ensures OccursAt(t, "to", 12) && !OccursAt(t, "due", 12) && IsWordChar(t[15])
    ensures RunEnd(t, 14, IsSpace) == 15 && RunEnd(t, 15, IsWordChar) == 19 && RunEnd(t, 15, NotNewline) == 24
  {
    RunEndAt(t, 14, IsSpace, 15);
    PostponeItWordRuns(t);
  }

  lemma PostponeItWordRuns(t: string)
    requires t == "postpone it to next week"
    ensures RunEnd(t, 15, IsWordChar) == 19 && RunEnd(t, 15, NotNewline) == 24
  {
    RunEndAt(t, 15, IsWordChar, 19);
    RunEndAt(t, 15, NotNewline, 24);
  }


  lemma PostponeItGroups(t: string)
    requires t == "postpone it to next week"
    ensures AssigneeAt(t, 12) == Some("next") && DueTextAt(t, 12) == Some("next week")
  {
    PostponeItRuns(t);
    MatchesAfterTo(t, 12, 15, 19, 24);
    MiddleSlice("postpone it to ", "next", " week");
    MiddleSlice("postpone it to ", "next week", "");
    assert t == "postpone it to " + "next" + " week" == "postpone it to " + "next week" + "";
  }

  lemma PostponeItMatches(t: string)
    requires t == "postpone it to next week"
    ensures AssigneeWord(t) == Some("next") && DueText(t) == Some("next week")
  {
    PostponeItNoKeywordBefore(t);
    PostponeItGroups(t);
    SearchesStartAt(t, 12);
  }

  /**
   * "postpone it to next week" is add with the tracked chore; `(to|for)\s+(\w+)` takes
   * "next" as the assignee, and "next week" goes to the date parser.
   */
  lemma PostponeItToNextWeek(context: ContextTracker, parse: DateParser)
    requires context.lastChore == Str("dishes")
    ensures ResolveFollowUp("postpone it to next week", context, "ronnie", parse) ==
      Command("add", Entries(Some(Str("dishes")), Some(Str("next")), ParsedEntry("next week", parse)))
  {
    var t := "postpone it to next week";
    NormalizedAlready(t);
    PostponeItText(t);
    PostponeItMatches(t);
    LowerWord();
    assert AssigneeEntry(t, context.lastAssignee, "ronnie") == Some(Str("next"));
    assert DueEntry(t, parse) == ParsedEntry("next week", parse);
    ResolveParts(t, context, "ronnie", parse);
  }
}
