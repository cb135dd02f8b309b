/**
 * utils.py: the older single-command SMS parser `parse_sms_nlp` and the date helper
 * `parse_natural_date` that maps a bare weekday name to its next occurrence.
 */
module Utils {
  import opened Values
  import opened Text

  // ---------------------------------------------------------------------------
  // parse_natural_date
  // ---------------------------------------------------------------------------

  const WeekdayNames: seq<string> := ["monday", "tuesday", "wednesday", "thursday", "friday", "saturday", "sunday"]

  /** The `weekdays` lookup: the index of a weekday name, Monday being 0. */
  function WeekdayIndex(t: string): (r: Option<int>)
    ensures r.Some? <==> t in WeekdayNames
    ensures r.Some? ==> 0 <= r.value < 7 && WeekdayNames[r.value] == t
  {
    if t == "monday" then Some(0)
    else if t == "tuesday" then Some(1)
    else if t == "wednesday" then Some(2)
    else if t == "thursday" then Some(3)
    else if t == "friday" then Some(4)
    else if t == "saturday" then Some(5)
    else if t == "sunday" then Some(6)
    else None
  }

  /** `days_ahead`: how far the next target weekday lies, never 0. */
  function DaysAhead(target: int, today: int): (d: int)
    requires 0 <= target < 7 && 0 <= today < 7
    ensures 1 <= d <= 7
    ensures (today + d) % 7 == target
    ensures target == today <==> d == 7
  {
    var d := (target - today + 7) % 7;
    if d != 0 then d else 7
  }

  /** The smallest such step: no earlier day in the coming week falls on the target weekday. */
  lemma DaysAheadIsNext(target: int, today: int, e: int)
    requires 0 <= target < 7 && 0 <= today < 7
    requires 1 <= e < DaysAhead(target, today)
    ensures (today + e) % 7 != target
  {
  }

  /**
   * parse_natural_date: None for None or "", the next occurrence of a bare weekday name
   * (matched after strip and lower-casing), and otherwise the date parser's reading of
   * the normalised text.
   */
  function ParseNaturalDate(text: Option<string>, today: Timestamp, parse: DateParser): (r: Option<Timestamp>)
    ensures text.None? || text.value == "" ==> r.None?
    ensures text.Some? && text.value != "" && WeekdayIndex(StripLower(text.value)).None? ==>
      r == parse(StripLower(text.value), false)
  {
    if text.None? || text.value == "" then None
    else
      var t := StripLower(text.value);
      match WeekdayIndex(t)
      case Some(target) => Some(today + DaysAhead(target, Weekday(today)) * MicrosPerDay)
      case None => parse(t, false)
  }

  /**
   * A weekday name gives a time one to seven days ahead, at the same time of day, on that
   * weekday; naming today's weekday gives exactly a week ahead.
   */
  lemma WeekdayMovesForward(text: string, today: Timestamp, parse: DateParser)
    requires WeekdayIndex(StripLower(text)).Some?
    ensures var r, target := ParseNaturalDate(Some(text), today, parse), WeekdayIndex(StripLower(text)).value;
      && r.Some?
      && 1 <= DayOf(r.value) - DayOf(today) <= 7
      && r.value - DayOf(r.value) * MicrosPerDay == today - DayOf(today) * MicrosPerDay
      && Weekday(r.value) == target
      && (target == Weekday(today) <==> DayOf(r.value) - DayOf(today) == 7)
  {
    WeekdayResult(text, today, parse);
    NextWeekdayFacts(today, WeekdayIndex(StripLower(text)).value, ParseNaturalDate(Some(text), today, parse).value);
  }

  /** The facts about the next occurrence r of the target weekday, with the day count left implicit. */
  lemma NextWeekdayFacts(today: Timestamp, target: int, r: Timestamp)
    requires 0 <= target < 7 && r == today + DaysAhead(target, Weekday(today)) * MicrosPerDay
    ensures 1 <= DayOf(r) - DayOf(today) <= 7
    ensures r - DayOf(r) * MicrosPerDay == today - DayOf(today) * MicrosPerDay
    ensures Weekday(r) == target
    ensures target == Weekday(today) <==> DayOf(r) - DayOf(today) == 7
  {
    NextWeekday(today, target);
  }

  lemma WeekdayResult(text: string, today: Timestamp, parse: DateParser)
    requires WeekdayIndex(StripLower(text)).Some?
    ensures ParseNaturalDate(Some(text), today, parse) ==
      Some(today + DaysAhead(WeekdayIndex(StripLower(text)).value, Weekday(today)) * MicrosPerDay)
  {
    EmptyNotWeekday();
  }

  /** The empty text normalises to itself, which names no weekday. */
  lemma EmptyNotWeekday()
    ensures WeekdayIndex(StripLower("")).None?
  {
    assert Strip("") == "";
  }

  /** The arithmetic of `today + timedelta(days=days_ahead)`. */
  lemma NextWeekday(today: Timestamp, target: int)
    requires 0 <= target < 7
    ensures var d := DaysAhead(target, Weekday(today));
      var r := today + d * MicrosPerDay;
      && DayOf(r) - DayOf(today) == d
      && r - DayOf(r) * MicrosPerDay == today - DayOf(today) * MicrosPerDay
      && Weekday(r) == target
  {
    var d := DaysAhead(target, Weekday(today));
    AddDays(today, d);
    assert DayOf(today + d * MicrosPerDay) * MicrosPerDay == DayOf(today) * MicrosPerDay + d * MicrosPerDay;
  }

  // ---------------------------------------------------------------------------
  // parse_sms_nlp
  // ---------------------------------------------------------------------------

  const HelpWords: seq<string> := ["help", "commands", "what can you do"]
  const GreetingWords: seq<string> := ["hi", "hello", "greetings", "hey", "howdy", "yo", "sup"]

  /** `any(word in s for word in words)` */
  predicate ContainsAny(s: string, words: seq<string>) {
    exists w | w in words :: Contains(s, w)
  }

  /** A character of `[\w\s]`. */
  predicate WordOrSpace(c: char) {
    IsWordChar(c) || IsSpace(c)
  }

  /** Every character of s[lo..hi] satisfies P. */
  predicate AllIn(s: string, lo: int, hi: int, P: char -> bool)
    requires 0 <= lo <= hi <= |s|
  {
    forall k :: lo <= k < hi ==> P(s[k])
  }

  /** The three groups of `add (.+?) to ([\w\s]+?) due (.+)`. */
  datatype AddGroups = AddGroups(chore: string, assignee: string, due: string)

  /** Each of `.+?`, `[\w\s]+?` and `.+` takes at least one character. */
  predicate GroupsNonEmpty(g: AddGroups) {
    g.chore != "" && g.assignee != "" && g.due != ""
  }

  /** The tail ` due (.+)` at b, with group 3 greedy up to the end of the line. */
  function DueTail(s: string, b: int): (r: Option<string>)
    ensures r.Some? ==> r.value != ""
  {
    if OccursAt(s, " due ", b) && b + 5 < |s| && s[b + 5] != '\n' then
      Some(s[b + 5..RunEnd(s, b + 5, c => c != '\n')])
    else None
  }

  /** Group 2 ends at b: `[\w\s]+?` has taken s[a + 4..b] and the tail matches there. */
  function AssigneeEndAt(s: string, a: int, b: int): (r: Option<(string, string)>)
    ensures r.Some? ==> r.value.0 != "" && r.value.1 != ""
  {
    if 0 <= a && a + 5 <= b <= |s| && AllIn(s, a + 4, b, WordOrSpace) && DueTail(s, b).Some? then
      Some((s[a + 4..b], DueTail(s, b).value))
    else None
  }

  function AssigneeEndMatcher(s: string, a: int): int -> Option<(string, string)> {
    b => AssigneeEndAt(s, a, b)
  }

  /** Group 1 ends at a: `.+?` has taken s[4..a], " to " follows, and group 2 can end somewhere. */
  function ChoreEndAt(s: string, a: int): (r: Option<AddGroups>)
    ensures r.Some? ==> GroupsNonEmpty(r.value)
  {
    if 5 <= a <= |s| && AllIn(s, 4, a, c => c != '\n') && OccursAt(s, " to ", a) then
      SearchValue(AssigneeEndMatcher(s, a), a + 5, |s|, (p: (string, string)) => p.0 != "" && p.1 != "");
      match Search(AssigneeEndMatcher(s, a), a + 5, |s|)
      case Some(rest) => Some(AddGroups(s[4..a], rest.0, rest.1))
      case None => None
    else None
  }

  function ChoreEndMatcher(s: string): int -> Option<AddGroups> {
    a => ChoreEndAt(s, a)
  }

  /**
   * `re.match(r"add (.+?) to ([\w\s]+?) due (.+)", s)`: the lazy groups make the match
   * with the shortest chore, and for it the shortest assignee.
   */
  function AddMatch(s: string): (r: Option<AddGroups>)
    ensures r.Some? ==> StartsWith(s, "add ") && GroupsNonEmpty(r.value)
  {
    SearchValue(ChoreEndMatcher(s), 5, |s|, GroupsNonEmpty);
    if StartsWith(s, "add ") then Search(ChoreEndMatcher(s), 5, |s|) else None
  }

  /** The pattern can match with group 1 ending at a and group 2 ending at b. */
  predicate AddShapeAt(s: string, a: int, b: int) {
    && StartsWith(s, "add ")
    && 5 <= a && a + 5 <= b && b + 5 < |s|
    && AllIn(s, 4, a, c => c != '\n') && OccursAt(s, " to ", a)
    && AllIn(s, a + 4, b, WordOrSpace) && OccursAt(s, " due ", b) && s[b + 5] != '\n'
  }

  /** Where group 1 may end, group 2 can end at b exactly when the whole shape fits. */
  lemma AssigneeEndShape(s: string, a: int, b: int)
    requires StartsWith(s, "add ") && 5 <= a <= |s| && AllIn(s, 4, a, c => c != '\n') && OccursAt(s, " to ", a)
    ensures AssigneeEndMatcher(s, a)(b).Some? <==> AddShapeAt(s, a, b)
  {
  }

  /** Group 1 can end at a exactly when the shape fits with some end of group 2. */
  lemma ChoreEndShape(s: string, a: int)
    requires StartsWith(s, "add ")
    ensures ChoreEndMatcher(s)(a).Some? <==> exists b :: AddShapeAt(s, a, b)
  {
    if ChoreEndMatcher(s)(a).Some? {
      var b := SearchFound(AssigneeEndMatcher(s, a), a + 5, |s|);
      AssigneeEndShape(s, a, b);
    }
    if exists b :: AddShapeAt(s, a, b) {
      var b :| AddShapeAt(s, a, b);
      AssigneeEndShape(s, a, b);
      SearchSomeIfAny(AssigneeEndMatcher(s, a), a + 5, |s|, b);
    }
  }

  /** The add pattern matches exactly when some choice of the two lazy groups fits. */
  lemma AddMatchIff(s: string)
    ensures AddMatch(s).Some? <==> exists a, b :: AddShapeAt(s, a, b)
  {
    if AddMatch(s).Some? {
      var a := SearchFound(ChoreEndMatcher(s), 5, |s|);
      ChoreEndShape(s, a);
    }
    if exists a, b :: AddShapeAt(s, a, b) {
      var a, b :| AddShapeAt(s, a, b);
      ChoreEndShape(s, a);
      SearchSomeIfAny(ChoreEndMatcher(s), 5, |s|, a);
    }
  }

  /**
   * The match the lazy groups choose: the chore is the shortest that allows a match,
   * and the assignee the shortest that allows one with that chore.
   */
  lemma AddMatchIsLeast(s: string)
    requires AddMatch(s).Some?
    ensures exists a, b ::
      && AddShapeAt(s, a, b)
      && AddMatch(s).value == AddGroups(s[4..a], s[a + 4..b], DueTail(s, b).value)
      && (forall a', b' :: AddShapeAt(s, a', b') ==> a <= a')
      && (forall b' :: AddShapeAt(s, a, b') ==> b <= b')
  {
    var a := SearchFound(ChoreEndMatcher(s), 5, |s|);
    var b := SearchFound(AssigneeEndMatcher(s, a), a + 5, |s|);
    AssigneeEndShape(s, a, b);
    forall a', b' | AddShapeAt(s, a', b')
      ensures a <= a'
    {
      ChoreEndShape(s, a');
    }
    forall b' | AddShapeAt(s, a, b')
      ensures b <= b'
    {
      AssigneeEndShape(s, a, b');
    }
  }

  /** The result of the add branch. */
  function AddIntent(m: string, parse: DateParser): (r: Command)
    ensures r.intent == "add" || r.intent == "add_invalid"
    ensures r.intent == "add" <==> AddMatch(m).Some? && parse(Strip(AddMatch(m).value.due), false).Some?
    ensures r.intent == "add" ==> r.entities.Keys == {"chore", "assignee", "due_date"}
    ensures r.intent == "add_invalid" ==> r.entities == map[]
  {
    match AddMatch(m)
    case None => Command("add_invalid", map[])
    case Some(g) =>
      var dueStr := Strip(g.due);
      match parse(dueStr, false)
      case Some(t) =>
        Command("add", map["chore" := Str(Strip(g.chore)), "assignee" := Str(Strip(g.assignee)),
                           "due_date" := Day(DayOf(t))])
      case None => Command("add_invalid", map[])
  }

  /** The result of the done or claim branch: the message without the keyword, else invalid. */
  function KeywordRemainder(m: string, keyword: string, invalid: string): (r: Command)
    requires keyword != "" && keyword != invalid
    ensures r.intent == keyword || r.intent == invalid
    ensures r.intent == keyword <==> Strip(ReplaceAll(m, keyword, "")) != ""
    ensures r.intent == keyword ==> r.entities == map["chore" := Str(Strip(ReplaceAll(m, keyword, "")))]
    ensures r.intent == invalid ==> r.entities == map[]
  {
    var chore := Strip(ReplaceAll(m, keyword, ""));
    if chore != "" then Command(keyword, map["chore" := Str(chore)]) else Command(invalid, map[])
  }

  /**
   * parse_sms_nlp: help words anywhere, then greeting words anywhere, then the prefixes
   * list, done, claim and add, and otherwise unknown.
   */
  function ParseSmsNlp(message: string, parse: DateParser): (r: Command)
    ensures r.intent in {"help", "greetings", "list", "done", "done_invalid", "claim", "claim_invalid",
                         "add", "add_invalid", "unknown"}
  {
    var m := StripLower(message);
    if ContainsAny(m, HelpWords) then Command("help", map[])
    else if ContainsAny(m, GreetingWords) then Command("greetings", map[])
    else if StartsWith(m, "list") then Command("list", map[])
    else if StartsWith(m, "done") then KeywordRemainder(m, "done", "done_invalid")
    else if StartsWith(m, "claim") then KeywordRemainder(m, "claim", "claim_invalid")
    else if StartsWith(m, "add") then AddIntent(m, parse)
    else Command("unknown", map[])
  }

  /** Every intent without a payload carries no entities. */
  lemma SmsEmptyEntities(message: string, parse: DateParser)
    ensures var r := ParseSmsNlp(message, parse);
      r.intent in {"help", "greetings", "list", "done_invalid", "claim_invalid", "add_invalid", "unknown"} ==>
        r.entities == map[]
  {
  }

  /** done and claim carry the chore text. */
  lemma SmsChoreKeys(message: string, parse: DateParser)
    ensures var r := ParseSmsNlp(message, parse);
      r.intent in {"done", "claim"} ==> r.entities.Keys == {"chore"} && r.entities["chore"].Str?
  {
    var m := StripLower(message);
    if ContainsAny(m, HelpWords) || ContainsAny(m, GreetingWords) || StartsWith(m, "list") {
    } else if StartsWith(m, "done") {
      assert ParseSmsNlp(message, parse) == KeywordRemainder(m, "done", "done_invalid");
    } else if StartsWith(m, "claim") {
      assert ParseSmsNlp(message, parse) == KeywordRemainder(m, "claim", "claim_invalid");
    } else if StartsWith(m, "add") {
      assert ParseSmsNlp(message, parse) == AddIntent(m, parse);
    }
  }

  /** add carries chore, assignee and due day. */
  lemma SmsAddKeys(message: string, parse: DateParser)
    ensures var r := ParseSmsNlp(message, parse);
      r.intent == "add" ==> r.entities.Keys == {"chore", "assignee", "due_date"}
  {
  }

  /** The first test that matches decides the intent. */
  lemma SmsPrecedence(message: string, parse: DateParser)
    ensures var m, i := StripLower(message), ParseSmsNlp(message, parse).intent;
      && (ContainsAny(m, HelpWords) <==> i == "help")
      && (!ContainsAny(m, HelpWords) && ContainsAny(m, GreetingWords) <==> i == "greetings")
      && (!ContainsAny(m, HelpWords) && !ContainsAny(m, GreetingWords) && StartsWith(m, "list") <==> i == "list")
      && ((!ContainsAny(m, HelpWords) && !ContainsAny(m, GreetingWords) && !StartsWith(m, "list")
           && StartsWith(m, "done")) <==> i in {"done", "done_invalid"})
      && ((!ContainsAny(m, HelpWords) && !ContainsAny(m, GreetingWords) && !StartsWith(m, "list")
           && !StartsWith(m, "done") && StartsWith(m, "claim")) <==> i in {"claim", "claim_invalid"})
      && (i == "unknown" <==>
            !ContainsAny(m, HelpWords) && !ContainsAny(m, GreetingWords)
            && !StartsWith(m, "list") && !StartsWith(m, "done") && !StartsWith(m, "claim") && !StartsWith(m, "add"))
  {
  }

  /**
   * An add command succeeds exactly when the pattern matches and its third group parses;
   * the due date is then the day of that parse.
   */
  lemma AddSucceeds(m: string, parse: DateParser)
    ensures var r := AddIntent(m, parse);
      && (r.intent == "add" <==> AddMatch(m).Some? && parse(Strip(AddMatch(m).value.due), false).Some?)
      && (r.intent == "add" ==>
            var g, t := AddMatch(m).value, parse(Strip(AddMatch(m).value.due), false).value;
            r.entities == map["chore" := Str(Strip(g.chore)), "assignee" := Str(Strip(g.assignee)),
                              "due_date" := Day(DayOf(t))])
      && (r.intent != "add" ==> r == Command("add_invalid", map[]))
  {
  }

  /** No word of the list occurs in s. */
  lemma NoneOf(s: string, words: seq<string>)
    requires forall w :: w in words ==> !Contains(s, w)
    ensures !ContainsAny(s, words)
  {
  }

  lemma DoneWashingNormal(m: string)
    requires m == "done washing"
    ensures StripLower(m) == m
  {
    StripUnpadded(m);
    assert Lower(m) == m;
  }

  lemma DoneWashingText(m: string)
    requires m == "done washing"
    ensures !ContainsAny(m, HelpWords) && Contains(m, "hi")
  {
    NotContainsChar(m, "help", 3);
    NotContainsChar(m, "commands", 2);
    NotContainsChar(m, "what can you do", 9);
    NoneOf(m, HelpWords);
    assert OccursAt(m, "hi", 8);
  }

  /**
   * Greeting words are found anywhere, even inside other words, and are tested before
   * the prefixes: "done washing" greets, because "washing" contains "hi".
   */
  lemma DoneWashingGreets(message: string, parse: DateParser)
    requires message == "done washing"
    ensures ParseSmsNlp(message, parse) == Command("greetings", map[])
  {
    DoneWashingNormal(message);
    DoneWashingText(message);
    assert GreetingWords[0] == "hi";
  }

  lemma AddExampleStrip(message: string)
    requires message == "Add dishes to Becky due Friday"
    ensures Strip(message) == message
  {
    StripUnpadded(message);
  }

  lemma AddExampleLower(message: string, m: string)
    requires message == "Add dishes to Becky due Friday" && m == "add dishes to becky due friday"
    ensures Lower(message) == m
  {
  }

  lemma AddExampleNoHelp(m: string)
    requires m == "add dishes to becky due friday"
    ensures !ContainsAny(m, HelpWords)
  {
    NotContainsPair(m, "help", 1);
    NotContainsChar(m, "commands", 2);
    NotContainsChar(m, "what can you do", 0);
    NoneOf(m, HelpWords);
  }

  lemma AddExampleNoHe(m: string)
    requires m == "add dishes to becky due friday"
    ensures !Contains(m, "hi") && !Contains(m, "hello") && !Contains(m, "hey")
  {
    NotContainsPair(m, "hi", 0);
    NotContainsPair(m, "hello", 1);
    NotContainsPair(m, "hey", 1);
  }

  lemma AddExampleNoGreeting(m: string)
    requires m == "add dishes to becky due friday"
    ensures !ContainsAny(m, GreetingWords)
  {
    AddExampleNoHe(m);
    NotContainsChar(m, "greetings", 0);
    NotContainsChar(m, "howdy", 2);
    NotContainsPair(m, "yo", 0);
    NotContainsChar(m, "sup", 2);
    NoneOf(m, GreetingWords);
  }

  lemma AddExamplePrefix(m: string)
    requires m == "add dishes to becky due friday"
    ensures !StartsWith(m, "list") && !StartsWith(m, "done") && !StartsWith(m, "claim") && StartsWith(m, "add")
    ensures StartsWith(m, "add ")
  {
    CharAt(m, "list", 0, 0);
    CharAt(m, "done", 0, 0);
    CharAt(m, "claim", 0, 0);
    assert m[..3] == "add" && m[..4] == "add ";
  }

  /** Group 1 cannot end where " to " does not follow. */
  lemma ChoreEndNeedsTo(s: string, a: int)
    requires !OccursAt(s, " to ", a)
    ensures ChoreEndMatcher(s)(a).None?
  {
  }

  /** Group 2 cannot end where " due " does not follow. */
  lemma AssigneeEndNeedsDue(s: string, a: int, b: int)
    requires !OccursAt(s, " due ", b)
    ensures AssigneeEndMatcher(s, a)(b).None?
  {
  }

  lemma AddExampleChoreEnd(m: string)
    requires m == "add dishes to becky due friday"
    ensures forall a :: 5 <= a < 10 ==> ChoreEndMatcher(m)(a).None?
  {
    forall a | 5 <= a < 10
      ensures ChoreEndMatcher(m)(a).None?
    {
      CharAt(m, " to ", a, a);
      ChoreEndNeedsTo(m, a);
    }
  }

  lemma AddExampleAssigneeEnd(m: string)
    requires m == "add dishes to becky due friday"
    ensures Search(AssigneeEndMatcher(m, 10), 15, |m|) == Some(("becky", "friday"))
  {
    var g := AssigneeEndMatcher(m, 10);
    forall b | 15 <= b < 19
      ensures g(b).None?
    {
      CharAt(m, " due ", b, b);
      AssigneeEndNeedsDue(m, 10, b);
    }
    AddExampleTail(m);
    SearchFinds(g, 15, |m|, 19);
  }

  lemma AddExampleTail(m: string)
    requires m == "add dishes to becky due friday"
    ensures DueTail(m, 19) == Some("friday")
    ensures AssigneeEndMatcher(m, 10)(19) == Some(("becky", "friday"))
  {
    assert OccursAt(m, " due ", 19);
    RunEndAt(m, 24, c => c != '\n', 30);
    assert m[24..30] == "friday" && m[14..19] == "becky";
    assert AllIn(m, 14, 19, WordOrSpace);
  }

  lemma AddExampleGroups(m: string)
    requires m == "add dishes to becky due friday"
    ensures OccursAt(m, " to ", 10) && m[4..10] == "dishes"
    ensures AllIn(m, 4, 10, c => c != '\n')
  {
    assert m == "add " + "dishes" + " to " + "becky due friday";
  }

  lemma AddExampleMatch(m: string)
    requires m == "add dishes to becky due friday"
    ensures AddMatch(m) == Some(AddGroups("dishes", "becky", "friday"))
  {
    AddExamplePrefix(m);
    AddExampleChoreEnd(m);
    AddExampleAssigneeEnd(m);
    AddExampleGroups(m);
    SearchFinds(ChoreEndMatcher(m), 5, |m|, 10);
  }

  /**
   * The example of the source comment, "Add dishes to Becky due Friday": chore "dishes",
   * assignee "becky", and the day the date parser gives for "friday", if it gives one.
   */
  lemma AddExample(message: string, parse: DateParser)
    requires message == "Add dishes to Becky due Friday"
    ensures var r := ParseSmsNlp(message, parse);
      && (parse("friday", false).None? ==> r == Command("add_invalid", map[]))
      && (parse("friday", false).Some? ==>
            r == Command("add", map["chore" := Str("dishes"), "assignee" := Str("becky"),
                                    "due_date" := Day(DayOf(parse("friday", false).value))]))
  {
    var m := "add dishes to becky due friday";
    AddExampleStrip(message);
    AddExampleLower(message, m);
    AddExampleNoHelp(m);
    AddExampleNoGreeting(m);
    AddExamplePrefix(m);
    AddExampleMatch(m);
    StripUnpadded("dishes");
    StripUnpadded("becky");
    StripUnpadded("friday");
  }
}
