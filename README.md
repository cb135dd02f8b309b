# Chore bot: command interpretation and conversation context

The chore bot reads text messages from household members and turns each one into
commands, each a pair of an intent (add, done, list, claim, delete, unassign, broadcast,
greetings, help, unknown and the `*_invalid` variants) and a dictionary of entities
(chore, assignee, due date, message). This project models the parts of the bot that
interpret a message and remember the conversation, and proves properties of them:

- `context_utils.dfy` (module `ContextUtils`): the per-phone conversation store with its
  five-minute expiry (`ConversationContext`), and the tracker of the last intent, chore,
  assignee and due date (`ContextTracker`). Both are classes whose methods update their
  fields, as in the source.
- `follow_up.dfy` (module `FollowUp`): `resolve_follow_up`, which turns a terse follow-up
  such as "do it" or "remind her tomorrow" into a command, using what the tracker holds.
- `parser.dfy` (module `NlpParser`): the rule-based parser of `utils/nlp/parser.py`. It
  splits a message on "and" into add commands, or classifies the message by keyword. It
  also extracts the text after a keyword, the chore name and the due date.
- `utils.py`'s `parse_natural_date` and `parse_sms_nlp`, in `utils.dfy` (module `Utils`):
  the weekday arithmetic, the regular-expression add command and the keyword cascade.
- `users.dfy` (module `Users`): `reduce_fatigue`, the ten-minute fatigue cooldown.
- `text.dfy` (module `Text`) and `values.dfy` (module `Values`) are building blocks. `Text`
  provides Python's `strip`, `lower`, substring search, `replace` and a leftmost search
  standing for `re.search`. `Values` provides options, entity values, timestamps and
  commands.

Time is an integer count of microseconds. A day is `t / MicrosPerDay` and the weekday is
the day modulo 7, with day 0 a Monday, as `datetime.weekday()` counts.

The clock is a parameter (`now`, `today`). The third-party `dateparser.parse` is the
function parameter `parse: (string, bool) -> Option<Timestamp>`, whose flag says whether
future dates are preferred. `utils/nlp/parser.py` passes `true`
(`PREFER_DATES_FROM: future`). `utils.py` passes `false`. Every property below holds for
every date parser.

Regular expressions are modelled by hand-written matchers, searched leftmost-first:

- `\w` is an ASCII letter, digit or underscore;
- `\s` and `strip()` use Python's whitespace set;
- `lower()` folds ASCII upper case.

Properties of the code as written that the proofs bring out:

- `parse_multiple_intents` never returns `unassign`. Every message containing "unassign"
  also contains "assign", so it takes the add branch (`NlpParser.UnassignUnreachable`).
- The code tries "done" before "complete" and "delete" before "remove"
  (`NlpParser.DoneBeforeComplete`, `NlpParser.DeleteBeforeRemove`).
- `parse_sms_nlp` tests greetings by substring, so "done washing" is a greeting: "washing"
  contains "hi" (`Utils.DoneWashingGreets`).
- In `resolve_follow_up`, "postpone it to next week" resolves the assignee to "next". The
  `(to|for)\s+(\w+)` pattern matches the words after "to"
  (`FollowUp.PostponeItToNextWeek`).
- The comment in `parse_multiple_intents` gives "add laundry to Becky due Friday and dishes
  to me due Monday" as an example of several add chunks. That message yields a single
  command: the second chunk mentions none of add, assign and give, so the loop drops it
  (`NlpParser.CommentExampleOneCommand`).

## Model

| member | source | states |
|---|---|---|
| ContextUtils.ConversationContext.constructor | utils/context/context_utils.py:7-10 | the store starts empty, the timeout is five minutes, and no phone has a context |
| ContextUtils.ConversationContext.Get | utils/context/context_utils.py:12-16 | a context is returned exactly when one is stored for the phone and is younger than the timeout; the stored record itself is returned |
| ContextUtils.ConversationContext.Set | utils/context/context_utils.py:18-23 | the phone's record becomes the new intent, entities and time; it reads back until the timeout and not after; every other phone's answers are unchanged |
| ContextUtils.ConversationContext.Clear | utils/context/context_utils.py:25-27 | the phone's record is removed, it reads back as none at every time, other phones are unchanged, and clearing an absent phone changes nothing |
| ContextUtils.ContextTracker.constructor | utils/context/context_utils.py:31-36 | every tracked value starts as None and the update time is the creation time |
| ContextUtils.ContextTracker.Update | utils/context/context_utils.py:38-46 | the intent and time are always replaced; chore, assignee and due date are replaced only when the entities carry them; the new summary is the old one merged with the update |
| ContextUtils.ContextTracker.Summarize | utils/context/context_utils.py:48-54 | the summary has exactly the keys intent, chore, assignee and due, holding the tracked values |
| ContextUtils.Merge | utils/context/context_utils.py:38-46 | the effect of one update on a summary, key by key: the intent is set, and each of the other keys is taken from the entities when present and kept otherwise |
| ContextUtils.MergeIdempotent | utils/context/context_utils.py:38-46 | repeating the same update changes nothing more |
| ContextUtils.MergeEmpty | utils/context/context_utils.py:38-46 | an update without entities changes only the intent |
| ContextUtils.MergeLaterWins | utils/context/context_utils.py:38-46 | two updates in a row equal one update with the second intent and the union of the entities, where the later values win |
| FollowUp.ResolveFollowUp | utils/context/follow_up.py:4-50 | the intent is done, delete, add or unknown; the only keys are chore, assignee and due_date; the chore is present exactly when the text refers to the tracked chore, and is the tracked chore; a due date is a datetime |
| FollowUp.CaseInsensitive | utils/context/follow_up.py:5 | lower-casing the message first changes nothing |
| FollowUp.IgnoresLastDueDate | utils/context/follow_up.py:10-12 | two trackers with the same chore and assignee give the same result: the tracked intent and due date are never read |
| FollowUp.InferIntent | utils/context/follow_up.py:15-22 | the inferred intent is done, delete or add, and there is none exactly when neither the done pattern nor any of the keywords occurs |
| FollowUp.IntentPrecedence | utils/context/follow_up.py:15-22 | the done pattern wins, then delete/remove, then assign/add/remind/postpone/move (as an if-and-only-if), and unknown exactly when nothing matches |
| FollowUp.AssigneeAtIff | utils/context/follow_up.py:31 | the matcher at a position succeeds exactly when "to" or "for" is followed there by spaces and a word character |
| FollowUp.AssigneeWordIff | utils/context/follow_up.py:31 | the assignee search finds a word exactly when the to/for pattern matches somewhere in the text, and the word is the one captured at the leftmost match |
| FollowUp.SpacesThenWordAt | utils/context/follow_up.py:31 | `\s+\w` matches at a position exactly when the whitespace run there is non-empty and a word character follows it |
| FollowUp.WordAfterSpaces | utils/context/follow_up.py:31 | a word is captured exactly when `\s+\w` matches; it is the maximal run of word characters where the whitespace ends |
| FollowUp.AssigneeWord | utils/context/follow_up.py:31 | a found assignee is a non-empty word of word characters |
| FollowUp.AssigneeEntry | utils/context/follow_up.py:31-37 | a pattern match gives a lower-case word; there is no assignee exactly when the pattern, "her" with a set tracked assignee, and "me" all fail; any assignee other than the sender is a non-empty value |
| FollowUp.AssigneeEntryOrder | utils/context/follow_up.py:31-37 | the assignee, on the normalised text: the lower-cased matched word, else the tracked assignee for "her" when it is set, else the sender for "me", else none |
| FollowUp.AssigneePriority | utils/context/follow_up.py:31-37 | the same priority order for the entities of the resolved command |
| FollowUp.ResolveEntries | utils/context/follow_up.py:26-48 | each of the assignee and due_date keys is present exactly when its extraction gives a value, and holds that value |
| FollowUp.RestAfterSpaces | utils/context/follow_up.py:40 | `\s+(.*)` matches exactly where whitespace starts; the group is the rest of the line after the whitespace |
| FollowUp.DueText | utils/context/follow_up.py:40 | the captured due text never contains a line break |
| FollowUp.DueTextIff | utils/context/follow_up.py:40 | the due-text search finds a text exactly when "due", "to" or "for" is followed by whitespace somewhere, and the text is the one captured at the leftmost match |
| FollowUp.DueEntry | utils/context/follow_up.py:40-48 | a due date is a datetime, present only when the pattern matches or the text says "tomorrow"; an empty matched text gives no date |
| FollowUp.DueDateRule | utils/context/follow_up.py:40-48 | the due date is parsed from the text after due/to/for when that pattern matches; only otherwise is "tomorrow" tried; with neither there is no due date |
| FollowUp.DoIt | tests/test_follow_up.py:20 | "do it" resolves to done with chore dishes |
| FollowUp.MarkItDone | tests/test_follow_up.py:21 | "mark it done" resolves to done with chore dishes |
| FollowUp.DeleteIt | tests/test_follow_up.py:22 | "delete it" resolves to delete with chore dishes |
| FollowUp.AssignItToBecky | tests/test_follow_up.py:23 | "assign it to Becky" resolves to add with chore dishes, assignee becky and the due date parsed from "becky" |
| FollowUp.RemindHerTomorrow | tests/test_follow_up.py:24 | "remind her tomorrow" resolves to add with chore dishes, the tracked assignee erica and the due date parsed from "tomorrow" |
| FollowUp.PostponeItToNextWeek | tests/test_follow_up.py:25 | "postpone it to next week" resolves to add with chore dishes, assignee next and the due date parsed from "next week" |
| FollowUp.Entries | utils/context/follow_up.py:26-48 | each key is present exactly when its part is given, and holds that part |
| NlpParser.NaturalDate | utils/nlp/parser.py:10-14 | an empty phrase gives no date; any other phrase is handed to the date parser, which is told to prefer future dates |
| NlpParser.OrElse | utils/nlp/parser.py:27 | Python's `a or b` on optional strings: a non-empty first operand wins; otherwise (none, or the empty string) the second is returned |
| NlpParser.GroupAfterSpaces | utils/nlp/parser.py:80 | the group exists exactly when whitespace is followed by a character of the group class; it is the maximal run of class characters where the whitespace ends, or the last whitespace character when no class character follows |
| NlpParser.KeywordGroupIff | utils/nlp/parser.py:80 | the keyword search succeeds exactly when the keyword, whitespace and a group character occur somewhere; it then captures the group after the leftmost position where the pattern matches, no earlier position matching |
| NlpParser.ExtractAfterKeyword | utils/nlp/parser.py:79-81 | none exactly when the pattern occurs nowhere; otherwise a stripped text of letters, digits and spaces, which is the stripped group of the leftmost match |
| NlpParser.BlankKeywordText | utils/nlp/parser.py:79-81 | a match followed only by spaces gives the empty text, not none |
| NlpParser.StopWordAt | utils/nlp/parser.py:73 | a stop word is found at a position exactly when one of the listed words stands there as a whole word |
| NlpParser.RemoveStopWords | utils/nlp/parser.py:73 | the result is never longer than the text it scans; a stop word found at the start is removed, shortening the result by at least its length; a character where no stop word starts is kept; a text without stop words comes back unchanged |
| NlpParser.RemoveStopWordsChars | utils/nlp/parser.py:73 | removing stop words keeps only characters of the original text |
| NlpParser.ChoreRemainderBlank | utils/nlp/parser.py:72-76 | a blank text leaves a blank remainder |
| NlpParser.ExtractChoreName | utils/nlp/parser.py:71-76 | the chore name is stripped, and it is empty exactly when the text is blank |
| NlpParser.FirstParsedDateIsFirst | utils/nlp/parser.py:86-91 | the first keyword whose text parses gives the due date; the keywords before it are ignored |
| NlpParser.FirstParsedDateNone | utils/nlp/parser.py:86-92 | there is no due date exactly when no keyword's text parses |
| NlpParser.DueDateOrder | utils/nlp/parser.py:84-92 | "due" is tried first, then "on", then "by" |
| NlpParser.ExtractDueDate | utils/nlp/parser.py:84-92 | the loop over the keywords returns the first date that parses, or none |
| NlpParser.SplitFrom | utils/nlp/parser.py:23 | splitting always gives at least one chunk |
| NlpParser.SplitOnAnd | utils/nlp/parser.py:23 | there is at least one chunk, and joining the chunks with "and" gives back the message |
| NlpParser.SplitOnAndCuts | utils/nlp/parser.py:23 | the chunks are consecutive slices of the message covering it to its end; every cut between two chunks is a whole-word "and", and no whole-word "and" starts inside a chunk, so "candy" is never cut |
| NlpParser.SplitAtOneAnd | utils/nlp/parser.py:23 | a message with a single spaced "and" and no other "an" splits into the text before it and the text after it |
| NlpParser.AddWordsAvoidAnd | utils/nlp/parser.py:22-25 | an occurrence of add, assign or give never overlaps an "and" |
| NlpParser.SplitKeepsAddWord | utils/nlp/parser.py:22-25 | a message mentioning add, assign or give has a chunk that mentions one |
| NlpParser.AddCommand | utils/nlp/parser.py:26-36 | a chunk's command is add, with exactly the keys chore, assignee and due_date |
| NlpParser.AddEntities | utils/nlp/parser.py:30-35 | the entities have exactly the keys chore, assignee and due_date, and the due date is a datetime exactly when one was found |
| NlpParser.AddChunksMembers | utils/nlp/parser.py:24-25 | the kept chunks are exactly the chunks that mention add, assign or give |
| NlpParser.AddCommandsPerChunk | utils/nlp/parser.py:24-36 | one command per kept chunk, in order, each the chunk's add command |
| NlpParser.ParseAddChunk | utils/nlp/parser.py:26-36 | the statements for one chunk compute its add command |
| NlpParser.ParseAddChunks | utils/nlp/parser.py:24-36 | the loop over the chunks returns one add command per kept chunk, in order |
| NlpParser.ParseMultipleIntents | utils/nlp/parser.py:17-67 | the method returns the add commands of the chunks when the message mentions add, assign or give, and the single keyword command otherwise |
| NlpParser.KeywordCommand | utils/nlp/parser.py:38-65 | the single command is one of done, list, claim, delete, unassign, broadcast, greetings and unknown |
| NlpParser.KeywordCommandPrecedence | utils/nlp/parser.py:38-65 | the keyword cascade in order: done/complete, list, claim, delete/remove, unassign, broadcast, then hi/hello/dusty for greetings, each only when every earlier keyword is absent; unknown exactly when no keyword occurs; each intent's keys |
| NlpParser.MultipleIntents | utils/nlp/parser.py:17-67 | the list of commands is never empty |
| NlpParser.AddBranchNonEmpty | utils/nlp/parser.py:22-36 | a message mentioning add, assign or give yields at least one add command |
| NlpParser.CommentExampleOneCommand | utils/nlp/parser.py:21-36 | the comment's two-chunk example yields only the add command of its first chunk |
| NlpParser.DoneBeforeComplete | utils/nlp/parser.py:39 | the done chore is the text after "done" when there is one, else the text after "complete" |
| NlpParser.DeleteBeforeRemove | utils/nlp/parser.py:50 | the delete chore is the text after "delete" when there is one, else the text after "remove" |
| NlpParser.AddAssigneeOrder | utils/nlp/parser.py:27 | the assignee is the text after "to", else the text after "for", else None |
| NlpParser.UnassignMentionsAssign | utils/nlp/parser.py:22 | a message containing "unassign" takes the add branch |
| NlpParser.KeywordCommandUnassign | utils/nlp/parser.py:53-55 | the keyword cascade says unassign only for a message containing "unassign" |
| NlpParser.AddCommandsAreAdds | utils/nlp/parser.py:30-36 | every command built from chunks is an add |
| NlpParser.UnassignUnreachable | utils/nlp/parser.py:22-55 | no message yields an unassign command |
| NlpParser.MentionsAddNotBlank | utils/nlp/parser.py:25 | a chunk that is kept is never blank |
| NlpParser.AddCommandShape | utils/nlp/parser.py:29-32 | a kept chunk's command always names a chore |
| NlpParser.AddBranchShape | utils/nlp/parser.py:22-36 | in the add branch every command is an add with the three keys and a chore text, one per kept chunk |
| NlpParser.SingleCommandOutsideAdd | utils/nlp/parser.py:38-65 | outside the add branch the result is exactly one keyword command, which is not an add |
| Utils.WeekdayIndex | utils.py:377-380 | a text has an index exactly when it is a weekday name, and the index names it |
| Utils.DaysAhead | utils.py:384-385 | the step is 1 to 7 days, lands on the target weekday, and is 7 exactly when the target is today |
| Utils.DaysAheadIsNext | utils.py:384-385 | no shorter step lands on the target weekday |
| Utils.NextWeekday | utils.py:386 | adding the step moves to a later day with the target weekday and the same time of day |
| Utils.ParseNaturalDate | utils.py:370-389 | no text or empty text gives no date; a text that is not a weekday goes to the date parser, lower-cased and stripped, without the future preference |
| Utils.WeekdayMovesForward | utils.py:382-386 | a weekday name gives the next such weekday, 1 to 7 days ahead at the same time of day, and 7 days when it is today's weekday |
| Utils.AddMatch | utils.py:491-492 | a match needs the "add " prefix, and each of its three groups is non-empty |
| Utils.AddMatchIff | utils.py:491-494 | the add pattern matches exactly when some choice of chore and assignee groups fits the message |
| Utils.AddMatchIsLeast | utils.py:491-497 | the lazy groups are the shortest that fit: no shorter chore, and no shorter assignee for that chore, also fits |
| Utils.AddIntent | utils.py:491-516 | add exactly when the pattern matches and the due text parses, then with the three keys; otherwise add_invalid with no entities |
| Utils.AddSucceeds | utils.py:491-516 | a successful add carries the stripped chore and assignee groups and the parsed day of the due text |
| Utils.KeywordRemainder | utils.py:467-484 | the keyword intent exactly when removing the keyword leaves a non-blank text, then that text as the chore; otherwise the invalid intent with no entities |
| Utils.ParseSmsNlp | utils.py:441-521 | the intent is one of help, greetings, list, done, done_invalid, claim, claim_invalid, add, add_invalid and unknown |
| Utils.SmsPrecedence | utils.py:447-521 | the cascade order: help words, then greeting words, then list, done, claim, add, and unknown exactly when none applies |
| Utils.SmsEmptyEntities | utils.py:455-521 | help, greetings, list, the invalid intents and unknown carry no entities |
| Utils.SmsChoreKeys | utils.py:467-484 | done and claim carry exactly a chore text |
| Utils.SmsAddKeys | utils.py:489-513 | add carries exactly chore, assignee and due_date |
| Utils.DoneWashingGreets | utils.py:458-459 | "done washing" is classified as a greeting |
| Utils.AddExample | utils.py:489-513 | "Add dishes to Becky due Friday" gives add with chore dishes, assignee becky and the day parsed from "friday", or add_invalid when "friday" does not parse |
| Users.Cooldown | utils/users.py:51-57 | without a last-seen time, or before ten minutes, the level is kept; after that it drops by one and never goes below zero |
| Users.RepeatedCooldown | utils/users.py:51-57 | after ten minutes, n checks lower a non-negative level by n, stopping at zero |
| Users.NoCooldownYet | utils/users.py:53-56 | before ten minutes, no number of checks changes the level |
| Users.User.ReduceFatigue | utils/users.py:51-57 | the fatigue level becomes its cooldown value, and the last-seen time is unchanged |

## Left out

- I/O, the database, the SMS gateway, the scheduler, the web routes and the other chore
  handlers are outside this model. So are `utils/nlp.py` and the "dusty" replies.
- The clock is a parameter. `datetime.utcnow()`, `datetime.now()` and `date.today()` are
  not modelled.
- `dateparser.parse` is a parameter. Its internals are not modelled. In `parse_sms_nlp`,
  an exception it raises is treated the same as a `None` result.
- `\w`, `lower()` and `strip()` are modelled on ASCII letters and Python's whitespace set.
  Unicode word characters and Unicode case folding are not modelled.
- ContextUtils.ConversationContext.Set: the stored entities are a value. Later changes by
  the caller to the same dictionary object (aliasing) are not modelled.
- ContextUtils.ConversationContext.Get: the `defaultdict` factory is never reached on a
  read, and a stored record is always truthy. So reads are a pure function, and
  "get never inserts a key" holds by construction rather than as a lemma.
- Users.Cooldown: `total_seconds() / 60` is floating point. The comparison is modelled
  exactly, in microseconds.
- Users.Cooldown: a missing fatigue level (`None`) is not modelled; the level is an integer.
  The user record class is not part of this model beyond these two fields.
- NlpParser.ExtractChoreName: the contract states that the name is stripped and empty
  exactly for a blank text. It does not say which words the removal leaves.
- FollowUp.PostponeItToNextWeek: the follow-up test for this phrase expects the chore and a
  due date that is a datetime in the future (tests/test_follow_up.py:25 and :33-35). The
  model's due date is `ParsedEntry("next week", parse)`: it is present only when the date
  parser parses "next week", and whether that date lies in the future depends on the
  parser, which is outside this model. The lemma also states the assignee "next", which
  the test does not check.
- The parser tests call `parse_multiple_intents` with `sender` and `aliases` arguments and
  expect recurrence and follow-up results. The code has neither, so those tests are not
  modelled.
