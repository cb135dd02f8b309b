/**
 * utils/context/context_utils.py: the two pieces of per-conversation memory.
 *
 * `ConversationContext` keeps the last command of each phone number for five minutes;
 * `ContextTracker` remembers the last intent, chore, assignee and due date of one
 * conversation, merging each new command into them key by key.  The clock is an
 * argument: every operation that reads `datetime.utcnow()` or `datetime.now()` takes
 * the current time as `now`.
 */
module ContextUtils {
  import opened Values

  /** The dict stored per phone: intent, entities and the time it was written. */
  datatype Record = Record(intent: string, entities: Entities, timestamp: Timestamp)

  /** How long a stored record stays visible. */
  const Timeout: int := 5 * MicrosPerMinute

  /** A record written at `written` is still visible at `now`. */
  predicate Fresh(written: Timestamp, now: Timestamp) {
    now - written < Timeout
  }

  class ConversationContext {
    var store: map<string, Record>
    const timeout: int := Timeout

    /** A fresh store holds nothing, so every phone reads as absent. */
    constructor()
      ensures store == map[] && timeout == Timeout
      ensures forall phone, now :: Get(phone, now) == None
    {
      store := map[];
    }

    /**
     * `get`: the stored record while it is younger than the timeout, else None.  Reading
     * never adds a key (the dict's `.get` does not trigger the defaultdict factory).
     */
    function Get(phone: string, now: Timestamp): (r: Option<Record>)
      reads this
      ensures r.Some? <==> phone in store && now - store[phone].timestamp < timeout
      ensures r.Some? ==> r.value == store[phone]
    {
      if phone in store && now - store[phone].timestamp < timeout then Some(store[phone]) else None
    }

    /**
     * `set`: the phone's whole record is replaced (nothing of the old entities is kept)
     * and every other phone is untouched.  The new record can be read back exactly while
     * less than the timeout has passed.
     */
    method Set(phone: string, intent: string, entities: Entities, now: Timestamp)
      modifies this
      ensures store == old(store)[phone := Record(intent, entities, now)]
      ensures forall t :: Get(phone, t) == if Fresh(now, t) then Some(Record(intent, entities, now)) else None
      ensures forall p, t :: p != phone ==> Get(p, t) == old(Get(p, t))
    {
      store := store[phone := Record(intent, entities, now)];
    }

    /** `clear`: the phone reads as absent afterwards; others are untouched; an absent phone changes nothing. */
    method Clear(phone: string)
      modifies this
      ensures store == old(store) - {phone}
      ensures forall t :: Get(phone, t) == None
      ensures forall p, t :: p != phone ==> Get(p, t) == old(Get(p, t))
      ensures phone !in old(store) ==> store == old(store)
    {
      if phone in store {
        store := store - {phone};
      }
    }
  }

  /** What `summarize` returns: the four remembered values. */
  type Summary = map<string, Value>

  /**
   * The summary after `update(intent, entities)`: the intent is always replaced, and the
   * chore, assignee and due date only when the entities carry the matching key.
   */
  function Merge(s: Summary, intent: string, entities: Entities): (r: Summary)
    requires s.Keys == {"intent", "chore", "assignee", "due"}
    ensures r.Keys == s.Keys
    ensures r["intent"] == Str(intent)
    ensures r["chore"] == if "chore" in entities then entities["chore"] else s["chore"]
    ensures r["assignee"] == if "assignee" in entities then entities["assignee"] else s["assignee"]
    ensures r["due"] == if "due_date" in entities then entities["due_date"] else s["due"]
  {
    s["intent" := Str(intent)]
     ["chore" := if "chore" in entities then entities["chore"] else s["chore"]]
     ["assignee" := if "assignee" in entities then entities["assignee"] else s["assignee"]]
     ["due" := if "due_date" in entities then entities["due_date"] else s["due"]]
  }

  /** Applying the same update twice is the same as applying it once. */
  lemma MergeIdempotent(s: Summary, intent: string, entities: Entities)
    requires s.Keys == {"intent", "chore", "assignee", "due"}
    ensures Merge(Merge(s, intent, entities), intent, entities) == Merge(s, intent, entities)
  {
  }

  /** An update with no entities only changes the intent. */
  lemma MergeEmpty(s: Summary, intent: string)
    requires s.Keys == {"intent", "chore", "assignee", "due"}
    ensures Merge(s, intent, map[]) == s["intent" := Str(intent)]
  {
  }

  /**
   * A later update wins key by key: merging u1 then u2 gives u2's values where u2 has
   * the key and u1's where only u1 has it.
   */
  lemma MergeLaterWins(s: Summary, i1: string, e1: Entities, i2: string, e2: Entities)
    requires s.Keys == {"intent", "chore", "assignee", "due"}
    ensures Merge(Merge(s, i1, e1), i2, e2) == Merge(s, i2, e1 + e2)
  {
  }

  class ContextTracker {
    var lastIntent: Value
    var lastChore: Value
    var lastAssignee: Value
    var lastDueDate: Value
    var lastUpdated: Timestamp

    /** A fresh tracker remembers nothing. */
    constructor(now: Timestamp)
      ensures lastIntent == Null && lastChore == Null && lastAssignee == Null && lastDueDate == Null
      ensures lastUpdated == now
    {
      lastIntent := Null;
      lastChore := Null;
      lastAssignee := Null;
      lastDueDate := Null;
      lastUpdated := now;
    }

    /** `summarize`: exactly the four remembered values, under intent, chore, assignee and due. */
    function Summarize(): (r: Summary)
      reads this
      ensures r.Keys == {"intent", "chore", "assignee", "due"}
      ensures r["intent"] == lastIntent && r["chore"] == lastChore
      ensures r["assignee"] == lastAssignee && r["due"] == lastDueDate
    {
      map["intent" := lastIntent, "chore" := lastChore, "assignee" := lastAssignee, "due" := lastDueDate]
    }

    /**
     * `update`: the intent and the time are always refreshed; each of chore, assignee and
     * due date is overwritten only when the entities carry its key.
     */
    method Update(intent: string, entities: Entities, now: Timestamp)
      modifies this
      ensures lastIntent == Str(intent) && lastUpdated == now
      ensures lastChore == if "chore" in entities then entities["chore"] else old(lastChore)
      ensures lastAssignee == if "assignee" in entities then entities["assignee"] else old(lastAssignee)
      ensures lastDueDate == if "due_date" in entities then entities["due_date"] else old(lastDueDate)
      ensures Summarize() == Merge(old(Summarize()), intent, entities)
    {
      lastIntent := Str(intent);
      lastUpdated := now;
      if "chore" in entities {
        lastChore := entities["chore"];
      }
      if "assignee" in entities {
        lastAssignee := entities["assignee"];
      }
      if "due_date" in entities {
        lastDueDate := entities["due_date"];
      }
    }
  }
}
