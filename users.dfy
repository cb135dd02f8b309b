/**
 * utils/users.py: the fatigue cooldown.  A user's fatigue level drops by one, never
 * below zero, when at least ten minutes have passed since the user was last seen.
 */
module Users {
  import opened Values

  /** The cooldown period. */
  const CooldownPeriod: int := 10 * MicrosPerMinute

  /** The fatigue level after one cooldown check at time `now`. */
  function Cooldown(level: int, lastSeen: Option<Timestamp>, now: Timestamp): (r: int)
    ensures lastSeen.None? ==> r == level
    ensures lastSeen.Some? && now - lastSeen.value < CooldownPeriod ==> r == level
    ensures lastSeen.Some? && now - lastSeen.value >= CooldownPeriod ==>
      r >= 0 && r >= level - 1 && (r == level - 1 || r == 0) && (level <= 0 ==> r == 0)
  {
    if lastSeen.None? then level
    else if now - lastSeen.value >= CooldownPeriod then (if level - 1 > 0 then level - 1 else 0)
    else level
  }

  /** The level after n checks, all at the same time and with the same last-seen time. */
  function CooldownTimes(level: int, lastSeen: Option<Timestamp>, now: Timestamp, n: nat): int
    decreases n
  {
    if n == 0 then level else Cooldown(CooldownTimes(level, lastSeen, now, n - 1), lastSeen, now)
  }

  /**
   * The last-seen time is never refreshed, so once ten minutes have passed every check
   * lowers a non-negative level by one until it reaches zero.
   */
  lemma {:induction false} RepeatedCooldown(level: int, lastSeen: Timestamp, now: Timestamp, n: nat)
    requires level >= 0 && now - lastSeen >= CooldownPeriod
    ensures CooldownTimes(level, Some(lastSeen), now, n) == if level - n > 0 then level - n else 0
    decreases n
  {
    if n > 0 {
      RepeatedCooldown(level, lastSeen, now, n - 1);
    }
  }

  /** Before ten minutes have passed, no number of checks changes the level. */
  lemma {:induction false} NoCooldownYet(level: int, lastSeen: Option<Timestamp>, now: Timestamp, n: nat)
    requires lastSeen.None? || now - lastSeen.value < CooldownPeriod
    ensures CooldownTimes(level, lastSeen, now, n) == level
    decreases n
  {
    if n > 0 {
      NoCooldownYet(level, lastSeen, now, n - 1);
    }
  }

  /** The two fields of the user record that the cooldown reads and writes. */
  class User {
    var lastSeen: Option<Timestamp>
    var fatigueLevel: int

    constructor(lastSeen: Option<Timestamp>, fatigueLevel: int)
      ensures this.lastSeen == lastSeen && this.fatigueLevel == fatigueLevel
    {
      this.lastSeen := lastSeen;
      this.fatigueLevel := fatigueLevel;
    }

    /** `reduce_fatigue`: only the fatigue level is written, and the last-seen time stays as it was. */
    method ReduceFatigue(now: Timestamp)
      modifies this`fatigueLevel
      ensures fatigueLevel == Cooldown(old(fatigueLevel), old(lastSeen), now)
      ensures lastSeen == old(lastSeen)
    {
      if lastSeen.None? {
        return;
      }
      var elapsed := now - lastSeen.value;
      if elapsed >= CooldownPeriod {
        fatigueLevel := if fatigueLevel - 1 > 0 then fatigueLevel - 1 else 0;
      }
    }
  }
}
