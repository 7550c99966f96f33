/** The per-actor limiters: the two-window sliding vote counter of `enforceVoteRateLimit`
    (lib/api.ts:233-250) and the single-timestamp cooldowns of comments and reactions. */
module RateLimit {
  import opened Types

  /** `stamps.filter((stamp) => stamp > t).length`. */
  function CountAfter(stamps: seq<int>, t: int): (n: nat)
    ensures n <= |stamps|
  {
    if |stamps| == 0 then 0
    else CountAfter(stamps[..|stamps| - 1], t) + (if stamps[|stamps| - 1] > t then 1 else 0)
  }

  /** `stamps.filter((stamp) => stamp > t)`: the pruning on write. */
  function KeepAfter(stamps: seq<int>, t: int): (r: seq<int>)
    ensures |r| == CountAfter(stamps, t)
    ensures forall x :: x in r <==> x in stamps && x > t
  {
    if |stamps| == 0 then []
    else
      var last := stamps[|stamps| - 1];
      assert stamps == stamps[..|stamps| - 1] + [last];
      KeepAfter(stamps[..|stamps| - 1], t) + (if last > t then [last] else [])
  }

  /** Pruning to an older cut-off loses none of the stamps a younger window counts. */
  lemma {:induction false} CountAfterPruned(stamps: seq<int>, older: int, younger: int)
    requires older <= younger
    ensures CountAfter(KeepAfter(stamps, older), younger) == CountAfter(stamps, younger)
  {
    if |stamps| > 0 {
      var init, last := stamps[..|stamps| - 1], stamps[|stamps| - 1];
      CountAfterPruned(init, older, younger);
      var kept := KeepAfter(init, older);
      if last > older {
        assert KeepAfter(stamps, older) == kept + [last];
        assert (kept + [last])[..|kept|] == kept;
        assert CountAfter(kept + [last], younger) == CountAfter(kept, younger) + (if last > younger then 1 else 0);
      } else {
        assert KeepAfter(stamps, older) == kept;
      }
    }
  }

  /** The stored vote history of an actor (`voteHistory.get(userId) ?? []`). */
  function HistoryOf(history: map<Id, seq<int>>, user: Id): seq<int> {
    if user in history then history[user] else []
  }

  /** The refusal `enforceVoteRateLimit` returns, if any: the minute window is checked first. */
  function VoteLimitError(stamps: seq<int>, now: int): Option<Error> {
    if CountAfter(stamps, now - MinuteMs) >= VotesPerMinute then Some(VoteMinuteLimit)
    else if CountAfter(stamps, now - DayMs) >= VotesPerDay then Some(VoteDailyLimit)
    else None
  }

  /** The history written back on acceptance: the stamps inside the day window, then `now`. */
  function RecordedVotes(stamps: seq<int>, now: int): seq<int> {
    KeepAfter(stamps, now - DayMs) + [now]
  }

  /** A vote is refused exactly when one of the two windows is full. */
  lemma VoteRefusedIff(stamps: seq<int>, now: int)
    ensures VoteLimitError(stamps, now).Some? <==>
      CountAfter(stamps, now - MinuteMs) >= VotesPerMinute || CountAfter(stamps, now - DayMs) >= VotesPerDay
  {
  }

  /** After an accepted vote the stored history holds at most VotesPerDay stamps. */
  lemma AcceptedHistoryBounded(stamps: seq<int>, now: int)
    requires VoteLimitError(stamps, now).None?
    ensures |RecordedVotes(stamps, now)| <= VotesPerDay
  {
  }

  /** After an accepted vote neither window holds more than its ceiling, so the ceilings
      are what the limiter enforces. */
  lemma {:induction false} AcceptedWindowsBounded(stamps: seq<int>, now: int)
    requires VoteLimitError(stamps, now).None?
    ensures CountAfter(RecordedVotes(stamps, now), now - MinuteMs) <= VotesPerMinute
    ensures CountAfter(RecordedVotes(stamps, now), now - DayMs) <= VotesPerDay
  {
    var kept := KeepAfter(stamps, now - DayMs);
    CountAfterPruned(stamps, now - DayMs, now - MinuteMs);
    CountAfterPruned(stamps, now - DayMs, now - DayMs);
    assert (kept + [now])[..|kept|] == kept;
  }

  /** The recorded history is exactly the stamps younger than a day, plus now. */
  lemma RecordedVotesWindow(stamps: seq<int>, now: int)
    ensures forall x :: x in RecordedVotes(stamps, now) <==> x == now || (x in stamps && x > now - DayMs)
  {
  }

  /** `last && now - last < cooldownMs`: a stamp of 0 is falsy and never blocks. */
  predicate CoolingDown(last: map<Id, int>, user: Id, now: int, cooldownMs: int) {
    user in last && last[user] != 0 && now - last[user] < cooldownMs
  }

  /** Once an action has been stamped at t, the same actor is blocked until t + cooldown,
      provided t is non-zero. */
  lemma CooldownBlocksRepeat(last: map<Id, int>, user: Id, t: int, now: int, cooldownMs: int)
    requires t != 0 && now < t + cooldownMs
    ensures CoolingDown(last[user := t], user, now, cooldownMs)
  {
  }

  /** Stamping one actor does not affect another actor's cooldown. */
  lemma CooldownPerActor(last: map<Id, int>, user: Id, other: Id, t: int, now: int, cooldownMs: int)
    requires other != user
    ensures CoolingDown(last[user := t], other, now, cooldownMs) == CoolingDown(last, other, now, cooldownMs)
  {
  }
}
