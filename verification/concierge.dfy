/** The concierge's per-(user, endpoint) throttle: one request per `seconds` for each
    user on each of the "ask" and "draft" endpoints. The clock reading comes in as
    `now`, seconds. */
module Concierge {
  import opened Domain

  /** The `seconds` default of _rate_limit, which both endpoints use. */
  const DefaultSpacing: int := 5
  const AskEndpoint: string := "ask"
  const DraftEndpoint: string := "draft"

  /** The spacing rule on the recorded calls: a pair that called less than `seconds`
      ago is refused. */
  predicate TooSoonFor(lastCall: map<(int, string), int>, userId: int, endpoint: string, now: int, seconds: int) {
    (userId, endpoint) in lastCall && now - lastCall[(userId, endpoint)] < seconds
  }

  class Throttle {
    /** _last_call: the time of each (user, endpoint) pair's last admitted call. */
    var lastCall: map<(int, string), int>

    constructor()
      ensures lastCall == map[]
    {
      lastCall := map[];
    }

    /** _rate_limit: refuse a call less than `seconds` after the pair's last admitted
        one, leaving the record alone; otherwise record `now` for the pair. Only that
        pair's entry can change. */
    method RateLimit(userId: int, endpoint: string, now: int, seconds: int) returns (r: Outcome)
      modifies this
      ensures TooSoonFor(old(lastCall), userId, endpoint, now, seconds) ==>
        r == Fail(TooSoon) && lastCall == old(lastCall)
      ensures !TooSoonFor(old(lastCall), userId, endpoint, now, seconds) ==>
        r == Pass && lastCall == old(lastCall)[(userId, endpoint) := now]
    {
      var key := (userId, endpoint);
      if key in lastCall && now - lastCall[key] < seconds {
        return Fail(TooSoon);
      }
      lastCall := lastCall[key := now];
      r := Pass;
    }
  }

  /** The first call of a pair always passes. */
  lemma FirstCallPasses(lastCall: map<(int, string), int>, userId: int, endpoint: string, now: int, seconds: int)
    requires (userId, endpoint) !in lastCall
    ensures !TooSoonFor(lastCall, userId, endpoint, now, seconds)
  {
  }

  /** After a pass recorded at t, a later call at t2 by the same pair is refused
      exactly when t2 - t < seconds, and the other endpoint of the same user is not
      affected. */
  lemma {:induction false} SpacingAfterPass(lastCall: map<(int, string), int>, userId: int, t: int, t2: int, seconds: int)
    ensures var after := lastCall[(userId, AskEndpoint) := t];
      (TooSoonFor(after, userId, AskEndpoint, t2, seconds) <==> t2 - t < seconds)
      && (TooSoonFor(after, userId, DraftEndpoint, t2, seconds) <==> TooSoonFor(lastCall, userId, DraftEndpoint, t2, seconds))
  {
    var after := lastCall[(userId, AskEndpoint) := t];
    assert (userId, DraftEndpoint) != (userId, AskEndpoint) by {
      assert DraftEndpoint[0] != AskEndpoint[0];
    }
  }

  /** With the default spacing, as concierge_answer calls it: a second "ask" within
      five seconds of an admitted one is refused, and one five or more seconds later
      passes. */
  lemma {:induction false} AskSpacedByDefault(lastCall: map<(int, string), int>, userId: int, t: int, t2: int)
    ensures var after := lastCall[(userId, AskEndpoint) := t];
      TooSoonFor(after, userId, AskEndpoint, t2, DefaultSpacing) <==> t2 < t + 5
  {
    SpacingAfterPass(lastCall, userId, t, t2, DefaultSpacing);
  }
}
