/** The per-(user, booking) posting cooldown of the messaging service, with pruning of
    entries that are long expired. The clock reading comes in as `now`, seconds. */
module AntiAbuse {
  import opened Domain

  /** The cache key "{user_id}:{booking_id}"; distinct pairs give distinct texts, so
      the pair itself stands for it. */
  type Key = (int, int)

  /** The cache without the entries older than the cutoff. */
  function Pruned(cache: map<Key, int>, cutoff: int): (r: map<Key, int>)
    ensures forall k :: k in r <==> k in cache && cache[k] >= cutoff
    ensures forall k :: k in r ==> r[k] == cache[k]
  {
    map k | k in cache && cache[k] >= cutoff :: cache[k]
  }

  /** The pair is cooling down: it posted less than `seconds` ago. */
  predicate InCooldown(cache: map<Key, int>, key: Key, now: int, seconds: int) {
    key in cache && now - cache[key] < seconds
  }

  class Cooldowns {
    /** _cooldown_cache: the last posting time of each (user, booking). */
    var cache: map<Key, int>

    constructor()
      ensures cache == map[]
    {
      cache := map[];
    }

    /** check_cooldown: refuse while the pair is cooling down (the cache unchanged);
        otherwise record `now` for it and prune every entry older than twice the
        cooldown. */
    method CheckCooldown(userId: int, bookingId: int, now: int, seconds: int) returns (r: Outcome)
      modifies this
      ensures InCooldown(old(cache), (userId, bookingId), now, seconds) ==>
        r == Fail(CoolingDown) && cache == old(cache)
      ensures !InCooldown(old(cache), (userId, bookingId), now, seconds) ==>
        r == Pass && cache == Pruned(old(cache)[(userId, bookingId) := now], now - 2 * seconds)
      ensures r == Pass ==> forall k :: k in cache ==> cache[k] >= now - 2 * seconds
      ensures r == Pass && seconds >= 0 ==> (userId, bookingId) in cache && cache[(userId, bookingId)] == now
      ensures r == Pass ==> forall k :: k in old(cache) && k != (userId, bookingId) && old(cache)[k] >= now - 2 * seconds ==>
        k in cache && cache[k] == old(cache)[k]
    {
      var key := (userId, bookingId);
      if key in cache {
        var last := cache[key];
        if now - last < seconds {
          return Fail(CoolingDown);
        }
      }
      cache := cache[key := now];
      PruneBefore(now - 2 * seconds);
      r := Pass;
    }

    /** The pruning loop of check_cooldown: drops every entry older than cutoff. */
    method PruneBefore(cutoff: int)
      modifies this
      ensures cache == Pruned(old(cache), cutoff)
    {
      ghost var full := cache;
      var stale := set k | k in cache && cache[k] < cutoff;
      while stale != {}
        invariant stale <= cache.Keys
        invariant forall k :: k in stale ==> k in full && full[k] < cutoff
        invariant forall k :: k in cache <==> k in full && (full[k] >= cutoff || k in stale)
        invariant forall k :: k in cache ==> cache[k] == full[k]
        decreases |stale|
      {
        var k :| k in stale;
        cache := cache - {k};
        stale := stale - {k};
      }
    }

    /** clear_cooldown: forget the pair; a no-op when it is absent. */
    method ClearCooldown(userId: int, bookingId: int)
      modifies this
      ensures cache == old(cache) - {(userId, bookingId)}
    {
      var key := (userId, bookingId);
      if key in cache {
        cache := cache - {key};
      }
    }
  }

  /** A pass at time t followed by a request at t2: refused exactly while less than
      `seconds` have gone by; a request exactly `seconds` later passes. */
  lemma CooldownAfterPass(cache: map<Key, int>, key: Key, t: int, t2: int, seconds: int)
    requires seconds >= 0
    ensures var after := Pruned(cache[key := t], t - 2 * seconds);
      InCooldown(after, key, t2, seconds) <==> t2 - t < seconds
  {
    assert cache[key := t][key] == t >= t - 2 * seconds;
  }
}
