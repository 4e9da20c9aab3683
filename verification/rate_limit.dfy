/** The sliding-window rate limiter: per key, the timestamps of the requests it let
    through, oldest first. The clock reading comes in as `now`. */
module RateLimit {

  /** The bucket after dropping, from the front, every entry more than `window`
      seconds older than now; it stops at the first entry that is recent enough. */
  function Evict(bucket: seq<int>, now: int, window: int): (r: seq<int>)
    ensures |r| <= |bucket|
    ensures r != [] ==> now - r[0] <= window
  {
    if bucket != [] && now - bucket[0] > window then Evict(bucket[1..], now, window) else bucket
  }

  predicate Ascending(bucket: seq<int>) {
    forall i, j :: 0 <= i < j < |bucket| ==> bucket[i] <= bucket[j]
  }

  /** On an ascending bucket the eviction keeps exactly the entries at most `window`
      seconds old: an entry exactly `window` old stays. */
  lemma {:induction false} EvictKeepsWindow(bucket: seq<int>, now: int, window: int)
    requires Ascending(bucket)
    ensures forall t :: t in Evict(bucket, now, window) <==> t in bucket && now - t <= window
  {
    if bucket != [] && now - bucket[0] > window {
      EvictKeepsWindow(bucket[1..], now, window);
      assert bucket == [bucket[0]] + bucket[1..];
    } else if bucket != [] {
      forall t | t in bucket ensures now - t <= window {
        var k :| 0 <= k < |bucket| && bucket[k] == t;
        assert bucket[0] <= bucket[k];
      }
    }
  }

  /** What eviction keeps is a suffix of the bucket. */
  lemma {:induction false} EvictIsSuffix(bucket: seq<int>, now: int, window: int)
    ensures Evict(bucket, now, window) == bucket[|bucket| - |Evict(bucket, now, window)|..]
  {
    if bucket != [] && now - bucket[0] > window {
      EvictIsSuffix(bucket[1..], now, window);
    }
  }

  lemma SuffixAscending(bucket: seq<int>, d: nat)
    requires Ascending(bucket) && d <= |bucket|
    ensures Ascending(bucket[d..])
  {
    assert forall k :: 0 <= k < |bucket| - d ==> bucket[d..][k] == bucket[d + k];
  }

  lemma AppendAscending(bucket: seq<int>, now: int)
    requires Ascending(bucket) && forall t :: t in bucket ==> t <= now
    ensures Ascending(bucket + [now])
  {
    var grown := bucket + [now];
    forall i, j | 0 <= i < j < |grown| ensures grown[i] <= grown[j] {
      assert grown[i] == bucket[i];
      if j < |bucket| {
        assert grown[j] == bucket[j];
      } else {
        assert bucket[i] in bucket;
      }
    }
  }

  /** Recording a time no earlier than any kept entry keeps the bucket ascending. */
  lemma AdmitKeepsAscending(bucket: seq<int>, now: int, window: int)
    requires Ascending(bucket) && forall t :: t in bucket ==> t <= now
    ensures Ascending(Evict(bucket, now, window))
    ensures Ascending(Evict(bucket, now, window) + [now])
  {
    var kept := Evict(bucket, now, window);
    EvictIsSuffix(bucket, now, window);
    SuffixAscending(bucket, |bucket| - |kept|);
    assert forall t :: t in kept ==> t in bucket;
    AppendAscending(kept, now);
  }

  /** The bucket of a key as the defaultdict shows it: empty when the key is new. */
  function BucketOf(hits: map<string, seq<int>>, key: string): seq<int> {
    if key in hits then hits[key] else []
  }

  class Limiter {
    /** _hits: the admitted request times of each key. */
    var hits: map<string, seq<int>>

    constructor()
      ensures hits == map[]
    {
      hits := map[];
    }

    /** Every bucket holds at most `limit` entries. */
    ghost predicate Bounded(limit: int)
      reads this
    {
      forall k :: k in hits ==> |hits[k]| <= limit
    }

    /** allow: evict stale entries, refuse when `limit` entries remain, otherwise
        record `now`. The key's bucket exists afterwards even when refused; no other
        key changes. */
    method Allow(key: string, limit: int, window: int, now: int) returns (allowed: bool)
      modifies this
      ensures var kept := Evict(BucketOf(old(hits), key), now, window);
        allowed == (|kept| < limit)
        && hits == old(hits)[key := if allowed then kept + [now] else kept]
      ensures |BucketOf(old(hits), key)| <= limit ==> |hits[key]| <= limit
      ensures old(Bounded(limit)) && limit >= 0 ==> Bounded(limit)
      ensures Ascending(BucketOf(old(hits), key)) && (forall t :: t in BucketOf(old(hits), key) ==> t <= now) ==>
        Ascending(hits[key])
    {
      var bucket := BucketOf(hits, key);
      ghost var original := bucket;
      while bucket != [] && now - bucket[0] > window
        invariant Evict(bucket, now, window) == Evict(original, now, window)
        decreases |bucket|
      {
        bucket := bucket[1..];
      }
      assert bucket == Evict(original, now, window);
      if Ascending(original) && forall t :: t in original ==> t <= now {
        AdmitKeepsAscending(original, now, window);
      }
      allowed := |bucket| < limit;
      if allowed {
        hits := hits[key := bucket + [now]];
      } else {
        hits := hits[key := bucket];
      }
      assert |bucket| <= |original|;
    }

    /** reset: forget the key; a no-op when it is absent. */
    method Reset(key: string)
      modifies this
      ensures hits == old(hits) - {key}
    {
      if key in hits {
        hits := hits - {key};
      }
    }
  }
}
