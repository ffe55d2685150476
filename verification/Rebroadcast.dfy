/** Rebroadcasting of fresh events, limited by two time windows: an event must be young
    when it is checked, and a cache remembers recent broadcasts. The check and the cache
    access are separate steps, because a goroutine starts in between. Times are in
    nanoseconds of one clock that never runs backwards. */
module Rebroadcast {

  const SECOND := 1_000_000_000
  const FRESHNESS := 600 * SECOND
  const CACHE_TTL := 900 * SECOND

  /** The two callers treat the boundary differently. */
  datatype Caller = HandleEventUpdate | ExportedWrapper

  predicate Fresh(caller: Caller, createdAt: int, now: int) {
    match caller
    case HandleEventUpdate => now - createdAt * SECOND < FRESHNESS
    case ExportedWrapper => !(now - createdAt * SECOND > FRESHNESS)
  }

  /** A goroutine reaching the cache at `at`, for an event found fresh at `checked`; or a
      cleanup of the cache. */
  datatype Step =
    | Attempt(id: string, createdAt: int, caller: Caller, checked: int, at: int)
    | Cleanup(at: int)

  predicate Passes(cache: map<string, int>, id: string, now: int) {
    !(id in cache && now - cache[id] < CACHE_TTL)
  }

  function Apply(cache: map<string, int>, s: Step): map<string, int> {
    match s
    case Attempt(id, _, _, _, at) => if Passes(cache, id, at) then cache[id := at] else cache
    case Cleanup(at) => map k | k in cache && !(at - cache[k] > CACHE_TTL) :: cache[k]
  }

  function CacheAfter(steps: seq<Step>, n: nat): map<string, int>
    requires n <= |steps|
  {
    if n == 0 then map[] else Apply(CacheAfter(steps, n - 1), steps[n - 1])
  }

  /** Step i sends the event out. */
  predicate Broadcasts(steps: seq<Step>, i: nat)
    requires i < |steps|
  {
    steps[i].Attempt? && Passes(CacheAfter(steps, i), steps[i].id, steps[i].at)
  }

  predicate Admissible(delay: nat, s: Step) {
    s.Attempt? ==> s.checked <= s.at <= s.checked + delay && Fresh(s.caller, s.createdAt, s.checked)
  }

  /** A run of steps in clock order whose goroutines start within `delay`, from an empty
      cache. */
  ghost predicate IsRun(delay: nat, steps: seq<Step>) {
    && (forall i :: 0 <= i < |steps| ==> Admissible(delay, steps[i]))
    && (forall i, j :: 0 <= i < j < |steps| ==> steps[i].at <= steps[j].at)
  }

  // ----- the cache -----

  lemma {:induction false} CacheIsPast(steps: seq<Step>, n: nat, now: int, id: string)
    requires n <= |steps| && forall i :: 0 <= i < n ==> steps[i].at <= now
    requires id in CacheAfter(steps, n)
    ensures CacheAfter(steps, n)[id] <= now
  {
    if n > 0 && id in CacheAfter(steps, n - 1) {
      CacheIsPast(steps, n - 1, now, id);
    }
  }

  /** For a full TTL after a broadcast the cache knows of it, cleanups or not. */
  lemma {:induction false} CacheRemembers(delay: nat, steps: seq<Step>, i: nat, n: nat)
    requires IsRun(delay, steps) && i < n <= |steps| && Broadcasts(steps, i)
    requires steps[n - 1].at <= steps[i].at + CACHE_TTL
    ensures steps[i].id in CacheAfter(steps, n) && steps[i].at <= CacheAfter(steps, n)[steps[i].id]
  {
    if n > i + 1 {
      assert steps[n - 2].at <= steps[n - 1].at && steps[i].at <= steps[n - 1].at;
      CacheRemembers(delay, steps, i, n - 1);
    }
  }

  /** A cache entry is the time of a broadcast. */
  lemma {:induction false} CacheHoldsBroadcasts(steps: seq<Step>, n: nat, id: string) returns (i: nat)
    requires n <= |steps| && id in CacheAfter(steps, n)
    ensures i < n && Broadcasts(steps, i) && steps[i].id == id && steps[i].at == CacheAfter(steps, n)[id]
  {
    var s := steps[n - 1];
    if s.Attempt? && s.id == id && Passes(CacheAfter(steps, n - 1), id, s.at) {
      i := n - 1;
    } else {
      i := CacheHoldsBroadcasts(steps, n - 1, id);
    }
  }

  /** After a cleanup the cache holds no broadcast older than fifteen minutes, and still all
      others. */
  lemma CleanupLeavesRecent(cache: map<string, int>, now: int, id: string)
    ensures id in Apply(cache, Cleanup(now)) <==> id in cache && now <= cache[id] + 900_000_000_000
    ensures id in Apply(cache, Cleanup(now)) ==> Apply(cache, Cleanup(now))[id] == cache[id]
  {
  }

  /** An event may be sent out while it is under ten minutes old; at ten minutes sharp only
      one of the two callers still passes it on. */
  lemma FreshExactly(caller: Caller, createdAt: int, now: int)
    ensures Fresh(caller, createdAt, now)
       <==> now < createdAt * 1_000_000_000 + 600_000_000_000
            || (caller == ExportedWrapper && now == createdAt * 1_000_000_000 + 600_000_000_000)
  {
  }

  /** Two broadcasts of an event are at least the TTL apart, whatever happens in between. */
  lemma BroadcastsAreApart(delay: nat, steps: seq<Step>, i: nat, j: nat)
    requires IsRun(delay, steps) && i < j < |steps|
    requires Broadcasts(steps, i) && Broadcasts(steps, j) && steps[i].id == steps[j].id
    ensures steps[i].at + 900_000_000_000 <= steps[j].at
  {
    assert steps[j - 1].at <= steps[j].at && steps[i].at <= steps[j].at;
    if steps[j - 1].at <= steps[i].at + CACHE_TTL {
      CacheRemembers(delay, steps, i, j);
    }
  }

  /** Exactly when an attempt sends the event out: when the event was not sent out in the
      fifteen minutes before it. Cleanups make no difference. */
  lemma BroadcastsExactly(delay: nat, steps: seq<Step>, j: nat)
    requires IsRun(delay, steps) && j < |steps| && steps[j].Attempt?
    ensures Broadcasts(steps, j)
       <==> forall i :: 0 <= i < j && Broadcasts(steps, i) && steps[i].id == steps[j].id ==>
              steps[i].at + 900_000_000_000 <= steps[j].at
  {
    if Broadcasts(steps, j) {
      forall i | 0 <= i < j && Broadcasts(steps, i) && steps[i].id == steps[j].id
        ensures steps[i].at + 900_000_000_000 <= steps[j].at
      {
        BroadcastsAreApart(delay, steps, i, j);
      }
    } else {
      var i := CacheHoldsBroadcasts(steps, j, steps[j].id);
    }
  }

  // ----- both windows together -----

  /** In this run the event is broadcast at `first` and once more later. */
  ghost predicate BroadcastTwice(delay: nat, steps: seq<Step>, id: string, createdAt: int, first: int, i: nat, j: nat) {
    && IsRun(delay, steps) && i < j < |steps|
    && Broadcasts(steps, i) && steps[i].id == id && steps[i].createdAt == createdAt && steps[i].at == first
    && Broadcasts(steps, j) && steps[j].id == id && steps[j].createdAt == createdAt
  }

  /** Whether an event broadcast at `first` can ever go out again. */
  predicate MayRepeat(delay: nat, createdAt: int, first: int) {
    first + CACHE_TTL <= createdAt * SECOND + FRESHNESS + delay
  }

  lemma RepeatNeedsMayRepeat(delay: nat, steps: seq<Step>, id: string, createdAt: int, first: int, i: nat, j: nat)
    requires BroadcastTwice(delay, steps, id, createdAt, first, i, j)
    ensures MayRepeat(delay, createdAt, first)
  {
    BroadcastsAreApart(delay, steps, i, j);
    assert Admissible(delay, steps[j]);
  }

  function TwoAttempts(delay: nat, id: string, createdAt: int, first: int): seq<Step> {
    [Attempt(id, createdAt, ExportedWrapper, first - delay, first),
     Attempt(id, createdAt, ExportedWrapper, first + CACHE_TTL - delay, first + CACHE_TTL)]
  }

  lemma MayRepeatRepeats(delay: nat, id: string, createdAt: int, first: int)
    requires MayRepeat(delay, createdAt, first)
    ensures BroadcastTwice(delay, TwoAttempts(delay, id, createdAt, first), id, createdAt, first, 0, 1)
  {
    var steps := TwoAttempts(delay, id, createdAt, first);
    assert CacheAfter(steps, 0) == map[];
    assert CacheAfter(steps, 1) == map[id := first];
  }

  /** An event is broadcast again in some run exactly when its first broadcast came before
      its timestamp by the gap of the windows, the goroutine's delay counted in. */
  lemma RepeatsExactlyWhenMayRepeat(delay: nat, id: string, createdAt: int, first: int)
    ensures (exists steps, i, j :: BroadcastTwice(delay, steps, id, createdAt, first, i, j)) <==> MayRepeat(delay, createdAt, first)
  {
    forall steps: seq<Step>, i, j | BroadcastTwice(delay, steps, id, createdAt, first, i, j)
      ensures MayRepeat(delay, createdAt, first)
    {
      RepeatNeedsMayRepeat(delay, steps, id, createdAt, first, i, j);
    }
    if MayRepeat(delay, createdAt, first) {
      MayRepeatRepeats(delay, id, createdAt, first);
    }
  }

  /** Not dated ahead, and goroutines that start within the gap of the two windows: at most
      one broadcast in the whole run. */
  lemma AtMostOnce(delay: nat, steps: seq<Step>, i: nat, j: nat)
    requires IsRun(delay, steps) && i <= j < |steps|
    requires Broadcasts(steps, i) && Broadcasts(steps, j)
    requires steps[i].id == steps[j].id && steps[i].createdAt == steps[j].createdAt
    requires delay < 300_000_000_000 && steps[i].createdAt * SECOND <= steps[i].at
    ensures i == j
  {
    if i < j {
      RepeatNeedsMayRepeat(delay, steps, steps[i].id, steps[i].createdAt, steps[i].at, i, j);
    }
  }

  /** Dated five minutes ahead, an event does go out twice, with no delay at all. */
  lemma FutureDatedIsRepeated(id: string, createdAt: int)
    ensures BroadcastTwice(0, TwoAttempts(0, id, createdAt, createdAt * SECOND - 300 * SECOND), id, createdAt,
                           createdAt * SECOND - 300 * SECOND, 0, 1)
  {
    MayRepeatRepeats(0, id, createdAt, createdAt * SECOND - 300 * SECOND);
  }

  // ----- the code -----

  class Rebroadcaster {
    var cache: map<string, int>

    constructor ()
      ensures cache == map[]
    {
      cache := map[];
    }

    /** The locked part of a rebroadcast: whether the event goes out. */
    method RebroadcastEvent(id: string, now: int) returns (sent: bool)
      modifies this
      ensures sent == Passes(old(cache), id, now)
      ensures forall createdAt, caller, checked :: cache == Apply(old(cache), Attempt(id, createdAt, caller, checked, now))
    {
      if id in cache {
        var lastSeen := cache[id];
        if now - lastSeen < CACHE_TTL {
          return false;
        }
      }
      cache := cache[id := now];
      sent := true;
    }

    method CleanupRebroadcastCache(now: int)
      modifies this
      ensures cache == Apply(old(cache), Cleanup(now))
    {
      var ids := cache.Keys;
      while ids != {}
        invariant ids <= cache.Keys <= old(cache).Keys
        invariant forall k :: k in cache ==> cache[k] == old(cache)[k]
        invariant forall k :: k in old(cache) ==> (k in cache <==> k in ids || !(now - old(cache)[k] > CACHE_TTL))
      {
        var id: string :| id in ids;
        ids := ids - {id};
        if now - cache[id] > CACHE_TTL {
          cache := cache - {id};
        }
      }
    }
  }
}
