/** The expiry sweep: one pass over the map, under the write lock, that
    deletes the entries no longer valid at the instant the pass began. */
module Sweeper {
  import opened Results
  import opened Entries
  import opened Store

  /** The map a complete sweep at `now` leaves behind: the valid entries. */
  function Expire(m: StoreMap, now: Time): StoreMap {
    map k | k in m && m[k].ValidAt(now) :: m[k]
  }

  /** `r` arises from `m` by deleting only entries that are invalid at `now`;
      every kept entry is untouched. */
  ghost predicate PrunedAt(m: StoreMap, r: StoreMap, now: Time) {
    && r.Keys <= m.Keys
    && (forall k :: k in r ==> r[k] == m[k])
    && (forall k :: k in m && k !in r ==> !m[k].ValidAt(now))
  }

  /** `Cleanup`: one sweep at `now`, visiting the keys in `order`. The sweep's
      context is checked before each key; `budget` is the number of those
      checks that find it not yet done (0: done before the first key). */
  method Cleanup(m: StoreMap, order: seq<Key>, now: Time, budget: nat) returns (r: StoreMap)
    requires Enumerates(order, m)
    ensures PrunedAt(m, r, now)
    ensures forall i :: 0 <= i < |order| ==>
              (order[i] in r <==> i >= budget || m[order[i]].ValidAt(now))
    ensures budget >= |order| ==> r == Expire(m, now)
    ensures budget == 0 ==> r == m
    ensures forall k, t :: now <= t ==> Lookup(r, k, t) == Lookup(m, k, t)
  {
    r := m;
    var i := 0;
    while i < |order|
      invariant 0 <= i <= |order| && i <= budget
      invariant PrunedAt(m, r, now)
      invariant forall j :: 0 <= j < |order| ==>
                  (order[j] in r <==> j >= i || m[order[j]].ValidAt(now))
    {
      if i == budget {
        break;
      }
      var k := order[i];
      var e := m[k];
      if !e.ValidAt(now) {
        r := r - {k};
      }
      i := i + 1;
    }
  }

  /** A pruned map reads the same as the original at `now` and at every later
      instant: the entries it lacks were expired at `now` and stay expired. */
  lemma PrunedIsInvisible(m: StoreMap, r: StoreMap, now: Time, k: Key, t: Time)
    requires PrunedAt(m, r, now)
    requires now <= t
    ensures Lookup(r, k, t) == Lookup(m, k, t)
  {
  }

  /** `Get` cannot tell a pruned map from the original at any `t >= now`. */
  lemma SweepInvisibleToGet<V>(m: StoreMap, r: StoreMap, now: Time, k: Key, t: Time, ctx: Ctx, decode: Bytes -> Result<V, string>)
    requires PrunedAt(m, r, now)
    requires now <= t
    ensures Get(r, k, t, ctx, decode) == Get(m, k, t, ctx, decode)
  {
  }

  /** A complete sweep keeps exactly the entries valid at `now`, unchanged. */
  lemma ExpireKeepsValid(m: StoreMap, now: Time)
    ensures PrunedAt(m, Expire(m, now), now)
    ensures forall k :: k in Expire(m, now) <==> k in m && m[k].ValidAt(now)
  {
  }

  /** A second complete sweep at the same instant changes nothing. */
  lemma ExpireIdempotent(m: StoreMap, now: Time)
    ensures Expire(Expire(m, now), now) == Expire(m, now)
  {
  }

  /** An entry with a one-nanosecond timeout, read later than that: it is
      still physically in the map yet every read misses (lazy expiry), and the
      next complete sweep removes it (eager reclamation). */
  lemma LazyThenEager(m: StoreMap, k: Key, enc: Result<Bytes, string>, now: Time, ctx: Ctx, t: Time)
    requires SetWithTimeout(m, k, enc, 1, now, ctx).res.Ok?
    requires now + 1 != NoDeadline
    requires t > now + 1
    ensures var stored := SetWithTimeout(m, k, enc, 1, now, ctx).m;
      && k in stored
      && Lookup(stored, k, t) == None
      && k !in Expire(stored, t)
  {
  }
}
