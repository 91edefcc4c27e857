/** The facade operations of the in-memory store. Each operation runs under
    the store's lock, so it is modelled as one atomic transformation of the
    map: the map goes in, the new map and the Go error come out. */
module Store {
  import opened Results
  import opened Entries

  type Key = string

  type StoreMap = map<Key, Entry>

  /** The errors the store reports. `Cancelled` is the context's error,
      `NoRows` the "no rows" error of the store interface, `CodecError` the
      message of a failed marshal or unmarshal. */
  datatype Error = Cancelled | KeyExists | NoRows | CodecError(msg: string)

  /** The context of one call, reduced to what the operation observes: whether
      it is done at the check on entry, and whether it is done at the check
      made right after the lock is taken (write operations only). */
  datatype Ctx = Ctx(doneAtEntry: bool, doneAfterLock: bool)

  /** The map after a write operation, and what the operation returned. */
  datatype Reply<T> = Reply(m: StoreMap, res: Result<T, Error>)

  /** Go's `(found bool, err error)` from `Get`: a miss `(false, nil)`, a hit
      `(true, nil)` with the decoded value, or a failure carrying both. */
  datatype GetResult<V> = Miss | Hit(value: V) | Failed(found: bool, error: Error)

  /** `m'` agrees with `m` on every key other than `k`. */
  ghost predicate SameExcept(m: StoreMap, m': StoreMap, k: Key) {
    && (forall j :: j != k ==> (j in m <==> j in m'))
    && (forall j :: j != k && j in m ==> m'[j] == m[j])
  }

  /** No element of `s` occurs twice. */
  ghost predicate Distinct(s: seq<Key>) {
    forall i, j :: 0 <= i < j < |s| ==> s[i] != s[j]
  }

  /** `order` lists every key of `m` exactly once: one possible iteration
      order of a Go map. */
  ghost predicate Enumerates(order: seq<Key>, m: StoreMap) {
    && Distinct(order)
    && (forall k :: k in order <==> k in m)
  }

  /** What a reader at time `t` sees under `k`: the payload of an entry valid
      at `t`, or nothing. An expired entry reads exactly like an absent one. */
  function Lookup(m: StoreMap, k: Key, t: Time): Option<Bytes> {
    if k in m && m[k].ValidAt(t) then Some(m[k].data) else None
  }

  /** `Get` at time `now`, decoding the payload with the caller's `decode`. */
  function Get<V>(m: StoreMap, k: Key, now: Time, ctx: Ctx, decode: Bytes -> Result<V, string>): (r: GetResult<V>)
    ensures ctx.doneAtEntry ==> r == Failed(false, Cancelled)
    ensures !ctx.doneAtEntry ==> (r.Miss? <==> k !in m || !m[k].ValidAt(now))
    ensures r.Hit? ==> k in m && m[k].ValidAt(now) && decode(m[k].data) == Ok(r.value)
    ensures r.Failed? && r.found ==>
              && k in m && m[k].ValidAt(now)
              && decode(m[k].data).Err?
              && r.error == CodecError(decode(m[k].data).error)
    ensures r.Failed? && !r.found ==> r.error == Cancelled && ctx.doneAtEntry
  {
    if ctx.doneAtEntry then Failed(false, Cancelled)
    else match Lookup(m, k, now)
      case None => Miss
      case Some(data) =>
        match decode(data)
        case Ok(v) => Hit(v)
        case Err(msg) => Failed(true, CodecError(msg))
  }

  /** `a` is `b` with some elements dropped: the elements of `a` occur in `b`
      in the same relative order. */
  ghost predicate Subsequence(a: seq<Key>, b: seq<Key>)
    decreases |b|
  {
    if a == [] then true
    else if b == [] then false
    else (a[0] == b[0] && Subsequence(a[1..], b[1..])) || Subsequence(a, b[1..])
  }

  /** The keys of `order` whose entries are valid at `now`, in `order`'s order:
      the entries `GetAll` hands to the collection. */
  function LiveKeys(m: StoreMap, order: seq<Key>, now: Time): (live: seq<Key>)
    ensures |live| <= |order|
    ensures forall k :: k in live <==> k in order && k in m && m[k].ValidAt(now)
    ensures Subsequence(live, order)
  {
    if order == [] then []
    else
      var k := order[0];
      var rest := LiveKeys(m, order[1..], now);
      if k in m && m[k].ValidAt(now) then [k] + rest else rest
  }

  /** Filtering a repetition-free order yields a repetition-free sequence. */
  lemma {:induction false} LiveKeysDistinct(m: StoreMap, order: seq<Key>, now: Time)
    requires Distinct(order)
    ensures Distinct(LiveKeys(m, order, now))
    decreases |order|
  {
    if order != [] {
      var tail := order[1..];
      assert Distinct(tail) by {
        forall i, j | 0 <= i < j < |tail|
          ensures tail[i] != tail[j]
        {
          assert tail[i] == order[i + 1] && tail[j] == order[j + 1];
        }
      }
      LiveKeysDistinct(m, tail, now);
      var rest := LiveKeys(m, tail, now);
      var k := order[0];
      assert k !in tail by {
        forall i | 0 <= i < |tail|
          ensures tail[i] != k
        {
          assert tail[i] == order[i + 1];
        }
      }
      if k in m && m[k].ValidAt(now) {
        var live := [k] + rest;
        forall i, j | 0 <= i < j < |live|
          ensures live[i] != live[j]
        {
          assert live[j] == rest[j - 1];
          if i > 0 {
            assert live[i] == rest[i - 1];
          }
        }
      }
    }
  }

  /** Over a full iteration of the map, the live keys are exactly the keys
      whose entries are valid at `now`, each listed once. */
  lemma LiveKeysOfEnumeration(m: StoreMap, order: seq<Key>, now: Time)
    requires Enumerates(order, m)
    ensures forall k :: k in LiveKeys(m, order, now) <==> k in m && m[k].ValidAt(now)
    ensures Distinct(LiveKeys(m, order, now))
  {
    LiveKeysDistinct(m, order, now);
  }

  /** What `GetAll` delivers: the values written into the collection, in
      order, and the Go error. */
  datatype Collected<V> = Collected(items: seq<V>, err: Option<Error>)

  /** `items` are the successful decodings of the payloads stored under the
      first `|items|` keys of `keys`. */
  ghost predicate DecodedPrefix<V>(m: StoreMap, keys: seq<Key>, items: seq<V>, decode: Bytes -> Result<V, string>) {
    && |items| <= |keys|
    && forall j :: 0 <= j < |items| ==> keys[j] in m && decode(m[keys[j]].data) == Ok(items[j])
  }

  /** The outcome of decoding the payloads under `keys` one after the other,
      stopping at the first failure: without an error every key was decoded,
      and an error is exactly the decode error of the first key not decoded. */
  ghost predicate DecodedUpToFailure<V>(m: StoreMap, keys: seq<Key>, r: Collected<V>, decode: Bytes -> Result<V, string>) {
    && DecodedPrefix(m, keys, r.items, decode)
    && (r.err.None? <==> |r.items| == |keys|)
    && (r.err.Some? ==>
          && |r.items| < |keys|
          && keys[|r.items|] in m
          && decode(m[keys[|r.items|]].data).Err?
          && r.err.value == CodecError(decode(m[keys[|r.items|]].data).error))
  }

  /** Decoding one more key in front extends a decode-up-to-failure outcome. */
  lemma DecodedUpToFailureCons<V>(m: StoreMap, k: Key, keys: seq<Key>, v: V, r: Collected<V>, decode: Bytes -> Result<V, string>)
    requires DecodedUpToFailure(m, keys, r, decode)
    requires k in m && decode(m[k].data) == Ok(v)
    ensures DecodedUpToFailure(m, [k] + keys, Collected([v] + r.items, r.err), decode)
  {
  }

  /** The loop of `GetAll`: walks `order`, skips entries invalid at `now`,
      decodes the others into fresh values, and stops at the first decode
      error. */
  function Collect<V>(m: StoreMap, order: seq<Key>, now: Time, decode: Bytes -> Result<V, string>): (r: Collected<V>)
    requires forall i :: 0 <= i < |order| ==> order[i] in m
    ensures DecodedUpToFailure(m, LiveKeys(m, order, now), r, decode)
    decreases |order|
  {
    if order == [] then Collected([], None)
    else
      var e := m[order[0]];
      var rest := Collect(m, order[1..], now, decode);
      if !e.ValidAt(now) then rest
      else match decode(e.data)
        case Err(msg) => Collected([], Some(CodecError(msg)))
        case Ok(v) =>
          DecodedUpToFailureCons(m, order[0], LiveKeys(m, order[1..], now), v, rest, decode);
          Collected([v] + rest.items, rest.err)
  }

  /** `GetAll` at time `now`, iterating the map in `order`. */
  function GetAll<V>(m: StoreMap, order: seq<Key>, now: Time, ctx: Ctx, decode: Bytes -> Result<V, string>): (r: Collected<V>)
    requires Enumerates(order, m)
    ensures ctx.doneAtEntry ==> r == Collected([], Some(Cancelled))
    ensures !ctx.doneAtEntry ==> DecodedUpToFailure(m, LiveKeys(m, order, now), r, decode)
  {
    if ctx.doneAtEntry then Collected([], Some(Cancelled))
    else Collect(m, order, now, decode)
  }

  /** `Set`: stores the encoded value under `k` with no deadline. */
  function Set(m: StoreMap, k: Key, enc: Result<Bytes, string>, ctx: Ctx): (r: Reply<()>)
    ensures r.res.Ok? <==> !ctx.doneAtEntry && enc.Ok? && !ctx.doneAfterLock
    ensures r.res.Err? ==> r.m == m
    ensures ctx.doneAtEntry ==> r.res == Err(Cancelled)
    ensures !ctx.doneAtEntry && enc.Err? ==> r.res == Err(CodecError(enc.error))
    ensures !ctx.doneAtEntry && enc.Ok? && ctx.doneAfterLock ==> r.res == Err(Cancelled)
    ensures r.res.Ok? ==>
              && k in r.m
              && r.m[k].data == enc.value
              && !r.m[k].HasDeadline()
              && SameExcept(m, r.m, k)
  {
    if ctx.doneAtEntry then Reply(m, Err(Cancelled))
    else match enc
      case Err(msg) => Reply(m, Err(CodecError(msg)))
      case Ok(b) =>
        if ctx.doneAfterLock then Reply(m, Err(Cancelled))
        else Reply(m[k := Entry(b, NoDeadline)], Ok(()))
  }

  /** `SetWithDeadline`: stores the encoded value under `k`, readable up to
      and including `deadline`. */
  function SetWithDeadline(m: StoreMap, k: Key, enc: Result<Bytes, string>, deadline: Time, ctx: Ctx): (r: Reply<()>)
    ensures r.res.Ok? <==> !ctx.doneAtEntry && enc.Ok? && !ctx.doneAfterLock
    ensures r.res.Err? ==> r.m == m
    ensures ctx.doneAtEntry ==> r.res == Err(Cancelled)
    ensures !ctx.doneAtEntry && enc.Err? ==> r.res == Err(CodecError(enc.error))
    ensures !ctx.doneAtEntry && enc.Ok? && ctx.doneAfterLock ==> r.res == Err(Cancelled)
    ensures r.res.Ok? ==>
              && k in r.m
              && r.m[k].data == enc.value
              && r.m[k].validTo == deadline
              && SameExcept(m, r.m, k)
  {
    if ctx.doneAtEntry then Reply(m, Err(Cancelled))
    else match enc
      case Err(msg) => Reply(m, Err(CodecError(msg)))
      case Ok(b) =>
        if ctx.doneAfterLock then Reply(m, Err(Cancelled))
        else Reply(m[k := Entry(b, deadline)], Ok(()))
  }

  /** `SetWithTimeout` called at `now`: the lifespan starts at the call, so
      the deadline is fixed as `now + timeout` before anything else happens. */
  function SetWithTimeout(m: StoreMap, k: Key, enc: Result<Bytes, string>, timeout: int, now: Time, ctx: Ctx): (r: Reply<()>)
    ensures r.res.Ok? <==> !ctx.doneAtEntry && enc.Ok? && !ctx.doneAfterLock
    ensures r.res.Err? ==> r.m == m
    ensures ctx.doneAtEntry ==> r.res == Err(Cancelled)
    ensures !ctx.doneAtEntry && enc.Err? ==> r.res == Err(CodecError(enc.error))
    ensures !ctx.doneAtEntry && enc.Ok? && ctx.doneAfterLock ==> r.res == Err(Cancelled)
    ensures r.res.Ok? ==>
              && k in r.m
              && r.m[k].data == enc.value
              && r.m[k].validTo == now + timeout
              && SameExcept(m, r.m, k)
  {
    SetWithDeadline(m, k, enc, now + timeout, ctx)
  }

  /** `Add`: inserts the encoded value under the freshly generated key
      `candidate`, refusing to overwrite an existing entry. */
  function Add(m: StoreMap, enc: Result<Bytes, string>, candidate: Key, ctx: Ctx): (r: Reply<Key>)
    ensures r.res.Ok? <==> !ctx.doneAtEntry && enc.Ok? && !ctx.doneAfterLock && candidate !in m
    ensures r.res.Err? ==> r.m == m
    ensures ctx.doneAtEntry ==> r.res == Err(Cancelled)
    ensures !ctx.doneAtEntry && enc.Err? ==> r.res == Err(CodecError(enc.error))
    ensures !ctx.doneAtEntry && enc.Ok? && ctx.doneAfterLock ==> r.res == Err(Cancelled)
    ensures !ctx.doneAtEntry && enc.Ok? && !ctx.doneAfterLock && candidate in m ==> r.res == Err(KeyExists)
    ensures r.res.Ok? ==>
              && r.res.value == candidate
              && r.m.Keys == m.Keys + {candidate}
              && r.m[candidate] == Entry(enc.value, NoDeadline)
              && SameExcept(m, r.m, candidate)
  {
    if ctx.doneAtEntry then Reply(m, Err(Cancelled))
    else match enc
      case Err(msg) => Reply(m, Err(CodecError(msg)))
      case Ok(b) =>
        if ctx.doneAfterLock then Reply(m, Err(Cancelled))
        else if candidate in m then Reply(m, Err(KeyExists))
        else Reply(m[candidate := Entry(b, NoDeadline)], Ok(candidate))
  }

  /** `Delete`: removes `k`, and reports `NoRows` when there is nothing to
      remove (the strict policy). */
  function Delete(m: StoreMap, k: Key, ctx: Ctx): (r: Reply<()>)
    ensures r.res.Ok? <==> !ctx.doneAtEntry && !ctx.doneAfterLock && k in m
    ensures r.res.Err? ==> r.m == m
    ensures ctx.doneAtEntry || ctx.doneAfterLock ==> r.res == Err(Cancelled)
    ensures !ctx.doneAtEntry && !ctx.doneAfterLock && k !in m ==> r.res == Err(NoRows)
    ensures r.res.Ok? ==> r.m.Keys == m.Keys - {k} && SameExcept(m, r.m, k)
  {
    if ctx.doneAtEntry then Reply(m, Err(Cancelled))
    else if ctx.doneAfterLock then Reply(m, Err(Cancelled))
    else if k !in m then Reply(m, Err(NoRows))
    else Reply(m - {k}, Ok(()))
  }

  /** After a successful `Set`, every later read of `k`, at any time, sees
      the stored bytes, and `Get` hands them to the decoder. */
  lemma SetThenGet<V>(m: StoreMap, k: Key, enc: Result<Bytes, string>, ctx: Ctx, t: Time, ctx': Ctx, decode: Bytes -> Result<V, string>)
    requires Set(m, k, enc, ctx).res.Ok?
    ensures Lookup(Set(m, k, enc, ctx).m, k, t) == Some(enc.value)
    ensures !ctx'.doneAtEntry && decode(enc.value).Ok? ==>
              Get(Set(m, k, enc, ctx).m, k, t, ctx', decode) == Hit(decode(enc.value).value)
  {
  }

  /** Setting the same key twice leaves one entry, holding the second value
      and no deadline, whatever the first write stored. */
  lemma SetTwiceKeepsSecond(m: StoreMap, k: Key, enc1: Result<Bytes, string>, enc2: Result<Bytes, string>, ctx1: Ctx, ctx2: Ctx)
    requires Set(m, k, enc1, ctx1).res.Ok?
    requires Set(Set(m, k, enc1, ctx1).m, k, enc2, ctx2).res.Ok?
    ensures Set(Set(m, k, enc1, ctx1).m, k, enc2, ctx2).m == m[k := Entry(enc2.value, NoDeadline)]
  {
  }

  /** `Set` is `SetWithDeadline` at the sentinel deadline. Read the other way:
      a deadline of exactly the Unix epoch is indistinguishable from "no
      deadline", so such an entry never expires. */
  lemma ZeroDeadlineIsSet(m: StoreMap, k: Key, enc: Result<Bytes, string>, ctx: Ctx)
    ensures SetWithDeadline(m, k, enc, NoDeadline, ctx) == Set(m, k, enc, ctx)
  {
  }

  /** `SetWithTimeout` at `now` is `SetWithDeadline` at `now + timeout`. */
  lemma TimeoutIsDeadline(m: StoreMap, k: Key, enc: Result<Bytes, string>, timeout: int, now: Time, ctx: Ctx)
    ensures SetWithTimeout(m, k, enc, timeout, now, ctx) == SetWithDeadline(m, k, enc, now + timeout, ctx)
  {
  }

  /** The lifespan of a timed entry: a read at `t` hits exactly when `t` is at
      or before `now + timeout`, unless that instant is the sentinel. */
  lemma TimeoutLifespan(m: StoreMap, k: Key, enc: Result<Bytes, string>, timeout: int, now: Time, ctx: Ctx, t: Time)
    requires SetWithTimeout(m, k, enc, timeout, now, ctx).res.Ok?
    requires now + timeout != NoDeadline
    ensures Lookup(SetWithTimeout(m, k, enc, timeout, now, ctx).m, k, t) ==
              (if t <= now + timeout then Some(enc.value) else None)
  {
  }

  /** A write to `k` is invisible to readers of every other key. */
  lemma WritesAreLocal(m: StoreMap, k: Key, enc: Result<Bytes, string>, deadline: Time, ctx: Ctx, j: Key, t: Time)
    requires j != k
    ensures Lookup(SetWithDeadline(m, k, enc, deadline, ctx).m, j, t) == Lookup(m, j, t)
    ensures Lookup(Set(m, k, enc, ctx).m, j, t) == Lookup(m, j, t)
    ensures Lookup(Delete(m, k, ctx).m, j, t) == Lookup(m, j, t)
    ensures Lookup(Add(m, enc, k, ctx).m, j, t) == Lookup(m, j, t)
  {
  }

  /** After a successful `Delete`, `k` misses at every time and a second
      `Delete` of `k` reports `NoRows`. */
  lemma DeleteThenMiss(m: StoreMap, k: Key, ctx: Ctx, t: Time, ctx': Ctx)
    requires Delete(m, k, ctx).res.Ok?
    requires !ctx'.doneAtEntry && !ctx'.doneAfterLock
    ensures Lookup(Delete(m, k, ctx).m, k, t) == None
    ensures Delete(Delete(m, k, ctx).m, k, ctx') == Reply(Delete(m, k, ctx).m, Err(NoRows))
  {
  }

  /** After a successful `Add`, the generated key reads back the payload at
      every time, and adding under the same key again is refused. */
  lemma AddThenCollide(m: StoreMap, enc: Result<Bytes, string>, candidate: Key, ctx: Ctx, t: Time, enc': Result<Bytes, string>, ctx': Ctx)
    requires Add(m, enc, candidate, ctx).res.Ok?
    requires !ctx'.doneAtEntry && enc'.Ok? && !ctx'.doneAfterLock
    ensures Lookup(Add(m, enc, candidate, ctx).m, candidate, t) == Some(enc.value)
    ensures Add(Add(m, enc, candidate, ctx).m, enc', candidate, ctx') ==
              Reply(Add(m, enc, candidate, ctx).m, Err(KeyExists))
  {
  }

  /** The cases of the store's table test, each on a fresh store: a hit, a
      miss on an unset key, two keys stored side by side, a key with a
      one-second timeout read at once, a key with a one-millisecond timeout
      read strictly after its deadline, and a deleted key. */
  lemma Scenario(now: Time)
    requires now > 0
    ensures
      var live := Ctx(false, false);
      var id := (b: Bytes) => Ok(b);
      var hit := Set(map[], "mykey", Ok([1]), live);
      var two := Set(Set(map[], "key1", Ok([2]), live).m, "key2", Ok([3]), live);
      var early := SetWithTimeout(map[], "volatile key", Ok([4]), 1000000000, now, live);
      var late := SetWithTimeout(map[], "volatile key", Ok([5]), 1000000, now, live);
      var deleted := Delete(Set(map[], "mykey", Ok([6]), live).m, "mykey", live);
      && Get(hit.m, "mykey", now, live, id) == Hit([1])
      && Get(map[], "unset key", now, live, id) == Miss
      && Get(two.m, "key1", now, live, id) == Hit([2])
      && Get(two.m, "key2", now, live, id) == Hit([3])
      && Get(early.m, "volatile key", now, live, id) == Hit([4])
      && Get(late.m, "volatile key", now + 1000001, live, id) == Miss
      && deleted.res == Ok(())
      && Get(deleted.m, "mykey", now, live, id) == Miss
  {
  }
}
