# gokv/mem: an in-memory key/value store with time-based expiry

This project models the core of `gokv/mem`, an in-process key/value store. It
maps string keys to serialized payloads. Each payload may carry an absolute
deadline. The model covers the entry validity rule, the facade operations
(`Get`, `GetAll`, `Set`, `SetWithTimeout`, `SetWithDeadline`, `Add`,
`Delete`) and one run of the expiry sweep `Cleanup`.

Every operation runs under the store's lock, so each one is modelled as an
atomic transformation of an immutable `map<string, Entry>`:

- `results.dfy` (`Results`): `Option` and `Result`, for Go's `(T, error)`.
- `entry.dfy` (`Entries`): bytes, time in nanoseconds since the Unix epoch,
  `Entry(data, validTo)` with `validTo == 0` meaning "no deadline", and the
  validity rule `ValidAt`.
- `store.dfy` (`Store`): the map, the error values (`Cancelled`, `KeyExists`,
  `NoRows`, `CodecError`), the facade operations and the lemmas relating them.
  A write returns `Reply(m, res)`, the new map and the Go error.
- `cleanup.dfy` (`Sweeper`): `Cleanup`, a loop over the keys in iteration
  order that deletes entries invalid at the sweep's `now` and stops when its
  context is done. It also holds `Expire`, the reference result of a complete
  sweep, and the lemmas showing a sweep is invisible to readers.

Inputs that the Go code fetches itself are parameters here:

- the clock reading `now`;
- the context, as the two checks an operation makes (`Ctx(doneAtEntry,
  doneAfterLock)`);
- the encoder's outcome `enc`, and the decoder `decode`;
- the generated key `candidate` of `Add`;
- the map iteration order `order`;
- for `Cleanup`, `budget`: how many of its per-key context checks pass before
  the context is done.

## Model

| member | source | states |
|---|---|---|
| `Entries.ValidAtIff` | store.go:27-32 | An entry is valid at `t` exactly when it has no deadline (`validTo == 0`) or `t <= validTo`. |
| `Entries.BoundaryInclusive` | store.go:28 | An entry with a deadline is still valid at the deadline instant and invalid one nanosecond later. |
| `Entries.ExpiredStaysExpired` | store.go:28 | Once an entry is invalid at `t`, it stays invalid at every later instant. |
| `Store.Get` | store.go:57-73 | Cancelled on entry gives `(false, Cancelled)`, and the model's `Cancelled` arises only then. A key that is absent, or present but invalid at `now`, is a miss `(false, nil)`, never an error. A valid entry is handed to the decoder: a hit with the decoded value, or `(true, CodecError)` when decoding fails. |
| `Store.LiveKeys` | store.go:88-89 | The keys an iteration hands on are exactly the visited keys present in the map and valid at `now`, and they form a subsequence of the iteration order, so their relative order is kept. |
| `Store.LiveKeysOfEnumeration` | store.go:88-94 | Over a full iteration of the map, the keys handed on are exactly the entries valid at `now`, each listed once. Expired entries are skipped. |
| `Store.Collect` | store.go:88-96 | One pass over the iteration order: the values produced are the successful decodings of the valid entries' payloads, in order, skipping expired entries. With no error, every valid entry was decoded. An error is the decode error of the first valid entry that failed, and it ends the pass. |
| `Store.GetAll` | store.go:76-97 | Cancelled on entry gives `Cancelled` and collects nothing. Otherwise the collection receives the decoded payloads of the valid entries, in iteration order. If no decode fails, it receives all of them and no error is returned. If one fails, collection stops at the first failing valid entry and its decode error is returned. |
| `Store.Add` | store.go:101-129 | The call succeeds exactly when the context is not done at either check, encoding succeeds and the candidate key is absent. On success it returns the key and inserts the payload with no deadline, leaving every other key unchanged. An occupied key gives `KeyExists`. Every error leaves the map unchanged. |
| `Store.AddThenCollide` | store.go:123-127 | After a successful `Add`, the new key reads back its payload at every time. A second `Add` under the same key is refused with `KeyExists` and leaves the map unchanged. |
| `Store.Set` | store.go:133-155 | Succeeds exactly when the context is not done at either check and encoding succeeds. Each failure carries the error tag of the check that failed. On success `k` holds the payload with no earlier deadline left, and every other key is unchanged. Every error leaves the map unchanged. |
| `Store.SetThenGet` | store.go:140-154 | After a successful `Set(k, v)`, reading `k` at any time sees the bytes of `v`, and `Get` hits with their decoding. |
| `Store.SetTwiceKeepsSecond` | store.go:153 | Setting the same key twice leaves exactly one entry for it, holding the second payload and no deadline. |
| `Store.SetWithDeadline` | store.go:168-190 | Same outcome conditions and errors as `Set`. On success `k` holds the payload with the given deadline, and every other key is unchanged. Every error leaves the map unchanged. |
| `Store.ZeroDeadlineIsSet` | store.go:188 | `SetWithDeadline` at deadline 0 is indistinguishable from `Set`: an entry whose deadline is the Unix epoch itself never expires. |
| `Store.SetWithTimeout` | store.go:161-163 | Behaves as `SetWithDeadline` at `now + timeout`. It succeeds under the same conditions and returns the same error at each check: `Cancelled` on entry, the encoder's error, and `Cancelled` after the lock. On success the deadline is fixed at call time as `now + timeout`, and other keys are unchanged. Every error leaves the map unchanged. |
| `Store.TimeoutLifespan` | store_test.go:119-139 | After a successful `SetWithTimeout(k, v, d)` at `now`, a read of `k` at `t` hits with `v` when `t <= now + d` and misses when `t > now + d`. This holds whenever `now + d` is not the sentinel 0. |
| `Store.WritesAreLocal` | store.go:127-213 | `Set`, `SetWithDeadline`, `Add` and `Delete` on `k` leave what a reader sees under every other key unchanged at every time, whether they succeed or fail. |
| `Store.Delete` | store.go:194-215 | Succeeds exactly when the context is not done at either check and `k` is present. Success removes exactly `k`. An absent key gives `NoRows` (the strict policy). Every error leaves the map unchanged. |
| `Store.DeleteThenMiss` | store_test.go:140-149 | After a successful `Delete(k)`, `k` misses at every time. A second `Delete(k)` returns `NoRows` and leaves the map unchanged. |
| `Store.Scenario` | store_test.go:92-149 | Each case of the table test runs on a fresh store, with short byte payloads standing in for the test's strings. `Set` then `Get` hits, and an unset key misses. Two keys set side by side both hit. A key with a 1 s timeout hits when read at once. A key with a 1 ms timeout misses when read strictly after its deadline. A deleted key misses. |
| `Sweeper.Cleanup` | cleanup.go:8-24 | The sweep only deletes, and only entries invalid at the single `now` captured for it; kept entries are unchanged. Key number `i` in iteration order is kept exactly when the context was done before it was reached, or its entry is valid at `now`. An uncancelled sweep leaves exactly `Expire(m, now)`. A sweep cancelled before the first key changes nothing. Every read at any `t >= now` sees the same result before and after the sweep. |
| `Sweeper.PrunedIsInvisible` | cleanup.go:20-21 | Deleting only entries that are invalid at `now` changes no read at any `t >= now`. |
| `Sweeper.SweepInvisibleToGet` | cleanup.go:20-22 | For every key, context and decoder, `Get` at any `t >= now` returns the same result on the swept map as on the original. |
| `Sweeper.ExpireKeepsValid` | cleanup.go:13-23 | A complete sweep keeps exactly the entries valid at `now`, unchanged, and deletes only invalid ones. |
| `Sweeper.ExpireIdempotent` | cleanup.go:20-21 | Two complete sweeps at the same `now` leave the same map as one. |
| `Sweeper.LazyThenEager` | cleanup_test.go:21-38 | Take an entry set with a 1 ns timeout and read after that nanosecond. It is still physically in the map, yet every read misses. A complete sweep at that time removes it. |

## Left out

- The `sync.RWMutex`: each operation is one atomic step. Lock fairness and blocking under contention are not modelled.
- `New`, `Close` and `start`: the background goroutine, its `time.Sleep` interval and its per-run timeout are scheduling, not state logic. The constants `cleanupInterval` and `cleanupTimeout` go with them. A sweep's early stop is modelled through `budget`.
- `context.Context`: reduced to whether each check finds it done. The model does not force a context done at entry to be done after the lock too, so it covers more inputs than Go can produce. `ctx.Err()` becomes the single error `Cancelled`, without telling cancellation from an expired deadline.
- JSON marshalling and `store.Collection`: foreign interfaces. `MarshalJSON`'s outcome is the input `enc`; `UnmarshalJSON` is the function `decode`. The values `GetAll` writes into the collection are returned as `items`, and on an error the values written before it remain in `items`. The fresh slot `c.New()` adds for the value whose decoding fails, and whatever a failed `UnmarshalJSON` leaves in its target (in `GetAll` and in `Get`), are not represented.
- `Error.CodecError` is a separate tag: Go returns the codec's error value unchanged (store.go:72, 91, 110, 142, 177), and callers compare errors by value. A marshaller or unmarshaller that itself returns `context.Canceled` or `store.ErrNoRows` makes the store's result indistinguishable from a cancellation or a strict-delete miss. The model keeps codec failures apart, so it can tell apart errors that Go cannot. Its claims that an error tag marks one cause (for `Store.Get`, `Store.Set` and the other writes) hold for the tags, not for Go's error values.
- `uuid.New()`: the key `Add` tries is the parameter `candidate`.
- `time.Now` and 64-bit time: time is an unbounded integer supplied by the caller. The `int64` overflow of `time.Now().Add(timeout).UnixNano()` is not modelled.
- The deadline 0 is both "no deadline" and the Unix epoch. The model keeps this collision as the code has it (`Store.ZeroDeadlineIsSet`). `Store.TimeoutLifespan` therefore excludes `now + timeout == 0`.
- Go's map iteration order: `GetAll` and `Cleanup` take any order that lists every key once, and every property holds for every such order. The order does shape the results: it fixes the order of the values `GetAll` collects, which decode error `GetAll` reports, and which keys a cancelled sweep reaches.
- Aliasing of payload slices: the store keeps the slice `MarshalJSON` returned without copying it (store.go:127, 153, 188), and hands the stored slice itself to `UnmarshalJSON` (store.go:72, 90). The model's payloads are immutable values, so it assumes the caller's codec neither keeps nor writes into those buffers. `Store.SetThenGet` and the other read-back lemmas rely on that assumption; a codec that mutates the buffer would change what later reads see.
- The unused key parameter `k` of `GetAll`.
- Reads never change the map: `Get` and `GetAll` take it by value and return no map, so this holds by construction rather than as a stated contract.
