# Revoke queue maintainer

A model of the revoke-queue part of the Microdot caching proxy. Each revoke
event is queued with the time it was received. `RevokeQueueMaintainer` keeps
these events in a first-in first-out queue. A timer sweeps the queue
periodically. It drops from the head the events at least as old as a
retention window and hands each dropped revoke key to an `onMaintain`
callback. `ReverseItem` is the shape of one reverse-index entry: a set of
dependent cache keys and the time the key was last revoked.

Modules:

- `Wrappers` (wrappers.dfy): the `Option` datatype.
- `Clock` (clock.dfy): .NET `DateTime` and `TimeSpan` as tick counts (100 ns
  units). `DateTime` runs from 0 (`MinValue`) to `MaxValue.Ticks`. `TimeSpan`
  is a signed 64-bit count. `DateTime - TimeSpan` fails when the result falls
  outside the `DateTime` range; .NET throws `ArgumentOutOfRangeException` there.
- `RevokeMaintainer` (revoke_maintainer.dfy): the `ReverseItem` and `Revoke`
  datatypes and `ExpiredPrefixLength`, the specification of one sweep. Also
  the lemmas about sweeps and the class `RevokeQueueMaintainer`.

How the model maps the source:

- The `ConcurrentQueue<Tuple<string, DateTime>>` is a `seq<Revoke>` field,
  `revokesQueue`, that the methods reassign.
- The `onMaintain` callback is a log field, `maintainedKeys`. Each call of the
  callback appends its key to the log. A null callback is the constant
  `hasOnMaintain == false`, and then nothing is logged.
- `DateTime.UtcNow` is a `now` parameter of `Maintain` and `Tick`.
- The configured `RevokesCleanupMs` is a parameter of `Tick`.
- `Maintain` reports through `ok` whether the cut-off `now - olderThan` was
  representable. When it is not, the source throws before touching the queue,
  so the model changes nothing. `Tick`, the timer callback, turns that failure
  into a critical log entry, the way the source's `catch` does.

The comment "All younger" in the source assumes the queue's times never
decrease. `Enqueue` takes its time from the caller and does not check this.
So the model does not assume it. `Maintain` is proved to stop at the first
young item whatever follows. `SortedDrainsExactlyExpired` shows that when the
times are sorted, this removes exactly the expired items.

`Maintain` does not touch the reverse index. It hands each dropped key to the
injected `onMaintain` callback (RevokeMaintainer.cs:115).

## Model

| member | source | states |
|---|---|---|
| `RevokeMaintainer.NewReverseItem` | Gigya.Microdot.ServiceProxy/Caching/RevokeMaintainer.cs:34-38 | a new entry has no cache keys and was last revoked at `DateTime.MinValue` |
| `Clock.Subtract` | Gigya.Microdot.ServiceProxy/Caching/RevokeMaintainer.cs:97 | the cut-off exists exactly when `now - olderThan` is a representable `DateTime`; adding `olderThan` back gives `now`; a non-negative window never moves the cut-off past `now` |
| `Clock.FromMilliseconds` | Gigya.Microdot.ServiceProxy/Caching/RevokeMaintainer.cs:70-73 | the configured millisecond interval becomes a whole number of milliseconds' worth of ticks |
| `RevokeMaintainer.ExpiredPrefixLength` | Gigya.Microdot.ServiceProxy/Caching/RevokeMaintainer.cs:99-113 | a sweep removes a prefix of the queue; every removed item's time is at or before the cut-off (equal counts as expired); the first item kept is strictly later than the cut-off |
| `RevokeMaintainer.Keys` | Gigya.Microdot.ServiceProxy/Caching/RevokeMaintainer.cs:113-115 | the keys handed to the callback correspond one to one with the removed items, in queue order |
| `RevokeMaintainer.ExpiredPrefixUnique` | Gigya.Microdot.ServiceProxy/Caching/RevokeMaintainer.cs:109-111 | any prefix length that is all-expired and followed by a young item (or the end) is the length a sweep removes |
| `RevokeMaintainer.AllExpiredDrained` | Gigya.Microdot.ServiceProxy/Caching/RevokeMaintainer.cs:99-116 | when every queued item is at or before the cut-off, one sweep empties the queue |
| `RevokeMaintainer.OldItemBehindYoungHeadStays` | Gigya.Microdot.ServiceProxy/Caching/RevokeMaintainer.cs:109-111 | a head later than the cut-off stops the sweep at once, however old the items behind it are |
| `RevokeMaintainer.MaintainIdempotent` | Gigya.Microdot.ServiceProxy/Caching/RevokeMaintainer.cs:99-111 | a second sweep with the same cut-off removes nothing |
| `RevokeMaintainer.MaintainComposes` | Gigya.Microdot.ServiceProxy/Caching/RevokeMaintainer.cs:97-116 | a sweep with one cut-off followed by a sweep with a later cut-off removes what a single sweep with the later cut-off removes |
| `RevokeMaintainer.ExpiredPrefixOfAppend` | Gigya.Microdot.ServiceProxy/Caching/RevokeMaintainer.cs:90-116 | an item enqueued at the tail is swept only if the whole queue before it is swept and it is expired too; otherwise the sweep removes the same prefix |
| `RevokeMaintainer.SortedDrainsExactlyExpired` | Gigya.Microdot.ServiceProxy/Caching/RevokeMaintainer.cs:109-111 | when queue times never decrease, an item is removed exactly when its time is at or before the cut-off |
| `RevokeMaintainer.EnqueueKeepsSorted` | Gigya.Microdot.ServiceProxy/Caching/RevokeMaintainer.cs:90-93 | enqueueing at a time no earlier than the tail keeps the queue sorted by time |
| `RevokeMaintainer.KeysAppend` | Gigya.Microdot.ServiceProxy/Caching/RevokeMaintainer.cs:113-115 | the callback keys of two queue segments in turn are the keys of the segments concatenated |
| `RevokeMaintainer.RevokeQueueMaintainer.constructor` | Gigya.Microdot.ServiceProxy/Caching/RevokeMaintainer.cs:63-66 | a new maintainer has an empty queue, an empty callback log, and records whether a callback was given |
| `RevokeMaintainer.RevokeQueueMaintainer.QueueCount` | Gigya.Microdot.ServiceProxy/Caching/RevokeMaintainer.cs:61 | the count is the number of items currently queued |
| `RevokeMaintainer.RevokeQueueMaintainer.Enqueue` | Gigya.Microdot.ServiceProxy/Caching/RevokeMaintainer.cs:90-93 | appends exactly `(revokeKey, now)` at the tail; earlier items are unchanged; the count grows by one; the callback log is unchanged |
| `RevokeMaintainer.RevokeQueueMaintainer.Maintain` | Gigya.Microdot.ServiceProxy/Caching/RevokeMaintainer.cs:95-117 | fails without change when `now - olderThan` is out of range; otherwise the removed prefix followed by the new queue is the old queue; every removed item is at or before the cut-off; the new queue is empty or its head is later than the cut-off; the new queue is what `ExpiredPrefixLength` says; the callback log gains the removed keys in FIFO order, or nothing when there is no callback |
| `RevokeMaintainer.RevokeQueueMaintainer.Tick` | Gigya.Microdot.ServiceProxy/Caching/RevokeMaintainer.cs:68-85 | one timer firing sweeps with the configured interval as the window; a failing cut-off is logged as critical and leaves the state unchanged |

## Left out

- Re-arming the timer (`_timer.Change`) and `Dispose`: these are scheduling
  and disposal of an operating-system timer. A tick is one call of `Tick`.
- Concurrency: `ConcurrentQueue` thread safety and two sweeps running at once.
  The model is single-threaded.
- Exceptions thrown by the `onMaintain` callback or by reading the
  configuration. They are foreign code; the model's callback only records the
  key.
- The `Kind` part of `DateTime`. Comparisons in the source use ticks only.
- `RevokesCleanupMs` is taken to be a 32-bit `int`. `CacheConfig` is not part
  of this model.
- The reverse-index operations, the stale-admission check and `AsyncCache`.
  Only the shape of `ReverseItem` belongs to this component; the code that
  uses it is not part of this model.
- The end-to-end caching proxy tests. They drive mocks and threads around code
  that is not part of this model.
