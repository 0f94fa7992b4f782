/** The time-bounded FIFO of revoke events kept by `RevokeQueueMaintainer`,
    and the `ReverseItem` record of the reverse index. */
module RevokeMaintainer {
  import opened Wrappers
  import opened Clock

  /** A reverse-index entry: the cache keys that depend on one revoke key and
      the last time that key was revoked. */
  datatype ReverseItem = ReverseItem(cacheKeysSet: set<string>, whenRevoked: DateTime)

  /** A fresh entry, as `new ReverseItem()` builds it. */
  function NewReverseItem(): (r: ReverseItem)
    ensures |r.cacheKeysSet| == 0
    ensures r.whenRevoked == MinValue
  {
    ReverseItem({}, MinValue)
  }

  /** One queued revoke event: the revoke key and the time it was enqueued. */
  datatype Revoke = Revoke(key: string, when: DateTime)

  /** The number of items `Maintain` takes off the head of `q` for cut-off
      `cutOff`: the longest prefix none of whose times is later than `cutOff`. */
  function ExpiredPrefixLength(q: seq<Revoke>, cutOff: DateTime): (n: nat)
    ensures n <= |q|
    ensures forall i :: 0 <= i < n ==> q[i].when <= cutOff
    ensures n < |q| ==> q[n].when > cutOff
  {
    if |q| == 0 || q[0].when > cutOff then 0
    else 1 + ExpiredPrefixLength(q[1..], cutOff)
  }

  /** The keys of `q`, in queue order. */
  function Keys(q: seq<Revoke>): (ks: seq<string>)
    ensures |ks| == |q|
    ensures forall i :: 0 <= i < |q| ==> ks[i] == q[i].key
  {
    if |q| == 0 then [] else [q[0].key] + Keys(q[1..])
  }

  /** Queue times never go down from head to tail. */
  ghost predicate Sorted(q: seq<Revoke>)
  {
    forall i, j :: 0 <= i < j < |q| ==> q[i].when <= q[j].when
  }

  /** The three facts that `ExpiredPrefixLength` promises determine it. */
  lemma ExpiredPrefixUnique(q: seq<Revoke>, cutOff: DateTime, n: nat)
    requires n <= |q|
    requires forall i :: 0 <= i < n ==> q[i].when <= cutOff
    requires n < |q| ==> q[n].when > cutOff
    ensures n == ExpiredPrefixLength(q, cutOff)
  {
  }

  /** A queue whose every item is at or before the cut-off is drained completely. */
  lemma AllExpiredDrained(q: seq<Revoke>, cutOff: DateTime)
    requires forall i :: 0 <= i < |q| ==> q[i].when <= cutOff
    ensures ExpiredPrefixLength(q, cutOff) == |q|
  {
  }

  /** A young head shields every item behind it, however old. */
  lemma OldItemBehindYoungHeadStays(q: seq<Revoke>, cutOff: DateTime)
    requires |q| > 0 && q[0].when > cutOff
    ensures ExpiredPrefixLength(q, cutOff) == 0
  {
  }

  /** Running the sweep again with the same cut-off removes nothing more. */
  lemma MaintainIdempotent(q: seq<Revoke>, cutOff: DateTime)
    ensures var n := ExpiredPrefixLength(q, cutOff);
            ExpiredPrefixLength(q[n..], cutOff) == 0
  {
  }

  /** Sweeping with `c1` and then with a later `c2` removes what one sweep with
      `c2` removes. */
  lemma {:induction false} MaintainComposes(q: seq<Revoke>, c1: DateTime, c2: DateTime)
    requires c1 <= c2
    ensures var n1 := ExpiredPrefixLength(q, c1);
            n1 + ExpiredPrefixLength(q[n1..], c2) == ExpiredPrefixLength(q, c2)
  {
    if |q| > 0 && q[0].when <= c1 {
      MaintainComposes(q[1..], c1, c2);
      var n1 := ExpiredPrefixLength(q[1..], c1);
      assert q[1..][n1..] == q[1 + n1..];
    }
  }

  /** Enqueueing one item at the tail changes the sweep only when the whole
      queue was already expired and the new item is expired too. */
  lemma {:induction false} ExpiredPrefixOfAppend(q: seq<Revoke>, r: Revoke, cutOff: DateTime)
    ensures ExpiredPrefixLength(q + [r], cutOff) ==
            if ExpiredPrefixLength(q, cutOff) == |q| && r.when <= cutOff then |q| + 1
            else ExpiredPrefixLength(q, cutOff)
  {
    if |q| > 0 {
      assert (q + [r])[1..] == q[1..] + [r];
      ExpiredPrefixOfAppend(q[1..], r, cutOff);
    } else {
      assert q + [r] == [r];
    }
  }

  /** When enqueue times never go down, the sweep removes exactly the items
      at or before the cut-off: the first young item proves all later ones young. */
  lemma SortedDrainsExactlyExpired(q: seq<Revoke>, cutOff: DateTime)
    requires Sorted(q)
    ensures forall i :: 0 <= i < |q| ==>
              (i < ExpiredPrefixLength(q, cutOff) <==> q[i].when <= cutOff)
  {
    var n := ExpiredPrefixLength(q, cutOff);
    forall i | 0 <= i < |q|
      ensures i < n <==> q[i].when <= cutOff
    {
      if n <= i {
        assert q[n].when <= q[i].when;
      }
    }
  }

  /** Enqueueing at a time no earlier than the tail keeps the queue sorted. */
  lemma EnqueueKeepsSorted(q: seq<Revoke>, r: Revoke)
    requires Sorted(q)
    requires |q| == 0 || q[|q| - 1].when <= r.when
    ensures Sorted(q + [r])
  {
  }

  /** The keys of a concatenation are the concatenated keys. */
  lemma {:induction false} KeysAppend(a: seq<Revoke>, b: seq<Revoke>)
    ensures Keys(a + b) == Keys(a) + Keys(b)
  {
    if |a| > 0 {
      assert (a + b)[1..] == a[1..] + b;
      KeysAppend(a[1..], b);
    } else {
      assert a + b == b;
    }
  }

  /** The queue of pending revoke events and the keys handed so far to the
      `onMaintain` callback. */
  class RevokeQueueMaintainer {
    var revokesQueue: seq<Revoke>
    /** Every key passed to `onMaintain`, in call order. */
    var maintainedKeys: seq<string>
    /** False when the maintainer was built with a null `onMaintain`. */
    const hasOnMaintain: bool

    constructor (hasOnMaintain: bool)
      ensures this.hasOnMaintain == hasOnMaintain
      ensures revokesQueue == [] && maintainedKeys == []
    {
      this.hasOnMaintain := hasOnMaintain;
      revokesQueue := [];
      maintainedKeys := [];
    }

    /** The number of pending revoke events. */
    function QueueCount(): (n: nat)
      reads this
      ensures n == |revokesQueue|
    {
      |revokesQueue|
    }

    method Enqueue(revokeKey: string, now: DateTime)
      modifies this
      ensures revokesQueue == old(revokesQueue) + [Revoke(revokeKey, now)]
      ensures QueueCount() == old(QueueCount()) + 1
      ensures maintainedKeys == old(maintainedKeys)
    {
      revokesQueue := revokesQueue + [Revoke(revokeKey, now)];
    }

    /** Drops from the head every event at or before `now - olderThan`,
        stopping at the first later one, and reports each dropped key.
        `ok` is false when the cut-off is not a representable time; then
        nothing changes. */
    method Maintain(olderThan: TimeSpan, now: DateTime) returns (ok: bool)
      modifies this
      ensures ok <==> Subtract(now, olderThan).Some?
      ensures !ok ==> revokesQueue == old(revokesQueue) && maintainedKeys == old(maintainedKeys)
      ensures ok ==>
                var cutOff := Subtract(now, olderThan).value;
                var n := ExpiredPrefixLength(old(revokesQueue), cutOff);
                && revokesQueue == old(revokesQueue)[n..]
                && maintainedKeys == old(maintainedKeys) +
                                     (if hasOnMaintain then Keys(old(revokesQueue)[..n]) else [])
      ensures ok ==>
                var cutOff := Subtract(now, olderThan).value;
                var removed := |old(revokesQueue)| - |revokesQueue|;
                && 0 <= removed
                && old(revokesQueue) == old(revokesQueue)[..removed] + revokesQueue
                && (forall i :: 0 <= i < removed ==> old(revokesQueue)[i].when <= cutOff)
                && (revokesQueue == [] || revokesQueue[0].when > cutOff)
    {
      var cut := Subtract(now, olderThan);
      if cut.None? {
        return false;
      }
      var cutOff := cut.value;
      ghost var q0 := revokesQueue;
      ghost var removed := 0;
      while |revokesQueue| > 0
        invariant 0 <= removed <= |q0|
        invariant revokesQueue == q0[removed..]
        invariant forall i :: 0 <= i < removed ==> q0[i].when <= cutOff
        invariant maintainedKeys == old(maintainedKeys) +
                                    (if hasOnMaintain then Keys(q0[..removed]) else [])
        decreases |revokesQueue|
      {
        var revoke := revokesQueue[0];
        if revoke.when > cutOff {
          break;
        }
        revokesQueue := revokesQueue[1..];
        if hasOnMaintain {
          KeysAppend(q0[..removed], [revoke]);
          assert q0[..removed + 1] == q0[..removed] + [revoke];
          maintainedKeys := maintainedKeys + [revoke.key];
        }
        removed := removed + 1;
      }
      ExpiredPrefixUnique(q0, cutOff, removed);
      assert q0 == q0[..removed] + revokesQueue;
      ok := true;
    }

    /** One firing of the timer: sweeps with the configured interval as the
        retention window; a failing sweep is caught and logged as critical. */
    method Tick(now: DateTime, revokesCleanupMs: Int32) returns (criticalLogged: bool)
      modifies this
      ensures criticalLogged <==> Subtract(now, FromMilliseconds(revokesCleanupMs)).None?
      ensures criticalLogged ==> revokesQueue == old(revokesQueue) && maintainedKeys == old(maintainedKeys)
      ensures !criticalLogged ==>
                var cutOff := Subtract(now, FromMilliseconds(revokesCleanupMs)).value;
                var n := ExpiredPrefixLength(old(revokesQueue), cutOff);
                && revokesQueue == old(revokesQueue)[n..]
                && maintainedKeys == old(maintainedKeys) +
                                     (if hasOnMaintain then Keys(old(revokesQueue)[..n]) else [])
    {
      var ok := Maintain(FromMilliseconds(revokesCleanupMs), now);
      criticalLogged := !ok;
    }
  }

  /** An old event queued behind a younger one survives the sweep, and the
      callback sees nothing. */
  method FifoStopsAtYoungHead()
  {
    var m := new RevokeQueueMaintainer(true);
    m.Enqueue("young", 100);
    m.Enqueue("old", 0);
    var ok := m.Maintain(50, 100);
    assert ok;
    assert m.revokesQueue == [Revoke("young", 100), Revoke("old", 0)];
    assert m.maintainedKeys == [];
  }

  /** Expired events leave in FIFO order and reach the callback in that order;
      without a callback they still leave. */
  method DrainInFifoOrder()
  {
    var m := new RevokeQueueMaintainer(true);
    m.Enqueue("a", 0);
    m.Enqueue("b", 10);
    m.Enqueue("c", 90);
    ExpiredPrefixUnique(m.revokesQueue, 50, 2);
    var ok := m.Maintain(50, 100);
    assert m.revokesQueue == [Revoke("c", 90)];
    assert m.maintainedKeys == ["a", "b"];

    var silent := new RevokeQueueMaintainer(false);
    silent.Enqueue("a", 0);
    ok := silent.Maintain(50, 100);
    assert silent.QueueCount() == 0 && silent.maintainedKeys == [];
  }
}
