/** The cleanup sweep (app.py lines 181-195): drop every progress entry
    whose task id, a creation time in milliseconds, is more than an hour
    old, and report how many were dropped. */
module Cleanup {

  /** One hour, in milliseconds. */
  const RetentionMs: int := 3_600_000

  /** The source's test current_time - int(task_id) / 1000 > 3600, with the
      current time taken in milliseconds. */
  predicate Expired(id: int, nowMs: int) {
    nowMs - id > RetentionMs
  }

  /** The entries a sweep at nowMs keeps. */
  function Retained<V>(store: map<int, V>, nowMs: int): map<int, V> {
    map id | id in store && !Expired(id, nowMs) :: store[id]
  }

  /** The two passes of cleanup: collect the expired ids, then delete them.
      Exactly the expired entries go, every other entry keeps its value,
      and the count returned is the number of entries removed. */
  method Sweep<V>(store: map<int, V>, nowMs: int) returns (kept: map<int, V>, cleaned: nat)
    ensures forall id :: id in kept <==> id in store && !Expired(id, nowMs)
    ensures forall id :: id in kept ==> kept[id] == store[id]
    ensures kept == Retained(store, nowMs)
    ensures cleaned == |store| - |kept|
    ensures cleaned == |set id | id in store && Expired(id, nowMs)|
  {
    var doomed: set<int> := {};
    var pending := store.Keys;
    while pending != {}
      invariant pending <= store.Keys
      invariant doomed == set id | id in store && id !in pending && Expired(id, nowMs)
      decreases |pending|
    {
      NonEmptySet(pending);
      var id :| id in pending;
      if Expired(id, nowMs) {
        doomed := doomed + {id};
      }
      pending := pending - {id};
    }
    assert doomed == set id | id in store && Expired(id, nowMs);
    kept := store - doomed;
    RemoveCount(store, doomed);
    cleaned := |doomed|;
  }

  /** A non-empty set has a member to pick. The `:|` in Sweep needs this
      existence fact in scope; proving it here, by contradiction, keeps the
      loop body free of a checked step after an impossible case. */
  lemma NonEmptySet(s: set<int>)
    requires s != {}
    ensures exists k :: k in s
  {
    if forall k :: k !in s {
      assert false;
    }
  }

  lemma RemoveCount<V>(store: map<int, V>, doomed: set<int>)
    requires doomed <= store.Keys
    ensures |store - doomed| == |store| - |doomed|
  {
    var kept := store - doomed;
    assert kept.Keys == store.Keys - doomed;
    assert (store.Keys - doomed) + doomed == store.Keys;
    assert |kept| == |kept.Keys|;
  }

  /** The millisecond comparison is the source's test on seconds: for a
      current time of nowMs / 1000 seconds, now - id / 1000 > 3600 holds
      exactly when the id is expired. */
  lemma ExpiredMatchesSeconds(id: int, nowMs: int)
    ensures (nowMs as real) / 1000.0 - (id as real) / 1000.0 > 3600.0 <==> Expired(id, nowMs)
  {
    assert (nowMs as real) / 1000.0 - (id as real) / 1000.0 == ((nowMs - id) as real) / 1000.0;
  }

  /** Sweeping twice at the same time removes nothing more, and a later
      sweep of a swept store keeps what a single later sweep keeps. */
  lemma LaterSweepSubsumes<V>(store: map<int, V>, t1: int, t2: int)
    requires t1 <= t2
    ensures Retained(Retained(store, t1), t1) == Retained(store, t1)
    ensures Retained(Retained(store, t1), t2) == Retained(store, t2)
  {
  }
}
