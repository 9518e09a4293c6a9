/** What storing into a coalescing registry means, for any key and value type
    (internal/utils/event_registry/registry.go). */
module RegistrySpec {
  import opened Common

  datatype Merged<+V> = Keep(value: V) | Drop

  function Lookup<K, V>(m: map<K, V>, k: K): Option<V> {
    if k in m then Some(m[k]) else None
  }

  /** What is pending under one key after storing `v`. */
  function MergeInto<V>(pending: Option<V>, v: V, merge: (V, V) -> Merged<V>): Option<V> {
    match pending
    case None => Some(v)
    case Some(p) =>
      match merge(p, v)
      case Drop => None
      case Keep(u) => Some(u)
  }

  /** The pending events after storing `v` under `k`; other keys are untouched. */
  function Stored<K(!new), V>(m: map<K, V>, k: K, v: V, merge: (V, V) -> Merged<V>): (m': map<K, V>)
    ensures Lookup(m', k) == MergeInto(Lookup(m, k), v, merge)
    ensures forall j :: j != k ==> Lookup(m', j) == Lookup(m, j)
  {
    match MergeInto(Lookup(m, k), v, merge)
    case None => m - {k}
    case Some(u) => m[k := u]
  }

  /** Merging of two-valued statuses: opposite statuses cancel out. */
  function Cancel(pending: bool, newer: bool): Merged<bool> {
    if pending != newer then Drop else Keep(newer)
  }
}

/** The registry over plain values, used for service and prefix statuses. */
module StatusRegistry {
  import opened Common
  import opened RegistrySpec

  /** An opposite status that is pending and the new one cancel out; otherwise the new one is pending. */
  lemma StoredStatus<K(!new)>(events: map<K, bool>, key: K, status: bool)
    ensures Stored(events, key, status, Cancel)
         == if key in events && events[key] != status then events - {key} else events[key := status]
  {
  }

  class Registry<K(==,!new)> {
    var events: map<K, bool>

    constructor ()
      ensures events == map[]
    {
      events := map[];
    }

    method Store(key: K, status: bool)
      modifies this
      ensures events == Stored(old(events), key, status, Cancel)
    {
      if key !in events {
        events := events[key := status];
        return;
      }
      match Cancel(events[key], status)
      case Drop =>
        events := events - {key};
      case Keep(merged) =>
        events := events[key := merged];
    }

    method Flush() returns (flushed: map<K, bool>)
      modifies this
      ensures flushed == old(events) && events == map[]
    {
      flushed := events;
      events := map[];
    }
  }
}
