/** Reconciling running workers with a new configuration: services of the core, reals of a service and
    checkers of a real are all reloaded this way (internal/core/core.go, internal/core/service/service.go,
    internal/core/real/real.go). */
module Reconcile {

  /** A running worker: its identity and the configuration it was last given. */
  datatype Worker<C> = Worker(id: nat, config: C)

  datatype Entry<K, C> = Entry(key: K, config: C)

  /** The workers by key; identities below `started` have been started, those in `stopped` stopped,
      as often as they occur there. */
  datatype Pool<K, C> = Pool(current: map<K, Worker<C>>, started: nat, stopped: multiset<nat>)

  /** What is left of the old workers, and the new map, after some entries of the new configuration. */
  datatype Progress<K, C> = Progress(known: map<K, Worker<C>>, next: map<K, Worker<C>>, started: nat)

  function Absorbed<K, C>(p: Pool<K, C>, entries: seq<Entry<K, C>>, force: bool): Progress<K, C> {
    if entries == [] then Progress(p.current, map[], p.started)
    else
      var n := |entries| - 1;
      var before := Absorbed(p, entries[..n], force);
      var e := entries[n];
      if e.key in before.known && !force
      then Progress(before.known - {e.key}, before.next[e.key := Worker(before.known[e.key].id, e.config)], before.started)
      else Progress(before.known, before.next[e.key := Worker(before.started, e.config)], before.started + 1)
  }

  function Ids<K, C>(m: map<K, Worker<C>>): set<nat> {
    set k | k in m :: m[k].id
  }

  /** The pool after a reload that is not aborted: whatever was not taken over is stopped. */
  function Reloaded<K, C>(p: Pool<K, C>, entries: seq<Entry<K, C>>, force: bool): Pool<K, C> {
    var end := Absorbed(p, entries, force);
    Pool(end.next, end.started, p.stopped + multiset(Ids(end.known)))
  }

  /** The workers started and not stopped. */
  function Running<K, C>(p: Pool<K, C>): set<nat> {
    set id | 0 <= id < p.started && id !in p.stopped
  }

  predicate OneWorkerPerKey<K, C>(m: map<K, Worker<C>>) {
    forall j, k :: j in m && k in m && m[j].id == m[k].id ==> j == k
  }

  /** The current workers are running, each under one key; no worker is stopped twice or before it starts. */
  predicate Sane<K, C>(p: Pool<K, C>) {
    && OneWorkerPerKey(p.current)
    && Ids(p.current) <= Running(p)
    && forall id <- p.stopped :: id < p.started && p.stopped[id] == 1
  }

  /** No worker runs that is not current. */
  predicate Clean<K, C>(p: Pool<K, C>) {
    Sane(p) && Running(p) == Ids(p.current)
  }

  predicate DistinctKeys<K(==), C>(entries: seq<Entry<K, C>>) {
    forall i, j :: 0 <= i < j < |entries| ==> entries[i].key != entries[j].key
  }

  function Keys<K(==), C>(entries: seq<Entry<K, C>>): set<K> {
    if entries == [] then {} else Keys(entries[..|entries| - 1]) + {entries[|entries| - 1].key}
  }

  lemma TakeOne<K, C>(m: map<K, Worker<C>>, todo: set<K>, k: K)
    requires OneWorkerPerKey(m) && todo <= m.Keys && k in todo
    ensures m[k].id !in Ids(m - todo) && Ids(m - (todo - {k})) == Ids(m - todo) + {m[k].id}
  {
    var more := m - (todo - {k});
    assert more.Keys == (m - todo).Keys + {k};
    assert forall j <- m - todo :: more[j] == (m - todo)[j];
    assert more[k] == m[k];
    forall id | id in Ids(m - todo) + {m[k].id}
      ensures id in Ids(more)
    {
      if id in Ids(m - todo) {
        var j :| j in m - todo && (m - todo)[j].id == id;
        assert j in more;
      } else {
        assert k in more;
      }
    }
  }

  /** The old workers of configured keys are taken over, unless the rebuild is forced. */
  lemma {:induction false} WhatIsLeft<K, C>(p: Pool<K, C>, entries: seq<Entry<K, C>>, force: bool)
    ensures Absorbed(p, entries, force).known == p.current - (if force then {} else Keys(entries))
  {
    if entries != [] {
      var n := |entries| - 1;
      WhatIsLeft(p, entries[..n], force);
      if !force {
        Without(p.current, Keys(entries[..n]), entries[n].key);
      }
    }
  }

  /** Every configured key gets a worker, and every entry either takes one over or starts one. */
  lemma {:induction false} WhatIsAbsorbed<K, C>(p: Pool<K, C>, entries: seq<Entry<K, C>>, force: bool)
    ensures var end := Absorbed(p, entries, force);
            && end.next.Keys == Keys(entries)
            && end.started >= p.started
            && end.started - p.started + |p.current| - |end.known| == |entries|
  {
    if entries != [] {
      var n := |entries| - 1;
      WhatIsAbsorbed(p, entries[..n], force);
      var before, key := Absorbed(p, entries[..n], force), entries[n].key;
      if key in before.known {
        SizeWithout(before.known, key);
      }
    }
  }

  /** The identities of the new map: taken over from the old workers that are gone, or newly started. */
  ghost predicate Traced<K, C>(p: Pool<K, C>, end: Progress<K, C>) {
    && OneWorkerPerKey(end.next)
    && OneWorkerPerKey(end.known)
    && Ids(end.known) <= Ids(p.current)
    && forall k <- end.next :: var id := end.next[k].id;
         if id < p.started then id in Ids(p.current) && id !in Ids(end.known) else id < end.started
  }

  lemma {:induction false} WhereIdsComeFrom<K, C>(p: Pool<K, C>, entries: seq<Entry<K, C>>, force: bool)
    requires Sane(p)
    ensures Traced(p, Absorbed(p, entries, force))
  {
    if entries != [] {
      var n := |entries| - 1;
      WhereIdsComeFrom(p, entries[..n], force);
      var before, e := Absorbed(p, entries[..n], force), entries[n];
      WhatIsAbsorbed(p, entries[..n], force);
      if e.key in before.known && !force {
        TakenOver(p, before, e);
      } else {
        Started(p, before, e);
      }
    }
  }

  lemma TakenOver<K, C>(p: Pool<K, C>, before: Progress<K, C>, e: Entry<K, C>)
    requires Traced(p, before) && e.key in before.known && Ids(p.current) <= Running(p)
    ensures Traced(p, Progress(before.known - {e.key}, before.next[e.key := Worker(before.known[e.key].id, e.config)], before.started))
  {
    var id := before.known[e.key].id;
    assert id in Ids(before.known);
    assert forall k <- before.next :: before.next[k].id != id;
    assert forall k <- before.known - {e.key} :: (before.known - {e.key})[k] == before.known[k] && before.known[k].id != id;
  }

  lemma Started<K, C>(p: Pool<K, C>, before: Progress<K, C>, e: Entry<K, C>)
    requires Traced(p, before) && p.started <= before.started
    ensures Traced(p, Progress(before.known, before.next[e.key := Worker(before.started, e.config)], before.started + 1))
  {
    assert forall k <- before.next :: before.next[k].id < before.started;
  }

  lemma Without<K, V>(m: map<K, V>, keys: set<K>, k: K)
    ensures m - (keys + {k}) == (m - keys) - {k}
    ensures k !in m - keys ==> m - (keys + {k}) == m - keys
  {
  }

  lemma SizeWithout<K, V>(m: map<K, V>, k: K)
    requires k in m
    ensures |m - {k}| == |m| - 1
  {
    assert (m - {k}).Keys == m.Keys - {k};
    assert |m| == |m.Keys| && |m - {k}| == |(m - {k}).Keys|;
  }

  lemma {:induction false} DistinctMeansAsManyKeys<K, C>(entries: seq<Entry<K, C>>)
    ensures |Keys(entries)| <= |entries|
    ensures DistinctKeys(entries) <==> |Keys(entries)| == |entries|
  {
    if entries != [] {
      var n := |entries| - 1;
      DistinctMeansAsManyKeys(entries[..n]);
      KeyIsThere(entries[..n], entries[n].key);
      if DistinctKeys(entries[..n]) && entries[n].key !in Keys(entries[..n]) {
        assert DistinctKeys(entries);
      }
    }
  }

  lemma {:induction false} KeyIsThere<K, C>(entries: seq<Entry<K, C>>, k: K)
    ensures k in Keys(entries) <==> exists i :: 0 <= i < |entries| && entries[i].key == k
  {
    if entries != [] {
      var n := |entries| - 1;
      KeyIsThere(entries[..n], k);
      if exists i :: 0 <= i < n && entries[i].key == k {
        var i :| 0 <= i < n && entries[i].key == k;
        assert entries[..n][i].key == k;
      }
      if k in Keys(entries[..n]) {
        var i :| 0 <= i < n && entries[..n][i].key == k;
        assert entries[i].key == k;
      }
    }
  }

  lemma IdsSize<K, C>(m: map<K, Worker<C>>)
    requires OneWorkerPerKey(m)
    ensures |Ids(m)| == |m|
    decreases |m|
  {
    if m == map[] {
      assert Ids(m) == {};
    } else {
      var k :| k in m;
      SizeWithout(m, k);
      TakeOne(m, {k}, k);
      assert m - ({k} - {k}) == m;
      IdsSize(m - {k});
    }
  }

  function Interval(a: nat, b: nat): (r: set<nat>)
    requires a <= b
    ensures forall id :: id in r <==> a <= id < b
    ensures |r| == b - a
    decreases b
  {
    if a == b then {} else Interval(a, b - 1) + {b - 1}
  }

  /** Who runs once the rest is stopped: those that ran, without the old workers not taken over, and
      the new ones. */
  lemma RunningAfter<K, C>(p: Pool<K, C>, end: Progress<K, C>)
    requires Sane(p) && Traced(p, end) && end.started >= p.started
    ensures Running(Pool(end.next, end.started, p.stopped + multiset(Ids(end.known))))
            == (Running(p) - Ids(end.known)) + Interval(p.started, end.started)
  {
    hide Traced, OneWorkerPerKey;
    KnownRun(p, end);
  }

  lemma KnownRun<K, C>(p: Pool<K, C>, end: Progress<K, C>)
    requires Sane(p) && Traced(p, end)
    ensures Ids(end.known) <= Running(p)
  {
  }

  lemma SaneAfter<K, C>(p: Pool<K, C>, end: Progress<K, C>)
    requires Sane(p) && Traced(p, end) && end.started >= p.started
    ensures Sane(Pool(end.next, end.started, p.stopped + multiset(Ids(end.known))))
  {
    var p' := Pool(end.next, end.started, p.stopped + multiset(Ids(end.known)));
    RunningAfter(p, end);
    assert Ids(p'.current) <= Running(p') by {
      forall k | k in end.next
        ensures end.next[k].id in Running(p')
      {
        var id := end.next[k].id;
        assert id < p.started ==> id in Running(p);
      }
    }
    forall id | id in p'.stopped
      ensures id < p'.started && p'.stopped[id] == 1
    {
      assert id in Ids(end.known) ==> id in Running(p);
    }
  }

  /** A sane pool stays sane, and every reload adds exactly one running worker for each entry beyond
      the workers that already ran without being current. */
  lemma ReloadCounts<K, C>(p: Pool<K, C>, entries: seq<Entry<K, C>>, force: bool)
    requires Sane(p)
    ensures var p' := Reloaded(p, entries, force);
            && Sane(p')
            && p'.current.Keys == Keys(entries)
            && |Running(p')| == |Running(p)| - |p.current| + |entries|
  {
    var end := Absorbed(p, entries, force);
    WhereIdsComeFrom(p, entries, force);
    WhatIsAbsorbed(p, entries, force);
    RunningAfter(p, end);
    SaneAfter(p, end);
    KnownRun(p, end);
    hide Absorbed, Traced, Sane;
    IdsSize(end.known);
    var added := Interval(p.started, end.started);
    assert Running(p) !! added;
    assert |(Running(p) - Ids(end.known)) + added| == |Running(p) - Ids(end.known)| + |added|;
  }

  /** A reload leaks no worker exactly when no key is configured twice. */
  lemma CleanExactlyWhenDistinct<K, C>(p: Pool<K, C>, entries: seq<Entry<K, C>>, force: bool)
    requires Clean(p)
    ensures Clean(Reloaded(p, entries, force)) <==> DistinctKeys(entries)
  {
    var p' := Reloaded(p, entries, force);
    ReloadCounts(p, entries, force);
    DistinctMeansAsManyKeys(entries);
    IdsSize(p.current);
    IdsSize(p'.current);
    assert |p'.current| == |p'.current.Keys|;
    if |Ids(p'.current)| == |Running(p')| {
      SubsetOfSameSize(Ids(p'.current), Running(p'));
    }
  }

  lemma SubsetOfSameSize<T>(a: set<T>, b: set<T>)
    requires a <= b && |a| == |b|
    ensures a == b
  {
    assert b == a + (b - a);
    assert |b| == |a| + |b - a|;
  }

  /** Entry `i` is the last one with its key. */
  predicate IsLast<K(==), C>(entries: seq<Entry<K, C>>, i: nat) {
    i < |entries| && forall j :: i < j < |entries| ==> entries[j].key != entries[i].key
  }

  predicate IsFirst<K(==), C>(entries: seq<Entry<K, C>>, i: nat) {
    i < |entries| && forall j :: 0 <= j < i ==> entries[j].key != entries[i].key
  }

  /** A worker whose key stays configured, once, survives a reload that is not forced, and only then; a forced
      reload replaces every worker. Each key has the configuration last given for it, also when it is given twice. */
  lemma WhoSurvives<K, C>(p: Pool<K, C>, entries: seq<Entry<K, C>>, force: bool, i: nat)
    requires IsLast(entries, i)
    ensures entries[i].key in Reloaded(p, entries, force).current
    ensures var k, worker := entries[i].key, Reloaded(p, entries, force).current[entries[i].key];
            && worker.config == entries[i].config
            && (if k in p.current && !force && IsFirst(entries, i) then worker.id == p.current[k].id else worker.id >= p.started)
  {
    hide Absorbed, IsLast, IsFirst;
    LastServes(p, entries, force, i);
  }

  /** The key's worker has this configuration, and is the old one or a new one. */
  ghost predicate Serves<K, C>(p: Pool<K, C>, next: map<K, Worker<C>>, e: Entry<K, C>, kept: bool) {
    && e.key in next && next[e.key].config == e.config
    && if kept then e.key in p.current && next[e.key].id == p.current[e.key].id else next[e.key].id >= p.started
  }

  lemma {:induction false} LastServes<K, C>(p: Pool<K, C>, entries: seq<Entry<K, C>>, force: bool, i: nat)
    requires IsLast(entries, i)
    ensures Serves(p, Absorbed(p, entries, force).next, entries[i], entries[i].key in p.current && !force && IsFirst(entries, i))
  {
    hide Serves, Absorbed, IsFirst;
    var n := |entries| - 1;
    if i == n {
      NewestServes(p, entries, force);
    } else {
      InFront(entries, i);
      LastServes(p, entries[..n], force, i);
      OtherServes(p, entries, force, entries[i], entries[i].key in p.current && !force && IsFirst(entries, i));
    }
  }

  lemma InFront<K, C>(entries: seq<Entry<K, C>>, i: nat)
    requires i < |entries| - 1 && IsLast(entries, i)
    ensures var n := |entries| - 1;
            && entries[..n][i] == entries[i] && entries[n].key != entries[i].key
            && IsLast(entries[..n], i) && (IsFirst(entries[..n], i) <==> IsFirst(entries, i))
  {
    var n := |entries| - 1;
    assert forall j :: 0 <= j < n ==> entries[..n][j] == entries[j];
  }

  lemma OtherServes<K, C>(p: Pool<K, C>, entries: seq<Entry<K, C>>, force: bool, e: Entry<K, C>, kept: bool)
    requires entries != [] && entries[|entries| - 1].key != e.key
    requires Serves(p, Absorbed(p, entries[..|entries| - 1], force).next, e, kept)
    ensures Serves(p, Absorbed(p, entries, force).next, e, kept)
  {
  }

  lemma NewestServes<K, C>(p: Pool<K, C>, entries: seq<Entry<K, C>>, force: bool)
    requires entries != []
    ensures var n := |entries| - 1;
            Serves(p, Absorbed(p, entries, force).next, entries[n], entries[n].key in p.current && !force && IsFirst(entries, n))
  {
    var n := |entries| - 1;
    WhatIsLeft(p, entries[..n], force);
    WhatIsAbsorbed(p, entries[..n], force);
    FirstIsNew(entries);
    hide IsFirst, Keys;
  }

  lemma FirstIsNew<K, C>(entries: seq<Entry<K, C>>)
    requires entries != []
    ensures var n := |entries| - 1;
            IsFirst(entries, n) <==> entries[n].key !in Keys(entries[..n])
  {
    var n := |entries| - 1;
    KeyIsThere(entries[..n], entries[n].key);
    hide Keys;
    assert forall j :: 0 <= j < n ==> entries[..n][j] == entries[j];
  }

  /** One reload of a run. */
  datatype Request<K, C> = Request(entries: seq<Entry<K, C>>, force: bool)

  function AfterAll<K(==), C>(requests: seq<Request<K, C>>): Pool<K, C> {
    if requests == [] then Pool(map[], 0, multiset{})
    else Reloaded(AfterAll(requests[..|requests| - 1]), requests[|requests| - 1].entries, requests[|requests| - 1].force)
  }

  /** Over any sequence of reloads with distinct keys, the workers started and not stopped are exactly
      the current ones, one per configured key, and none has been stopped twice. */
  lemma {:induction false} NothingLeaks<K, C>(requests: seq<Request<K, C>>)
    requires forall r <- requests :: DistinctKeys(r.entries)
    ensures var p := AfterAll(requests);
            && Clean(p)
            && p.current.Keys == (if requests == [] then {} else Keys(requests[|requests| - 1].entries))
  {
    if requests != [] {
      var n := |requests| - 1;
      NothingLeaks(requests[..n]);
      assert requests[n] in requests;
      CleanExactlyWhenDistinct(AfterAll(requests[..n]), requests[n].entries, requests[n].force);
      ReloadCounts(AfterAll(requests[..n]), requests[n].entries, requests[n].force);
    }
  }

  class Manager<K(==), C> {
    var current: map<K, Worker<C>>
    var started: nat
    var stopped: multiset<nat>

    ghost function View(): Pool<K, C>
      reads this
    {
      Pool(current, started, stopped)
    }

    constructor ()
      ensures View() == Pool(map[], 0, multiset{})
    {
      current, started, stopped := map[], 0, multiset{};
    }

    method Reload(entries: seq<Entry<K, C>>, force: bool)
      requires OneWorkerPerKey(current)
      modifies this
      ensures View() == Reloaded(old(View()), entries, force)
    {
      ghost var pool := View();
      var next: map<K, Worker<C>> := map[];
      for i := 0 to |entries|
        invariant Progress(current, next, started) == Absorbed(pool, entries[..i], force)
        invariant stopped == pool.stopped && OneWorkerPerKey(current)
      {
        assert entries[..i + 1][..i] == entries[..i];
        var e := entries[i];
        if e.key in current && !force {
          next := next[e.key := Worker(current[e.key].id, e.config)];
          current := current - {e.key};
        } else {
          next := next[e.key := Worker(started, e.config)];
          started := started + 1;
        }
      }
      assert entries[..|entries|] == entries;
      StopAll();
      current := next;
    }

    /** Stops every worker that is left in the map, in any order. */
    method StopAll()
      requires OneWorkerPerKey(current)
      modifies this`stopped
      ensures stopped == old(stopped) + multiset(Ids(current))
    {
      var todo := current.Keys;
      ghost var done: set<nat> := {};
      while todo != {}
        invariant todo <= current.Keys
        invariant done == Ids(current - todo)
        invariant stopped == old(stopped) + multiset(done)
      {
        var key :| key in todo;
        var id := current[key].id;
        TakeOne(current, todo, key);
        stopped := stopped + multiset{id};
        done := done + {id};
        todo := todo - {key};
      }
      assert current - todo == current;
    }
  }
}
