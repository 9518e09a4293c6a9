/** The load balancer's pending events and their delivery (internal/balancer/balancer.go, and
    internal/utils/event_registry/registry.go for events held by pointer). */
module Balancer {
  import opened Common
  import opened RegistrySpec
  import opened XEvent
  import opened History
  import Announcer
  import Keys
  import Prefixes
  import PrefixSpec

  /** The call that brings a real to a status. */
  function Asked(key: Keys.Balancer, status: Status, ok: bool): Act {
    if status.enable then EnableCalled(key, status.weight, ok) else DisableCalled(key, ok)
  }

  /** The load balancer: the enabled reals with their weights. A call may fail and then has no effect. */
  class Client {
    var enabled: map<Keys.Balancer, int>
    ghost const log: Log

    constructor (ghost log: Log)
      ensures enabled == map[] && this.log == log
    {
      this.log := log;
      enabled := map[];
    }

    method EnableReal(key: Keys.Balancer, weight: int) returns (ok: bool)
      modifies this, log
      ensures enabled == if ok then old(enabled)[key := weight] else old(enabled)
      ensures log.acts == old(log.acts) + [EnableCalled(key, weight, ok)]
    {
      ok := *;
      if ok {
        enabled := enabled[key := weight];
      }
      log.Add(EnableCalled(key, weight, ok));
    }

    method DisableReal(key: Keys.Balancer) returns (ok: bool)
      modifies this, log
      ensures enabled == if ok then old(enabled) - {key} else old(enabled)
      ensures log.acts == old(log.acts) + [DisableCalled(key, ok)]
    {
      ok := *;
      if ok {
        enabled := enabled - {key};
      }
      log.Add(DisableCalled(key, ok));
    }

    /** Enables or disables the real, as its new status asks. */
    method Apply(key: Keys.Balancer, status: Status) returns (ok: bool)
      modifies this, log
      ensures forall k: Keys.Balancer :: Lookup(enabled, k) == if ok && k == key then Applied(status) else Lookup(old(enabled), k)
      ensures log.acts == old(log.acts) + [Asked(key, status, ok)]
    {
      if status.enable {
        ok := EnableReal(key, status.weight);
      } else {
        ok := DisableReal(key);
      }
    }
  }

  /** What the load balancer holds for a real with this status. */
  function Applied(status: Status): Option<int> {
    if status.enable then Some(status.weight) else None
  }

  /** The registry of pending events, keyed by the real they are about. */
  class EventRegistry {
    var events: map<Keys.Balancer, Event>
    ghost var Repr: set<Event> // the pending events, and those merged away or delivered
    ghost const log: Log

    ghost predicate Valid()
      reads this, Repr
    {
      forall k <- events :: events[k] in Repr && About(events[k], k)
    }

    ghost function View(): map<Keys.Balancer, Signal>
      requires Valid()
      reads this, Repr
    {
      map k | k in events :: events[k].Content()
    }

    constructor (ghost log: Log)
      ensures Valid() && View() == map[] && Repr == {} && this.log == log
    {
      this.log := log;
      events, Repr := map[], {};
    }

    /** Stores an event that is new to the registry. */
    method Store(key: Keys.Balancer, event: Event)
      requires Valid() && About(event, key) && event !in Repr
      modifies this, Repr, log
      ensures Valid() && Repr == old(Repr) + {event}
      ensures View() == RegistrySpec.Stored(old(View()), key, old(event.Content()), Coalesce)
      ensures log.acts == old(log.acts) + [History.Stored(key)]
    {
      hide Coalesce;
      log.Add(History.Stored(key));
      ghost var before := View();
      Repr := Repr + {event};
      if key !in events {
        events := events[key := event];
        ViewIs(before[key := event.Content()]);
        return;
      }
      var pending := events[key];
      var remove := pending.Merge(event);
      if remove {
        events := events - {key};
        ViewIs(before - {key});
        return;
      }
      events := events[key := pending];
      ViewIs(before[key := pending.Content()]);
    }

    lemma ViewIs(contents: map<Keys.Balancer, Signal>)
      requires Valid() && contents.Keys == events.Keys && forall k <- events :: events[k].Content() == contents[k]
      ensures View() == contents
    {
    }

    method Remove(key: Keys.Balancer)
      requires Valid()
      modifies this`events
      ensures Valid() && events == old(events) - {key}
    {
      events := events - {key};
    }

    /** Offers every pending event to the client, each once; those it takes are no longer pending. */
    method Process(client: Client) returns (processed: nat, ghost made: seq<Act>)
      requires Valid()
      modifies this`events, client, client.log
      ensures Valid()
      ensures Attempted(old(View()), View(), old(client.enabled), client.enabled)
      ensures client.log.acts == old(client.log.acts) + made && OfferedOnce(old(View()), View(), made)
      ensures processed == Successes(made)
    {
      hide Applied, Lookup, About, Attempted, Offered, OfferedOnce, Asked, Successes;
      ghost var before, held := View(), client.enabled;
      made := [];
      assert Attempted(before, View(), held, client.enabled) by {
        NothingAttempted(before, held);
      }
      NothingOffered(before);
      assert before.Keys == events.Keys;
      hide EventRegistry.Valid, EventRegistry.View;
      processed := 0;
      var todo := events.Keys;
      while todo != {}
        invariant todo <= events.Keys && Valid()
        invariant Attempted(before, View(), held, client.enabled)
        invariant client.log.acts == old(client.log.acts) + made && Offered(before, View(), todo, made)
        invariant processed == Successes(made)
      {
        var key :| key in todo;
        ghost var rest := View();
        var ok := OfferTo(client, key, before, held);
        OfferedOneMore(before, rest, todo, made, key, ok);
        made := made + [Asked(key, before[key].next, ok)];
        if ok {
          processed := processed + 1;
        }
        todo := todo - {key};
      }
      AllOffered(before, View(), made, held, client.enabled);
    }

    /** Offers one pending event; `before` and `held` are what was pending and held when the others were. */
    method OfferTo(client: Client, key: Keys.Balancer, ghost before: map<Keys.Balancer, Signal>, ghost held: map<Keys.Balancer, int>)
      returns (ok: bool)
      requires Valid() && key in events && Attempted(before, View(), held, client.enabled)
      modifies this`events, client, client.log
      ensures Valid() && View() == if ok then old(View()) - {key} else old(View())
      ensures events == if ok then old(events) - {key} else old(events)
      ensures Attempted(before, View(), held, client.enabled)
      ensures key in before && client.log.acts == old(client.log.acts) + [Asked(key, before[key].next, ok)]
    {
      hide Applied, Lookup, About, Attempted, Asked;
      ghost var rest, enabled := View(), client.enabled;
      var event := events[key];
      assert event.Content() == rest[key];
      assert key in before && rest[key] == before[key] by {
        StillPending(before, rest, held, enabled, key);
      }
      ok := client.Apply(key, event.next);
      AttemptedOneMore(before, rest, held, enabled, key, ok, client.enabled);
      if ok {
        Remove(key);
        ViewIs(rest - {key});
      }
    }
  }

  class Balancer {
    const client: Client
    const events: EventRegistry
    const announcer: Announcer.Announcer

    /** One record for all of them. */
    ghost predicate Wired() {
      client.log == events.log == announcer.log
    }

    constructor (client: Client, announcer: Announcer.Announcer)
      requires client.log == announcer.log
      ensures this.client == client && this.announcer == announcer && Wired()
      ensures fresh(events) && events.Valid() && events.View() == map[]
    {
      this.client, this.announcer := client, announcer;
      events := new EventRegistry(client.log);
    }

    /** Queues an event that real and service have labelled with their keys. */
    method HandleEvent(event: Event)
      requires events.Valid() && event !in events.Repr && event.serviceKey.Some? && event.realKey.Some?
      modifies events, events.Repr, events.log
      ensures events.Valid() && events.Repr == old(events.Repr) + {event}
      ensures events.View() == RegistrySpec.Stored(old(events.View()),
                Keys.Balancer(event.serviceKey.value, event.realKey.value), old(event.Content()), Coalesce)
      ensures events.log.acts == old(events.log.acts) + [History.Stored(Keys.Balancer(event.serviceKey.value, event.realKey.value))]
    {
      events.Store(Keys.Balancer(event.serviceKey.value, event.realKey.value), event);
    }

    /** One update: the service statuses pending now are taken out first, then every pending event is
        offered to the load balancer, and only then the statuses are announced. */
    method UpdateBalancer() returns (ghost made: seq<Act>, ghost told: seq<Act>)
      requires events.Valid() && announcer.Valid() && Wired()
      modifies events`events, client, client.log, announcer.serviceEvents, announcer.prefixes.Repr, announcer.prefixes.events
      ensures events.Valid() && announcer.Valid()
      ensures Attempted(old(events.View()), events.View(), old(client.enabled), client.enabled)
      ensures client.log.acts == old(client.log.acts) + [Taken] + made + told
      ensures OfferedOnce(old(events.View()), events.View(), made) && ToldOnce(old(announcer.serviceEvents.events), told)
      ensures announcer.serviceEvents.events == map[]
      ensures announcer.prefixes.View() == UpdatedAll(old(announcer.prefixes.View()), old(announcer.serviceEvents.events))
      ensures InSomeOrder(old(announcer.prefixes.View()), old(announcer.prefixes.events.events), old(announcer.serviceEvents.events), announcer.prefixes.events.events)
    {
      hide Attempted, OfferedOnce, EventRegistry.Valid, EventRegistry.View, UpdatedAll, InSomeOrder;
      hide Announcer.Announcer.Valid, Prefixes.Prefixes.Valid, Prefixes.Prefixes.View;
      var statuses;
      statuses, made := TakeStatusesAndProcess();
      told := Announce(statuses);
    }

    method TakeStatusesAndProcess() returns (statuses: map<Keys.Service, bool>, ghost made: seq<Act>)
      requires events.Valid() && announcer.Valid() && Wired()
      modifies events`events, client, client.log, announcer.serviceEvents
      ensures events.Valid() && announcer.Valid() && announcer.prefixes.View() == old(announcer.prefixes.View())
      ensures Attempted(old(events.View()), events.View(), old(client.enabled), client.enabled)
      ensures client.log.acts == old(client.log.acts) + [Taken] + made && OfferedOnce(old(events.View()), events.View(), made)
      ensures statuses == old(announcer.serviceEvents.events) && announcer.serviceEvents.events == map[]
    {
      hide Attempted, OfferedOnce, EventRegistry.Valid, EventRegistry.View, Announcer.Announcer.Valid, Prefixes.Prefixes.Valid, Prefixes.Prefixes.View;
      statuses := announcer.FlushServiceEvents();
      var processed;
      processed, made := events.Process(client);
    }

    /** Announces the given service statuses, in any order. */
    method Announce(statuses: map<Keys.Service, bool>) returns (ghost told: seq<Act>)
      requires announcer.Valid()
      modifies announcer.prefixes.Repr, announcer.prefixes.events, announcer.log
      ensures announcer.Valid()
      ensures announcer.log.acts == old(announcer.log.acts) + told && ToldOnce(statuses, told)
      ensures announcer.prefixes.View() == UpdatedAll(old(announcer.prefixes.View()), statuses)
      ensures InSomeOrder(old(announcer.prefixes.View()), old(announcer.prefixes.events.events), statuses, announcer.prefixes.events.events)
    {
      hide Prefixes.PrefixState.Valid, Prefixes.PrefixState.View, PrefixSpec.UpdatePending, PrefixSpec.Updated, UpdatedAll, InSomeOrder;
      hide ToldOnce, PrefixSpec.OneStatusSet;
      told := [];
      NothingTold();
      ghost var infos, pending := announcer.prefixes.View(), announcer.prefixes.events.events;
      var todo := statuses.Keys;
      UpdatedByNone(infos);
      assert statuses - todo == map[];
      NoneInOrder(infos, pending);
      while todo != {}
        invariant todo <= statuses.Keys
        invariant announcer.Valid() && announcer.prefixes.View() == UpdatedAll(infos, statuses - todo)
        invariant InSomeOrder(infos, pending, statuses - todo, announcer.prefixes.events.events)
        invariant announcer.log.acts == old(announcer.log.acts) + told && ToldOnce(statuses - todo, told)
      {
        var service :| service in todo;
        ghost var before := announcer.prefixes.events.events;
        UpdatedByOneMore(infos, statuses - todo, service, statuses[service]);
        var found := announcer.UpdateService(service, statuses[service]);
        assert statuses - (todo - {service}) == (statuses - todo)[service := statuses[service]];
        OneMoreInOrder(infos, pending, statuses - todo, service, statuses[service], before, announcer.prefixes.events.events);
        ToldOneMore(statuses - todo, told, service, statuses[service]);
        told := told + [Announced(service, statuses[service])];
        todo := todo - {service};
      }
      assert statuses - todo == statuses;
    }
  }

  /** Every known service of the prefix takes the status that was pending for it. */
  function WithStatuses(p: Keys.Prefix, info: PrefixSpec.Info, statuses: map<Keys.Service, bool>): PrefixSpec.Info {
    PrefixSpec.Info(info.group, map s | s in info.services :: if s in statuses && s.HostPrefix() == p then statuses[s] else info.services[s])
  }

  function UpdatedAll(infos: map<Keys.Prefix, PrefixSpec.Info>, statuses: map<Keys.Service, bool>): map<Keys.Prefix, PrefixSpec.Info> {
    map p | p in infos :: WithStatuses(p, infos[p], statuses)
  }

  /** The pending prefix events after the statuses have been recorded one after the other, in some order. */
  ghost predicate InSomeOrder(infos: map<Keys.Prefix, PrefixSpec.Info>, pending: map<PrefixSpec.PrefixKey, bool>,
                              statuses: map<Keys.Service, bool>, pending': map<PrefixSpec.PrefixKey, bool>)
    decreases statuses.Keys
  {
    if statuses == map[] then pending' == pending
    else
      exists s, mid :: s in statuses && InSomeOrder(infos, pending, statuses - {s}, mid)
                       && PrefixSpec.UpdatePending(UpdatedAll(infos, statuses - {s}), s, statuses[s], mid, pending')
  }

  lemma NoneInOrder(infos: map<Keys.Prefix, PrefixSpec.Info>, pending: map<PrefixSpec.PrefixKey, bool>)
    ensures InSomeOrder(infos, pending, map[], pending)
  {
  }

  lemma OneMoreInOrder(infos: map<Keys.Prefix, PrefixSpec.Info>, pending: map<PrefixSpec.PrefixKey, bool>,
                       statuses: map<Keys.Service, bool>, s: Keys.Service, status: bool,
                       mid: map<PrefixSpec.PrefixKey, bool>, pending': map<PrefixSpec.PrefixKey, bool>)
    requires s !in statuses && InSomeOrder(infos, pending, statuses, mid)
    requires PrefixSpec.UpdatePending(UpdatedAll(infos, statuses), s, status, mid, pending')
    ensures InSomeOrder(infos, pending, statuses[s := status], pending')
  {
    hide UpdatedAll, PrefixSpec.UpdatePending;
    assert statuses[s := status] - {s} == statuses;
  }

  lemma UpdatedByNone(infos: map<Keys.Prefix, PrefixSpec.Info>)
    ensures UpdatedAll(infos, map[]) == infos
  {
    assert forall p <- infos :: UpdatedAll(infos, map[])[p].services == infos[p].services;
  }

  lemma WithOneMore(p: Keys.Prefix, info: PrefixSpec.Info, statuses: map<Keys.Service, bool>, s: Keys.Service, status: bool)
    ensures var w := WithStatuses(p, info, statuses);
            WithStatuses(p, info, statuses[s := status]) ==
              if s.HostPrefix() == p && s in w.services then PrefixSpec.Info(w.group, w.services[s := status]) else w
  {
    var w, more := WithStatuses(p, info, statuses), WithStatuses(p, info, statuses[s := status]);
    assert more.services == if s.HostPrefix() == p && s in w.services then w.services[s := status] else w.services;
  }

  lemma UpdatedByOneMore(infos: map<Keys.Prefix, PrefixSpec.Info>, statuses: map<Keys.Service, bool>, s: Keys.Service, status: bool)
    ensures PrefixSpec.Updated(UpdatedAll(infos, statuses), s, status) == UpdatedAll(infos, statuses[s := status])
  {
    hide WithStatuses;
    forall p <- infos {
      WithOneMore(p, infos[p], statuses, s, status);
    }
  }

  predicate IsCall(act: Act) {
    act.EnableCalled? || act.DisableCalled?
  }

  /** Calls of the load balancer, no two of them about the same real. */
  predicate CallsOnce(calls: seq<Act>) {
    (forall c <- calls :: IsCall(c)) && forall i, j :: 0 <= i < j < |calls| ==> IsCall(calls[i]) && IsCall(calls[j]) && calls[i].key != calls[j].key
  }

  function Keyed(calls: seq<Act>): set<Keys.Balancer> {
    set c | c in calls && IsCall(c) :: c.key
  }

  function Successes(calls: seq<Act>): nat {
    if calls == [] then 0
    else
      var last := calls[|calls| - 1];
      Successes(calls[..|calls| - 1]) + if IsCall(last) && last.ok then 1 else 0
  }

  /** The calls made for the pending events outside `todo`: one for each, which asks for its new status, and the
      event is still pending exactly when the call has failed. */
  ghost predicate Offered(pending: map<Keys.Balancer, Signal>, rest: map<Keys.Balancer, Signal>, todo: set<Keys.Balancer>, made: seq<Act>) {
    && todo <= rest.Keys && Keyed(made) == pending.Keys - todo && CallsOnce(made)
    && forall c <- made :: IsCall(c) && c.key in pending && c == Asked(c.key, pending[c.key].next, c.ok) && (c.key in rest <==> !c.ok)
  }

  /** Every pending event is offered exactly once, with its new status; what is left is what was refused. */
  ghost predicate OfferedOnce(pending: map<Keys.Balancer, Signal>, rest: map<Keys.Balancer, Signal>, made: seq<Act>) {
    && |made| == |pending| && CallsOnce(made)
    && (forall c <- made :: IsCall(c) && c.key in pending)
    && (forall c <- made ::
          c == if pending[c.key].next.enable then EnableCalled(c.key, pending[c.key].next.weight, c.ok) else DisableCalled(c.key, c.ok))
    && (forall k <- pending :: exists c :: c in made && IsCall(c) && c.key == k)
    && (forall c <- made :: c.key in rest <==> !c.ok)
    && rest.Keys <= pending.Keys && forall k <- rest :: rest[k] == pending[k]
  }

  /** Every status is announced exactly once. */
  ghost predicate ToldOnce(statuses: map<Keys.Service, bool>, told: seq<Act>) {
    && |told| == |statuses|
    && (forall a <- told :: a.Announced? && a.service in statuses && a.status == statuses[a.service])
    && forall s <- statuses :: Announced(s, statuses[s]) in told
  }

  lemma NothingTold()
    ensures ToldOnce(map[], [])
  {
  }

  lemma ToldOneMore(statuses: map<Keys.Service, bool>, told: seq<Act>, s: Keys.Service, status: bool)
    requires ToldOnce(statuses, told) && s !in statuses
    ensures ToldOnce(statuses[s := status], told + [Announced(s, status)])
  {
    var statuses' := statuses[s := status];
    assert statuses'.Keys == statuses.Keys + {s};
    assert |statuses| == |statuses.Keys| && |statuses'| == |statuses'.Keys|;
  }

  lemma NothingOffered(pending: map<Keys.Balancer, Signal>)
    ensures Offered(pending, pending, pending.Keys, []) && Successes([]) == 0
  {
  }

  lemma OfferedOneMore(pending: map<Keys.Balancer, Signal>, rest: map<Keys.Balancer, Signal>, todo: set<Keys.Balancer>, made: seq<Act>,
                       key: Keys.Balancer, ok: bool)
    requires Offered(pending, rest, todo, made) && key in todo && key in pending
    ensures var call := Asked(key, pending[key].next, ok);
            && Offered(pending, if ok then rest - {key} else rest, todo - {key}, made + [call])
            && Successes(made + [call]) == Successes(made) + if ok then 1 else 0
  {
    var call := Asked(key, pending[key].next, ok);
    assert call.key == key && call.ok == ok;
    hide Asked;
    assert (made + [call])[..|made|] == made;
    assert Keyed(made + [call]) == Keyed(made) + {key};
    forall c <- made
      ensures c.key != key
    {
      assert c.key in Keyed(made);
    }
  }

  lemma AllOffered(pending: map<Keys.Balancer, Signal>, rest: map<Keys.Balancer, Signal>, made: seq<Act>,
                   enabled: map<Keys.Balancer, int>, enabled': map<Keys.Balancer, int>)
    requires Offered(pending, rest, {}, made) && Attempted(pending, rest, enabled, enabled')
    ensures OfferedOnce(pending, rest, made)
  {
    assert Keyed(made) == pending.Keys;
    forall k <- pending
      ensures exists c :: c in made && IsCall(c) && c.key == k
    {
      assert k in Keyed(made);
    }
    KeyedSize(made);
    assert |pending| == |pending.Keys|;
  }

  lemma {:induction false} KeyedSize(calls: seq<Act>)
    requires CallsOnce(calls)
    ensures |Keyed(calls)| == |calls|
  {
    if calls != [] {
      var n := |calls| - 1;
      LastCall(calls);
      KeyedSize(calls[..n]);
    }
  }

  lemma LastCall(calls: seq<Act>)
    requires CallsOnce(calls) && calls != []
    ensures var n := |calls| - 1;
            && CallsOnce(calls[..n]) && IsCall(calls[n]) && calls[n].key !in Keyed(calls[..n])
            && Keyed(calls) == Keyed(calls[..n]) + {calls[n].key}
  {
    var n := |calls| - 1;
    assert calls == calls[..n] + [calls[n]];
    assert forall i :: 0 <= i < n ==> calls[..n][i] == calls[i];
    forall c <- calls[..n]
      ensures IsCall(c) && c.key != calls[n].key
    {
      var i :| 0 <= i < n && calls[i] == c;
    }
  }

  lemma StillPending(pending: map<Keys.Balancer, Signal>, rest: map<Keys.Balancer, Signal>,
                     enabled: map<Keys.Balancer, int>, enabled': map<Keys.Balancer, int>, key: Keys.Balancer)
    requires Attempted(pending, rest, enabled, enabled')
    ensures key in rest ==> key in pending && rest[key] == pending[key]
  {
  }

  /** Every pending event was offered to the load balancer: it is either applied and gone, or refused,
      without effect, and still pending. */
  ghost predicate Attempted(pending: map<Keys.Balancer, Signal>, rest: map<Keys.Balancer, Signal>,
                            enabled: map<Keys.Balancer, int>, enabled': map<Keys.Balancer, int>) {
    && rest.Keys <= pending.Keys && (forall k <- rest :: rest[k] == pending[k])
    && forall k: Keys.Balancer :: Lookup(enabled', k) ==
         if k in pending && k !in rest then Applied(pending[k].next) else Lookup(enabled, k)
  }

  lemma NothingAttempted(pending: map<Keys.Balancer, Signal>, enabled: map<Keys.Balancer, int>)
    ensures Attempted(pending, pending, enabled, enabled)
  {
  }

  lemma AttemptedOneMore(pending: map<Keys.Balancer, Signal>, rest: map<Keys.Balancer, Signal>,
                         enabled: map<Keys.Balancer, int>, mid: map<Keys.Balancer, int>,
                         key: Keys.Balancer, ok: bool, enabled': map<Keys.Balancer, int>)
    requires Attempted(pending, rest, enabled, mid) && key in rest
    requires forall k: Keys.Balancer :: Lookup(enabled', k) == if ok && k == key then Applied(rest[key].next) else Lookup(mid, k)
    ensures Attempted(pending, if ok then rest - {key} else rest, enabled, enabled')
  {
    hide Lookup, Applied;
  }

  ghost predicate About(event: Event, key: Keys.Balancer)
    reads event
  {
    event.serviceKey == Some(key.serviceKey) && event.realKey == Some(key.realKey)
  }
}
