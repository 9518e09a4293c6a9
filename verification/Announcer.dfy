/** The announcer: service statuses come in, prefix statuses go out to the external announcer
    (internal/announcer/announcer.go). */
module Announcer {
  import opened Common
  import opened Keys
  import opened RegistrySpec
  import opened StatusRegistry
  import opened PrefixSpec
  import opened Prefixes
  import History

  datatype ReloadError = UnknownGroup(group: string) | DuplicateGroup(prefix: Prefix)

  /** Which announce group each prefix belongs to, in both directions. */
  class AnnounceGroupRegistry {
    const groups: set<string>
    var groupByPrefix: map<Prefix, string>
    var prefixesByGroup: map<string, seq<Prefix>>

    /** The lists of the groups partition the known prefixes, without duplicates. */
    ghost predicate Valid()
      reads this
    {
      Partition(prefixesByGroup, groupByPrefix)
    }

    constructor (groups: seq<string>)
      ensures Valid() && this.groups == Elements(groups) && groupByPrefix == map[]
    {
      this.groups := set g | g in groups;
      groupByPrefix, prefixesByGroup := map[], map[];
    }

    method Update(newGroups: map<Prefix, string>)
      modifies this
      ensures Valid() && groupByPrefix == newGroups
    {
      var byGroup: map<string, seq<Prefix>> := map[];
      assert newGroups - newGroups.Keys == map[] && Partition(map[], newGroups - newGroups.Keys);
      hide Partition;
      var todo := newGroups.Keys;
      while todo != {}
        invariant todo <= newGroups.Keys
        invariant Partition(byGroup, newGroups - todo)
      {
        var prefix :| prefix in todo;
        var group := newGroups[prefix];
        ListOne(byGroup, newGroups, todo, prefix);
        byGroup := byGroup[group := (if group in byGroup then byGroup[group] else []) + [prefix]];
        todo := todo - {prefix};
      }
      assert newGroups - todo == newGroups;
      prefixesByGroup := byGroup;
      groupByPrefix := newGroups;
    }
  }

  function Holding(groups: map<Prefix, string>, g: string): set<Prefix> {
    set p | p in groups && groups[p] == g
  }

  /** Each group in use lists exactly its prefixes, each once. */
  ghost predicate Partition(byGroup: map<string, seq<Prefix>>, groups: map<Prefix, string>) {
    && byGroup.Keys == groups.Values
    && forall g <- byGroup :: Distinct(byGroup[g]) && Elements(byGroup[g]) == Holding(groups, g)
  }

  /** One more prefix is listed under its group; the other groups keep their prefixes. */
  lemma ListOne(byGroup: map<string, seq<Prefix>>, groups: map<Prefix, string>, todo: set<Prefix>, p: Prefix)
    requires p in todo && todo <= groups.Keys && Partition(byGroup, groups - todo)
    ensures var g := groups[p];
            Partition(byGroup[g := (if g in byGroup then byGroup[g] else []) + [p]], groups - (todo - {p}))
  {
    var g, before, after := groups[p], groups - todo, groups - (todo - {p});
    var listed := if g in byGroup then byGroup[g] else [];
    assert after == before[p := g];
    assert p in after;
    assert forall v <- before.Values :: exists q :: q in before && before[q] == v && after[q] == v;
    assert after.Values == before.Values + {g};
    if g !in before.Values {
      assert forall q <- before :: before[q] in before.Values;
    }
    assert Elements(listed) == Holding(before, g);
    DistinctAppend(listed, p);
    assert Holding(after, g) == Holding(before, g) + {p};
    forall h | h != g
      ensures Holding(after, h) == Holding(before, h)
    {
    }
  }

  class Announcer {
    const serviceEvents: Registry<Service>
    const announceGroups: AnnounceGroupRegistry
    const prefixes: Prefixes
    ghost const log: History.Log

    ghost predicate Valid()
      reads this, announceGroups, prefixes, prefixes.Repr
    {
      announceGroups.Valid() && prefixes.Valid() && announceGroups.groupByPrefix.Keys == prefixes.prefixes.Keys
    }

    constructor (groups: seq<string>, ghost log: History.Log)
      ensures Valid() && prefixes.View() == map[] && serviceEvents.events == map[] && this.log == log
    {
      this.log := log;
      serviceEvents := new Registry();
      announceGroups := new AnnounceGroupRegistry(groups);
      prefixes := new Prefixes();
    }

    method RegisterServiceEvent(service: Service, status: bool)
      modifies serviceEvents, log
      ensures serviceEvents.events == Stored(old(serviceEvents.events), service, status, Cancel)
      ensures log.acts == old(log.acts) + [History.Registered(service, status)]
    {
      log.Add(History.Registered(service, status));
      serviceEvents.Store(service, status);
    }

    method FlushServiceEvents() returns (flushed: map<Service, bool>)
      modifies serviceEvents, log
      ensures flushed == old(serviceEvents.events) && serviceEvents.events == map[]
      ensures log.acts == old(log.acts) + [History.Taken]
    {
      log.Add(History.Taken);
      flushed := serviceEvents.Flush();
    }

    /** Since every known prefix has a group, the status is recorded exactly when the prefix is known. */
    method UpdateService(service: Service, status: bool) returns (found: bool)
      requires Valid()
      modifies prefixes.Repr, prefixes.events, log
      ensures Valid()
      ensures log.acts == old(log.acts) + [History.Announced(service, status)]
      ensures found == (service.HostPrefix() in prefixes.prefixes)
      ensures prefixes.View() == Updated(old(prefixes.View()), service, status)
      ensures UpdatePending(old(prefixes.View()), service, status, old(prefixes.events.events), prefixes.events.events)
    {
      hide OneStatusSet, UpdatePending, Partition, PrefixState.Valid, PrefixState.View, Info.Ready;
      log.Add(History.Announced(service, status));
      if service.HostPrefix() !in announceGroups.groupByPrefix {
        UpdateStoresOne(prefixes.View(), service, status, prefixes.events.events, prefixes.events.events);
        return false;
      }
      found := prefixes.UpdateService(service, status);
    }

    /** Maps each configured prefix to its group, unless the configuration is inconsistent. */
    method GroupPrefixes(services: map<Service, string>) returns (outcome: Result<map<Prefix, string>, ReloadError>)
      ensures outcome.Success? <==> services.Values <= announceGroups.groups && OneGroupPerPrefix(services)
      ensures outcome.Failure? && outcome.error.UnknownGroup? ==> outcome.error.group in services.Values - announceGroups.groups
      ensures outcome.Failure? && outcome.error.DuplicateGroup? ==> !OneGroupPerPrefix(services)
      ensures outcome.Success? ==> outcome.value == GroupsOf(PlanOf(services))
      ensures outcome.Success? ==> forall s <- services :: s.HostPrefix() in outcome.value && outcome.value[s.HostPrefix()] == services[s]
    {
      hide PlanOf;
      var groupByPrefix: map<Prefix, string> := map[];
      var todo := services.Keys;
      while todo != {}
        invariant todo <= services.Keys
        invariant groupByPrefix.Keys == PrefixesOf(services.Keys - todo)
        invariant forall s <- services.Keys - todo :: services[s] in announceGroups.groups && groupByPrefix[s.HostPrefix()] == services[s]
      {
        var service :| service in todo;
        var group := services[service];
        if group !in announceGroups.groups {
          assert group in services.Values;
          return Failure(UnknownGroup(group));
        }
        var prefix := service.HostPrefix();
        if prefix in groupByPrefix && groupByPrefix[prefix] != group {
          assert exists s :: s in services.Keys - todo && s.HostPrefix() == prefix;
          return Failure(DuplicateGroup(prefix));
        }
        groupByPrefix := groupByPrefix[prefix := group];
        assert services.Keys - (todo - {service}) == (services.Keys - todo) + {service};
        todo := todo - {service};
      }
      assert services.Keys - todo == services.Keys;
      GroupsOfPlan(services, groupByPrefix);
      return Success(groupByPrefix);
    }

    /** Reloads the services of all prefixes. It fails, changing nothing, exactly when a group is
        unknown or two services of one prefix name different groups. */
    method ReloadServices(services: map<Service, string>) returns (outcome: Result<(), ReloadError>)
      requires Valid()
      modifies announceGroups, prefixes, prefixes.Repr, prefixes.events
      ensures Valid() && fresh(prefixes.Repr - old(prefixes.Repr))
      ensures outcome.Success? <==> services.Values <= announceGroups.groups && OneGroupPerPrefix(services)
      ensures outcome.Failure? ==> unchanged(announceGroups) && unchanged(prefixes.events) && prefixes.View() == old(prefixes.View())
      ensures outcome.Failure? && outcome.error.UnknownGroup? ==> outcome.error.group in services.Values - announceGroups.groups
      ensures outcome.Failure? && outcome.error.DuplicateGroup? ==> !OneGroupPerPrefix(services)
      ensures outcome.Success? ==> ReloadedTo(old(prefixes.View()), services, prefixes.View(), old(prefixes.events.events), prefixes.events.events)
      ensures outcome.Success? ==> announceGroups.groupByPrefix == GroupsOf(PlanOf(services))
      ensures outcome.Success? ==> forall s <- services ::
                s.HostPrefix() in announceGroups.groupByPrefix && announceGroups.groupByPrefix[s.HostPrefix()] == services[s]
    {
      hide ReloadedTo, PlanOf, OneGroupPerPrefix, Prefixes.Valid, Prefixes.View;
      var grouped := GroupPrefixes(services);
      if grouped.Failure? {
        return Failure(grouped.error);
      }
      ReloadGrouped(services, grouped.value);
      return Success(());
    }

    /** Reloads the prefixes and then their groups. */
    method ReloadGrouped(services: map<Service, string>, groupByPrefix: map<Prefix, string>)
      requires Valid() && OneGroupPerPrefix(services) && groupByPrefix == GroupsOf(PlanOf(services))
      modifies announceGroups, prefixes, prefixes.Repr, prefixes.events
      ensures Valid() && fresh(prefixes.Repr - old(prefixes.Repr))
      ensures ReloadedTo(old(prefixes.View()), services, prefixes.View(), old(prefixes.events.events), prefixes.events.events)
      ensures announceGroups.groupByPrefix == groupByPrefix
    {
      hide AfterReload, KeepsStatuses, InForce, ReloadedTo, ReloadPending, Partition, PlanOf, OneGroupPerPrefix;
      hide PrefixState.Valid, PrefixState.View;
      ghost var infos := prefixes.View();
      prefixes.ReloadServices(services);
      ghost var infos' := prefixes.View();
      ReloadedFully(infos, services, infos', old(prefixes.events.events), prefixes.events.events);
      assert prefixes.prefixes.Keys == infos'.Keys;
      hide Prefixes.Valid, Prefixes.View;
      announceGroups.Update(groupByPrefix);
      assert prefixes.View() == infos';
    }

    /** One tick of the updater: all pending prefix events leave, batched by announce group. */
    method Publish() returns (batches: map<string, map<Prefix, bool>>)
      modifies prefixes.events
      ensures prefixes.events.events == map[]
      ensures forall key: PrefixKey :: Lookup(old(prefixes.events.events), key) ==
                (if key.group in batches then Lookup(batches[key.group], key.prefix) else None)
      ensures forall g <- batches :: batches[g] != map[]
    {
      var events := prefixes.events.Flush();
      batches := map[];
      var todo := events.Keys;
      while todo != {}
        invariant todo <= events.Keys
        invariant forall key: PrefixKey :: Lookup(events - todo, key) ==
                    (if key.group in batches then Lookup(batches[key.group], key.prefix) else None)
        invariant forall g <- batches :: batches[g] != map[]
      {
        var key :| key in todo;
        var batch := if key.group in batches then batches[key.group] else map[];
        assert (batch[key.prefix := events[key]])[key.prefix] == events[key];
        batches := batches[key.group := batch[key.prefix := events[key]]];
        assert events - (todo - {key}) == (events - todo)[key := events[key]];
        todo := todo - {key};
      }
      assert events - todo == events;
    }
  }

  lemma GroupsOfPlan(services: map<Service, string>, groupByPrefix: map<Prefix, string>)
    requires groupByPrefix.Keys == PrefixesOf(services.Keys)
    requires forall s <- services :: groupByPrefix[s.HostPrefix()] == services[s]
    ensures OneGroupPerPrefix(services) && groupByPrefix == GroupsOf(PlanOf(services))
  {
  }

  function GroupsOf(plan: map<Prefix, Target>): map<Prefix, string> {
    map p | p in plan :: plan[p].group
  }

  /** All prefixes have been reconciled with the plan and have stored their events; services that stay configured
      keep their status, and a configuration already in force changes nothing. */
  ghost predicate ReloadedTo(infos: map<Prefix, Info>, services: map<Service, string>, infos': map<Prefix, Info>,
                             pending: map<PrefixKey, bool>, pending': map<PrefixKey, bool>) {
    && infos' == AfterReload(infos, services)
    && ReloadPending(infos, PlanOf(services), infos.Keys + PlanOf(services).Keys, pending, pending')
    && KeepsStatuses(infos, services, infos')
    && (InForce(infos, services) ==> infos' == infos && pending' == pending)
  }

  /** A complete reload leaves exactly the planned prefixes. */
  lemma FullReload(infos: map<Prefix, Info>, plan: map<Prefix, Target>)
    ensures Reloaded(infos, plan, infos.Keys + plan.Keys).Keys == plan.Keys
  {
  }

  lemma ReloadedFully(infos: map<Prefix, Info>, services: map<Service, string>, infos': map<Prefix, Info>,
                      pending: map<PrefixKey, bool>, pending': map<PrefixKey, bool>)
    requires infos' == AfterReload(infos, services) && OneGroupPerPrefix(services)
    requires ReloadPending(infos, PlanOf(services), infos.Keys + PlanOf(services).Keys, pending, pending')
    ensures ReloadedTo(infos, services, infos', pending, pending') && infos'.Keys == PlanOf(services).Keys
  {
    FullReload(infos, PlanOf(services));
    ReloadKeepsStatuses(infos, services);
    hide Reloaded, ReloadPending, OneGroupPerPrefix, InForce, KeepsStatuses;
    if InForce(infos, services) {
      ReloadAgain(infos, services, pending, pending');
    }
  }
}
