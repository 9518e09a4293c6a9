/** The prefixes and the services they depend on, updated in place (internal/announcer/prefix.go). */
module Prefixes {
  import opened Common
  import opened Keys
  import opened RegistrySpec
  import opened StatusRegistry
  import opened PrefixSpec

  ghost function Elements<T>(s: seq<T>): set<T> {
    set x | x in s
  }

  ghost predicate Distinct<T>(s: seq<T>) {
    forall i, j :: 0 <= i < j < |s| ==> s[i] != s[j]
  }

  lemma DistinctCount<T>(s: seq<T>)
    requires Distinct(s)
    ensures |Elements(s)| == |s|
  {
    if s != [] {
      var n := |s| - 1;
      DistinctCount(s[..n]);
      assert Elements(s) == Elements(s[..n]) + {s[n]};
    }
  }

  /** The services in `seen` are grouped by host prefix, each prefix with its group. */
  ghost predicate Grouped(services: map<Service, string>, seen: set<Service>, members: map<Prefix, seq<Service>>, groups: map<Prefix, string>) {
    && seen <= services.Keys && groups.Keys == members.Keys
    && Listed(seen, members)
    && (forall s <- seen :: s.HostPrefix() in groups && groups[s.HostPrefix()] == services[s])
  }

  /** Each prefix lists exactly its services, each once. */
  ghost predicate Listed(seen: set<Service>, members: map<Prefix, seq<Service>>) {
    && members.Keys == PrefixesOf(seen)
    && forall p <- members :: Distinct(members[p]) && Elements(members[p]) == MembersOf(seen, p)
  }

  lemma GroupOne(services: map<Service, string>, seen: set<Service>, members: map<Prefix, seq<Service>>, groups: map<Prefix, string>, s: Service)
    requires OneGroupPerPrefix(services) && Grouped(services, seen, members, groups) && s in services && s !in seen
    ensures var p := s.HostPrefix();
            Grouped(services, seen + {s}, members[p := (if p in members then members[p] else []) + [s]], groups[p := services[s]])
  {
    ListService(seen, members, s);
    hide Listed;
  }

  /** One more service is listed under its prefix. */
  lemma ListService(seen: set<Service>, members: map<Prefix, seq<Service>>, s: Service)
    requires Listed(seen, members) && s !in seen
    ensures var p := s.HostPrefix();
            Listed(seen + {s}, members[p := (if p in members then members[p] else []) + [s]])
  {
    var p := s.HostPrefix();
    var before := if p in members then members[p] else [];
    BeforeOne(seen, members, p);
    hide Distinct, Elements;
    DistinctAppend(before, s);
    forall q
      ensures MembersOf(seen + {s}, q) == MembersOf(seen, q) + if q == p then {s} else {}
    {
    }
    assert PrefixesOf(seen + {s}) == PrefixesOf(seen) + {p};
    hide MembersOf, PrefixesOf;
  }

  lemma BeforeOne(seen: set<Service>, members: map<Prefix, seq<Service>>, p: Prefix)
    requires Listed(seen, members)
    ensures var before := if p in members then members[p] else [];
            Distinct(before) && Elements(before) == MembersOf(seen, p)
  {
    if p !in members {
      assert forall t <- seen :: t.HostPrefix() in PrefixesOf(seen);
    }
  }

  lemma DistinctAppend<T>(s: seq<T>, x: T)
    requires Distinct(s) && x !in Elements(s)
    ensures Distinct(s + [x]) && Elements(s + [x]) == Elements(s) + {x}
  {
  }

  /** The groups and services that the plan still has for prefixes outside `done`. */
  ghost predicate Planned(plan: map<Prefix, Target>, done: set<Prefix>, members: map<Prefix, seq<Service>>, groups: map<Prefix, string>) {
    && members.Keys == plan.Keys - done && members.Keys <= groups.Keys
    && (forall p <- members :: Distinct(members[p]) && plan[p] == Target(groups[p], Elements(members[p])))
  }

  lemma PlannedNext(plan: map<Prefix, Target>, done: set<Prefix>, members: map<Prefix, seq<Service>>, groups: map<Prefix, string>, p: Prefix)
    requires Planned(plan, done, members, groups)
    ensures Planned(plan, done + {p}, members - {p}, groups)
    ensures p !in members ==> Planned(plan, done + {p}, members, groups)
    ensures p in members ==> p in plan && p in groups && Distinct(members[p]) && plan[p] == Target(groups[p], Elements(members[p]))
    ensures p !in members && p !in done ==> p !in plan
  {
  }

  lemma PlannedDone(plan: map<Prefix, Target>, done: set<Prefix>, members: map<Prefix, seq<Service>>, groups: map<Prefix, string>)
    requires Planned(plan, done, members, groups) && members.Keys == {}
    ensures plan.Keys <= done
  {
    forall p <- plan.Keys
      ensures p in done
    {
      PlannedNext(plan, done, members, groups, p);
    }
  }

  lemma GroupedIsPlan(services: map<Service, string>, members: map<Prefix, seq<Service>>, groups: map<Prefix, string>)
    requires OneGroupPerPrefix(services) && Grouped(services, services.Keys, members, groups)
    ensures members.Keys == PlanOf(services).Keys
    ensures forall p <- members :: PlanOf(services)[p] == Target(groups[p], Elements(members[p]))
  {
    forall p | p in members
      ensures PlanOf(services)[p] == Target(groups[p], Elements(members[p]))
    {
      hide Distinct;
      assert Elements(members[p]) == MembersOf(services.Keys, p);
    }
  }

  lemma CarryNone(known: map<Service, bool>, list: seq<Service>)
    requires Distinct(list)
    ensures CarriedOver(known, Elements(list[..0])) == map[] && |Enabled(map[])| == 0
    ensures |CarriedOver(known, Elements(list))| == |list|
  {
    DistinctCount(list);
    assert Enabled(map[]) == {};
    assert CarriedOver(known, Elements(list)).Keys == Elements(list);
    assert |CarriedOver(known, Elements(list))| == |CarriedOver(known, Elements(list)).Keys|;
  }

  /** One more service of the list is carried over; it was not in the list so far. */
  lemma CarryOne(known: map<Service, bool>, list: seq<Service>, i: nat)
    requires Distinct(list) && i < |list|
    ensures var before, after := CarriedOver(known, Elements(list[..i])), CarriedOver(known, Elements(list[..i + 1]));
            var status := list[i] in known && known[list[i]];
            after == before[list[i] := status] && |Enabled(after)| == |Enabled(before)| + (if status then 1 else 0)
  {
    hide Enabled;
    var before, status := CarriedOver(known, Elements(list[..i])), list[i] in known && known[list[i]];
    assert list[..i + 1] == list[..i] + [list[i]];
    assert Elements(list[..i + 1]) == Elements(list[..i]) + {list[i]};
    assert list[i] !in before;
    assert CarriedOver(known, Elements(list[..i + 1])) == before[list[i] := status];
    EnabledCount(before, list[i], status);
  }

  class PrefixState {
    ghost const prefix: Prefix // the key of this state
    var group: string
    var services: map<Service, bool>
    var active: int
    var quorum: int

    /** The counters refine the set view: enabled services and all services. */
    ghost predicate Valid()
      reads this
    {
      active == |Enabled(services)| && quorum == |services|
    }

    ghost function View(): Info
      reads this
    {
      Info(group, services)
    }

    constructor (ghost prefix: Prefix, group: string, newServices: seq<Service>)
      requires Distinct(newServices)
      ensures Valid() && this.prefix == prefix && View() == Info(group, CarriedOver(map[], Elements(newServices)))
    {
      this.prefix := prefix;
      this.group := group;
      this.services := map s | s in newServices :: false;
      this.active := 0;
      this.quorum := |newServices|;
      new;
      DistinctCount(newServices);
      assert services.Keys == Elements(newServices);
      assert |services| == |services.Keys|;
      assert Enabled(services) == {};
    }

    method ApplyServices(newServices: seq<Service>)
      requires Valid() && Distinct(newServices)
      modifies this
      ensures Valid() && group == old(group)
      ensures services == CarriedOver(old(services), Elements(newServices))
    {
      hide CarriedOver, Enabled, Elements, Distinct;
      CarryNone(services, newServices);
      var newSet: map<Service, bool> := map[];
      var count := 0;
      for i := 0 to |newServices|
        invariant newSet == CarriedOver(services, Elements(newServices[..i]))
        invariant count == |Enabled(newSet)|
        invariant unchanged(this)
      {
        var service := newServices[i];
        var status := false;
        if service in services && services[service] {
          status := true;
          count := count + 1;
        }
        CarryOne(services, newServices, i);
        newSet := newSet[service := status];
      }
      assert newServices[..|newServices|] == newServices;
      services := newSet;
      active := count;
      quorum := |newServices|;
    }

    method UpdateService(service: Service, status: bool) returns (ready: bool)
      requires Valid()
      modifies this
      ensures Valid() && group == old(group)
      ensures services == if service in old(services) then old(services)[service := status] else old(services)
      ensures ready == View().Ready()
    {
      if service !in services || services[service] == status {
        ready := Status();
        return;
      }
      EnabledCount(services, service, status);
      assert |services[service := status]| == |services|;
      if status {
        active := active + 1;
      } else {
        active := active - 1;
      }
      services := services[service := status];
      ready := Status();
    }

    method Status() returns (ready: bool)
      requires Valid()
      ensures ready == View().Ready()
    {
      CountingDecides(View());
      return quorum == active && active != 0;
    }

    method UpdateGroup(newGroup: string)
      requires Valid()
      modifies this`group
      ensures Valid() && group == newGroup
    {
      group := newGroup;
    }
  }

  class Prefixes {
    var prefixes: map<Prefix, PrefixState>
    const events: Registry<PrefixKey>
    ghost var Repr: set<PrefixState> // the states in use, and those used before

    ghost predicate Valid()
      reads this, Repr
    {
      forall p <- prefixes :: prefixes[p] in Repr && prefixes[p].Valid() && prefixes[p].prefix == p
    }

    ghost function View(): map<Prefix, Info>
      requires Valid()
      reads this, Repr
    {
      map p | p in prefixes :: prefixes[p].View()
    }

    lemma ViewIs(infos: map<Prefix, Info>)
      requires Valid() && infos.Keys == prefixes.Keys && forall p <- prefixes :: prefixes[p].View() == infos[p]
      ensures View() == infos
    {
    }

    /** Changing the state of one prefix keeps all others. */
    twostate lemma OneChanged(prefix: Prefix)
      requires old(Valid()) && prefixes == old(prefixes) && Repr == old(Repr) && prefix in prefixes && prefixes[prefix].Valid()
      requires forall p <- prefixes :: p != prefix ==> unchanged(prefixes[p])
      ensures Valid() && View() == old(View())[prefix := prefixes[prefix].View()]
    {
      forall p <- prefixes
        ensures prefixes[p].Valid() && (p != prefix ==> prefixes[p].View() == old(prefixes[p].View()))
      {
      }
      ViewIs(old(View())[prefix := prefixes[prefix].View()]);
    }

    constructor ()
      ensures Valid() && View() == map[] && events.events == map[] && fresh(events)
    {
      prefixes, Repr := map[], {};
      events := new Registry();
    }

    /** Groups the configured services by their host prefix. */
    method GroupServices(services: map<Service, string>) returns (members: map<Prefix, seq<Service>>, groups: map<Prefix, string>)
      requires OneGroupPerPrefix(services)
      ensures groups.Keys == members.Keys == PlanOf(services).Keys
      ensures forall p <- members :: Distinct(members[p]) && PlanOf(services)[p] == Target(groups[p], Elements(members[p]))
    {
      members, groups := map[], map[];
      var todo := services.Keys;
      while todo != {}
        invariant todo <= services.Keys
        invariant Grouped(services, services.Keys - todo, members, groups)
      {
        var service :| service in todo;
        var prefix := service.HostPrefix();
        GroupOne(services, services.Keys - todo, members, groups, service);
        members := members[prefix := (if prefix in members then members[prefix] else []) + [service]];
        groups := groups[prefix := services[service]];
        assert services.Keys - (todo - {service}) == (services.Keys - todo) + {service};
        todo := todo - {service};
      }
      assert services.Keys - todo == services.Keys;
      GroupedIsPlan(services, members, groups);
    }

    method ReloadServices(services: map<Service, string>)
      requires Valid() && OneGroupPerPrefix(services)
      modifies this, Repr, events
      ensures Valid() && fresh(Repr - old(Repr))
      ensures View() == AfterReload(old(View()), services)
      ensures ReloadPending(old(View()), PlanOf(services), old(View()).Keys + PlanOf(services).Keys, old(events.events), events.events)
      ensures KeepsStatuses(old(View()), services, View())
      ensures InForce(old(View()), services) ==> View() == old(View()) && events.events == old(events.events)
    {
      hide Reloaded, ReloadPending, Distinct, PlanOf, OneGroupPerPrefix, PrefixState.Valid, KeepsStatuses, InForce;
      ghost var infos, plan, pending := View(), PlanOf(services), events.events;
      assert infos.Keys == prefixes.Keys;
      NothingReloaded(infos, plan, pending);
      var members, groups := GroupServices(services);
      var added := ReloadKnown(members, groups, infos, plan, pending);
      AddNew(added, groups, infos, plan, infos.Keys, pending);
      ReloadKeepsStatuses(infos, services);
      if InForce(infos, services) {
        ReloadAgain(infos, services, pending, events.events);
      }
    }

    /** Updates or removes the existing prefixes; returns the services of prefixes still to be added. */
    method ReloadKnown(members: map<Prefix, seq<Service>>, groups: map<Prefix, string>,
                       ghost infos: map<Prefix, Info>, ghost plan: map<Prefix, Target>, ghost pending: map<PrefixKey, bool>)
      returns (added: map<Prefix, seq<Service>>)
      requires Valid() && View() == infos && Reconciled(infos, plan, {}, pending) && Planned(plan, {}, members, groups)
      modifies this, Repr, events
      ensures Valid() && Repr == old(Repr)
      ensures Reconciled(infos, plan, infos.Keys, pending) && Planned(plan, infos.Keys, added, groups)
    {
      hide Reloaded, ReloadPending, Planned, Distinct, PrefixState.Valid, PrefixState.View;
      added := members;
      ghost var done := {};
      var todo := prefixes.Keys;
      while todo != {}
        invariant todo <= prefixes.Keys && Repr == old(Repr)
        invariant todo <= infos.Keys && done == infos.Keys - todo
        invariant Valid() && Reconciled(infos, plan, done, pending)
        invariant Planned(plan, done, added, groups)
      {
        var prefix :| prefix in todo;
        PlannedNext(plan, done, added, groups, prefix);
        if prefix in added {
          ReloadPrefix(prefix, added[prefix], groups[prefix], infos, plan, done, pending);
          added := added - {prefix};
        } else {
          RemovePrefix(prefix, infos, plan, done, pending);
        }
        todo := todo - {prefix};
        done := done + {prefix};
      }
      assert done == infos.Keys;
    }

    method AddNew(members: map<Prefix, seq<Service>>, groups: map<Prefix, string>,
                  ghost infos: map<Prefix, Info>, ghost plan: map<Prefix, Target>, ghost known: set<Prefix>, ghost pending: map<PrefixKey, bool>)
      requires Valid() && infos.Keys <= known && Reconciled(infos, plan, known, pending) && Planned(plan, known, members, groups)
      modifies this
      ensures Valid() && fresh(Repr - old(Repr))
      ensures Reconciled(infos, plan, known + plan.Keys, pending)
    {
      hide Reloaded, ReloadPending, Distinct, PrefixState.Valid, PrefixState.View;
      ghost var done := known;
      var todo := members;
      while todo.Keys != {}
        invariant Valid() && fresh(Repr - old(Repr))
        invariant known <= done <= known + plan.Keys
        invariant Reconciled(infos, plan, done, pending)
        invariant Planned(plan, done, todo, groups)
        decreases todo.Keys
      {
        var prefix :| prefix in todo.Keys;
        PlannedNext(plan, done, todo, groups, prefix);
        AddPrefix(prefix, todo[prefix], groups[prefix], infos, plan, done, pending);
        todo := todo - {prefix};
        done := done + {prefix};
      }
      PlannedDone(plan, done, todo, groups);
      assert done == known + plan.Keys;
    }

    /** Adds a prefix that was not in use. */
    method AddPrefix(prefix: Prefix, newServices: seq<Service>, group: string,
                     ghost infos: map<Prefix, Info>, ghost plan: map<Prefix, Target>, ghost done: set<Prefix>, ghost pending: map<PrefixKey, bool>)
      requires Valid() && Distinct(newServices) && Reconciled(infos, plan, done, pending)
      requires prefix !in infos && prefix !in done
      requires prefix in plan && plan[prefix] == Target(group, Elements(newServices))
      modifies this`prefixes, this`Repr
      ensures Valid() && fresh(Repr - old(Repr))
      ensures Reconciled(infos, plan, done + {prefix}, pending)
    {
      hide Reloaded, ReloadPending, PrefixState.Valid, Distinct;
      var state := new PrefixState(prefix, group, newServices);
      assert state.View() == Retargeted(infos, prefix, plan[prefix]);
      prefixes, Repr := prefixes[prefix := state], Repr + {state};
      ViewIs(old(View())[prefix := state.View()]);
      ReloadedOne(infos, plan, done, prefix);
      NewPrefixesStoreNothing(infos, plan, done, {prefix}, pending, events.events);
    }

    /** The prefixes in `done` have been reconciled and have stored their events. */
    ghost predicate Reconciled(infos: map<Prefix, Info>, plan: map<Prefix, Target>, done: set<Prefix>, pending: map<PrefixKey, bool>)
      requires Valid()
      reads this, Repr, events
    {
      View() == Reloaded(infos, plan, done) && ReloadPending(infos, plan, done, pending, events.events)
    }

    /** Moves a prefix that stays in use to its new group and services. */
    method ReloadPrefix(prefix: Prefix, newServices: seq<Service>, newGroup: string,
                        ghost infos: map<Prefix, Info>, ghost plan: map<Prefix, Target>, ghost done: set<Prefix>, ghost pending: map<PrefixKey, bool>)
      requires Valid() && Distinct(newServices) && Reconciled(infos, plan, done, pending)
      requires prefix in prefixes && prefix in infos && prefix !in done
      requires prefix in plan && plan[prefix] == Target(newGroup, Elements(newServices))
      modifies prefixes[prefix], events
      ensures Valid() && Reconciled(infos, plan, done + {prefix}, pending)
    {
      hide Reloaded, ReloadPending, OnePrefixStored, Info.Ready, Stored, PrefixState.Valid;
      ReloadedKeeps(infos, plan, done, prefix);
      ghost var before, after, stored := infos[prefix], Retargeted(infos, prefix, plan[prefix]), events.events;
      var state := prefixes[prefix];
      var oldGroup := state.group;
      var group := oldGroup;
      if newGroup != oldGroup {
        events.Store(PrefixKey(prefix, oldGroup), false);
        state.UpdateGroup(newGroup);
        group := newGroup;
      }
      var oldStatus := state.Status();
      ReadyIgnoresGroup(before, newGroup);
      state.ApplyServices(newServices);
      var newStatus := state.Status();
      assert state.View() == after;
      if newStatus != oldStatus || newGroup != oldGroup {
        events.Store(PrefixKey(prefix, group), newStatus);
      }
      OneChanged(prefix);
      StoresOfUsedPrefix(prefix, before, after, stored);
      ReloadedOne(infos, plan, done, prefix);
      ReloadOne(infos, plan, done, prefix, pending, stored, events.events);
    }

    /** Removes a prefix that is no longer in use, withdrawing it if it was ready. */
    method RemovePrefix(prefix: Prefix,
                        ghost infos: map<Prefix, Info>, ghost plan: map<Prefix, Target>, ghost done: set<Prefix>, ghost pending: map<PrefixKey, bool>)
      requires Valid() && Reconciled(infos, plan, done, pending)
      requires prefix in prefixes && prefix in infos && prefix !in done && prefix !in plan
      modifies this`prefixes, events
      ensures Valid() && prefixes == old(prefixes) - {prefix}
      ensures Reconciled(infos, plan, done + {prefix}, pending)
    {
      hide Reloaded, ReloadPending, Retargeted, OnePrefixStored, Info.Ready, Stored, PrefixState.Valid;
      ReloadedKeeps(infos, plan, done, prefix);
      var ready := prefixes[prefix].Status();
      if ready {
        events.Store(PrefixKey(prefix, prefixes[prefix].group), false);
      }
      StoresOfRemovedPrefix(prefix, infos[prefix], old(events.events));
      prefixes := prefixes - {prefix};
      ViewIs(old(View()) - {prefix});
      ReloadedOne(infos, plan, done, prefix);
      ReloadOne(infos, plan, done, prefix, pending, old(events.events), events.events);
    }

    /** Records a service's new status; fails when the service's prefix is unknown. */
    method UpdateService(service: Service, status: bool) returns (found: bool)
      requires Valid()
      modifies Repr, events
      ensures Valid()
      ensures found == (service.HostPrefix() in prefixes)
      ensures View() == Updated(old(View()), service, status)
      ensures OneStatusSet(old(View()), service, status, View())
      ensures UpdatePending(old(View()), service, status, old(events.events), events.events)
    {
      var prefix := service.HostPrefix();
      hide UpdatePending, OneStatusSet, Info.Ready, Stored, PrefixState.Valid;
      ghost var before, stored := View(), events.events;
      UpdatedSetsOne(before, service, status);
      if prefix !in prefixes {
        UpdateStoresOne(before, service, status, stored, stored);
        return false;
      }
      var state := prefixes[prefix];
      var oldStatus := state.Status();
      var newStatus := state.UpdateService(service, status);
      OneChanged(prefix);
      assert state.View() == Updated(before, service, status)[prefix];
      assert View() == Updated(before, service, status);
      if newStatus != oldStatus {
        events.Store(PrefixKey(prefix, state.group), newStatus);
      }
      UpdateStoresOne(before, service, status, stored, events.events);
      return true;
    }
  }
}
