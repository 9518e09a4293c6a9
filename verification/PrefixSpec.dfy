/** What prefix readiness means, which statuses a change stores, and what the announced view keeps
    (internal/announcer/prefix.go). */
module PrefixSpec {
  import opened Common
  import opened Keys
  import opened RegistrySpec

  datatype PrefixKey = PrefixKey(prefix: Prefix, group: string)

  /** A prefix's announce group and the status of each of its services. */
  datatype Info = Info(group: string, services: map<Service, bool>) {
    /** A prefix is ready when it has services and all of them are enabled. */
    predicate Ready() {
      services != map[] && forall s <- services :: services[s]
    }
  }

  function Enabled(services: map<Service, bool>): set<Service> {
    set s | s in services && services[s]
  }

  /** How many services are enabled after one status is set. */
  lemma EnabledCount(services: map<Service, bool>, service: Service, status: bool)
    ensures var was := service in services && services[service];
            |Enabled(services[service := status])| == |Enabled(services)| - (if was then 1 else 0) + (if status then 1 else 0)
  {
    var on := Enabled(services);
    assert Enabled(services[service := status]) == if status then on + {service} else on - {service};
  }

  /** Counting enabled services and comparing with their number decides readiness. */
  lemma CountingDecides(info: Info)
    ensures info.Ready() <==> |info.services| == |Enabled(info.services)| && |Enabled(info.services)| != 0
  {
    var on, all := Enabled(info.services), info.services.Keys;
    assert |info.services| == |all|;
    if on < all {
      SmallerThan(on, all);
      var s :| s in all && s !in on;
      assert !info.services[s];
    } else {
      assert on == all;
      assert forall s <- info.services :: s in on;
      if on != {} {
        var s :| s in on;
        assert s in info.services;
      }
    }
  }

  lemma SmallerThan<T>(a: set<T>, b: set<T>)
    requires a < b
    ensures |a| < |b|
  {
    var rest := b - a;
    assert b == a + rest;
    assert |b| == |a| + |rest|;
  }

  /** A new configuration: for each prefix in use, its group and its services. */
  datatype Target = Target(group: string, members: set<Service>)

  predicate OneGroupPerPrefix(services: map<Service, string>) {
    forall s, t :: s in services && t in services && s.HostPrefix() == t.HostPrefix() ==> services[s] == services[t]
  }

  function PrefixesOf(services: set<Service>): set<Prefix> {
    set s | s in services :: s.HostPrefix()
  }

  function MembersOf(services: set<Service>, p: Prefix): set<Service> {
    set s | s in services && s.HostPrefix() == p
  }

  ghost function PlanOf(services: map<Service, string>): (plan: map<Prefix, Target>)
    ensures plan.Keys == PrefixesOf(services.Keys)
  {
    map p | p in PrefixesOf(services.Keys) ::
      var s :| s in services && s.HostPrefix() == p;
      Target(services[s], MembersOf(services.Keys, p))
  }

  /** The given services with their known statuses; unknown ones start disabled. */
  function CarriedOver(known: map<Service, bool>, members: set<Service>): map<Service, bool> {
    map s | s in members :: s in known && known[s]
  }

  /** A service's status survives a reload when the service was known for the prefix. */
  function Retargeted(infos: map<Prefix, Info>, p: Prefix, target: Target): Info {
    Info(target.group, CarriedOver(if p in infos then infos[p].services else map[], target.members))
  }

  /** The prefixes after those in `done` have been reconciled with the plan. */
  function Reloaded(infos: map<Prefix, Info>, plan: map<Prefix, Target>, done: set<Prefix>): map<Prefix, Info> {
    map p | p in infos.Keys + plan.Keys && (if p in done then p in plan else p in infos) ::
      if p in done then Retargeted(infos, p, plan[p]) else infos[p]
  }

  lemma ReloadedKeeps(infos: map<Prefix, Info>, plan: map<Prefix, Target>, done: set<Prefix>, p: Prefix)
    requires p !in done && p !in plan.Keys - infos.Keys
    ensures (p in Reloaded(infos, plan, done) <==> p in infos) && (p in infos ==> Reloaded(infos, plan, done)[p] == infos[p])
  {
  }

  lemma ReloadedOne(infos: map<Prefix, Info>, plan: map<Prefix, Target>, done: set<Prefix>, p: Prefix)
    requires p in infos || p in plan
    ensures Reloaded(infos, plan, done + {p}) ==
              if p in plan then Reloaded(infos, plan, done)[p := Retargeted(infos, p, plan[p])] else Reloaded(infos, plan, done) - {p}
  {
  }

  /** The status, if any, that turning a prefix from `before` into `after` stores under a group. */
  function StoresBetween(before: Info, after: Option<Info>, group: string): Option<bool> {
    match after
    case None => if group == before.group && before.Ready() then Some(false) else None
    case Some(info) =>
      if before.group != info.group then
        if group == before.group then Some(false)
        else if group == info.group then Some(info.Ready())
        else None
      else if group == before.group && before.Ready() != info.Ready() then Some(info.Ready())
      else None
  }

  /** The status, if any, that reconciling a key's prefix stores under the key. */
  function ReloadStores(infos: map<Prefix, Info>, plan: map<Prefix, Target>, key: PrefixKey): Option<bool> {
    var p := key.prefix;
    if p in infos
    then StoresBetween(infos[p], if p in plan then Some(Retargeted(infos, p, plan[p])) else None, key.group)
    else None
  }

  function Updated(infos: map<Prefix, Info>, service: Service, status: bool): map<Prefix, Info> {
    var p := service.HostPrefix();
    if p in infos && service in infos[p].services
    then infos[p := Info(infos[p].group, infos[p].services[service := status])]
    else infos
  }

  /** Nothing but the status of one service has changed, if that is known under its prefix. */
  ghost predicate OneStatusSet(infos: map<Prefix, Info>, service: Service, status: bool, infos': map<Prefix, Info>) {
    && infos'.Keys == infos.Keys
    && forall p <- infos ::
         && infos'[p].group == infos[p].group && infos'[p].services.Keys == infos[p].services.Keys
         && forall s <- infos[p].services ::
              infos'[p].services[s] == if s == service && p == service.HostPrefix() then status else infos[p].services[s]
  }

  lemma UpdatedSetsOne(infos: map<Prefix, Info>, service: Service, status: bool)
    ensures OneStatusSet(infos, service, status, Updated(infos, service, status))
  {
  }

  function UpdateStores(infos: map<Prefix, Info>, service: Service, status: bool, key: PrefixKey): Option<bool> {
    var infos' := Updated(infos, service, status);
    if key.prefix == service.HostPrefix() && key.prefix in infos && key.group == infos[key.prefix].group
       && infos[key.prefix].Ready() != infos'[key.prefix].Ready()
    then Some(infos'[key.prefix].Ready())
    else None
  }

  function MergeOptional(pending: Option<bool>, store: Option<bool>): Option<bool> {
    if store.None? then pending else MergeInto(pending, store.value, Cancel)
  }

  /** Exactly the prefixes in `done` have stored what reconciling them stores. */
  ghost predicate ReloadPending(infos: map<Prefix, Info>, plan: map<Prefix, Target>, done: set<Prefix>,
                                pending: map<PrefixKey, bool>, pending': map<PrefixKey, bool>) {
    forall key: PrefixKey :: Lookup(pending', key) ==
      if key.prefix in done then MergeOptional(Lookup(pending, key), ReloadStores(infos, plan, key)) else Lookup(pending, key)
  }

  ghost predicate UpdatePending(infos: map<Prefix, Info>, service: Service, status: bool,
                                pending: map<PrefixKey, bool>, pending': map<PrefixKey, bool>) {
    forall key: PrefixKey :: Lookup(pending', key) == MergeOptional(Lookup(pending, key), UpdateStores(infos, service, status, key))
  }

  /** Storing the new status of one prefix on a change is what an update stores. */
  lemma UpdateStoresOne(infos: map<Prefix, Info>, service: Service, status: bool, pending: map<PrefixKey, bool>, pending': map<PrefixKey, bool>)
    requires var p := service.HostPrefix();
             if p !in infos then pending' == pending
             else
               var before, after := infos[p], Updated(infos, service, status)[p];
               pending' == if before.Ready() != after.Ready() then Stored(pending, PrefixKey(p, before.group), after.Ready(), Cancel) else pending
    ensures UpdatePending(infos, service, status, pending, pending')
  {
  }

  lemma NothingReloaded(infos: map<Prefix, Info>, plan: map<Prefix, Target>, pending: map<PrefixKey, bool>)
    ensures Reloaded(infos, plan, {}) == infos && ReloadPending(infos, plan, {}, pending, pending)
  {
  }

  /** The prefixes are exactly those of these services, each with its group. */
  ghost predicate InForce(infos: map<Prefix, Info>, services: map<Service, string>) {
    && (forall s <- services :: var p := s.HostPrefix(); p in infos && infos[p].group == services[s] && s in infos[p].services)
    && (forall p <- infos :: infos[p].services != map[] && forall s <- infos[p].services :: s in services && s.HostPrefix() == p)
  }

  /** These services are in force, and enabled are those that were enabled for their prefix before. */
  ghost predicate KeepsStatuses(infos: map<Prefix, Info>, services: map<Service, string>, infos': map<Prefix, Info>) {
    && InForce(infos', services)
    && forall s <- services :: var p := s.HostPrefix();
         infos'[p].services[s] <==> p in infos && s in infos[p].services && infos[p].services[s]
  }

  /** The prefixes after a complete reload. */
  ghost function AfterReload(infos: map<Prefix, Info>, services: map<Service, string>): map<Prefix, Info> {
    Reloaded(infos, PlanOf(services), infos.Keys + PlanOf(services).Keys)
  }

  /** A complete reload keeps the status of every service that stays configured, and starts all others disabled. */
  lemma ReloadKeepsStatuses(infos: map<Prefix, Info>, services: map<Service, string>)
    requires OneGroupPerPrefix(services)
    ensures KeepsStatuses(infos, services, AfterReload(infos, services))
  {
    hide AfterReload, OneGroupPerPrefix;
    var infos' := AfterReload(infos, services);
    forall s <- services
      ensures var p := s.HostPrefix();
              && p in infos' && infos'[p].group == services[s] && s in infos'[p].services
              && (infos'[p].services[s] <==> p in infos && s in infos[p].services && infos[p].services[s])
    {
      ServiceAfterReload(infos, services, s);
    }
    forall p <- infos'
      ensures infos'[p].services != map[] && forall s <- infos'[p].services :: s in services && s.HostPrefix() == p
    {
      PrefixAfterReload(infos, services, p);
    }
  }

  lemma ServiceAfterReload(infos: map<Prefix, Info>, services: map<Service, string>, s: Service)
    requires OneGroupPerPrefix(services) && s in services
    ensures var p, infos' := s.HostPrefix(), AfterReload(infos, services);
            && p in infos' && infos'[p].group == services[s] && s in infos'[p].services
            && (infos'[p].services[s] <==> p in infos && s in infos[p].services && infos[p].services[s])
  {
    PlannedService(services, s);
    hide PlanOf, OneGroupPerPrefix;
  }

  lemma PlannedService(services: map<Service, string>, s: Service)
    requires OneGroupPerPrefix(services) && s in services
    ensures var p := s.HostPrefix();
            p in PlanOf(services) && PlanOf(services)[p].group == services[s] && s in PlanOf(services)[p].members
  {
    assert s.HostPrefix() in PrefixesOf(services.Keys);
  }

  lemma PrefixAfterReload(infos: map<Prefix, Info>, services: map<Service, string>, p: Prefix)
    requires p in AfterReload(infos, services)
    ensures var known := AfterReload(infos, services)[p].services;
            known != map[] && forall s <- known :: s in services && s.HostPrefix() == p
  {
    assert p in PlanOf(services);
    PlannedMembers(services, p);
    hide PlanOf;
    var known, members := AfterReload(infos, services)[p].services, PlanOf(services)[p].members;
    assert known.Keys == members;
    hide *;
    assert known == map[] ==> known.Keys == {};
  }

  lemma PlannedMembers(services: map<Service, string>, p: Prefix)
    requires p in PlanOf(services)
    ensures PlanOf(services)[p].members != {} && forall s <- PlanOf(services)[p].members :: s in services && s.HostPrefix() == p
  {
    var s :| s in services && s.HostPrefix() == p;
    assert s in MembersOf(services.Keys, p);
  }

  /** Reloading the services and groups already in force changes nothing and stores nothing. */
  lemma ReloadAgain(infos: map<Prefix, Info>, services: map<Service, string>, pending: map<PrefixKey, bool>, pending': map<PrefixKey, bool>)
    requires OneGroupPerPrefix(services) && InForce(infos, services)
    requires ReloadPending(infos, PlanOf(services), infos.Keys + PlanOf(services).Keys, pending, pending')
    ensures AfterReload(infos, services) == infos && pending' == pending
  {
    ReloadKeepsStatuses(infos, services);
    hide OneGroupPerPrefix, PlanOf;
    SameInForce(infos, services, AfterReload(infos, services));
    NothingToStore(infos, PlanOf(services), pending, pending');
  }

  lemma NothingToStore(infos: map<Prefix, Info>, plan: map<Prefix, Target>, pending: map<PrefixKey, bool>, pending': map<PrefixKey, bool>)
    requires Reloaded(infos, plan, infos.Keys + plan.Keys) == infos
    requires ReloadPending(infos, plan, infos.Keys + plan.Keys, pending, pending')
    ensures pending' == pending
  {
    forall key: PrefixKey
      ensures key in pending <==> key in pending'
      ensures key in pending ==> pending'[key] == pending[key]
    {
      StoresNothing(infos, plan, key);
      hide ReloadStores, Reloaded;
      assert Lookup(pending', key) == Lookup(pending, key);
    }
  }

  lemma StoresNothing(infos: map<Prefix, Info>, plan: map<Prefix, Target>, key: PrefixKey)
    requires Reloaded(infos, plan, infos.Keys + plan.Keys) == infos
    ensures ReloadStores(infos, plan, key) == None
  {
    var p := key.prefix;
    if p in infos {
      assert p in plan && infos[p] == Retargeted(infos, p, plan[p]);
      hide Retargeted, Reloaded, Info.Ready;
    }
  }

  lemma SameInForce(infos: map<Prefix, Info>, services: map<Service, string>, infos': map<Prefix, Info>)
    requires InForce(infos, services) && KeepsStatuses(infos, services, infos')
    ensures infos' == infos
  {
    hide InForce, KeepsStatuses;
    forall p
      ensures p in infos <==> p in infos'
      ensures p in infos ==> infos'[p] == infos[p]
    {
      SamePrefix(infos, services, infos', p);
    }
  }

  lemma SamePrefix(infos: map<Prefix, Info>, services: map<Service, string>, infos': map<Prefix, Info>, p: Prefix)
    requires InForce(infos, services) && KeepsStatuses(infos, services, infos')
    ensures p in infos <==> p in infos'
    ensures p in infos ==> infos'[p] == infos[p]
  {
    hide InForce, KeepsStatuses;
    assert InForce(infos', services) by {
      KeptInForce(infos, services, infos');
    }
    if p in infos {
      var s := SomeService(infos, services, p);
      OfService(infos', services, s);
    }
    if p in infos' {
      var s := SomeService(infos', services, p);
      OfService(infos, services, s);
    }
    if p in infos {
      forall s
        ensures s in infos[p].services <==> s in infos'[p].services
        ensures s in infos[p].services ==> infos'[p].services[s] == infos[p].services[s]
      {
        SameStatus(infos, services, infos', p, s);
      }
    }
  }

  lemma KeptInForce(infos: map<Prefix, Info>, services: map<Service, string>, infos': map<Prefix, Info>)
    requires KeepsStatuses(infos, services, infos')
    ensures InForce(infos', services)
  {
  }

  lemma OfService(infos: map<Prefix, Info>, services: map<Service, string>, s: Service)
    requires InForce(infos, services) && s in services
    ensures var p := s.HostPrefix();
            p in infos && s in infos[p].services && infos[p].group == services[s]
  {
  }

  lemma SameStatus(infos: map<Prefix, Info>, services: map<Service, string>, infos': map<Prefix, Info>, p: Prefix, s: Service)
    requires InForce(infos, services) && KeepsStatuses(infos, services, infos') && p in infos && p in infos'
    ensures s in infos[p].services <==> s in infos'[p].services
    ensures s in infos[p].services ==> infos'[p].services[s] == infos[p].services[s]
  {
    assert s in infos[p].services ==> s in services && s.HostPrefix() == p;
    assert s in infos'[p].services ==> s in services && s.HostPrefix() == p;
  }

  lemma SomeService(infos: map<Prefix, Info>, services: map<Service, string>, p: Prefix) returns (s: Service)
    requires InForce(infos, services) && p in infos
    ensures s in services && s.HostPrefix() == p && services[s] == infos[p].group
  {
    s :| s in infos[p].services;
    assert s in services;
  }

  lemma ReadyIgnoresGroup(info: Info, group: string)
    ensures Info(group, info.services).Ready() == info.Ready()
  {
  }

  /** Only the keys of prefix `p` have changed, from `before` to `after`. */
  ghost predicate OnePrefixStored(p: Prefix, before: Info, after: Option<Info>, pending: map<PrefixKey, bool>, pending': map<PrefixKey, bool>) {
    forall key: PrefixKey :: Lookup(pending', key) ==
      if key.prefix == p then MergeOptional(Lookup(pending, key), StoresBetween(before, after, key.group)) else Lookup(pending, key)
  }

  /** The two stores of a prefix that stays in use. */
  lemma StoresOfUsedPrefix(p: Prefix, before: Info, after: Info, pending: map<PrefixKey, bool>)
    ensures var withdrawn := if before.group != after.group then Stored(pending, PrefixKey(p, before.group), false, Cancel) else pending;
            var told := if before.group != after.group || before.Ready() != after.Ready()
                        then Stored(withdrawn, PrefixKey(p, after.group), after.Ready(), Cancel) else withdrawn;
            OnePrefixStored(p, before, Some(after), pending, told)
  {
  }

  lemma StoresOfRemovedPrefix(p: Prefix, before: Info, pending: map<PrefixKey, bool>)
    ensures OnePrefixStored(p, before, None, pending, if before.Ready() then Stored(pending, PrefixKey(p, before.group), false, Cancel) else pending)
  {
  }

  lemma ReloadOne(infos: map<Prefix, Info>, plan: map<Prefix, Target>, done: set<Prefix>, p: Prefix,
                  pending: map<PrefixKey, bool>, pending': map<PrefixKey, bool>, pending'': map<PrefixKey, bool>)
    requires p in infos && p !in done
    requires ReloadPending(infos, plan, done, pending, pending')
    requires OnePrefixStored(p, infos[p], if p in plan then Some(Retargeted(infos, p, plan[p])) else None, pending', pending'')
    ensures ReloadPending(infos, plan, done + {p}, pending, pending'')
  {
  }

  lemma NewPrefixesStoreNothing(infos: map<Prefix, Info>, plan: map<Prefix, Target>, done: set<Prefix>, more: set<Prefix>,
                                pending: map<PrefixKey, bool>, pending': map<PrefixKey, bool>)
    requires ReloadPending(infos, plan, done, pending, pending') && more * infos.Keys <= done
    ensures ReloadPending(infos, plan, done + more, pending, pending')
  {
  }
}
