/** Runs of the prefix bookkeeping: reloads, service updates and flushes towards the external
    announcer in any order. A reload is broken up by sets of prefixes, and a prefix that changes its
    group by its two stores, so that a flush may fall between any two stores
    (internal/announcer/prefix.go). */
module AnnouncedView {
  import opened Common
  import opened Keys
  import opened RegistrySpec
  import opened PrefixSpec

  /** The prefixes, their pending events, and the status last flushed under each key. While a prefix is
      moving to another group it is withdrawn from the old one and not yet in the new one. */
  datatype Book = Book(infos: map<Prefix, Info>, pending: map<PrefixKey, bool>, flushed: map<PrefixKey, bool>, moving: Option<Prefix>)

  const EMPTY := Book(map[], map[], map[], None)

  /** Whether the prefix belongs to the group and is ready now. */
  predicate Current(b: Book, key: PrefixKey) {
    && key.prefix in b.infos && b.infos[key.prefix].group == key.group && b.infos[key.prefix].Ready()
    && b.moving != Some(key.prefix)
  }

  predicate Flushed(b: Book, key: PrefixKey) {
    key in b.flushed && b.flushed[key]
  }

  /** What the external announcer holds once the pending events have reached it. */
  predicate Announced(b: Book, key: PrefixKey) {
    match Lookup(b.pending, key)
    case Some(status) => status
    case None => Flushed(b, key)
  }

  datatype Step =
    | Reload(services: map<Service, string>, part: set<Prefix>)
    | Withdraw(services: map<Service, string>, prefix: Prefix)
    | Arrive(services: map<Service, string>)
    | Update(service: Service, status: bool)
    | Flush

  ghost predicate Next(b: Book, step: Step, b': Book) {
    match step
    case Reload(services, part) =>
      && OneGroupPerPrefix(services) && b.moving == None == b'.moving
      && b'.infos == Reloaded(b.infos, PlanOf(services), part)
      && ReloadPending(b.infos, PlanOf(services), part, b.pending, b'.pending)
      && b'.flushed == b.flushed
    // The first store of a prefix that changes its group.
    case Withdraw(services, p) =>
      && OneGroupPerPrefix(services) && b.moving == None && Moves(b, PlanOf(services), p)
      && b' == b.(infos := b.infos[p := Info(PlanOf(services)[p].group, b.infos[p].services)],
                  pending := Stored(b.pending, PrefixKey(p, b.infos[p].group), false, Cancel),
                  moving := Some(p))
    // The second one.
    case Arrive(services) =>
      && OneGroupPerPrefix(services) && b.moving.Some? && Arrives(b, PlanOf(services), b.moving.value)
      && var p := b.moving.value;
         var info := Retargeted(b.infos, p, PlanOf(services)[p]);
         b' == b.(infos := b.infos[p := info],
                  pending := Stored(b.pending, PrefixKey(p, info.group), info.Ready(), Cancel),
                  moving := None)
    case Update(service, status) =>
      && b.moving == None == b'.moving
      && b'.infos == Updated(b.infos, service, status)
      && UpdatePending(b.infos, service, status, b.pending, b'.pending)
      && b'.flushed == b.flushed
    case Flush => b' == b.(pending := map[], flushed := b.flushed + b.pending)
  }

  /** The plan moves the prefix to another group. */
  predicate Moves(b: Book, plan: map<Prefix, Target>, p: Prefix) {
    p in b.infos && p in plan && plan[p].group != b.infos[p].group
  }

  /** The prefix has the group the plan has for it. */
  predicate Arrives(b: Book, plan: map<Prefix, Target>, p: Prefix) {
    p in b.infos && p in plan && plan[p].group == b.infos[p].group
  }

  /** The step moves no prefix that stays in use to another group. */
  ghost predicate KeepsGroups(b: Book, step: Step) {
    match step
    case Reload(services, part) =>
      var plan := PlanOf(services);
      forall p :: p in part && p in b.infos && p in plan ==> b.infos[p].group == plan[p].group
    case Withdraw(_, _) => false
    case Arrive(_) => false
    case _ => true
  }

  ghost predicate IsRun(books: seq<Book>, steps: seq<Step>) {
    && |books| == |steps| + 1
    && books[0] == EMPTY
    && forall i :: 0 <= i < |steps| ==> Next(books[i], steps[i], books[i + 1])
  }

  /** What a step stores under a key. */
  ghost function Stores(b: Book, step: Step, key: PrefixKey): Option<bool> {
    match step
    case Reload(services, part) => if key.prefix in part then ReloadStores(b.infos, PlanOf(services), key) else None
    case Withdraw(_, p) => if p in b.infos && key == PrefixKey(p, b.infos[p].group) then Some(false) else None
    case Arrive(services) =>
      if b.moving.Some? && Arrives(b, PlanOf(services), b.moving.value) && key == PrefixKey(b.moving.value, b.infos[b.moving.value].group)
      then Some(Retargeted(b.infos, key.prefix, PlanOf(services)[key.prefix]).Ready()) else None
    case Update(service, status) => UpdateStores(b.infos, service, status, key)
    case Flush => None
  }

  /** A step stores a key's new status. It may do so needlessly, but stores readiness only when the
      key was not current before. Without group changes it stores exactly the changes. */
  lemma StoresWhatChanges(b: Book, step: Step, b': Book, key: PrefixKey)
    requires Next(b, step, b')
    ensures TellsChange(b, step, b', key)
    ensures step != Flush ==>
              Lookup(b'.pending, key) == MergeOptional(Lookup(b.pending, key), Stores(b, step, key)) && b'.flushed == b.flushed
  {
    hide MergeOptional, ReloadPending, UpdatePending, PlanOf;
    match step
    case Withdraw(services, p) => WithdrawTells(b, services, p, b', key);
    case Arrive(services) => ArriveTells(b, services, b', key);
    case Reload(services, part) =>
      ReloadTells(b, services, part, b', key);
      ReloadAdds(b, services, part, b', key);
    case Update(service, status) => UpdateTells(b, service, status, b', key);
    case Flush =>
  }

  ghost predicate TellsChange(b: Book, step: Step, b': Book, key: PrefixKey) {
    var store := Stores(b, step, key);
    && (store == None ==> Current(b', key) == Current(b, key))
    && (store.Some? ==> Current(b', key) == store.value && (store.value ==> !Current(b, key)))
    && (store.Some? && KeepsGroups(b, step) ==> Current(b', key) != Current(b, key))
  }

  lemma ReloadTells(b: Book, services: map<Service, string>, part: set<Prefix>, b': Book, key: PrefixKey)
    requires Next(b, Reload(services, part), b')
    ensures TellsChange(b, Reload(services, part), b', key)
  {
    hide PlanOf, ReloadPending;
  }

  lemma ReloadAdds(b: Book, services: map<Service, string>, part: set<Prefix>, b': Book, key: PrefixKey)
    requires Next(b, Reload(services, part), b')
    ensures Lookup(b'.pending, key) == MergeOptional(Lookup(b.pending, key), Stores(b, Reload(services, part), key)) && b'.flushed == b.flushed
  {
    hide PlanOf, ReloadStores, Reloaded;
  }

  lemma UpdateTells(b: Book, service: Service, status: bool, b': Book, key: PrefixKey)
    requires Next(b, Update(service, status), b')
    ensures TellsChange(b, Update(service, status), b', key)
    ensures Lookup(b'.pending, key) == MergeOptional(Lookup(b.pending, key), Stores(b, Update(service, status), key)) && b'.flushed == b.flushed
  {
    hide Info.Ready, MergeOptional;
  }

  lemma WithdrawTells(b: Book, services: map<Service, string>, p: Prefix, b': Book, key: PrefixKey)
    requires Next(b, Withdraw(services, p), b')
    ensures TellsChange(b, Withdraw(services, p), b', key)
    ensures Lookup(b'.pending, key) == MergeOptional(Lookup(b.pending, key), Stores(b, Withdraw(services, p), key))
  {
    hide PlanOf, Cancel;
  }

  lemma ArriveTells(b: Book, services: map<Service, string>, b': Book, key: PrefixKey)
    requires Next(b, Arrive(services), b')
    ensures TellsChange(b, Arrive(services), b', key)
    ensures Lookup(b'.pending, key) == MergeOptional(Lookup(b.pending, key), Stores(b, Arrive(services), key))
  {
    hide PlanOf, Cancel;
  }

  /** With nothing in between, the two stores of a moving prefix are its reload. */
  lemma MovingIsReloading(b: Book, services: map<Service, string>, p: Prefix, mid: Book, b': Book)
    requires Next(b, Withdraw(services, p), mid) && Next(mid, Arrive(services), b')
    ensures Next(b, Reload(services, {p}), b')
  {
    var plan := PlanOf(services);
    assert b'.infos == Reloaded(b.infos, plan, {p});
    StoresOfUsedPrefix(p, b.infos[p], b'.infos[p], b.pending);
  }

  /** The relation between last flush, pending event and current status that every step keeps:
      a pending event always tells the current status, and what was flushed as ready is still
      current unless a withdrawal is pending. */
  predicate Sound(b: Book, key: PrefixKey) {
    && (Lookup(b.pending, key).Some? ==> Lookup(b.pending, key).value == Current(b, key))
    && (Flushed(b, key) ==> Lookup(b.pending, key) == if Current(b, key) then None else Some(false))
  }

  /** Without group changes nothing is pending that repeats the last flush. */
  predicate Exact(b: Book, key: PrefixKey) {
    && (Lookup(b.pending, key).Some? ==> Lookup(b.pending, key).value != Flushed(b, key))
    && Announced(b, key) == Current(b, key)
  }

  lemma SoundKept(b: Book, step: Step, b': Book, key: PrefixKey)
    requires Next(b, step, b') && Sound(b, key)
    ensures Sound(b', key)
  {
    StoresWhatChanges(b, step, b', key);
  }

  lemma ExactKept(b: Book, step: Step, b': Book, key: PrefixKey)
    requires Next(b, step, b') && KeepsGroups(b, step) && Exact(b, key)
    ensures Exact(b', key)
  {
    StoresWhatChanges(b, step, b', key);
  }

  lemma {:induction false} SoundInEveryRun(books: seq<Book>, steps: seq<Step>, i: nat, key: PrefixKey)
    requires IsRun(books, steps) && i < |books|
    ensures Sound(books[i], key)
  {
    if i > 0 {
      SoundInEveryRun(books, steps, i - 1, key);
      SoundKept(books[i - 1], steps[i - 1], books[i], key);
    }
  }

  /** Safety: in every state of every run, once the pending events have been applied, a prefix is
      announced in a group only if it is in that group and ready now. */
  lemma NeverOverAnnounced(books: seq<Book>, steps: seq<Step>, i: nat, key: PrefixKey)
    requires IsRun(books, steps) && i < |books|
    ensures Announced(books[i], key) ==> Current(books[i], key)
  {
    SoundInEveryRun(books, steps, i, key);
  }

  /** Exactness: as long as no prefix in use changes its group, the announced view is exactly the
      current one. */
  lemma {:induction false} ExactWithFixedGroups(books: seq<Book>, steps: seq<Step>, i: nat, key: PrefixKey)
    requires IsRun(books, steps) && i < |books|
    requires forall j :: 0 <= j < i ==> KeepsGroups(books[j], steps[j])
    ensures Announced(books[i], key) == Current(books[i], key) && Exact(books[i], key)
  {
    if i > 0 {
      ExactWithFixedGroups(books, steps, i - 1, key);
      ExactKept(books[i - 1], steps[i - 1], books[i], key);
    }
  }

  /** The prefix becomes current under a key whose pending withdrawal repeats the last flush: the two events
      cancel and the announcement is never made. */
  ghost predicate Loses(b: Book, step: Step, key: PrefixKey) {
    Stores(b, step, key) == Some(true) && Lookup(b.pending, key) == Some(false) && !Flushed(b, key)
  }

  predicate Agrees(b: Book, key: PrefixKey) {
    Announced(b, key) == Current(b, key)
  }

  /** With group changes, an agreeing view is lost by a step exactly when an announcement is. */
  lemma AgreementLostExactlyWhen(books: seq<Book>, steps: seq<Step>, i: nat, key: PrefixKey)
    requires IsRun(books, steps) && i < |steps|
    requires Agrees(books[i], key)
    ensures !Agrees(books[i + 1], key) <==> Loses(books[i], steps[i], key)
  {
    SoundInEveryRun(books, steps, i, key);
    StoresWhatChanges(books[i], steps[i], books[i + 1], key);
  }

  /** Over a whole run, the view agrees throughout exactly when no announcement is lost. */
  lemma AgreesThroughoutExactlyWhen(books: seq<Book>, steps: seq<Step>, key: PrefixKey)
    requires IsRun(books, steps)
    ensures (forall b <- books :: Agrees(b, key)) <==> (forall i :: 0 <= i < |steps| ==> !Loses(books[i], steps[i], key))
  {
    hide Agrees, Loses, Next;
    if forall b <- books :: Agrees(b, key) {
      forall i | 0 <= i < |steps|
        ensures !Loses(books[i], steps[i], key)
      {
        AgreementLostExactlyWhen(books, steps, i, key);
      }
    }
    if forall i :: 0 <= i < |steps| ==> !Loses(books[i], steps[i], key) {
      forall i | 0 <= i < |books|
        ensures Agrees(books[i], key)
      {
        AgreesUntil(books, steps, i, key);
      }
    }
  }

  lemma {:induction false} AgreesUntil(books: seq<Book>, steps: seq<Step>, i: nat, key: PrefixKey)
    requires IsRun(books, steps) && i < |books| && forall j :: 0 <= j < i ==> !Loses(books[j], steps[j], key)
    ensures Agrees(books[i], key)
  {
    hide Loses, Next;
    if i > 0 {
      AgreesUntil(books, steps, i - 1, key);
      AgreementLostExactlyWhen(books, steps, i - 1, key);
    }
  }

  /** Such a loss does happen: a service moved to another group before it is enabled is ready and
      never announced there. */
  lemma GroupChangeLosesAnnouncement(s: Service, g1: string, g2: string) returns (books: seq<Book>, steps: seq<Step>)
    requires g1 != g2
    ensures IsRun(books, steps)
    ensures var last, key := books[|steps|], PrefixKey(s.HostPrefix(), g2);
            Current(last, key) && !Announced(last, key) && Lookup(last.pending, key) == None
  {
    hide Next, Current, Announced;
    var p := s.HostPrefix();
    var k1, k2 := PrefixKey(p, g1), PrefixKey(p, g2);
    var b1 := Book(map[p := Info(g1, map[s := false])], map[], map[], None);
    var b2 := Book(map[p := Info(g2, map[s := false])], map[k1 := false, k2 := false], map[], None);
    var b3 := Book(map[p := Info(g2, map[s := true])], map[k1 := false], map[], None);
    steps := [Reload(map[s := g1], {p}), Reload(map[s := g2], {p}), Update(s, true)];
    books := [EMPTY, b1, b2, b3];
    FirstLoad(s, g1, b1);
    MoveUnready(s, g1, g2, b1, b2);
    EnableAfterMove(s, g1, g2, b2, b3);
    Chain(b1, b2, b3, steps);
  }

  lemma SinglePlan(s: Service, g: string)
    ensures PlanOf(map[s := g]) == map[s.HostPrefix() := Target(g, {s})]
  {
    var services := map[s := g];
    assert services.Keys == {s};
    assert PrefixesOf({s}) == {s.HostPrefix()};
    assert MembersOf({s}, s.HostPrefix()) == {s};
    assert PlanOf(services)[s.HostPrefix()].members == {s};
  }

  lemma Chain(b1: Book, b2: Book, b3: Book, steps: seq<Step>)
    requires |steps| == 3 && Next(EMPTY, steps[0], b1) && Next(b1, steps[1], b2) && Next(b2, steps[2], b3)
    ensures IsRun([EMPTY, b1, b2, b3], steps)
  {
  }

  lemma FirstLoad(s: Service, g: string, b: Book)
    requires b == Book(map[s.HostPrefix() := Info(g, map[s := false])], map[], map[], None)
    ensures Next(EMPTY, Reload(map[s := g], {s.HostPrefix()}), b)
  {
    var p := s.HostPrefix();
    SinglePlan(s, g);
    assert Retargeted(map[], p, Target(g, {s})) == b.infos[p];
    assert Reloaded(map[], map[p := Target(g, {s})], {p}) == b.infos;
  }

  lemma MoveUnready(s: Service, g1: string, g2: string, b: Book, b': Book)
    requires g1 != g2
    requires var p := s.HostPrefix();
             && b == Book(map[p := Info(g1, map[s := false])], map[], map[], None)
             && b' == Book(map[p := Info(g2, map[s := false])], map[PrefixKey(p, g1) := false, PrefixKey(p, g2) := false], map[], None)
    ensures Next(b, Reload(map[s := g2], {s.HostPrefix()}), b')
  {
    var p := s.HostPrefix();
    SinglePlan(s, g2);
    var plan := map[p := Target(g2, {s})];
    var off := Info(g2, map[s := false]);
    assert Retargeted(b.infos, p, plan[p]) == off;
    assert s in off.services && !off.services[s];
    assert Reloaded(b.infos, plan, {p}) == b'.infos;
  }

  lemma EnableAfterMove(s: Service, g1: string, g2: string, b: Book, b': Book)
    requires g1 != g2
    requires var p := s.HostPrefix();
             && b == Book(map[p := Info(g2, map[s := false])], map[PrefixKey(p, g1) := false, PrefixKey(p, g2) := false], map[], None)
             && b' == Book(map[p := Info(g2, map[s := true])], map[PrefixKey(p, g1) := false], map[], None)
    ensures Next(b, Update(s, true), b')
    ensures var key := PrefixKey(s.HostPrefix(), g2);
            Current(b', key) && !Announced(b', key) && Lookup(b'.pending, key) == None
  {
    var off := Info(g2, map[s := false]);
    assert s in off.services && !off.services[s];
    var on := off.services[s := true];
    assert on == map[s := true] && s in on;
  }
}
