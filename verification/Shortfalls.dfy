/** Runs in which a service ends up with a verdict or an announcement its weight does not deserve, without one it
    does, or with more transitions than its weight has moved for (internal/core/service/handler.go,
    internal/core/service/service.go, internal/core/core.go). */
module Shortfalls {
  import opened Common
  import opened RegistrySpec
  import opened XEvent
  import opened Pipeline
  import opened Conservation
  import opened Agreement
  import opened Settling
  import opened Announcements
  import opened Flapping
  import opened Skipping
  import Hysteresis
  import Real
  import Service

  /** A run, where it leads, how far the weight has moved, and which weights the service has gone through. */
  datatype Journey = Journey(steps: seq<Step>, s: System, moved: nat, weights: seq<int>)

  ghost predicate Reaches(config: Service.Config, j: Journey) {
    && IsRun(config, j.steps) && j.s == Run(config, j.steps)
    && j.moved == Travelled(config, j.steps) && j.weights == GoneThrough(config, j.steps)
  }

  /** The journey taken on by one step. */
  function On(j: Journey, step: Step): Journey
    requires Possible(j.s, step)
  {
    var s := Apply(j.s, step);
    Journey(j.steps + [step], s, j.moved + Distance(j.s.service.weight, s.service.weight), j.weights + WeightBy(j.s, step))
  }

  lemma GoOn(config: Service.Config, j: Journey, step: Step)
    requires Reaches(config, j) && Possible(j.s, step)
    ensures Reaches(config, On(j, step))
  {
    hide Apply, Possible;
    var steps, s := Extend(config, j.steps, j.s, step);
    assert steps[..|j.steps|] == j.steps;
  }

  /** Nothing was counted on the way. */
  predicate SameWeights(j: Journey, j': Journey) {
    j'.moved == j.moved && j'.weights == j.weights
  }

  lemma Advances(config: Service.Config, j: Journey, i: nat) returns (j': Journey)
    requires Reaches(config, j) && i < |j.s.flights| && !j.s.flights[i].stage.Reported? && !j.s.flights[i].stage.Counted?
    ensures Reaches(config, j') && j'.s == Decided(j.s, i) && SameWeights(j, j')
  {
    GoOn(config, j, Decide(i));
    j' := On(j, Decide(i));
    WeightStays(j.s, i);
  }

  lemma WeightStays(s: System, i: nat)
    requires i < |s.flights| && !s.flights[i].stage.Reported? && !s.flights[i].stage.Counted?
    ensures Decided(s, i).service.weight == s.service.weight
  {
    hide NextStage, Moved;
  }

  lemma Counts(config: Service.Config, j: Journey, i: nat) returns (j': Journey)
    requires Reaches(config, j) && i < |j.s.flights| && j.s.flights[i].Flight? && j.s.flights[i].stage.Reported?
    ensures Reaches(config, j')
    ensures j'.s == j.s.(flights := j.s.flights[i := j.s.flights[i].(stage := Counted)],
                         service := Service.Counted(j.s.service, j.s.flights[i].signal))
    ensures j'.moved == j.moved + Distance(j.s.service.weight, j'.s.service.weight)
    ensures j'.weights == j.weights + [j'.s.service.weight]
  {
    GoOn(config, j, Count(i));
    j' := On(j, Count(i));
  }

  lemma Stores(config: Service.Config, j: Journey, i: nat) returns (j': Journey)
    requires Reaches(config, j) && i < |j.s.flights| && j.s.flights[i].Flight? && j.s.flights[i].stage.Counted?
    ensures Reaches(config, j') && SameWeights(j, j')
    ensures j'.s == j.s.(flights := j.s.flights[i := j.s.flights[i].(stage := Deciding)],
                         pending := Stored(j.s.pending, j.s.flights[i].slot, j.s.flights[i].signal, Coalesce),
                         stores := j.s.stores + 1,
                         untried := j'.s.untried)
  {
    GoOn(config, j, Queue(i));
    j' := On(j, Queue(i));
  }

  function UpState(server: Real.Config): Real.State {
    Real.State(true, server.weight, 1, false, false)
  }

  /** The service has just started, and its first decision has found it down. */
  lemma Started(config: Service.Config) returns (j: Journey)
    requires VerdictAt(config, 0) == Some(false)
    ensures Reaches(config, j) && j.s == Start(config).(flights := []) && j.moved == 0 && j.weights == [0]
  {
    j := Begins(config);
    hide IsRun, Run, Reaches, On, Possible;
    j := Advances(config, j, 0);
    assert j.s.flights == [Reload(Weighed(0))];
    j := Advances(config, j, 0);
    assert j.s.flights == [Reload(Judged(false))];
    j := Advances(config, j, 0);
    assert j.s.flights == [];
  }

  lemma Begins(config: Service.Config) returns (j: Journey)
    ensures Reaches(config, j) && j.s == Start(config) && j.moved == 0 && j.weights == [0]
  {
    j := Journey([], Start(config), 0, [0]);
  }

  /** What a real says when it comes up or goes down, neither inhibited nor with a dynamic weight. */
  function Says(server: Real.Config, state: Real.State, typ: EventType): Signal {
    Real.Report(server, state, typ, Incoming(typ, 0))
  }

  predicate Plain(server: Real.Config, state: Real.State, typ: EventType) {
    !state.dynWeight && !state.inhibited && !server.inhibitOnFailure && typ != Shutdown && (state.alive <==> typ == Disable)
  }

  /** The only real changes; the event is counted, stored and judged. */
  lemma Arrives(config: Service.Config, j: Journey, server: Real.Config, state: Real.State, typ: EventType, up: bool) returns (j': Journey)
    requires Reaches(config, j) && j.s.slots == [Slot(true, server, state)] && Plain(server, state, typ)
    requires VerdictAt(j.s.config, Service.Counted(j.s.service, Says(server, state, typ)).weight) == Some(up)
    ensures Reaches(config, j')
    ensures var sig := Says(server, state, typ);
            j'.s == j.s.(slots := [Slot(true, server, Real.After(server, state, typ, Incoming(typ, 0).weight))],
                         flights := j.s.flights + [Flight(0, sig, Judged(up))],
                         service := Service.Counted(j.s.service, sig),
                         pending := Stored(j.s.pending, 0, sig, Coalesce),
                         stores := j.s.stores + 1,
                         untried := j'.s.untried)
    ensures j'.moved == j.moved + Distance(j.s.service.weight, j'.s.service.weight)
    ensures j'.weights == j.weights + [j'.s.service.weight]
  {
    hide IsRun, Run, Reaches, On, Possible, Stored, Service.Counted, Says, Real.After, VerdictAt;
    var i, sig := |j.s.flights|, Says(server, state, typ);
    j' := Raises(config, j, server, state, typ);
    j' := Counts(config, j', i);
    assert j'.s.flights == j.s.flights + [Flight(0, sig, Counted)];
    j' := Stores(config, j', i);
    assert j'.s.flights == j.s.flights + [Flight(0, sig, Deciding)];
    j' := Judges(config, j', i, up);
    assert j'.s.flights == j.s.flights + [Flight(0, sig, Judged(up))];
  }

  lemma Raises(config: Service.Config, j: Journey, server: Real.Config, state: Real.State, typ: EventType) returns (j': Journey)
    requires Reaches(config, j) && j.s.slots == [Slot(true, server, state)] && Plain(server, state, typ)
    ensures Reaches(config, j')
    ensures j'.s == j.s.(slots := [Slot(true, server, Real.After(server, state, typ, Incoming(typ, 0).weight))],
                         flights := j.s.flights + [Flight(0, Says(server, state, typ), Stage.Reported)])
    ensures SameWeights(j, j')
  {
    GoOn(config, j, Check(0, typ, 0));
    j' := On(j, Check(0, typ, 0));
  }

  /** A handler reads the weight and judges it. */
  lemma Judges(config: Service.Config, j: Journey, i: nat, up: bool) returns (j': Journey)
    requires Reaches(config, j) && i < |j.s.flights| && j.s.flights[i].stage.Deciding?
    requires VerdictAt(j.s.config, j.s.service.weight) == Some(up)
    ensures Reaches(config, j') && j'.s == j.s.(flights := j.s.flights[i := j.s.flights[i].(stage := Judged(up))])
    ensures SameWeights(j, j')
  {
    hide IsRun, Run, Reaches, On, Possible;
    var f := j.s.flights[i];
    j' := Advances(config, j, i);
    assert j'.s.flights == j.s.flights[i := f.(stage := Weighed(j.s.service.weight))];
    j' := Advances(config, j', i);
    assert j'.s.flights == j.s.flights[i := f.(stage := Judged(up))];
  }

  /** The service has the verdict already. */
  lemma Confirms(config: Service.Config, j: Journey, i: nat) returns (j': Journey)
    requires Reaches(config, j) && i < |j.s.flights| && j.s.flights[i].stage == Judged(j.s.service.alive)
    ensures Reaches(config, j') && j'.s == j.s.(flights := RemoveAt(j.s.flights, i))
  {
    hide IsRun, Run, Reaches, On, Possible;
    j' := Advances(config, j, i);
  }

  /** The verdict is switched. */
  lemma Switches(config: Service.Config, j: Journey, i: nat, up: bool) returns (j': Journey)
    requires Reaches(config, j) && i < |j.s.flights| && j.s.flights[i].stage == Judged(up) && j.s.service.alive != up
    ensures Reaches(config, j')
    ensures j'.s == j.s.(flights := j.s.flights[i := j.s.flights[i].(stage := Switched)],
                         service := j.s.service.(alive := up, transitions := j.s.service.transitions + 1))
  {
    hide IsRun, Run, Reaches, On, Possible;
    var f := j.s.flights[i];
    j' := Advances(config, j, i);
    assert j'.s.flights == j.s.flights[i := f.(stage := Looked(up))];
    j' := Advances(config, j', i);
    assert j'.s.flights == j.s.flights[i := f.(stage := Switched)];
  }

  lemma Reads(config: Service.Config, j: Journey, i: nat) returns (j': Journey)
    requires Reaches(config, j) && i < |j.s.flights| && j.s.flights[i].stage.Switched?
    ensures Reaches(config, j')
    ensures j'.s == j.s.(flights := Moved(j.s.flights, i, if j.s.config.announceGroup == "" then None else Some(Registering(j.s.service.alive))))
  {
    hide IsRun, Run, Reaches, On, Possible;
    j' := Advances(config, j, i);
  }

  lemma Registers(config: Service.Config, j: Journey, i: nat) returns (j': Journey)
    requires Reaches(config, j) && i < |j.s.flights| && j.s.flights[i].stage.Registering?
    ensures Reaches(config, j')
    ensures j'.s == j.s.(flights := RemoveAt(j.s.flights, i),
                         status := MergeInto(j.s.status, j.s.flights[i].stage.status, Cancel), stamp := j.s.stores)
  {
    hide IsRun, Run, Reaches, On, Possible;
    j' := Advances(config, j, i);
  }

  /** One whole update cycle in which the load balancer refuses nothing. */
  lemma Cycles(config: Service.Config, j: Journey) returns (j': Journey)
    requires Reaches(config, j) && j.s.updater.Idle?
    ensures Reaches(config, j')
    ensures j'.s == j.s.(pending := map[], enabled := Served(j.s, {}), status := None, untried := {},
                         announced := if j.s.status.Some? && j.s.listed then j.s.status.value else j.s.announced)
  {
    hide Served;
    GoOn(config, j, Take);
    var j1 := On(j, Take);
    var taken := j.s.(status := None, updater := Updater.Taken(j.s.status, j.s.stamp));
    assert j1.s == taken;
    j' := Offers(config, j1, j.s);
    GoOn(config, j', Deliver);
    j' := On(j', Deliver);
  }

  lemma Offers(config: Service.Config, j: Journey, before: System) returns (j': Journey)
    requires Reaches(config, j) && j.s.updater.Taken? && j.s.pending == before.pending && j.s.enabled == before.enabled
    ensures Reaches(config, j')
    ensures j'.s == j.s.(pending := map[], enabled := Served(before, {}), untried := {},
                         updater := Processed(j.s.updater.status, j.s.updater.stamp))
  {
    hide Served;
    GoOn(config, j, Process({}));
    j' := On(j, Process({}));
    SameServed(before, j.s);
    assert j'.s.pending == map[];
  }

  lemma SameServed(s: System, s': System)
    requires s'.pending == s.pending && s'.enabled == s.enabled
    ensures Served(s', {}) == Served(s, {})
  {
  }

  lemma Enters(config: Service.Config, j: Journey, server: Real.Config) returns (j': Journey)
    requires Reaches(config, j) && j.s.slots == []
    ensures Reaches(config, j') && j'.s == j.s.(slots := [Slot(true, server, Real.FRESH)])
    ensures SameWeights(j, j')
  {
    GoOn(config, j, Add(server));
    j' := On(j, Add(server));
  }

  /** What the load balancer holds after a cycle in which one real's event was pending. */
  lemma ServedOne(s: System, e: Signal)
    requires s.pending == map[0 := e] && s.enabled == map[]
    ensures Served(s, {}) == if e.next.enable then map[0 := e.next.weight] else map[]
  {
  }

  function Rises(server: Real.Config): Signal {
    Signal(Enable, Status(true, server.weight), OFF)
  }

  /** The one real has come up, and the service is about to switch its verdict. */
  lemma ComesUp(config: Service.Config, server: Real.Config) returns (j: Journey)
    requires 0 < config.quorum + config.hysteresis <= server.weight && !server.inhibitOnFailure
    ensures Reaches(config, j)
    ensures j.s == Start(config).(slots := [Slot(true, server, UpState(server))],
                                  flights := [Flight(0, Rises(server), Judged(true))],
                                  service := Service.State(false, server.weight, 1, 0),
                                  pending := map[0 := Rises(server)], stores := 1, untried := j.s.untried)
    ensures j.moved == server.weight
  {
    hide IsRun, Run, Reaches, On, Possible;
    j := Started(config);
    j := Enters(config, j, server);
    j := Arrives(config, j, server, Real.FRESH, Enable, true);
    assert j.s.flights == [Flight(0, Rises(server), Judged(true))];
  }

  /** A decision overtaken by another event: it judges a weight the service has lost by the time it
      switches the verdict. At rest no real serves and the service is announced. */
  lemma OvertakenDecision(config: Service.Config, server: Real.Config) returns (j: Journey)
    requires 0 < config.quorum + config.hysteresis <= server.weight && config.announceGroup != "" && !server.inhibitOnFailure
    ensures Reaches(config, j) && AtRest(j.s)
    ensures j.s.service.weight == 0 == j.s.service.realsAlive && j.s.enabled == map[]
    ensures j.s.service.alive && j.s.listed && j.s.announced
  {
    hide Served, IsRun, Run, Reaches, On, Possible;
    j := ComesUp(config, server);
    j := Arrives(config, j, server, UpState(server), Disable, false);
    j := Confirms(config, j, 1);
    assert j.s.flights == [Flight(0, Rises(server), Judged(true))];
    var e := Rises(server).(next := Incoming(Disable, 0));
    assert j.s.pending == map[0 := e];
    hide Stored;
    j := Switches(config, j, 0, true);
    j := Reads(config, j, 0);
    j := Registers(config, j, 0);
    assert j.s.flights == [];
    ServedOne(j.s, e);
    j := Cycles(config, j);
  }

  /** A service that gets its announce group while it is alive: the announcer learns of it as disabled, and
      the decision after the reload finds nothing to change. It is never announced. */
  lemma GroupGivenLate(config: Service.Config, server: Real.Config, group: string) returns (j: Journey)
    requires 0 < config.quorum + config.hysteresis <= server.weight && config.announceGroup == "" && group != ""
    requires !server.inhibitOnFailure
    ensures Reaches(config, j) && AtRest(j.s)
    ensures j.s.config == config.(announceGroup := group) && j.s.listed
    ensures j.s.service.weight == server.weight && j.s.enabled == map[0 := server.weight]
    ensures j.s.service.alive && !j.s.announced
  {
    hide Served, IsRun, Run, Reaches, On, Possible;
    j := ComesUp(config, server);
    j := Switches(config, j, 0, true);
    j := Reads(config, j, 0);
    assert j.s.flights == [];
    ServedOne(j.s, Rises(server));
    j := Cycles(config, j);
    j := Reloads(config, j, group);
    j := Judges(config, j, 0, true);
    j := Confirms(config, j, 0);
    assert j.s.flights == [];
  }

  lemma Reloads(config: Service.Config, j: Journey, group: string) returns (j': Journey)
    requires Reaches(config, j) && j.s.flights == [] && !j.s.listed
    ensures Reaches(config, j')
    ensures j'.s == j.s.(listed := true, announced := false, config := j.s.config.(announceGroup := group), flights := [Reload(Deciding)])
  {
    GoOn(config, j, List(true));
    var j1 := On(j, List(true));
    GoOn(config, j1, Load(j.s.config.(announceGroup := group)));
    j' := On(j1, Load(j.s.config.(announceGroup := group)));
  }

  /** Registrations overtaken by each other: the service goes up, down and up again, each verdict switched
      before the next event is counted; but the withdrawal is stored last and cancels the announcement. */
  lemma OvertakenRegistration(config: Service.Config, server: Real.Config) returns (j: Journey)
    requires 0 < config.quorum + config.hysteresis <= server.weight && config.announceGroup != "" && !server.inhibitOnFailure
    ensures Reaches(config, j) && AtRest(j.s)
    ensures j.s.service.weight == server.weight && j.s.enabled == map[0 := server.weight]
    ensures j.s.service.alive && j.s.listed && !j.s.announced
  {
    hide Served, IsRun, Run, Reaches, On, Possible;
    var fall := Signal(Disable, Incoming(Disable, 0), Status(true, server.weight));
    j := ComesUp(config, server);
    j := SwitchesAndReads(config, j, 0, true);
    j := Arrives(config, j, server, UpState(server), Disable, false);
    assert j.s.pending == map[0 := Rises(server).(next := Incoming(Disable, 0))];
    j := SwitchesAndReads(config, j, 1, false);
    var downState := UpState(server).(alive := false, transitions := 2);
    assert j.s.slots == [Slot(true, server, downState)];
    j := Arrives(config, j, server, downState, Enable, true);
    assert j.s.pending == map[0 := Rises(server)];
    hide Stored;
    j := SwitchesAndReads(config, j, 2, true);
    j := Registers(config, j, 0);
    j := Registers(config, j, 1);
    j := Registers(config, j, 0);
    assert j.s.flights == [];
    ServedOne(j.s, Rises(server));
    j := Cycles(config, j);
  }

  lemma SwitchesAndReads(config: Service.Config, j: Journey, i: nat, up: bool) returns (j': Journey)
    requires Reaches(config, j) && i < |j.s.flights| && j.s.flights[i].stage == Judged(up) && j.s.service.alive != up
    requires j.s.config.announceGroup != ""
    ensures Reaches(config, j')
    ensures j'.s == j.s.(flights := j.s.flights[i := j.s.flights[i].(stage := Registering(up))],
                         service := j.s.service.(alive := up, transitions := j.s.service.transitions + 1))
  {
    hide IsRun, Run, Reaches, On, Possible;
    j' := Switches(config, j, i, up);
    j' := Reads(config, j', i);
    assert j'.s.flights == j.s.flights[i := j.s.flights[i].(stage := Registering(up))];
  }

  /** A verdict switched twice: two handlers look before either of them has switched. The service is up after
      two transitions, and its weight has moved for one. */
  lemma VerdictSwitchedTwice(config: Service.Config, server: Real.Config) returns (j: Journey)
    requires 0 < config.quorum + config.hysteresis <= server.weight && config.announceGroup == "" && !server.inhibitOnFailure
    ensures Reaches(config, j) && Idling(j.s)
    ensures j.s.config == config && j.s.service == Service.State(true, server.weight, 1, 2) && !Parity(j.s)
    ensures Travelled(config, j.steps) == server.weight
    ensures config.quorum == config.hysteresis && server.weight == config.quorum + config.hysteresis ==>
              Travelled(config, j.steps) < Hysteresis.Band(config) * j.s.service.transitions
  {
    hide IsRun, Run, Reaches, On, Possible, Travelled;
    j := ComesUp(config, server);
    j := LoadsAgain(config, j);
    j := Judges(config, j, 1, true);
    assert j.s.flights == [Flight(0, Rises(server), Judged(true)), Reload(Judged(true))];
    j := BothSwitch(config, j, Flight(0, Rises(server), Judged(true)));
    MovedIsTravelled(config, j);
  }

  lemma MovedIsTravelled(config: Service.Config, j: Journey)
    requires Reaches(config, j)
    ensures j.moved == Travelled(config, j.steps) && j.weights == GoneThrough(config, j.steps)
  {
  }

  lemma LoadsAgain(config: Service.Config, j: Journey) returns (j': Journey)
    requires Reaches(config, j) && j.s.config == config && forall f <- j.s.flights :: !f.Reload?
    ensures Reaches(config, j') && j'.s == j.s.(flights := j.s.flights + [Reload(Deciding)]) && SameWeights(j, j')
  {
    GoOn(config, j, Load(config));
    j' := On(j, Load(config));
  }

  lemma BothSwitch(config: Service.Config, j: Journey, f: Flight) returns (j': Journey)
    requires Reaches(config, j) && j.s.flights == [f, Reload(Judged(true))] && f.stage == Judged(true)
    requires !j.s.service.alive && j.s.config.announceGroup == ""
    ensures Reaches(config, j') && SameWeights(j, j')
    ensures j'.s == j.s.(flights := [], service := j.s.service.(alive := true, transitions := j.s.service.transitions + 2))
  {
    hide IsRun, Run, Reaches, On, Possible;
    j' := Advances(config, j, 0);
    assert j'.s.flights == [f.(stage := Looked(true)), Reload(Judged(true))];
    j' := Advances(config, j', 1);
    assert j'.s.flights == [f.(stage := Looked(true)), Reload(Looked(true))];
    j' := Advances(config, j', 0);
    assert j'.s.flights == [f.(stage := Switched), Reload(Looked(true))];
    j' := Advances(config, j', 1);
    assert j'.s.flights == [f.(stage := Switched), Reload(Switched)];
    j' := Advances(config, j', 0);
    assert j'.s.flights == [Reload(Switched)];
    j' := Advances(config, j', 0);
    assert j'.s.flights == [];
  }

  /** A verdict nobody reads: the service goes up to a weight with a verdict and on to one in the hold band
      before any decision reads it. The service stays down. */
  lemma VerdictNeverRead(config: Service.Config, server: Real.Config, lighter: Real.Config) returns (j: Journey)
    requires VerdictAt(config, 0) == Some(false) && VerdictAt(config, server.weight) == Some(true)
    requires VerdictAt(config, lighter.weight) == None && !server.inhibitOnFailure && !lighter.inhibitOnFailure
    ensures Reaches(config, j) && Idling(j.s) && j.s.config == config
    ensures GoneThrough(config, j.steps) == [0, server.weight, lighter.weight]
    ensures !j.s.service.alive && Hysteresis.LastVerdict(config, GoneThrough(config, j.steps))
  {
    hide IsRun, Run, Reaches, On, Possible, GoneThrough, VerdictAt, Hysteresis.LastVerdict, Stored;
    var first, second := Rises(server), Changes(server, lighter);
    j := TwoCounted(config, server, lighter);
    j := Stores(config, j, 0);
    assert j.s.flights == [Flight(0, first, Deciding), Flight(0, second, Counted)];
    j := Stores(config, j, 1);
    assert j.s.flights == [Flight(0, first, Deciding), Flight(0, second, Deciding)];
    j := Holds(config, j, 0);
    assert j.s.flights == [Flight(0, second, Deciding)];
    j := Holds(config, j, 0);
    assert j.s.flights == [];
    MovedIsTravelled(config, j);
    assert [0] + [server.weight] == [0, server.weight] && [0, server.weight] + [lighter.weight] == [0, server.weight, lighter.weight];
    LastOne(config, [0] + [server.weight], lighter.weight);
    LastOne(config, [0], server.weight);
  }

  function Changes(server: Real.Config, lighter: Real.Config): Signal {
    Signal(Enable, Status(true, lighter.weight), Status(true, server.weight))
  }

  lemma TwoCounted(config: Service.Config, server: Real.Config, lighter: Real.Config) returns (j: Journey)
    requires VerdictAt(config, 0) == Some(false) && lighter.weight != server.weight && !server.inhibitOnFailure
    ensures Reaches(config, j) && j.s.config == config && j.s.service == Service.State(false, lighter.weight, 1, 0)
    ensures j.s.flights == [Flight(0, Rises(server), Counted), Flight(0, Changes(server, lighter), Counted)]
    ensures j.weights == [0, server.weight, lighter.weight]
  {
    hide IsRun, Run, Reaches, On, Possible, VerdictAt;
    j := Started(config);
    j := Enters(config, j, server);
    j := Raises(config, j, server, Real.FRESH, Enable);
    assert j.s.flights == [Flight(0, Rises(server), Stage.Reported)];
    j := Counts(config, j, 0);
    assert j.s.flights == [Flight(0, Rises(server), Counted)];
    j := Lightens(config, j, server, lighter);
    assert j.s.flights == [Flight(0, Rises(server), Counted), Flight(0, Changes(server, lighter), Stage.Reported)];
    j := Counts(config, j, 1);
    assert j.s.flights == [Flight(0, Rises(server), Counted), Flight(0, Changes(server, lighter), Counted)];
  }

  lemma Lightens(config: Service.Config, j: Journey, server: Real.Config, lighter: Real.Config) returns (j': Journey)
    requires Reaches(config, j) && j.s.slots == [Slot(true, server, UpState(server))] && lighter.weight != server.weight
    ensures Reaches(config, j') && SameWeights(j, j')
    ensures j'.s == j.s.(slots := [Slot(true, lighter, UpState(lighter))],
                         flights := j.s.flights + [Flight(0, Changes(server, lighter), Stage.Reported)])
  {
    GoOn(config, j, Configure(0, lighter));
    var j1 := On(j, Configure(0, lighter));
    assert j1.s == j.s.(slots := [Slot(true, lighter, UpState(server))]);
    hide Reaches;
    j' := Reweighs(config, j1, server, lighter);
  }

  lemma Reweighs(config: Service.Config, j: Journey, server: Real.Config, lighter: Real.Config) returns (j': Journey)
    requires Reaches(config, j) && j.s.slots == [Slot(true, lighter, UpState(server))] && lighter.weight != server.weight
    ensures Reaches(config, j') && SameWeights(j, j')
    ensures j'.s == j.s.(slots := [Slot(true, lighter, UpState(lighter))],
                         flights := j.s.flights + [Flight(0, Changes(server, lighter), Stage.Reported)])
  {
    GoOn(config, j, Check(0, Enable, 0));
    j' := On(j, Check(0, Enable, 0));
  }

  /** A decision reads a weight in the hold band and ends. */
  lemma Holds(config: Service.Config, j: Journey, i: nat) returns (j': Journey)
    requires Reaches(config, j) && i < |j.s.flights| && j.s.flights[i].stage.Deciding?
    requires VerdictAt(j.s.config, j.s.service.weight) == None
    ensures Reaches(config, j') && SameWeights(j, j') && j'.s == j.s.(flights := RemoveAt(j.s.flights, i))
  {
    hide IsRun, Run, Reaches, On;
    var j1 := Advances(config, j, i);
    j' := Advances(config, j1, i);
  }
}
