/**
 `handleCert` as the program of CertEndpoint is a run of the machine of Issuance: one request's arrival,
 the calls of its CheckAndSet with any doings of other handlers between them, and its answer. So what
 holds in every reachable state of that machine holds of the program.
 */
module EndpointRuns {
  import opened Addresses
  import NP = NodePasswords
  import opened SecretStore
  import opened Issuance
  import opened CertEndpoint

  /** What other handlers and the cluster do before one call of a CheckAndSet, and how the call fares. */
  datatype ShimTurn = ShimTurn(others: seq<Event>, fault: NP.Fault, salt: NP.Salt)

  const QUIET_TURN := ShimTurn([], NP.NoFault, QUIET.salt)

  function FirstTurn(turns: seq<ShimTurn>): ShimTurn { if turns == [] then QUIET_TURN else turns[0] }

  function RestTurns(turns: seq<ShimTurn>): seq<ShimTurn> { if turns == [] then [] else turns[1..] }

  /** Events of everyone but this request. */
  predicate Others(events: seq<Event>, id: nat) {
    forall e | e in events ::
      && !((e.Conclude? || e.SignNow?) && e.id == id)
      && !(e.Elsewhere? && e.e.Proceed? && e.e.id == id)
  }

  predicate OthersInTurns(turns: seq<ShimTurn>, id: nat) {
    forall i | 0 <= i < |turns| :: Others(turns[i].others, id)
  }

  function TurnEvents(turn: ShimTurn, id: nat): seq<Event> {
    turn.others + [Elsewhere(NP.Proceed(id, turn.fault, turn.salt))]
  }

  function CallEvents(id: nat, turns: seq<ShimTurn>, calls: nat): seq<Event> {
    if calls == 0 then [] else TurnEvents(FirstTurn(turns), id) + CallEvents(id, RestTurns(turns), calls - 1)
  }

  // ---------- any machine ----------

  /** How events change the state, and what they are to the cluster. */
  datatype Machine = Machine(run: (Shim, seq<Event>) -> Shim, project: (Shim, seq<Event>) -> seq<NP.Event>)

  /** What a turn is to the cluster. */
  function StoreTurn(m: Machine, s: Shim, turn: ShimTurn): Turn {
    Turn(m.project(s, turn.others), turn.fault, turn.salt)
  }

  /** What turns are to the cluster. */
  function ScriptOf(m: Machine, s: Shim, id: nat, turns: seq<ShimTurn>): seq<Turn>
    decreases |turns|
  {
    if turns == [] then []
    else [StoreTurn(m, s, turns[0])] + ScriptOf(m, m.run(s, TurnEvents(turns[0], id)), id, turns[1..])
  }

  /** The state after the first `calls` turns. */
  function AfterCalls(m: Machine, s: Shim, id: nat, turns: seq<ShimTurn>, calls: nat): Shim
    decreases calls
  {
    if calls == 0 then s
    else AfterCalls(m, m.run(s, TurnEvents(FirstTurn(turns), id)), id, RestTurns(turns), calls - 1)
  }

  predicate Joins(m: Machine, s: Shim, a: seq<Event>, b: seq<Event>) { m.run(s, a + b) == m.run(m.run(s, a), b) }

  /** One turn of the machine is one turn of the store, and leaves the request's handler as it is. */
  ghost predicate Tracks(m: Machine, lib: NP.Library, id: nat, s: Shim, turn: ShimTurn) {
    Others(turn.others, id) && id in s.handlers ==>
      var s' := m.run(s, TurnEvents(turn, id));
      && s'.cluster == AfterTurn(lib, s.cluster, id, StoreTurn(m, s, turn))
      && id in s'.handlers && s'.handlers[id] == s.handlers[id]
      && Foreign(m.project(s, turn.others), id)
  }

  ghost predicate Lawful(m: Machine, lib: NP.Library, id: nat) {
    && (forall s: Shim :: m.run(s, []) == s && m.project(s, []) == [])
    && (forall s: Shim, a: seq<Event>, b: seq<Event> :: Joins(m, s, a, b))
    && (forall s: Shim, turn: ShimTurn :: Tracks(m, lib, id, s, turn))
  }

  lemma {:induction false} CallsAreTurns(m: Machine, lib: NP.Library, s: Shim, id: nat, turns: seq<ShimTurn>,
                                         calls: nat)
    requires Lawful(m, lib, id)
    ensures m.run(s, CallEvents(id, turns, calls)) == AfterCalls(m, s, id, turns, calls)
    decreases calls
  {
    if calls > 0 {
      var first, rest := TurnEvents(FirstTurn(turns), id), CallEvents(id, RestTurns(turns), calls - 1);
      assert Joins(m, s, first, rest);
      CallsAreTurns(m, lib, m.run(s, first), id, RestTurns(turns), calls - 1);
    }
  }

  lemma ScriptFollows(m: Machine, lib: NP.Library, s: Shim, id: nat, turns: seq<ShimTurn>)
    requires Lawful(m, lib, id)
    ensures First(ScriptOf(m, s, id, turns)) == StoreTurn(m, s, FirstTurn(turns))
    ensures Rest(ScriptOf(m, s, id, turns)) == ScriptOf(m, m.run(s, TurnEvents(FirstTurn(turns), id)), id,
                                                        RestTurns(turns))
  {
  }

  lemma {:induction false} CallsAreAnExecution(m: Machine, lib: NP.Library, s: Shim, id: nat, turns: seq<ShimTurn>,
                                               calls: nat)
    requires Lawful(m, lib, id) && OthersInTurns(turns, id) && id in s.handlers
    ensures var s' := AfterCalls(m, s, id, turns, calls);
      && s'.cluster == Execution(lib, s.cluster, id, ScriptOf(m, s, id, turns), calls)
      && id in s'.handlers && s'.handlers[id] == s.handlers[id]
    decreases calls
  {
    if calls > 0 {
      assert Tracks(m, lib, id, s, FirstTurn(turns));
      ScriptFollows(m, lib, s, id, turns);
      CallsAreAnExecution(m, lib, m.run(s, TurnEvents(FirstTurn(turns), id)), id, RestTurns(turns), calls - 1);
    }
  }

  lemma {:induction false} ScriptIsForeign(m: Machine, lib: NP.Library, s: Shim, id: nat, turns: seq<ShimTurn>)
    requires Lawful(m, lib, id) && OthersInTurns(turns, id) && id in s.handlers
    ensures ForeignScript(ScriptOf(m, s, id, turns), id)
    decreases |turns|
  {
    if turns != [] {
      assert Tracks(m, lib, id, s, turns[0]);
      ScriptIsForeign(m, lib, m.run(s, TurnEvents(turns[0], id)), id, turns[1..]);
    }
  }

  // ---------- the machine of Issuance ----------

  function MachineOf(policy: Policy, cfg: Config, lib: NP.Library): Machine {
    Machine((s, events) => Run(policy, cfg, lib, s, events), (s, events) => ClusterEvents(policy, cfg, lib, s, events))
  }

  lemma {:induction false} RunAppend(policy: Policy, cfg: Config, lib: NP.Library, s: Shim, a: seq<Event>,
                                     b: seq<Event>)
    ensures Run(policy, cfg, lib, s, a + b) == Run(policy, cfg, lib, Run(policy, cfg, lib, s, a), b)
  {
    if b == [] {
      assert a + b == a;
    } else {
      assert (a + b)[..|a + b| - 1] == a + b[..|b| - 1];
      RunAppend(policy, cfg, lib, s, a, b[..|b| - 1]);
    }
  }

  lemma RunOneMore(policy: Policy, cfg: Config, lib: NP.Library, s: Shim, events: seq<Event>, e: Event)
    ensures Run(policy, cfg, lib, s, events + [e]) == Step(policy, cfg, lib, Run(policy, cfg, lib, s, events), e)
  {
    assert (events + [e])[..|events|] == events;
  }

  lemma {:induction false} OthersLeaveHandler(policy: Policy, cfg: Config, lib: NP.Library, s: Shim,
                                              events: seq<Event>, id: nat)
    requires Others(events, id) && id in s.handlers
    ensures var s' := Run(policy, cfg, lib, s, events); id in s'.handlers && s'.handlers[id] == s.handlers[id]
  {
    if events != [] { OthersLeaveHandler(policy, cfg, lib, s, events[..|events| - 1], id); }
  }

  /** What others do to the cluster is not this request's doing. */
  lemma {:induction false} OthersAreForeign(policy: Policy, cfg: Config, lib: NP.Library, s: Shim,
                                            events: seq<Event>, id: nat)
    requires Others(events, id) && id in s.handlers
    ensures Foreign(ClusterEvents(policy, cfg, lib, s, events), id)
  {
    if events != [] {
      var before := events[..|events| - 1];
      OthersAreForeign(policy, cfg, lib, s, before, id);
      OthersLeaveHandler(policy, cfg, lib, s, before, id);
      assert Foreign(ClusterEvent(policy, Run(policy, cfg, lib, s, before), events[|events| - 1]), id);
    }
  }

  lemma MachineTracks(policy: Policy, cfg: Config, lib: NP.Library, id: nat, s: Shim, turn: ShimTurn)
    ensures Tracks(MachineOf(policy, cfg, lib), lib, id, s, turn)
  {
    if Others(turn.others, id) && id in s.handlers {
      RunOneMore(policy, cfg, lib, s, turn.others, Elsewhere(NP.Proceed(id, turn.fault, turn.salt)));
      ClusterRuns(policy, cfg, lib, s, turn.others);
      OthersLeaveHandler(policy, cfg, lib, s, turn.others, id);
      OthersAreForeign(policy, cfg, lib, s, turn.others, id);
    }
  }

  lemma MachineIsLawful(policy: Policy, cfg: Config, lib: NP.Library, id: nat)
    ensures Lawful(MachineOf(policy, cfg, lib), lib, id)
  {
    var m := MachineOf(policy, cfg, lib);
    forall s: Shim, a: seq<Event>, b: seq<Event> ensures Joins(m, s, a, b) { RunAppend(policy, cfg, lib, s, a, b); }
    forall s: Shim, turn: ShimTurn ensures Tracks(m, lib, id, s, turn) { MachineTracks(policy, cfg, lib, id, s, turn); }
  }

  // ---------- one request ----------

  /** Everything the machine does for one request, others' events included. */
  function HandlerEvents(a: Admission, id: nat, http: Http, endpoints: seq<string>, turns: seq<ShimTurn>, calls: nat,
                         now: int, works: bool): seq<Event>
  {
    [Arrive(id, http, endpoints)] + (if a.Check? then CallEvents(id, turns, calls) + [Conclude(id)] else [])
    + [SignNow(id, now, works)]
  }

  predicate Shows(phase: Phase, response: Response) {
    match response
    case Status(code) => phase == Refused(code)
    case Pem(cert) => phase == Issued(cert)
  }

  /** And the state that leads to. */
  function Handled(policy: Policy, cfg: Config, lib: NP.Library, s: Shim, a: Admission, id: nat, http: Http,
                   endpoints: seq<string>, turns: seq<ShimTurn>, calls: nat, now: int, works: bool): Shim
  {
    var begun := Step(policy, cfg, lib, s, Arrive(id, http, endpoints));
    var settled := if !a.Check? then begun
                   else Step(policy, cfg, lib, AfterCalls(MachineOf(policy, cfg, lib), begun, id, turns, calls),
                             Conclude(id));
    Step(policy, cfg, lib, settled, SignNow(id, now, works))
  }

  lemma CheckedEvents(policy: Policy, cfg: Config, lib: NP.Library, s: Shim, id: nat, http: Http,
                      endpoints: seq<string>, turns: seq<ShimTurn>, calls: nat)
    ensures Run(policy, cfg, lib, s, [Arrive(id, http, endpoints)] + CallEvents(id, turns, calls)) ==
            AfterCalls(MachineOf(policy, cfg, lib), Step(policy, cfg, lib, s, Arrive(id, http, endpoints)), id,
                       turns, calls)
  {
    var arrive, called := Arrive(id, http, endpoints), CallEvents(id, turns, calls);
    RunOneMore(policy, cfg, lib, s, [], arrive);
    assert [] + [arrive] == [arrive];
    RunAppend(policy, cfg, lib, s, [arrive], called);
    MachineIsLawful(policy, cfg, lib, id);
    CallsAreTurns(MachineOf(policy, cfg, lib), lib, Step(policy, cfg, lib, s, arrive), id, turns, calls);
  }

  lemma HandledIsARun(policy: Policy, cfg: Config, lib: NP.Library, s: Shim, a: Admission, id: nat, http: Http,
                      endpoints: seq<string>, turns: seq<ShimTurn>, calls: nat, now: int, works: bool)
    ensures Run(policy, cfg, lib, s, HandlerEvents(a, id, http, endpoints, turns, calls, now, works)) ==
            Handled(policy, cfg, lib, s, a, id, http, endpoints, turns, calls, now, works)
  {
    var arrive, sign := Arrive(id, http, endpoints), SignNow(id, now, works);
    var events := HandlerEvents(a, id, http, endpoints, turns, calls, now, works);
    if a.Check? {
      var called := CallEvents(id, turns, calls);
      CheckedEvents(policy, cfg, lib, s, id, http, endpoints, turns, calls);
      RunOneMore(policy, cfg, lib, s, [arrive] + called, Conclude(id));
      RunOneMore(policy, cfg, lib, s, [arrive] + called + [Conclude(id)], sign);
      assert events == [arrive] + called + [Conclude(id)] + [sign];
    } else {
      RunOneMore(policy, cfg, lib, s, [], arrive);
      assert [] + [arrive] == [arrive];
      RunOneMore(policy, cfg, lib, s, [arrive], sign);
      assert events == [arrive] + [sign];
    }
  }

  /** The script of a request that arrives at s. */
  ghost function ArrivalScript(cfg: Config, lib: NP.Library, s: Shim, id: nat, http: Http, endpoints: seq<string>,
                               turns: seq<ShimTurn>): seq<Turn>
  {
    ScriptOf(MachineOf(PolicyOf(cfg), cfg, lib), Step(PolicyOf(cfg), cfg, lib, s, Arrive(id, http, endpoints)), id,
             turns)
  }

  /** The machine comes to what HandleCert answers and leaves behind. */
  lemma HandledShows(cfg: Config, lib: NP.Library, s: Shim, id: nat, http: Http, endpoints: seq<string>,
                     turns: seq<ShimTurn>, calls: nat, now: int, works: bool, after: NP.Cluster, response: Response)
    requires id !in s.handlers && id !in s.cluster.requests && OthersInTurns(turns, id)
    requires Responds(cfg, lib, Admit(cfg, endpoints, http), id, http,
                      ArrivalScript(cfg, lib, s, id, http, endpoints, turns),
                      calls, now, works, s.cluster, after, response)
    ensures var end := Handled(PolicyOf(cfg), cfg, lib, s, Admit(cfg, endpoints, http), id, http, endpoints, turns,
                               calls, now, works);
      end.cluster == after && id in end.handlers && Shows(end.handlers[id].phase, response)
  {
    var policy, a := PolicyOf(cfg), Admit(cfg, endpoints, http);
    if a.Check? {
      var m, begun := MachineOf(policy, cfg, lib), Step(policy, cfg, lib, s, Arrive(id, http, endpoints));
      AdmittedBegins(policy, cfg, lib, s, id, http, endpoints, a.ips);
      MachineIsLawful(policy, cfg, lib, id);
      CallsAreAnExecution(m, lib, begun, id, turns, calls);
      Concludes(policy, cfg, lib, AfterCalls(m, begun, id, turns, calls), id, now, works);
    } else {
      UncheckedShows(cfg, lib, s, id, http, endpoints, now, works);
    }
  }

  lemma AdmittedBegins(policy: Policy, cfg: Config, lib: NP.Library, s: Shim, id: nat, http: Http,
                       endpoints: seq<string>, ips: seq<Ip>)
    requires id !in s.handlers && id !in s.cluster.requests && policy(endpoints, http) == Check(ips)
    ensures var begun := Step(policy, cfg, lib, s, Arrive(id, http, endpoints));
      && begun.cluster == NP.Step(lib, s.cluster, NP.Start(id, http.nodeName, http.nodePassword))
      && id in begun.handlers && begun.handlers[id] == Handler(http, endpoints, ips, Checking)
  {
  }

  /** A request that does not reach the store is refused, or goes on to be signed. */
  lemma UncheckedShows(cfg: Config, lib: NP.Library, s: Shim, id: nat, http: Http, endpoints: seq<string>, now: int,
                       works: bool)
    requires id !in s.handlers && id !in s.cluster.requests && !Admit(cfg, endpoints, http).Check?
    requires Admit(cfg, endpoints, http).Direct? ==> BodyReadable(http)
    ensures var policy, a := PolicyOf(cfg), Admit(cfg, endpoints, http);
      var end := Step(policy, cfg, lib, Step(policy, cfg, lib, s, Arrive(id, http, endpoints)),
                      SignNow(id, now, works));
      && end.cluster == s.cluster && id in end.handlers
      && (a.Reject? ==> end.handlers[id].phase == Refused(a.code))
      && (a.Direct? ==> Shows(end.handlers[id].phase, Final(cfg, http, [], NP.Accepted, now, works)))
  {
  }

  /** Once its CheckAndSet is done, concluding and signing give what HandleCert answers. */
  lemma Concludes(policy: Policy, cfg: Config, lib: NP.Library, s: Shim, id: nat, now: int, works: bool)
    requires id in s.handlers && s.handlers[id].phase.Checking? && BodyReadable(s.handlers[id].http)
    requires id in s.cluster.requests && s.cluster.requests[id].pc.Done?
    ensures var h := s.handlers[id];
      var end := Step(policy, cfg, lib, Step(policy, cfg, lib, s, Conclude(id)), SignNow(id, now, works));
      && end.cluster == s.cluster && id in end.handlers
      && Shows(end.handlers[id].phase, Final(cfg, h.http, h.ips, s.cluster.requests[id].pc.outcome, now, works))
  {
  }

  /** A call of HandleCert amid any doings of other handlers is a run of the machine: its script is one
      HandleCert takes, and whatever it answers and leaves in the store is what the machine comes to. */
  lemma HandleCertIsARun(cfg: Config, lib: NP.Library, c: NP.Cluster, past: seq<Event>, id: nat, http: Http,
                         endpoints: seq<string>, turns: seq<ShimTurn>, calls: nat, now: int, works: bool,
                         after: NP.Cluster, response: Response)
    requires var s := Reached(cfg, lib, c, past);
      && id !in s.handlers && id !in s.cluster.requests && OthersInTurns(turns, id)
      && Responds(cfg, lib, Admit(cfg, endpoints, http), id, http,
                  ArrivalScript(cfg, lib, s, id, http, endpoints, turns),
                  calls, now, works, s.cluster, after, response)
    ensures ForeignScript(ArrivalScript(cfg, lib, Reached(cfg, lib, c, past), id, http, endpoints, turns), id)
    ensures var events := HandlerEvents(Admit(cfg, endpoints, http), id, http, endpoints, turns, calls, now, works);
      var end := Reached(cfg, lib, c, past + events);
      end.cluster == after && id in end.handlers && Shows(end.handlers[id].phase, response)
  {
    var policy, a, s := PolicyOf(cfg), Admit(cfg, endpoints, http), Reached(cfg, lib, c, past);
    MachineIsLawful(policy, cfg, lib, id);
    ArrivalHasHandler(policy, cfg, lib, s, id, http, endpoints);
    ScriptIsForeign(MachineOf(policy, cfg, lib), lib, Step(policy, cfg, lib, s, Arrive(id, http, endpoints)), id,
                    turns);
    RunAppend(policy, cfg, lib, Shim(c, map[]), past, HandlerEvents(a, id, http, endpoints, turns, calls, now, works));
    HandledIsARun(policy, cfg, lib, s, a, id, http, endpoints, turns, calls, now, works);
    HandledShows(cfg, lib, s, id, http, endpoints, turns, calls, now, works, after, response);
  }

  lemma ArrivalHasHandler(policy: Policy, cfg: Config, lib: NP.Library, s: Shim, id: nat, http: Http,
                          endpoints: seq<string>)
    requires id !in s.handlers && id !in s.cluster.requests
    ensures id in Step(policy, cfg, lib, s, Arrive(id, http, endpoints)).handlers
  {
  }
}
