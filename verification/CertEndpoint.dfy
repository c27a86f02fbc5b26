/**
 `handleCert` (internal/supervisor/supervisor.go) as the program it is: checks, CheckAndSet against the
 shared store with everyone else's doings in between, and signing.
 */
module CertEndpoint {
  import opened Addresses
  import SS = ServingSans
  import opened Pki
  import opened Scrypt
  import NP = NodePasswords
  import opened SecretStore
  import opened Issuance

  datatype Response = Status(code: nat) | Pem(cert: Certificate)

  /** What the response is once CheckAndSet has answered. */
  function Final(cfg: Config, http: Http, ips: seq<Ip>, outcome: NP.Outcome, now: int, works: bool): Response
    requires BodyReadable(http)
  {
    if outcome != NP.Accepted then Status(CodeFor(outcome))
    else
      match Answer(cfg, Handler(http, [], ips, Signing), now, works)
      case Issued(cert) => Pem(cert)
      case Refused(code) => Status(code)
      case _ => Status(500)
  }

  class Endpoint {
    const cfg: Config
    const server: SS.Server
    const store: Store

    constructor (cfg: Config, server: SS.Server, store: Store)
      requires server.cfg == cfg.san
      ensures this.cfg == cfg && this.server == server && this.store == store
    {
      this.cfg, this.server, this.store := cfg, server, store;
    }

    /** The checks of a node-scoped request, up to the password store. */
    method NodeChecks(http: Http) returns (a: Admission)
      requires server.cfg == cfg.san && http.verb == "POST" && BodyReadable(http)
      requires CheckCsr(cfg.csr, http.body.value) && NodeScoped(Kind(http))
      ensures a == Admit(cfg, server.Endpoints(), http)
    {
      if http.nodeName == "" {
        return Reject(400);
      }
      if !ValidNodeName(http.nodeName) {
        return Reject(400);
      }
      var ips: seq<Ip> := [];
      if Kind(http) == SERVING {
        var sans := server.ServingSanIps(http.nodeIp);
        if sans == SS.Err(SS.BadConfig) {
          return Reject(500);
        }
        if sans.Err? {
          return Reject(400);
        }
        ips := sans.ips;
      }
      if http.nodePassword == "" {
        return Reject(400);
      }
      if !ValidPassword(http.nodePassword) {
        return Reject(400);
      }
      if !cfg.hasStore {
        return Reject(500);
      }
      AdmittedIffPassed(cfg, server.Endpoints(), http, ips);
      return Check(ips);
    }

    /** Signing, once the password is settled. */
    method Respond(http: Http, ips: seq<Ip>, now: int, works: bool) returns (response: Response)
      requires BodyReadable(http)
      ensures response == Final(cfg, http, ips, NP.Accepted, now, works)
    {
      var kind := Kind(http);
      var signer := cfg.ca;
      if kind == SERVING && cfg.servingCa.Some? {
        signer := cfg.servingCa.value;
      }
      var out := Sign(signer, cfg.csr, http.body.value, RequestFor(kind, http.nodeName, ips), now, works);
      match out {
        case BadCsr => return Status(400);
        case SignFailed => return Status(500);
        case Signed(cert) => return Pem(cert);
      }
    }

    /** The password check of a request that passed every other, and what follows from it. */
    method Settle(id: nat, http: Http, ips: seq<Ip>, script: seq<Turn>, now: int, works: bool)
      returns (response: Response, ghost calls: nat)
      requires BodyReadable(http)
      requires id !in store.cluster.requests && ForeignScript(script, id)
      modifies store
      ensures Checked(store.lib, id, http, script, calls, old(store.cluster), store.cluster)
      ensures response == Final(cfg, http, ips, store.cluster.requests[id].pc.outcome, now, works)
    {
      store.Begin(id, http.nodeName, http.nodePassword);
      var outcome;
      outcome, calls := store.CheckAndSet(id, http.nodeName, http.nodePassword, script);
      if outcome == NP.Failed(NP.NodeExists) {
        return Status(409), calls;
      }
      if outcome.Failed? {
        return Status(500), calls;
      }
      if outcome == NP.WrongPassword {
        return Status(409), calls;
      }
      response := Respond(http, ips, now, works);
    }

    /** Everything before the password store. */
    method Judge(http: Http) returns (a: Admission)
      requires server.cfg == cfg.san
      ensures a == Admit(cfg, server.Endpoints(), http)
      ensures !a.Reject? ==> BodyReadable(http)
    {
      if http.verb != "POST" {
        return Reject(405);
      }
      if http.body.None? || |http.body.value| > MAX_CSR_BYTES || |http.body.value| == 0 {
        return Reject(400);
      }
      if !CheckCsr(cfg.csr, http.body.value) {
        return Reject(400);
      }
      var kind := Kind(http);
      if kind == SERVING || kind == CLIENT {
        a := NodeChecks(http);
        return a;
      }
      if kind == KUBE_PROXY || kind == CONTROLLER {
        return Direct;
      }
      return Reject(501);
    }

    /** A refused request leaves the store alone and gets the code its first failing check deserves;
        an admitted one runs its own CheckAndSet, under its own name and amid what the script has others
        do, and gets what that and signing make of it. */
    method HandleCert(id: nat, http: Http, script: seq<Turn>, now: int, works: bool)
      returns (response: Response, ghost calls: nat)
      requires server.cfg == cfg.san
      requires id !in store.cluster.requests && ForeignScript(script, id)
      modifies store
      ensures Responds(cfg, store.lib, Admit(cfg, server.Endpoints(), http), id, http, script, calls, now, works,
                       old(store.cluster), store.cluster, response)
    {
      var a := Judge(http);
      calls := 0;
      match a {
        case Reject(code) => response := Status(code);
        case Direct => response := Respond(http, [], now, works);
        case Check(ips) => response, calls := Settle(id, http, ips, script, now, works);
      }
    }
  }

  /** The store has gone through one CheckAndSet of this request: its start, and `calls` calls amid what
      the script has others do, four to a round. */
  ghost predicate Checked(lib: NP.Library, id: nat, http: Http, script: seq<Turn>, calls: nat,
                          before: NP.Cluster, after: NP.Cluster)
  {
    var begun := NP.Step(lib, before, NP.Start(id, http.nodeName, http.nodePassword));
    && after == Execution(lib, begun, id, script, calls)
    && About(after, id, http.nodeName, http.nodePassword) && after.requests[id].pc.Done?
    && calls <= 4 * after.requests[id].retries + 4
    && (after.requests[id].pc.outcome == NP.Failed(NP.ApiError) <==> Faulted(script, calls))
  }

  /** What a request that was judged `a` on arrival gets, and what becomes of the store. */
  ghost predicate Responds(cfg: Config, lib: NP.Library, a: Admission, id: nat, http: Http, script: seq<Turn>,
                           calls: nat, now: int, works: bool, before: NP.Cluster, after: NP.Cluster, response: Response)
  {
    match a
    case Reject(code) => response == Status(code) && after == before
    case Direct =>
      && BodyReadable(http) && after == before
      && response == Final(cfg, http, [], NP.Accepted, now, works)
    case Check(ips) =>
      && BodyReadable(http) && Checked(lib, id, http, script, calls, before, after)
      && response == Final(cfg, http, ips, after.requests[id].pc.outcome, now, works)
  }

  lemma FinalIsPemIff(cfg: Config, http: Http, ips: seq<Ip>, outcome: NP.Outcome, now: int, works: bool)
    requires BodyReadable(http) && CheckCsr(cfg.csr, http.body.value)
    ensures var response := Final(cfg, http, ips, outcome, now, works);
      && (response.Pem? <==> outcome == NP.Accepted && works)
      && (response.Pem? ==> Matches(cfg, response.cert, http, ips) && response.cert.notBefore == now - 300)
      && (outcome == NP.Accepted && !works ==> response == Status(500))
  {
    AnswerMatches(cfg, Handler(http, [], ips, Signing), now, works);
    SignableIsSigned(cfg, Handler(http, [], ips, Signing), now, works);
  }

  /** What an admitted request is answered: 409 for a wrong password or an existing Node, 500 for any other
      failure, of the store or of signing, and a certificate otherwise. */
  lemma StatusIff(cfg: Config, lib: NP.Library, a: Admission, id: nat, http: Http, script: seq<Turn>, calls: nat,
                  now: int, works: bool, before: NP.Cluster, after: NP.Cluster, response: Response)
    requires Responds(cfg, lib, a, id, http, script, calls, now, works, before, after, response)
    requires a.Reject? || CheckCsr(cfg.csr, http.body.value)
    ensures a.Reject? ==> response == Status(a.code)
    ensures a.Direct? ==> (response.Pem? <==> works) && (response == Status(500) <==> !works)
    ensures a.Check? ==>
      var outcome := after.requests[id].pc.outcome;
      && (response.Pem? <==> outcome == NP.Accepted && works)
      && (response == Status(409) <==> outcome in {NP.WrongPassword, NP.Failed(NP.NodeExists)})
      && (response == Status(500) <==>
            || outcome in {NP.Failed(NP.ApiError), NP.Failed(NP.NoHashKey), NP.Failed(NP.BadHash)}
            || (outcome == NP.Accepted && !works))
  {
    match a
    case Reject(code) =>
    case Direct => FinalIsPemIff(cfg, http, [], NP.Accepted, now, works);
    case Check(ips) =>
      FinalIsPemIff(cfg, http, ips, after.requests[id].pc.outcome, now, works);
      if after.requests[id].pc.outcome != NP.Accepted { CodeIff(after.requests[id].pc.outcome); }
  }

  lemma CodeIff(outcome: NP.Outcome)
    requires outcome != NP.Accepted
    ensures CodeFor(outcome) == 409 <==> outcome in {NP.WrongPassword, NP.Failed(NP.NodeExists)}
    ensures CodeFor(outcome) == 500 <==>
            outcome in {NP.Failed(NP.ApiError), NP.Failed(NP.NoHashKey), NP.Failed(NP.BadHash)}
  {
    match outcome
    case WrongPassword =>
    case Failed(reason) =>
      match reason
      case NoHashKey =>
      case BadHash =>
      case NodeExists =>
      case ApiError =>
  }

  /** Every certificate HandleCert answers with says what its kind says, node-scoped or not. */
  lemma PemMatches(cfg: Config, lib: NP.Library, endpoints: seq<string>, id: nat, http: Http, script: seq<Turn>,
                   calls: nat, now: int, works: bool, before: NP.Cluster, after: NP.Cluster, response: Response)
    requires Responds(cfg, lib, Admit(cfg, endpoints, http), id, http, script, calls, now, works, before, after,
                      response)
    requires response.Pem?
    ensures Issuable(Kind(http)) && exists ips: seq<Ip> ::
      Matches(cfg, response.cert, http, ips) && (NodeScoped(Kind(http)) ==> Passed(cfg, endpoints, http, ips))
  {
    AdmissionIff(cfg, endpoints, http);
    match Admit(cfg, endpoints, http)
    case Direct => FinalIsPemIff(cfg, http, [], NP.Accepted, now, works);
    case Check(ips) =>
      CheckedIffPassed(cfg, endpoints, http);
      FinalIsPemIff(cfg, http, ips, after.requests[id].pc.outcome, now, works);
  }

  /** Everything that has happened to the cluster once a request has gone through its CheckAndSet. */
  function History(log: seq<NP.Event>, id: nat, http: Http, script: seq<Turn>, calls: nat): seq<NP.Event> {
    log + [NP.Start(id, http.nodeName, http.nodePassword)] + Played(id, script, calls)
  }

  /** A node-scoped request is answered with a certificate exactly if it passed every check, its own
      CheckAndSet ended accepted and signing works. The certificate then is that of its endpoint, for the
      addresses of its header, and whatever others did, before or meanwhile, its password verifies against
      a hash that was on record during its own CheckAndSet; against the one on record now, if the node's
      Secret was not deleted. */
  lemma CertificateIff(cfg: Config, lib: NP.Library, endpoints: seq<string>, id: nat, http: Http, script: seq<Turn>,
                       calls: nat, now: int, works: bool, origin: NP.Cluster, log: seq<NP.Event>,
                       after: NP.Cluster, response: Response)
    requires NP.Sound(lib) && origin.requests == map[] && id !in NP.Run(lib, origin, log).requests
    requires NodeScoped(Kind(http))
    requires Responds(cfg, lib, Admit(cfg, endpoints, http), id, http, script, calls, now, works,
                      NP.Run(lib, origin, log), after, response)
    ensures response.Pem? <==>
      && cfg.hasStore && (exists ips: seq<Ip> :: Passed(cfg, endpoints, http, ips)) && works
      && About(after, id, http.nodeName, http.nodePassword) && after.requests[id].pc == NP.Done(NP.Accepted)
    ensures response.Pem? ==> exists ips: seq<Ip> ::
      Passed(cfg, endpoints, http, ips) && Matches(cfg, response.cert, http, ips)
    ensures response.Pem? ==>
      && after == NP.Run(lib, origin, History(log, id, http, script, calls))
      && Vouched(lib, origin, History(log, id, http, script, calls), id, http.nodeName, http.nodePassword)
    ensures var name := NP.SecretName(http.nodeName);
      response.Pem? && NP.Undeleted(log, http.nodeName) && !Scripted(NP.DeleteSecret(name), script) ==>
        name in after.secrets && NP.Verifies(lib, after.secrets[name], http.nodePassword)
  {
    var a := Admit(cfg, endpoints, http);
    CheckedIffPassed(cfg, endpoints, http);
    if a.Check? {
      FinalIsPemIff(cfg, http, a.ips, after.requests[id].pc.outcome, now, works);
      if after.requests[id].pc.outcome == NP.Accepted {
        CheckedIsVouched(lib, id, http, script, calls, origin, log, after);
      }
    }
  }

  /** And whatever the outcome of its CheckAndSet, it says what happened to the request: StatusIff tells
      which answer that comes to. */
  lemma CheckedIsExplained(lib: NP.Library, id: nat, http: Http, script: seq<Turn>, calls: nat,
                           origin: NP.Cluster, log: seq<NP.Event>, after: NP.Cluster)
    requires origin.requests == map[] && id !in NP.Run(lib, origin, log).requests
    requires Checked(lib, id, http, script, calls, NP.Run(lib, origin, log), after)
    ensures NP.Explained(lib, origin, History(log, id, http, script, calls), id, http.nodeName, http.nodePassword,
                         after.requests[id].pc.outcome)
  {
    var start := NP.Start(id, http.nodeName, http.nodePassword);
    assert (log + [start])[..|log|] == log;
    ExecutionIsExplained(lib, origin, log + [start], id, script, calls);
  }

  lemma CheckedIffPassed(cfg: Config, endpoints: seq<string>, http: Http)
    ensures var a := Admit(cfg, endpoints, http);
      && (a.Check? <==> cfg.hasStore && exists ips: seq<Ip> :: Passed(cfg, endpoints, http, ips))
      && (a.Check? ==> Passed(cfg, endpoints, http, a.ips))
  {
    var a := Admit(cfg, endpoints, http);
    if a.Check? { AdmittedIffPassed(cfg, endpoints, http, a.ips); }
    if ips: seq<Ip> :| cfg.hasStore && Passed(cfg, endpoints, http, ips) {
      AdmittedIffPassed(cfg, endpoints, http, ips);
    }
  }

  lemma CheckedIsVouched(lib: NP.Library, id: nat, http: Http, script: seq<Turn>, calls: nat,
                         origin: NP.Cluster, log: seq<NP.Event>, after: NP.Cluster)
    requires NP.Sound(lib) && origin.requests == map[] && id !in NP.Run(lib, origin, log).requests
    requires Checked(lib, id, http, script, calls, NP.Run(lib, origin, log), after)
    requires after.requests[id].pc == NP.Done(NP.Accepted)
    ensures after == NP.Run(lib, origin, History(log, id, http, script, calls))
    ensures Vouched(lib, origin, History(log, id, http, script, calls), id, http.nodeName, http.nodePassword)
    ensures var name := NP.SecretName(http.nodeName);
      NP.Undeleted(log, http.nodeName) && !Scripted(NP.DeleteSecret(name), script) ==>
        name in after.secrets && NP.Verifies(lib, after.secrets[name], http.nodePassword)
  {
    var start := NP.Start(id, http.nodeName, http.nodePassword);
    assert (log + [start])[..|log|] == log;
    ExecutionIsARun(lib, NP.Run(lib, origin, log + [start]), id, script, calls);
    NP.RunAppend(lib, origin, log + [start], Played(id, script, calls));
    AcceptedIsVouched(lib, origin, History(log, id, http, script, calls), id);
    if NP.Undeleted(log, http.nodeName) && !Scripted(NP.DeleteSecret(NP.SecretName(http.nodeName)), script) {
      PlayedUndeleted(log + [start], id, script, calls, http.nodeName);
    }
  }
}
