/**
 The certificate endpoints (`handleCert`, internal/supervisor/supervisor.go): what is checked before
 the password store is touched, what is issued afterwards, and what holds over every interleaving of
 handlers, whichever replica they run in.
 */
module Issuance {
  import opened Prelude
  import opened Text
  import opened Addresses
  import opened ServingSans
  import opened Sessions
  import opened Pki
  import opened Scrypt
  import NP = NodePasswords

  const SERVING := "serving-kubelet"
  const CLIENT := "client-kubelet"
  const KUBE_PROXY := "client-kube-proxy"
  const CONTROLLER := "client-rke2-controller"

  const MAX_CSR_BYTES := 64 * 1024
  const MAX_NAME := 253

  /** body is None when reading it failed; a missing header is "". */
  datatype Http = Http(verb: string, path: string, body: Option<seq<byte>>,
                       nodeName: string, nodePassword: string, nodeIp: string)

  datatype Config = Config(csr: CsrLibrary, san: SanConfig, ca: Ca, servingCa: Option<Ca>, hasStore: bool)

  // ---------- names ----------

  function PathBase(path: string): string {
    var i := LastIndexOf(path, '/');
    if i >= 0 then path[i + 1..] else path
  }

  function Kind(http: Http): string { TrimSuffix(PathBase(http.path), ".crt") }

  predicate NodeScoped(kind: string) { kind == "serving-kubelet" || kind == "client-kubelet" }

  predicate IsAlphanumeric(c: char) { 'a' <= c <= 'z' || '0' <= c <= '9' }

  predicate IsLabel(l: string) {
    && l != "" && IsAlphanumeric(l[0]) && IsAlphanumeric(l[|l| - 1])
    && forall i | 0 <= i < |l| :: IsAlphanumeric(l[i]) || l[i] == '-'
  }

  /** A DNS-1123 subdomain. */
  predicate IsSubdomain(name: string) {
    && |name| <= MAX_NAME
    && forall i | 0 <= i < |Split(name, '.')| :: IsLabel(Split(name, '.')[i])
  }

  predicate IsReserved(name: string) {
    name == "localhost" || name == "kubernetes" || "kubernetes." <= name || Contains(name, ".svc")
  }

  predicate ValidNodeName(name: string) { IsSubdomain(name) && !IsReserved(name) }

  lemma {:induction false} JoinedCharacters(parts: seq<string>, sep: char, i: nat)
    requires i < |Join(parts, sep)|
    ensures Join(parts, sep)[i] == sep || exists p | p in parts :: Join(parts, sep)[i] in p
  {
    if |parts| > 1 {
      var tail := Join(parts[1..], sep);
      if i < |parts[0]| {
        assert Join(parts, sep)[i] in parts[0];
      } else if i > |parts[0]| {
        assert Join(parts, sep)[i] == tail[i - |parts[0]| - 1];
        JoinedCharacters(parts[1..], sep, i - |parts[0]| - 1);
      }
    } else {
      assert Join(parts, sep)[i] in parts[0];
    }
  }

  /** A valid node name is made of lower-case letters, digits, dashes and dots, so it can neither
      smuggle a second identity into "system:node:<name>" nor name the apiserver. */
  lemma ValidNodeNameCharacters(name: string)
    requires ValidNodeName(name)
    ensures name != "" && name != "localhost" && name != "kubernetes" && !("kubernetes." <= name)
    ensures !Contains(name, ".svc")
    ensures forall i | 0 <= i < |name| :: IsAlphanumeric(name[i]) || name[i] == '-' || name[i] == '.'
  {
    var parts := Split(name, '.');
    SplitIsExact(name, '.');
    assert IsLabel(parts[0]);
    forall i | 0 <= i < |name| ensures IsAlphanumeric(name[i]) || name[i] == '-' || name[i] == '.' {
      JoinedCharacters(parts, '.', i);
      if name[i] != '.' {
        var p :| p in parts && name[i] in p;
        var j :| 0 <= j < |parts| && parts[j] == p;
        assert IsLabel(parts[j]);
      }
    }
  }

  // ---------- names, character by character ----------

  predicate LabelCharacter(c: char) { IsAlphanumeric(c) || c == '-' }

  /** The rest of a label, after an alphanumeric first character. */
  predicate IsLabelRest(l: string) {
    (l == "" || IsAlphanumeric(l[|l| - 1])) && forall i | 0 <= i < |l| :: LabelCharacter(l[i])
  }

  lemma LabelIsRest(l: string)
    ensures IsLabel(l) <==> l != "" && IsAlphanumeric(l[0]) && IsLabelRest(l)
  {
  }

  lemma LongerRest(c: char, l: string)
    ensures IsLabelRest([c] + l) <==> LabelCharacter(c) && IsLabelRest(l) && (l == "" ==> IsAlphanumeric(c))
  {
    var all := [c] + l;
    assert forall i | 0 < i < |all| :: all[i] == l[i - 1];
    assert all[|all| - 1] == if l == "" then c else l[|l| - 1];
    if IsLabelRest(all) {
      assert all[0] == c && LabelCharacter(all[0]);
      forall i | 0 <= i < |l| ensures LabelCharacter(l[i]) { assert all[i + 1] == l[i] && LabelCharacter(all[i + 1]); }
    }
  }

  /** Labels one after another, of which the first may lack its beginning. */
  predicate LabelsFrom(parts: seq<string>)
    requires parts != []
  {
    IsLabelRest(parts[0]) && forall i | 0 < i < |parts| :: IsLabel(parts[i])
  }

  /** What may stand at i in a name. */
  predicate FitsAt(s: string, i: nat)
    requires i < |s|
  {
    if s[i] == '.' then
      (i > 0 ==> IsAlphanumeric(s[i - 1])) && i + 1 < |s| && IsAlphanumeric(s[i + 1])
    else LabelCharacter(s[i]) && (i + 1 == |s| ==> IsAlphanumeric(s[i]))
  }

  predicate AllFit(s: string) { forall i | 0 <= i < |s| :: FitsAt(s, i) }

  lemma FitsLater(c: char, t: string, i: nat)
    requires i < |t|
    ensures FitsAt([c] + t, i + 1) <==> FitsAt(t, i) && (i == 0 && t[0] == '.' ==> IsAlphanumeric(c))
  {
  }

  lemma AllFitOneMore(c: char, t: string)
    ensures AllFit([c] + t) <==>
            FitsAt([c] + t, 0) && AllFit(t) && (t != "" && t[0] == '.' ==> IsAlphanumeric(c))
  {
    var s := [c] + t;
    if AllFit(s) {
      forall i | 0 <= i < |t| ensures FitsAt(t, i) { FitsLater(c, t, i); }
      if t != "" { FitsLater(c, t, 0); }
    }
    if FitsAt(s, 0) && AllFit(t) && (t != "" && t[0] == '.' ==> IsAlphanumeric(c)) {
      forall i | 0 <= i < |s| ensures FitsAt(s, i) { if i > 0 { FitsLater(c, t, i - 1); } }
    }
  }

  lemma FirstPart(t: string)
    ensures Split(t, '.')[0] == "" <==> t == "" || t[0] == '.'
    ensures Split(t, '.')[0] != "" ==> Split(t, '.')[0][0] == t[0]
  {
  }

  /** Splitting at the dots and looking at each character by itself come to the same. */
  lemma {:induction false} LabelsIffFit(s: string)
    ensures LabelsFrom(Split(s, '.')) <==> AllFit(s)
  {
    if s != "" {
      var t := s[1..];
      var rest := Split(t, '.');
      assert s == [s[0]] + t;
      LabelsIffFit(t);
      AllFitOneMore(s[0], t);
      FirstPart(t);
      LabelIsRest(rest[0]);
      if s[0] == '.' {
        var parts := Split(s, '.');
        assert parts == [""] + rest;
        assert (forall i | 0 < i < |parts| :: IsLabel(parts[i])) <==> IsLabel(rest[0]) && LabelsFrom(rest) by {
          assert forall i | 0 < i < |parts| :: parts[i] == rest[i - 1];
          if forall i | 0 < i < |parts| :: IsLabel(parts[i]) {
            forall i | 0 <= i < |rest| ensures IsLabel(rest[i]) { assert parts[i + 1] == rest[i]; }
          }
        }
      } else {
        LongerRest(s[0], rest[0]);
        LabelsSameTail([s[0]] + rest[0], rest);
      }
    }
  }

  lemma LabelsSameTail(first: string, rest: seq<string>)
    requires rest != []
    ensures LabelsFrom([first] + rest[1..]) <==>
            IsLabelRest(first) && forall i | 0 < i < |rest| :: IsLabel(rest[i])
  {
    var parts := [first] + rest[1..];
    assert forall i | 0 < i < |rest| :: parts[i] == rest[i];
  }

  /** A node name is valid exactly if it has 1 to 253 characters, all lower-case letters, digits, dashes and
      dots, with a letter or digit at either end and on either side of every dot, and is none of the
      reserved names. */
  lemma ValidNodeNameIff(name: string)
    ensures ValidNodeName(name) <==>
      && 1 <= |name| <= 253 && IsAlphanumeric(name[0]) && AllFit(name)
      && name != "localhost" && name != "kubernetes" && !("kubernetes." <= name)
      && forall i | 0 <= i <= |name| :: !(".svc" <= name[i..])
  {
    var parts := Split(name, '.');
    LabelsIffFit(name);
    FirstPart(name);
    LabelIsRest(parts[0]);
    assert (forall i | 0 <= i < |parts| :: IsLabel(parts[i])) <==> IsLabel(parts[0]) && LabelsFrom(parts);
  }

  /** A path component that does not end in ".crt" is the kind as it stands. */
  lemma KindAsItStands(http: Http, dir: string, name: string)
    requires http.path == dir + "/" + name && '/' !in name && forall t: string :: name != t + ".crt"
    ensures Kind(http) == name
  {
    assert http.path[|dir| + 1..] == name;
    LastIndexAt(http.path, '/', |dir|);
    TrimSuffixElse(name, ".crt");
  }

  /** The kind of a request is the last component of its path, without a ".crt" at its end. */
  lemma KindIs(http: Http, dir: string, name: string)
    requires http.path == dir + "/" + name + ".crt" && '/' !in name
    ensures Kind(http) == name
  {
    var base := name + ".crt";
    assert http.path == dir + "/" + base;
    assert http.path[|dir| + 1..] == base;
    assert '/' !in base;
    LastIndexAt(http.path, '/', |dir|);
    TrimSuffixOf(name, ".crt");
  }

  // ---------- before the password store ----------

  predicate BodyReadable(http: Http) { http.body.Some? && 0 < |http.body.value| <= MAX_CSR_BYTES }

  datatype Admission = Reject(code: nat) | Check(ips: seq<Ip>) | Direct

  /** Everything decided before the password store is touched, in the order of the source. */
  ghost function Admit(cfg: Config, endpoints: seq<string>, http: Http): Admission {
    if http.verb != "POST" then Reject(405)
    else if !BodyReadable(http) then Reject(400)
    else if !CheckCsr(cfg.csr, http.body.value) then Reject(400)
    else if NodeScoped(Kind(http)) then
      if http.nodeName == "" then Reject(400)
      else if !ValidNodeName(http.nodeName) then Reject(400)
      else if Kind(http) == SERVING && cfg.san.serviceNets.None? then Reject(500)
      else if Kind(http) == SERVING && Refuses(cfg.san, endpoints, http.nodeIp) then Reject(400)
      else if http.nodePassword == "" then Reject(400)
      else if !ValidPassword(http.nodePassword) then Reject(400)
      else if !cfg.hasStore then Reject(500)
      else if Kind(http) == SERVING then
        var ips :| Accepts(cfg.san, endpoints, http.nodeIp, ips);
        Check(ips)
      else Check([])
    else if Kind(http) == KUBE_PROXY || Kind(http) == CONTROLLER then Direct
    else Reject(501)
  }

  /** All of a node-scoped request that is judged on its own merits. */
  ghost predicate Passed(cfg: Config, endpoints: seq<string>, http: Http, ips: seq<Ip>) {
    && http.verb == "POST" && BodyReadable(http) && CheckCsr(cfg.csr, http.body.value)
    && NodeScoped(Kind(http)) && ValidNodeName(http.nodeName) && ValidPassword(http.nodePassword)
    && (if Kind(http) == SERVING then Accepts(cfg.san, endpoints, http.nodeIp, ips) else ips == [])
  }

  /** The order of the checks does not matter to who gets through: a request reaches the password
      store exactly when every check passes, and then with exactly the addresses of its header. */
  lemma AdmittedIffPassed(cfg: Config, endpoints: seq<string>, http: Http, ips: seq<Ip>)
    ensures Admit(cfg, endpoints, http) == Check(ips) <==> cfg.hasStore && Passed(cfg, endpoints, http, ips)
  {
    if Admit(cfg, endpoints, http).Check? && Kind(http) == SERVING {
      var got := Admit(cfg, endpoints, http).ips;
      assert Accepts(cfg.san, endpoints, http.nodeIp, got);
      if Passed(cfg, endpoints, http, ips) {
        AcceptedAddressesAreUnique(cfg.san, endpoints, http.nodeIp, got, ips);
      }
    }
    if Passed(cfg, endpoints, http, ips) { ValidNodeNameCharacters(http.nodeName); }
  }

  /** The request is a POST with an acceptable CSR of at most 64 KiB. */
  predicate Presentable(cfg: Config, http: Http) {
    && http.verb == "POST" && http.body.Some? && 0 < |http.body.value| <= 65536
    && KeyOf(cfg.csr, http.body.value).Some?
  }

  /** A serving request that cannot be judged, for want of a service range. */
  predicate Misconfigured(cfg: Config, http: Http) {
    Kind(http) == "serving-kubelet" && cfg.san.serviceNets.None?
  }

  /** What a node-scoped request can get wrong. */
  ghost predicate BadNodeRequest(cfg: Config, endpoints: seq<string>, http: Http) {
    || !ValidNodeName(http.nodeName)
    || (!Misconfigured(cfg, http)
        && ((Kind(http) == "serving-kubelet" && Refuses(cfg.san, endpoints, http.nodeIp))
            || !(8 <= |http.nodePassword| <= 256)))
  }

  /** Which status a request gets before the password store is touched, and which need no password. */
  lemma AdmissionIff(cfg: Config, endpoints: seq<string>, http: Http)
    ensures var a, kind := Admit(cfg, endpoints, http), Kind(http);
      var scoped := NodeScoped(kind);
      var good := Presentable(cfg, http) && scoped && !BadNodeRequest(cfg, endpoints, http);
      && (a == Reject(405) <==> http.verb != "POST")
      && (a == Reject(501) <==> Presentable(cfg, http) && !Issuable(kind))
      && (a == Direct <==> Presentable(cfg, http) && Issuable(kind) && !scoped)
      && (a == Reject(400) <==>
            http.verb == "POST" && (!Presentable(cfg, http) || (scoped && BadNodeRequest(cfg, endpoints, http))))
      && (a == Reject(500) <==> good && (Misconfigured(cfg, http) || !cfg.hasStore))
      && (a.Check? <==> good && !Misconfigured(cfg, http) && cfg.hasStore)
  {
    if Presentable(cfg, http) && NodeScoped(Kind(http)) {
      ScopedAdmission(cfg, endpoints, http);
    } else {
      UnscopedAdmission(cfg, endpoints, http);
    }
  }

  lemma UnscopedAdmission(cfg: Config, endpoints: seq<string>, http: Http)
    requires !Presentable(cfg, http) || !NodeScoped(Kind(http))
    ensures Admit(cfg, endpoints, http) ==
            if http.verb != "POST" then Reject(405)
            else if !Presentable(cfg, http) then Reject(400)
            else if Issuable(Kind(http)) then Direct
            else Reject(501)
  {
  }

  lemma ScopedAdmission(cfg: Config, endpoints: seq<string>, http: Http)
    requires Presentable(cfg, http) && NodeScoped(Kind(http))
    ensures var a := Admit(cfg, endpoints, http);
      if BadNodeRequest(cfg, endpoints, http) then a == Reject(400)
      else if Misconfigured(cfg, http) || !cfg.hasStore then a == Reject(500)
      else a.Check?
  {
    if ValidNodeName(http.nodeName) { ValidNodeNameCharacters(http.nodeName); }
  }

  // ---------- what is issued ----------

  const LOOPBACK4: Ip := MAPPED_PREFIX + [127, 0, 0, 1]
  const LOOPBACK6: Ip := ZEROS[15 := 1]

  function RequestFor(kind: string, node: string, ips: seq<Ip>): Request {
    if kind == SERVING then Request(Subject(node, []), [node, "localhost"], [LOOPBACK4, LOOPBACK6] + ips, false)
    else if kind == CLIENT then Request(Subject(NODE_PREFIX + node, [NODES_GROUP]), [], [], true)
    else if kind == KUBE_PROXY then Request(Subject("system:kube-proxy", []), [], [], true)
    else Request(Subject("system:rke2-controller", []), [], [], true)
  }

  /** Of everything issued, the tunnel accepts exactly the kubelet client certificates, and takes each
      for exactly the node it was issued to. */
  lemma TunnelAcceptsKubeletClients(kind: string, node: string, ips: seq<Ip>, claimed: string)
    requires NodeScoped(kind) ==> node != ""
    ensures AuthorizeNode(Some(RequestFor(kind, node, ips).subject)) == Some(claimed) <==>
            kind == CLIENT && claimed == node
  {
    var subject := RequestFor(kind, node, ips).subject;
    if kind == CLIENT {
      assert (NODE_PREFIX + node)[|NODE_PREFIX|..] == node;
      if NODE_PREFIX + claimed == NODE_PREFIX + node { assert (NODE_PREFIX + claimed)[|NODE_PREFIX|..] == claimed; }
    } else {
      assert NODES_GROUP !in subject.organization;
    }
  }

  lemma LoopbackAddresses()
    ensures IsLoopback(LOOPBACK4) && IsLoopback(LOOPBACK6)
  {
    assert LOOPBACK4[12..] == [127, 0, 0, 1];
    assert LOOPBACK6[10] == 0 && MAPPED_PREFIX[10] == 0xff;
  }

  /** A serving certificate vouches for its node and for loopback, and for nothing else: no address in
      the service range, none of the advertised control-plane ones; and for every address asked for. */
  lemma ServingCertificateScope(cfg: Config, endpoints: seq<string>, http: Http, ips: seq<Ip>)
    requires Passed(cfg, endpoints, http, ips) && Kind(http) == SERVING
    ensures var req := RequestFor(SERVING, http.nodeName, ips);
      && !req.clientAuth && req.dnsNames == [http.nodeName, "localhost"]
      && (forall ip | ip in req.ips :: IsLoopback(ip) || AcceptableIp(cfg.san, endpoints, ip))
      && (!Blank(http.nodeIp) ==>
            && |req.ips| == 2 + |Split(http.nodeIp, ',')|
            && forall i | 0 <= i < |Split(http.nodeIp, ',')| ::
                 ParsedEntry(cfg.san.lib, Split(http.nodeIp, ',')[i]) == Some(req.ips[2 + i]))
  {
    var req := RequestFor(SERVING, http.nodeName, ips);
    assert req.ips == [LOOPBACK4, LOOPBACK6] + ips;
    LoopbackAddresses();
    forall ip | ip in req.ips ensures IsLoopback(ip) || AcceptableIp(cfg.san, endpoints, ip) {
      if ip in ips { AcceptedIsAcceptable(cfg.san, endpoints, http.nodeIp, ips, ip); }
    }
    if !Blank(http.nodeIp) { ParsedBehind(cfg.san, endpoints, http.nodeIp, ips, [LOOPBACK4, LOOPBACK6]); }
  }

  function SignerFor(cfg: Config, kind: string): Ca {
    if kind == SERVING && cfg.servingCa.Some? then cfg.servingCa.value else cfg.ca
  }

  function CodeFor(outcome: NP.Outcome): nat
    requires outcome != NP.Accepted
  {
    if outcome == NP.Failed(NP.NodeExists) || outcome == NP.WrongPassword then 409 else 500
  }

  // ---------- handlers side by side ----------

  datatype Phase = Refused(code: nat) | Checking | Signing | Issued(cert: Certificate)

  /** endpoints: the control-plane list advertised when the request came in. */
  datatype Handler = Handler(http: Http, endpoints: seq<string>, ips: seq<Ip>, phase: Phase)

  datatype Shim = Shim(cluster: NP.Cluster, handlers: map<nat, Handler>)

  datatype Event =
    | Arrive(id: nat, http: Http, endpoints: seq<string>)
    | Elsewhere(e: NP.Event)               // one call of some CheckAndSet, or the cluster's own doing
    | Conclude(id: nat)                    // CheckAndSet has returned
    | SignNow(id: nat, now: int, works: bool)

  /** What is decided about a request when it comes in, given the advertised endpoints. */
  type Policy = (seq<string>, Http) -> Admission

  ghost function PolicyOf(cfg: Config): Policy {
    (endpoints, http) => Admit(cfg, endpoints, http)
  }

  function Begin(policy: Policy, lib: NP.Library, s: Shim, id: nat, http: Http, endpoints: seq<string>): Shim {
    match policy(endpoints, http)
    case Reject(code) => s.(handlers := s.handlers[id := Handler(http, endpoints, [], Refused(code))])
    case Direct => s.(handlers := s.handlers[id := Handler(http, endpoints, [], Signing)])
    case Check(ips) =>
      Shim(NP.Step(lib, s.cluster, NP.Start(id, http.nodeName, http.nodePassword)),
           s.handlers[id := Handler(http, endpoints, ips, Checking)])
  }

  function Answer(cfg: Config, h: Handler, now: int, works: bool): Phase
    requires h.http.body.Some?
  {
    var kind := Kind(h.http);
    match Sign(SignerFor(cfg, kind), cfg.csr, h.http.body.value, RequestFor(kind, h.http.nodeName, h.ips), now, works)
    case BadCsr => Refused(400)
    case SignFailed => Refused(500)
    case Signed(cert) => Issued(cert)
  }

  function Step(policy: Policy, cfg: Config, lib: NP.Library, s: Shim, e: Event): Shim {
    match e
    case Arrive(id, http, endpoints) =>
      if id in s.handlers || id in s.cluster.requests then s else Begin(policy, lib, s, id, http, endpoints)
    case Elsewhere(ce) =>
      if ce.Start? then s else s.(cluster := NP.Step(lib, s.cluster, ce))
    case Conclude(id) =>
      if id in s.handlers && s.handlers[id].phase.Checking?
         && id in s.cluster.requests && s.cluster.requests[id].pc.Done?
      then
        var outcome := s.cluster.requests[id].pc.outcome;
        s.(handlers := s.handlers[id := s.handlers[id].(phase :=
             if outcome == NP.Accepted then Signing else Refused(CodeFor(outcome)))])
      else s
    case SignNow(id, now, works) =>
      if id in s.handlers && s.handlers[id].phase.Signing? && s.handlers[id].http.body.Some? then
        s.(handlers := s.handlers[id := s.handlers[id].(phase := Answer(cfg, s.handlers[id], now, works))])
      else s
  }

  function Run(policy: Policy, cfg: Config, lib: NP.Library, s: Shim, events: seq<Event>): Shim {
    if events == [] then s
    else Step(policy, cfg, lib, Run(policy, cfg, lib, s, events[..|events| - 1]), events[|events| - 1])
  }

  // ---------- what every interleaving keeps ----------

  /** The CheckAndSet under this id is this handler's, which had been admitted to it. */
  ghost predicate Backed(policy: Policy, s: Shim, id: nat) {
    && id in s.cluster.requests && id in s.handlers
    && var r, h := s.cluster.requests[id], s.handlers[id];
    && policy(h.endpoints, h.http) == Check(h.ips)
    && r.node == h.http.nodeName && r.password == h.http.nodePassword
  }

  /** 127.0.0.1 and ::1, as a parsed address holds them. */
  const LOCALHOST_V4: Ip := [0, 0, 0, 0, 0, 0, 0, 0, 0, 0, 0xff, 0xff, 127, 0, 0, 1]
  const LOCALHOST_V6: Ip := [0, 0, 0, 0, 0, 0, 0, 0, 0, 0, 0, 0, 0, 0, 0, 1]

  /** What a certificate of each kind says. */
  predicate Identifies(cert: Certificate, kind: string, node: string, ips: seq<Ip>) {
    && (kind == "serving-kubelet" ==>
          && cert.subject == Subject(node, []) && !cert.clientAuth
          && cert.dnsNames == [node, "localhost"] && cert.ips == [LOCALHOST_V4, LOCALHOST_V6] + ips)
    && (kind == "client-kubelet" ==>
          && cert.subject == Subject("system:node:" + node, ["system:nodes"]) && cert.clientAuth
          && cert.dnsNames == [] && cert.ips == [])
    && (kind == "client-kube-proxy" ==>
          && cert.subject == Subject("system:kube-proxy", []) && cert.clientAuth
          && cert.dnsNames == [] && cert.ips == [])
    && (kind == "client-rke2-controller" ==>
          && cert.subject == Subject("system:rke2-controller", []) && cert.clientAuth
          && cert.dnsNames == [] && cert.ips == [])
  }

  /** The certificate is one its endpoint issues for this request: it identifies what the kind says, the
      CSR contributes its key and nothing else, serving certificates come from the serving CA if there is
      one and all others from the client CA, and no CA is outlived. */
  predicate Matches(cfg: Config, cert: Certificate, http: Http, ips: seq<Ip>) {
    && Identifies(cert, Kind(http), http.nodeName, ips)
    && http.body.Some? && Some(cert.key) == KeyOf(cfg.csr, http.body.value)
    && cert.issuer == (if Kind(http) == "serving-kubelet" && cfg.servingCa.Some? then cfg.servingCa.value else cfg.ca)
    && Lives(cert, cert.notBefore + 300)
  }

  /** The four kinds there are. */
  predicate Issuable(kind: string) {
    NodeScoped(kind) || kind == "client-kube-proxy" || kind == "client-rke2-controller"
  }

  ghost predicate HandlerOk(policy: Policy, cfg: Config, s: Shim, id: nat)
    requires id in s.handlers
  {
    var h := s.handlers[id];
    && (h.phase.Checking? ==> Backed(policy, s, id))
    && (h.phase.Signing? || h.phase.Issued? ==>
          || policy(h.endpoints, h.http) == Direct
          || (Backed(policy, s, id) && s.cluster.requests[id].pc == NP.Done(NP.Accepted)))
    && (h.phase.Issued? ==> Matches(cfg, h.phase.cert, h.http, h.ips))
  }

  ghost predicate Guarded(policy: Policy, cfg: Config, s: Shim) {
    && (forall id | id in s.cluster.requests :: Backed(policy, s, id))
    && (forall id | id in s.handlers :: HandlerOk(policy, cfg, s, id))
  }

  /** A finished request stays finished, and no request changes whose it is. */
  lemma RequestsPersist(lib: NP.Library, c: NP.Cluster, e: NP.Event, id: nat)
    requires id in c.requests
    ensures var c' := NP.Step(lib, c, e);
      && id in c'.requests
      && c'.requests[id].node == c.requests[id].node && c'.requests[id].password == c.requests[id].password
      && (c.requests[id].pc.Done? ==> c'.requests[id] == c.requests[id])
  {
  }

  lemma NoRequestAppears(lib: NP.Library, c: NP.Cluster, e: NP.Event)
    requires !e.Start?
    ensures NP.Step(lib, c, e).requests.Keys == c.requests.Keys
  {
  }

  lemma ArrivalGuarded(policy: Policy, cfg: Config, lib: NP.Library, s: Shim, id: nat, http: Http,
                       endpoints: seq<string>)
    requires Guarded(policy, cfg, s) && id !in s.handlers && id !in s.cluster.requests
    ensures Guarded(policy, cfg, Begin(policy, lib, s, id, http, endpoints))
  {
    var s' := Begin(policy, lib, s, id, http, endpoints);
    forall i | i in s'.cluster.requests ensures Backed(policy, s', i) {
      if i != id { assert Backed(policy, s, i); }
    }
    forall i | i in s'.handlers ensures HandlerOk(policy, cfg, s', i) {
      if i != id { assert HandlerOk(policy, cfg, s, i); }
    }
  }

  lemma ElsewhereGuarded(policy: Policy, cfg: Config, lib: NP.Library, s: Shim, ce: NP.Event)
    requires Guarded(policy, cfg, s) && !ce.Start?
    ensures Guarded(policy, cfg, s.(cluster := NP.Step(lib, s.cluster, ce)))
  {
    var s' := s.(cluster := NP.Step(lib, s.cluster, ce));
    NoRequestAppears(lib, s.cluster, ce);
    forall i | i in s'.cluster.requests ensures Backed(policy, s', i) {
      assert Backed(policy, s, i);
      RequestsPersist(lib, s.cluster, ce, i);
    }
    forall i | i in s'.handlers ensures HandlerOk(policy, cfg, s', i) {
      assert HandlerOk(policy, cfg, s, i);
      if i in s.cluster.requests { RequestsPersist(lib, s.cluster, ce, i); }
    }
  }

  /** Moving one handler on leaves the rest as they are. */
  lemma PhaseGuarded(policy: Policy, cfg: Config, s: Shim, id: nat, phase: Phase)
    requires Guarded(policy, cfg, s) && id in s.handlers
    requires var s' := s.(handlers := s.handlers[id := s.handlers[id].(phase := phase)]); HandlerOk(policy, cfg, s', id)
    ensures Guarded(policy, cfg, s.(handlers := s.handlers[id := s.handlers[id].(phase := phase)]))
  {
    var s' := s.(handlers := s.handlers[id := s.handlers[id].(phase := phase)]);
    forall i | i in s'.cluster.requests ensures Backed(policy, s', i) { assert Backed(policy, s, i); }
    forall i | i in s'.handlers ensures HandlerOk(policy, cfg, s', i) {
      if i != id { assert HandlerOk(policy, cfg, s, i); }
    }
  }

  lemma RequestIdentifies(cert: Certificate, kind: string, node: string, ips: seq<Ip>)
    requires var req := RequestFor(kind, node, ips);
      && cert.subject == req.subject && cert.dnsNames == req.dnsNames
      && cert.ips == req.ips && cert.clientAuth == req.clientAuth
    ensures Identifies(cert, kind, node, ips)
  {
    assert LOOPBACK4 == LOCALHOST_V4 && LOOPBACK6 == LOCALHOST_V6;
  }

  lemma AnswerMatches(cfg: Config, h: Handler, now: int, works: bool)
    requires h.http.body.Some?
    ensures var p := Answer(cfg, h, now, works);
      && (p.Issued? || p.Refused?)
      && (p.Issued? ==> Matches(cfg, p.cert, h.http, h.ips) && p.cert.notBefore == now - 300)
  {
    var p := Answer(cfg, h, now, works);
    if p.Issued? { RequestIdentifies(p.cert, Kind(h.http), h.http.nodeName, h.ips); }
  }

  lemma StepKeepsGuarded(policy: Policy, cfg: Config, lib: NP.Library, s: Shim, e: Event)
    requires Guarded(policy, cfg, s)
    ensures Guarded(policy, cfg, Step(policy, cfg, lib, s, e))
  {
    if Step(policy, cfg, lib, s, e) != s {
      match e
      case Arrive(id, http, endpoints) => ArrivalGuarded(policy, cfg, lib, s, id, http, endpoints);
      case Elsewhere(ce) => ElsewhereGuarded(policy, cfg, lib, s, ce);
      case Conclude(id) =>
        assert HandlerOk(policy, cfg, s, id);
        var outcome := s.cluster.requests[id].pc.outcome;
        PhaseGuarded(policy, cfg, s, id, if outcome == NP.Accepted then Signing else Refused(CodeFor(outcome)));
      case SignNow(id, now, works) =>
        assert HandlerOk(policy, cfg, s, id);
        AnswerMatches(cfg, s.handlers[id], now, works);
        PhaseGuarded(policy, cfg, s, id, Answer(cfg, s.handlers[id], now, works));
    }
  }

  lemma {:induction false} AlwaysGuarded(policy: Policy, cfg: Config, lib: NP.Library, c: NP.Cluster,
                                         events: seq<Event>)
    requires c.requests == map[]
    ensures Guarded(policy, cfg, Run(policy, cfg, lib, Shim(c, map[]), events))
  {
    if events != [] {
      var before := events[..|events| - 1];
      AlwaysGuarded(policy, cfg, lib, c, before);
      StepKeepsGuarded(policy, cfg, lib, Run(policy, cfg, lib, Shim(c, map[]), before), events[|events| - 1]);
    }
  }

  /** What an event does to the cluster, if anything. */
  function ClusterEvent(policy: Policy, s: Shim, e: Event): seq<NP.Event> {
    match e
    case Arrive(id, http, endpoints) =>
      if id in s.handlers || id in s.cluster.requests || !policy(endpoints, http).Check? then []
      else [NP.Start(id, http.nodeName, http.nodePassword)]
    case Elsewhere(ce) => if ce.Start? then [] else [ce]
    case _ => []
  }

  function ClusterEvents(policy: Policy, cfg: Config, lib: NP.Library, s: Shim, events: seq<Event>): seq<NP.Event> {
    if events == [] then []
    else
      var before := events[..|events| - 1];
      ClusterEvents(policy, cfg, lib, s, before) +
      ClusterEvent(policy, Run(policy, cfg, lib, s, before), events[|events| - 1])
  }

  lemma ClusterStep(policy: Policy, cfg: Config, lib: NP.Library, s: Shim, e: Event)
    ensures Step(policy, cfg, lib, s, e).cluster == NP.Run(lib, s.cluster, ClusterEvent(policy, s, e))
  {
    var es := ClusterEvent(policy, s, e);
    if es != [] { assert es[..0] == [] && NP.Run(lib, s.cluster, es) == NP.Step(lib, s.cluster, es[0]); }
  }

  /** The cluster goes through a run of the password protocol. */
  lemma {:induction false} ClusterRuns(policy: Policy, cfg: Config, lib: NP.Library, s: Shim, events: seq<Event>)
    ensures Run(policy, cfg, lib, s, events).cluster ==
            NP.Run(lib, s.cluster, ClusterEvents(policy, cfg, lib, s, events))
  {
    if events != [] {
      var before, e := events[..|events| - 1], events[|events| - 1];
      var mid := Run(policy, cfg, lib, s, before);
      ClusterRuns(policy, cfg, lib, s, before);
      ClusterStep(policy, cfg, lib, mid, e);
      NP.RunAppend(lib, s.cluster, ClusterEvents(policy, cfg, lib, s, before), ClusterEvent(policy, mid, e));
    }
  }

  /** Deletions come from outside. */
  lemma {:induction false} DeletionsAreElsewhere(policy: Policy, cfg: Config, lib: NP.Library, s: Shim,
                                                 events: seq<Event>, name: string)
    requires NP.DeleteSecret(name) in ClusterEvents(policy, cfg, lib, s, events)
    ensures Elsewhere(NP.DeleteSecret(name)) in events
  {
    var before := events[..|events| - 1];
    if NP.DeleteSecret(name) in ClusterEvents(policy, cfg, lib, s, before) {
      DeletionsAreElsewhere(policy, cfg, lib, s, before, name);
    }
  }

  lemma OnlyAdmittedWrite(policy: Policy, cfg: Config, lib: NP.Library, s: Shim, e: Event)
    requires Guarded(policy, cfg, s) && Step(policy, cfg, lib, s, e).cluster.secrets != s.cluster.secrets
    ensures e.Elsewhere?
    ensures e.e.DeleteSecret? || e.e.OthersCreate? || (e.e.Proceed? && Backed(policy, s, e.e.id))
  {
  }

  // ---------- the theorems, for the policy of the source ----------

  /** The states the shim can be in after any interleaving, from a cluster with no request under way. */
  ghost function Reached(cfg: Config, lib: NP.Library, c: NP.Cluster, events: seq<Event>): Shim {
    Run(PolicyOf(cfg), cfg, lib, Shim(c, map[]), events)
  }

  /** In every interleaving a step changes the password store only if it is someone else's doing or a
      call of a handler that had passed every check: nothing is enrolled by a request that is then
      refused for its CSR, its name, its addresses or its password. */
  lemma StoreChangesOnlyAfterChecks(cfg: Config, lib: NP.Library, c: NP.Cluster, events: seq<Event>, e: Event)
    requires c.requests == map[]
    requires Step(PolicyOf(cfg), cfg, lib, Reached(cfg, lib, c, events), e).cluster.secrets
             != Reached(cfg, lib, c, events).cluster.secrets
    ensures e.Elsewhere?
    ensures e.e.DeleteSecret? || e.e.OthersCreate? || e.e.Proceed?
    ensures e.e.Proceed? ==>
      var s := Reached(cfg, lib, c, events);
      && e.e.id in s.cluster.requests && e.e.id in s.handlers
      && var r, h := s.cluster.requests[e.e.id], s.handlers[e.e.id];
      && Passed(cfg, h.endpoints, h.http, h.ips)
      && r.node == h.http.nodeName && r.password == h.http.nodePassword
  {
    var s := Reached(cfg, lib, c, events);
    AlwaysGuarded(PolicyOf(cfg), cfg, lib, c, events);
    OnlyAdmittedWrite(PolicyOf(cfg), cfg, lib, s, e);
    if e.e.Proceed? {
      var h := s.handlers[e.e.id];
      AdmittedIffPassed(cfg, h.endpoints, h.http, h.ips);
    }
  }

  /** What a request has to its name once it gets to the signer. */
  lemma ReadyToSign(cfg: Config, s: Shim, id: nat)
    requires Guarded(PolicyOf(cfg), cfg, s) && id in s.handlers
    requires s.handlers[id].phase.Signing? || s.handlers[id].phase.Issued?
    ensures var h := s.handlers[id];
      && BodyReadable(h.http) && CheckCsr(cfg.csr, h.http.body.value)
      && (NodeScoped(Kind(h.http)) || Kind(h.http) == KUBE_PROXY || Kind(h.http) == CONTROLLER)
      && (NodeScoped(Kind(h.http)) ==>
            && Passed(cfg, h.endpoints, h.http, h.ips)
            && Backed(PolicyOf(cfg), s, id) && s.cluster.requests[id].pc == NP.Done(NP.Accepted))
  {
    var h := s.handlers[id];
    assert HandlerOk(PolicyOf(cfg), cfg, s, id);
    if Admit(cfg, h.endpoints, h.http) == Check(h.ips) {
      AdmittedIffPassed(cfg, h.endpoints, h.http, h.ips);
    } else {
      assert Admit(cfg, h.endpoints, h.http) == Direct;
    }
  }

  lemma SignableIsSigned(cfg: Config, h: Handler, now: int, works: bool)
    requires BodyReadable(h.http) && CheckCsr(cfg.csr, h.http.body.value)
    ensures works ==> Answer(cfg, h, now, works).Issued?
    ensures !works ==> Answer(cfg, h, now, works) == Refused(500)
  {
  }

  /** Signing never comes back with a bad CSR: that was settled before the password was. */
  lemma SigningNeverFindsABadCsr(cfg: Config, lib: NP.Library, c: NP.Cluster, events: seq<Event>, id: nat, now: int,
                                 works: bool)
    requires c.requests == map[]
    requires id in Reached(cfg, lib, c, events).handlers && Reached(cfg, lib, c, events).handlers[id].phase.Signing?
    ensures var s' := Step(PolicyOf(cfg), cfg, lib, Reached(cfg, lib, c, events), SignNow(id, now, works));
      && id in s'.handlers
      && (works ==> s'.handlers[id].phase.Issued?)
      && (!works ==> s'.handlers[id].phase == Refused(500))
  {
    var s := Reached(cfg, lib, c, events);
    AlwaysGuarded(PolicyOf(cfg), cfg, lib, c, events);
    ReadyToSign(cfg, s, id);
    SigningStep(PolicyOf(cfg), cfg, lib, s, id, now, works);
  }

  lemma SigningStep(policy: Policy, cfg: Config, lib: NP.Library, s: Shim, id: nat, now: int, works: bool)
    requires id in s.handlers && s.handlers[id].phase.Signing?
    requires BodyReadable(s.handlers[id].http) && CheckCsr(cfg.csr, s.handlers[id].http.body.value)
    ensures var s' := Step(policy, cfg, lib, s, SignNow(id, now, works));
      && id in s'.handlers
      && (works ==> s'.handlers[id].phase.Issued?)
      && (!works ==> s'.handlers[id].phase == Refused(500))
  {
    SignableIsSigned(cfg, s.handlers[id], now, works);
  }

  /** What an accepted request has to show: a hash on record at some moment of its own execution that its
      password verifies against, and, if its Secret was not deleted, the one on record now. */
  ghost predicate Vouched(lib: NP.Library, c: NP.Cluster, events: seq<NP.Event>, id: nat, node: string,
                          password: string)
  {
    && (exists i: nat, hash :: NP.OnRecord(lib, c, events, i, id, node, hash) && NP.Verifies(lib, hash, password))
    && (NP.Undeleted(events, node) ==>
          var name, now := NP.SecretName(node), NP.Run(lib, c, events);
          name in now.secrets && NP.Verifies(lib, now.secrets[name], password))
  }

  lemma AcceptedIsVouched(lib: NP.Library, c: NP.Cluster, events: seq<NP.Event>, id: nat)
    requires NP.Sound(lib) && c.requests == map[]
    requires id in NP.Run(lib, c, events).requests && NP.Run(lib, c, events).requests[id].pc == NP.Done(NP.Accepted)
    ensures var r := NP.Run(lib, c, events).requests[id]; Vouched(lib, c, events, id, r.node, r.password)
  {
    var r := NP.Run(lib, c, events).requests[id];
    var i, hash := NP.AcceptedWasOnRecord(lib, c, events, id);
    if NP.Undeleted(events, r.node) { NP.TrustOnFirstUse(lib, c, events, r.node, 0); }
  }

  /** Every certificate ever issued. A node-scoped one: its request passed every check, its own
      CheckAndSet was accepted, and the password it presented verifies against a hash that was on record
      during that, which is the one on record still unless the node's Secret was deleted. Any: it carries
      the identity of its endpoint, of the CSR only the key, and ends no later than the CA; and the tunnel
      takes it for a node exactly if it is that node's kubelet client certificate. */
  lemma IssuedCertificates(cfg: Config, lib: NP.Library, c: NP.Cluster, events: seq<Event>, id: nat, claimed: string)
    requires NP.Sound(lib) && c.requests == map[]
    requires id in Reached(cfg, lib, c, events).handlers && Reached(cfg, lib, c, events).handlers[id].phase.Issued?
    ensures var s := Reached(cfg, lib, c, events);
      var h := s.handlers[id];
      var kind, node, name := Kind(h.http), h.http.nodeName, NP.SecretName(h.http.nodeName);
      && (NodeScoped(kind) ==>
            && Passed(cfg, h.endpoints, h.http, h.ips)
            && id in s.cluster.requests && s.cluster.requests[id].node == node
            && s.cluster.requests[id].password == h.http.nodePassword
            && s.cluster.requests[id].pc == NP.Done(NP.Accepted)
            && Vouched(lib, c, ClusterEvents(PolicyOf(cfg), cfg, lib, Shim(c, map[]), events),
                       id, node, h.http.nodePassword)
            && (Elsewhere(NP.DeleteSecret(name)) !in events ==>
                  name in s.cluster.secrets && NP.Verifies(lib, s.cluster.secrets[name], h.http.nodePassword)))
      && Issuable(kind) && Matches(cfg, h.phase.cert, h.http, h.ips)
      && (AuthorizeNode(Some(h.phase.cert.subject)) == Some(claimed) <==> kind == CLIENT && claimed == node)
  {
    var s := Reached(cfg, lib, c, events);
    var h := s.handlers[id];
    AlwaysGuarded(PolicyOf(cfg), cfg, lib, c, events);
    assert HandlerOk(PolicyOf(cfg), cfg, s, id);
    ReadyToSign(cfg, s, id);
    if NodeScoped(Kind(h.http)) {
      ValidNodeNameCharacters(h.http.nodeName);
      IssuedIsVouched(cfg, lib, c, events, id);
    }
    TunnelAcceptsKubeletClients(Kind(h.http), h.http.nodeName, h.ips, claimed);
  }

  lemma IssuedIsVouched(cfg: Config, lib: NP.Library, c: NP.Cluster, events: seq<Event>, id: nat)
    requires NP.Sound(lib) && c.requests == map[]
    requires var s := Reached(cfg, lib, c, events);
      id in s.cluster.requests && s.cluster.requests[id].pc == NP.Done(NP.Accepted)
    ensures var s := Reached(cfg, lib, c, events);
      var r := s.cluster.requests[id];
      var name := NP.SecretName(r.node);
      && Vouched(lib, c, ClusterEvents(PolicyOf(cfg), cfg, lib, Shim(c, map[]), events), id, r.node, r.password)
      && (Elsewhere(NP.DeleteSecret(name)) !in events ==>
            name in s.cluster.secrets && NP.Verifies(lib, s.cluster.secrets[name], r.password))
  {
    var s0, r := Shim(c, map[]), Reached(cfg, lib, c, events).cluster.requests[id];
    var es := ClusterEvents(PolicyOf(cfg), cfg, lib, s0, events);
    ClusterRuns(PolicyOf(cfg), cfg, lib, s0, events);
    AcceptedIsVouched(lib, c, es, id);
    var deletion := NP.DeleteSecret(NP.SecretName(r.node));
    if deletion in es { DeletionsAreElsewhere(PolicyOf(cfg), cfg, lib, s0, events, deletion.name); }
  }
}
