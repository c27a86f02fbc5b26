/**
 Trust-on-first-use node passwords (internal/nodepassword/store.go) as a protocol: any number of
 `CheckAndSet` calls, from any number of shim replicas, against one API server. Every API call is one
 atomic step of a request that carries a program counter; Nodes come and go, API calls fail, with or
 without having taken effect, and other writers create and delete Secrets, at any point between.
 */
module NodePasswords {
  import opened Prelude
  import opened HashFormat
  import opened Scrypt

  const NAME_SUFFIX := ".node-password.rke2"

  function SecretName(node: string): string { node + NAME_SUFFIX }

  /** Different nodes have different Secrets. */
  lemma SecretNameInjective(a: string, b: string)
    ensures SecretName(a) == SecretName(b) <==> a == b
  {
    assert SecretName(a)[..|a|] == a && SecretName(b)[..|b|] == b;
    assert SecretName(a) == SecretName(b) ==> |a| == |b|;
  }

  type Salt = s: seq<byte> | |s| == PARAM_SALT_LEN witness [0, 0, 0, 0, 0, 0, 0, 0]

  /** Verifying a stored hash, and creating one from a random salt. */
  datatype Library = Library(verify: (string, string) -> Verdict, create: (Salt, string) -> string)

  /** Verifying and creating as Scrypt defines them, over a scanner and a key function. */
  function ScryptLibrary(scan: Scanner, key: KeyFunction): Library {
    Library((hash, password) => VerifyHash(scan, key, hash, password),
            (salt: Salt, password) => CreateHash(key, salt, password))
  }

  /** A password verifies against its own hash. */
  ghost predicate Sound(lib: Library) {
    forall salt: Salt, password: string :: Verifies(lib, lib.create(salt, password), password)
  }

  predicate Verifies(lib: Library, hash: string, password: string) {
    hash != "" && lib.verify(hash, password) == Match
  }

  /** The real library is sound: this is the round trip of the hash format. */
  lemma ScryptLibraryIsSound(scan: Scanner, key: KeyFunction)
    requires IsScanner(scan)
    requires forall salt: Salt, password: string :: |key(password, CreateCall(salt))| == PARAM_KEY_LEN
    ensures Sound(ScryptLibrary(scan, key))
  {
    var lib := ScryptLibrary(scan, key);
    forall salt: Salt, password: string ensures Verifies(lib, lib.create(salt, password), password) {
      VerifyCreated(scan, key, salt, password, password);
      assert CreateHash(key, salt, password)[0] == '$';
    }
  }

  // ---------- the machine ----------

  datatype Reason = NoHashKey | BadHash | NodeExists | ApiError
  datatype Outcome = Accepted | WrongPassword | Failed(reason: Reason)

  /** The next thing a request does. */
  datatype Pc =
    | GetSecret
    | Verify(hash: string)
    | GetNode
    | Hash
    | Create(hash: string)
    | Done(outcome: Outcome)

  /** retries: AlreadyExists answers so far; enrolled: its Create took effect. */
  datatype Request = Request(node: string, password: string, pc: Pc, retries: nat, enrolled: bool)

  /** secrets maps a Secret's name to its hash entry, "" when the entry is missing. */
  datatype Cluster = Cluster(secrets: map<string, string>, nodes: set<string>, requests: map<nat, Request>)

  /** An API call may fail before it reaches the server, or after it took effect there. */
  datatype Fault = NoFault | FailBefore | FailAfter

  datatype Event =
    | Start(id: nat, node: string, password: string)
    | Proceed(id: nat, fault: Fault, salt: Salt)
    | RegisterNode(node: string)
    | RemoveNode(node: string)
    | DeleteSecret(name: string)
    | OthersCreate(name: string, hash: string)

  function Judge(verdict: Verdict): Outcome {
    match verdict
    case Match => Accepted
    case Mismatch => WrongPassword
    case _ => Failed(BadHash)
  }

  function Next(lib: Library, c: Cluster, r: Request, fault: Fault, salt: Salt): Pc {
    var name := SecretName(r.node);
    if fault != NoFault then Done(Failed(ApiError))
    else
      match r.pc
      case GetSecret =>
        if name !in c.secrets then GetNode
        else if c.secrets[name] == "" then Done(Failed(NoHashKey))
        else Verify(c.secrets[name])
      case Verify(hash) => Done(Judge(lib.verify(hash, r.password)))
      case GetNode => if r.node in c.nodes then Done(Failed(NodeExists)) else Hash
      case Hash => Create(lib.create(salt, r.password))
      case Create(_) => if name in c.secrets then GetSecret else Done(Accepted)
      case Done(_) => r.pc
  }

  /** Whether this step writes the request's Secret. */
  predicate Writes(c: Cluster, r: Request, fault: Fault) {
    r.pc.Create? && fault != FailBefore && SecretName(r.node) !in c.secrets
  }

  function Advance(lib: Library, c: Cluster, id: nat, fault: Fault, salt: Salt): Cluster
    requires id in c.requests && !c.requests[id].pc.Done?
  {
    var r := c.requests[id];
    var pc := Next(lib, c, r, fault, salt);
    var retry := if r.pc.Create? && pc.GetSecret? then 1 else 0;
    var r' := Request(r.node, r.password, pc, r.retries + retry, r.enrolled || Writes(c, r, fault));
    c.(requests := c.requests[id := r'],
       secrets := if Writes(c, r, fault) then c.secrets[SecretName(r.node) := r.pc.hash] else c.secrets)
  }

  function Step(lib: Library, c: Cluster, e: Event): Cluster {
    match e
    case Start(id, node, password) =>
      if id in c.requests then c
      else c.(requests := c.requests[id := Request(node, password, GetSecret, 0, false)])
    case Proceed(id, fault, salt) =>
      if id in c.requests && !c.requests[id].pc.Done? then Advance(lib, c, id, fault, salt) else c
    case RegisterNode(n) => c.(nodes := c.nodes + {n})
    case RemoveNode(n) => c.(nodes := c.nodes - {n})
    case DeleteSecret(name) => c.(secrets := c.secrets - {name})
    case OthersCreate(name, hash) =>
      if name in c.secrets then c else c.(secrets := c.secrets[name := hash])
  }

  function Run(lib: Library, c: Cluster, events: seq<Event>): Cluster {
    if events == [] then c
    else Step(lib, Run(lib, c, events[..|events| - 1]), events[|events| - 1])
  }

  lemma {:induction false} RunAppend(lib: Library, c: Cluster, a: seq<Event>, b: seq<Event>)
    ensures Run(lib, c, a + b) == Run(lib, Run(lib, c, a), b)
  {
    if b == [] {
      assert a + b == a;
    } else {
      assert (a + b)[..|a + b| - 1] == a + b[..|b| - 1];
      RunAppend(lib, c, a, b[..|b| - 1]);
    }
  }

  // ---------- one hash per node ----------

  predicate Undeleted(events: seq<Event>, node: string) {
    DeleteSecret(SecretName(node)) !in events
  }

  /** What requests for a node know about its Secret, as long as nobody deletes it. */
  ghost predicate Consistent(lib: Library, c: Cluster, r: Request) {
    var name := SecretName(r.node);
    && (r.pc.Verify? ==> name in c.secrets && c.secrets[name] == r.pc.hash != "")
    && (r.pc.Create? ==> Verifies(lib, r.pc.hash, r.password) && !r.enrolled)
    && (r.pc == Done(Accepted) ==> name in c.secrets && Verifies(lib, c.secrets[name], r.password))
    && (r.enrolled ==> name in c.secrets && r.pc.Done?)
  }

  ghost predicate OneHash(lib: Library, c: Cluster, node: string) {
    && (forall id | id in c.requests && c.requests[id].node == node :: Consistent(lib, c, c.requests[id]))
    && (forall i, j | i in c.requests && j in c.requests
          && c.requests[i].node == node && c.requests[j].node == node
          && c.requests[i].enrolled && c.requests[j].enrolled :: i == j)
  }

  /** No step but a deletion changes a Secret that is there. */
  lemma SecretsStay(lib: Library, c: Cluster, e: Event, name: string)
    requires name in c.secrets && e != DeleteSecret(name)
    ensures var c' := Step(lib, c, e); name in c'.secrets && c'.secrets[name] == c.secrets[name]
  {
  }

  /** A request's own step keeps it consistent. */
  lemma AdvanceConsistent(lib: Library, c: Cluster, id: nat, fault: Fault, salt: Salt)
    requires Sound(lib) && id in c.requests && !c.requests[id].pc.Done?
    requires Consistent(lib, c, c.requests[id])
    ensures var c' := Advance(lib, c, id, fault, salt); Consistent(lib, c', c'.requests[id])
  {
    var r := c.requests[id];
    assert Verifies(lib, lib.create(salt, r.password), r.password);
  }

  lemma StepKeepsOneHash(lib: Library, c: Cluster, e: Event, node: string)
    requires Sound(lib) && OneHash(lib, c, node) && e != DeleteSecret(SecretName(node))
    ensures OneHash(lib, Step(lib, c, e), node)
  {
    var c' := Step(lib, c, e);
    forall id | id in c'.requests && c'.requests[id].node == node
      ensures Consistent(lib, c', c'.requests[id])
    {
      if id in c.requests {
        if SecretName(node) in c.secrets { SecretsStay(lib, c, e, SecretName(node)); }
        if c'.requests[id] != c.requests[id] { AdvanceConsistent(lib, c, id, e.fault, e.salt); }
      }
    }
    forall i, j | i in c'.requests && j in c'.requests
      && c'.requests[i].node == node && c'.requests[j].node == node
      && c'.requests[i].enrolled && c'.requests[j].enrolled
      ensures i == j
    {
      // A new enrolment finds no Secret, hence no earlier enrolment.
      assert i in c.requests && j in c.requests;
      if c.requests[i].enrolled { assert Consistent(lib, c, c.requests[i]); }
      if c.requests[j].enrolled { assert Consistent(lib, c, c.requests[j]); }
    }
  }

  lemma {:induction false} RunKeepsOneHash(lib: Library, c: Cluster, events: seq<Event>, node: string)
    requires Sound(lib) && OneHash(lib, c, node) && Undeleted(events, node)
    ensures OneHash(lib, Run(lib, c, events), node)
  {
    if events != [] {
      RunKeepsOneHash(lib, c, events[..|events| - 1], node);
      StepKeepsOneHash(lib, Run(lib, c, events[..|events| - 1]), events[|events| - 1], node);
    }
  }

  lemma {:induction false} SecretNeverChanges(lib: Library, c: Cluster, events: seq<Event>, node: string)
    requires Undeleted(events, node) && SecretName(node) in c.secrets
    ensures var c' := Run(lib, c, events);
      SecretName(node) in c'.secrets && c'.secrets[SecretName(node)] == c.secrets[SecretName(node)]
  {
    if events != [] {
      SecretNeverChanges(lib, c, events[..|events| - 1], node);
      SecretsStay(lib, Run(lib, c, events[..|events| - 1]), events[|events| - 1], SecretName(node));
    }
  }

  lemma {:induction false} NoneEnrolWhilePresent(lib: Library, c: Cluster, events: seq<Event>, node: string)
    requires Undeleted(events, node) && SecretName(node) in c.secrets && c.requests == map[]
    ensures forall id | id in Run(lib, c, events).requests && Run(lib, c, events).requests[id].node == node ::
              !Run(lib, c, events).requests[id].enrolled
  {
    if events != [] {
      NoneEnrolWhilePresent(lib, c, events[..|events| - 1], node);
      SecretNeverChanges(lib, c, events[..|events| - 1], node);
    }
  }

  /** Trust on first use, over every interleaving in which node's Secret is not deleted: once there
      its hash never changes; at most one request enrols it, none if it was there before; and every
      request that was accepted presented a password that verifies against that one hash. */
  lemma TrustOnFirstUse(lib: Library, c: Cluster, events: seq<Event>, node: string, i: nat)
    requires Sound(lib) && c.requests == map[] && Undeleted(events, node) && i <= |events|
    ensures var name, mid, end := SecretName(node), Run(lib, c, events[..i]), Run(lib, c, events);
      && (name in mid.secrets ==> name in end.secrets && end.secrets[name] == mid.secrets[name])
      && (forall a, b | a in end.requests && b in end.requests
            && end.requests[a].node == node && end.requests[b].node == node
            && end.requests[a].enrolled && end.requests[b].enrolled :: a == b && name !in c.secrets)
      && (forall a | a in end.requests && end.requests[a].node == node && end.requests[a].pc == Done(Accepted) ::
            name in end.secrets && Verifies(lib, end.secrets[name], end.requests[a].password))
  {
    assert events == events[..i] + events[i..];
    RunAppend(lib, c, events[..i], events[i..]);
    if SecretName(node) in Run(lib, c, events[..i]).secrets {
      SecretNeverChanges(lib, Run(lib, c, events[..i]), events[i..], node);
    }
    RunKeepsOneHash(lib, c, events, node);
    if SecretName(node) in c.secrets { NoneEnrolWhilePresent(lib, c, events, node); }
  }

  // ---------- deletions included ----------

  predicate Active(c: Cluster, id: nat) { id in c.requests && !c.requests[id].pc.Done? }

  /** After i events the request was at work, or had just finished, and this hash was on record for its node. */
  predicate OnRecord(lib: Library, c: Cluster, events: seq<Event>, i: nat, id: nat, node: string, hash: string) {
    && i <= |events|
    && var mid := Run(lib, c, events[..i]);
    && id in mid.requests && mid.requests[id].node == node
    && (Active(mid, id) || (i > 0 && Active(Run(lib, c, events[..i - 1]), id)))
    && SecretName(node) in mid.secrets && mid.secrets[SecretName(node)] == hash
  }

  lemma OnRecordLater(lib: Library, c: Cluster, events: seq<Event>, n: nat, i: nat, id: nat, node: string, hash: string)
    requires n <= |events| && OnRecord(lib, c, events[..n], i, id, node, hash)
    ensures OnRecord(lib, c, events, i, id, node, hash)
  {
    assert events[..n][..i] == events[..i];
    if i > 0 { assert events[..n][..i - 1] == events[..i - 1]; }
  }

  /** A hash a request is about to verify against was on record when it looked. */
  lemma {:induction false} HashWasOnRecord(lib: Library, c: Cluster, events: seq<Event>, id: nat) returns (i: nat)
    requires c.requests == map[]
    requires var end := Run(lib, c, events); id in end.requests && end.requests[id].pc.Verify?
    ensures var r := Run(lib, c, events).requests[id]; OnRecord(lib, c, events, i, id, r.node, r.pc.hash)
  {
    var n := |events| - 1;
    var before := Run(lib, c, events[..n]);
    StartsVerifying(lib, before, events[n], id);
    if before.requests[id].pc.Verify? {
      i := HashWasOnRecord(lib, c, events[..n], id);
      OnRecordLater(lib, c, events, n, i, id, before.requests[id].node, before.requests[id].pc.hash);
    } else {
      i := n;
    }
  }

  /** A request comes to verify a hash by finding it, not empty, on record. */
  lemma StartsVerifying(lib: Library, c: Cluster, e: Event, id: nat)
    requires var c' := Step(lib, c, e); id in c'.requests && c'.requests[id].pc.Verify?
    ensures id in c.requests
    ensures var r, r' := c.requests[id], Step(lib, c, e).requests[id];
      && r.node == r'.node
      && if r.pc.Verify? then r'.pc == r.pc
         else !r.pc.Done? && SecretName(r.node) in c.secrets && c.secrets[SecretName(r.node)] == r'.pc.hash != ""
  {
  }

  /** A hash a request is about to enrol verifies its password. */
  lemma {:induction false} CreatedHashVerifies(lib: Library, c: Cluster, events: seq<Event>, id: nat)
    requires Sound(lib) && c.requests == map[]
    requires var end := Run(lib, c, events); id in end.requests && end.requests[id].pc.Create?
    ensures var r := Run(lib, c, events).requests[id]; Verifies(lib, r.pc.hash, r.password)
  {
    var n := |events| - 1;
    var before := Run(lib, c, events[..n]);
    assert id in before.requests;
    if before.requests[id].pc.Create? {
      CreatedHashVerifies(lib, c, events[..n], id);
    } else {
      var e := events[n];
      assert Verifies(lib, lib.create(e.salt, before.requests[id].password), before.requests[id].password);
    }
  }

  /** Over every interleaving, deletions included: a request that was accepted presented a password that
      verifies against a hash that was on record for its node at some moment of its own execution. */
  lemma {:induction false} AcceptedWasOnRecord(lib: Library, c: Cluster, events: seq<Event>, id: nat)
    returns (i: nat, hash: string)
    requires Sound(lib) && c.requests == map[]
    requires var end := Run(lib, c, events); id in end.requests && end.requests[id].pc == Done(Accepted)
    ensures var r := Run(lib, c, events).requests[id];
      OnRecord(lib, c, events, i, id, r.node, hash) && Verifies(lib, hash, r.password)
  {
    var n := |events| - 1;
    var before := Run(lib, c, events[..n]);
    assert id in before.requests;
    var r := before.requests[id];
    if r.pc.Done? {
      i, hash := AcceptedWasOnRecord(lib, c, events[..n], id);
      OnRecordLater(lib, c, events, n, i, id, r.node, hash);
    } else if r.pc.Verify? {
      hash := r.pc.hash;
      i := HashWasOnRecord(lib, c, events[..n], id);
      OnRecordLater(lib, c, events, n, i, id, r.node, hash);
      assert hash != "" by { VerifyingIsNotEmpty(lib, c, events[..n], id); }
    } else {
      hash := r.pc.hash;
      i := |events|;
      assert events[..i] == events;
      CreatedHashVerifies(lib, c, events[..n], id);
    }
  }

  lemma {:induction false} VerifyingIsNotEmpty(lib: Library, c: Cluster, events: seq<Event>, id: nat)
    requires c.requests == map[]
    requires var end := Run(lib, c, events); id in end.requests && end.requests[id].pc.Verify?
    ensures Run(lib, c, events).requests[id].pc.hash != ""
  {
    var before := Run(lib, c, events[..|events| - 1]);
    StartsVerifying(lib, before, events[|events| - 1], id);
    if before.requests[id].pc.Verify? { VerifyingIsNotEmpty(lib, c, events[..|events| - 1], id); }
  }

  // ---------- why a request ended as it did ----------

  /** Event i is a call of this request, which is still at work. */
  predicate OwnCall(lib: Library, c: Cluster, events: seq<Event>, i: nat, id: nat) {
    i < |events| && events[i].Proceed? && events[i].id == id && Active(Run(lib, c, events[..i]), id)
  }

  predicate CallFails(lib: Library, c: Cluster, events: seq<Event>, i: nat, id: nat) {
    OwnCall(lib, c, events, i, id) && events[i].fault != NoFault
  }

  /** Its Node lookup works and finds the Node. */
  predicate FindsNode(lib: Library, c: Cluster, events: seq<Event>, i: nat, id: nat, node: string) {
    && OwnCall(lib, c, events, i, id) && events[i].fault == NoFault
    && var mid := Run(lib, c, events[..i]);
    && mid.requests[id].node == node && mid.requests[id].pc == GetNode && node in mid.nodes
  }

  /** Its Secret lookup works and finds a Secret without a hash. */
  predicate FindsNoHash(lib: Library, c: Cluster, events: seq<Event>, i: nat, id: nat, node: string) {
    && OwnCall(lib, c, events, i, id) && events[i].fault == NoFault
    && var mid := Run(lib, c, events[..i]);
    && mid.requests[id].node == node && mid.requests[id].pc == GetSecret
    && SecretName(node) in mid.secrets && mid.secrets[SecretName(node)] == ""
  }

  /** What happened to a request that ended with this outcome: it failed exactly if a call of its own
      failed; it reports an existing Node, or a missing hash, exactly if its own lookup found that; a wrong
      password or a bad hash, only if its password was compared with a hash that was on record. */
  ghost predicate Explained(lib: Library, c: Cluster, events: seq<Event>, id: nat, node: string, password: string,
                            outcome: Outcome)
  {
    && (outcome == Failed(ApiError) <==> exists i: nat :: CallFails(lib, c, events, i, id))
    && (outcome == Failed(NodeExists) <==> exists i: nat :: FindsNode(lib, c, events, i, id, node))
    && (outcome == Failed(NoHashKey) <==> exists i: nat :: FindsNoHash(lib, c, events, i, id, node))
    && (outcome == WrongPassword ==>
          exists i: nat, hash :: OnRecord(lib, c, events, i, id, node, hash) && lib.verify(hash, password) == Mismatch)
    && (outcome == Failed(BadHash) ==>
          exists i: nat, hash :: OnRecord(lib, c, events, i, id, node, hash)
                                 && lib.verify(hash, password) in {Malformed, UnsupportedVersion})
  }

  /** A finished request stays as it is. */
  lemma {:induction false} StaysDone(lib: Library, c: Cluster, events: seq<Event>, id: nat)
    requires id in c.requests && c.requests[id].pc.Done?
    ensures var c' := Run(lib, c, events); id in c'.requests && c'.requests[id] == c.requests[id]
  {
    if events != [] { StaysDone(lib, c, events[..|events| - 1], id); }
  }

  /** The call that finished a request. */
  lemma {:induction false} LastCall(lib: Library, c: Cluster, events: seq<Event>, id: nat) returns (i: nat)
    requires c.requests == map[]
    requires var end := Run(lib, c, events); id in end.requests && end.requests[id].pc.Done?
    ensures OwnCall(lib, c, events, i, id)
    ensures var mid := Run(lib, c, events[..i]);
      Advance(lib, mid, id, events[i].fault, events[i].salt).requests[id] == Run(lib, c, events).requests[id]
  {
    var n := |events| - 1;
    if Active(Run(lib, c, events[..n]), id) {
      i := n;
    } else {
      i := LastCall(lib, c, events[..n], id);
      assert events[..n][..i] == events[..i];
    }
  }

  /** Any call that finishes it is that. */
  lemma FinishingCall(lib: Library, c: Cluster, events: seq<Event>, i: nat, id: nat)
    requires OwnCall(lib, c, events, i, id)
    requires var mid := Run(lib, c, events[..i]);
      Advance(lib, mid, id, events[i].fault, events[i].salt).requests[id].pc.Done?
    ensures var mid, end := Run(lib, c, events[..i]), Run(lib, c, events);
      id in end.requests
      && end.requests[id] == Advance(lib, mid, id, events[i].fault, events[i].salt).requests[id]
  {
    assert events == events[..i + 1] + events[i + 1..];
    assert events[..i + 1][..i] == events[..i];
    RunAppend(lib, c, events[..i + 1], events[i + 1..]);
    StaysDone(lib, Run(lib, c, events[..i + 1]), events[i + 1..], id);
  }

  /** How a call finishes a request. */
  lemma FinishingOutcome(lib: Library, c: Cluster, id: nat, fault: Fault, salt: Salt)
    requires Active(c, id)
    ensures var r, pc := c.requests[id], Advance(lib, c, id, fault, salt).requests[id].pc;
      var present := SecretName(r.node) in c.secrets;
      && (pc == Done(Failed(ApiError)) <==> fault != NoFault)
      && (pc == Done(Failed(NodeExists)) <==> fault == NoFault && r.pc == GetNode && r.node in c.nodes)
      && (pc == Done(Failed(NoHashKey)) <==>
            fault == NoFault && r.pc == GetSecret && present && c.secrets[SecretName(r.node)] == "")
      && (pc == Done(WrongPassword) ==> r.pc.Verify? && lib.verify(r.pc.hash, r.password) == Mismatch)
      && (pc == Done(Failed(BadHash)) ==>
            r.pc.Verify? && lib.verify(r.pc.hash, r.password) in {Malformed, UnsupportedVersion})
  {
  }

  lemma FailuresExplained(lib: Library, c: Cluster, events: seq<Event>, id: nat, last: nat)
    requires OwnCall(lib, c, events, last, id)
    requires var mid, end := Run(lib, c, events[..last]), Run(lib, c, events);
      && id in end.requests && end.requests[id].pc.Done?
      && Advance(lib, mid, id, events[last].fault, events[last].salt).requests[id] == end.requests[id]
    ensures var r := Run(lib, c, events).requests[id];
      && (r.pc == Done(Failed(ApiError)) <==> exists i: nat :: CallFails(lib, c, events, i, id))
      && (r.pc == Done(Failed(NodeExists)) <==> exists i: nat :: FindsNode(lib, c, events, i, id, r.node))
      && (r.pc == Done(Failed(NoHashKey)) <==> exists i: nat :: FindsNoHash(lib, c, events, i, id, r.node))
  {
    var r := Run(lib, c, events).requests[id];
    FinishingOutcome(lib, Run(lib, c, events[..last]), id, events[last].fault, events[last].salt);
    if r.pc == Done(Failed(ApiError)) { assert CallFails(lib, c, events, last, id); }
    if r.pc == Done(Failed(NodeExists)) { assert FindsNode(lib, c, events, last, id, r.node); }
    if r.pc == Done(Failed(NoHashKey)) { assert FindsNoHash(lib, c, events, last, id, r.node); }
    if i: nat :| CallFails(lib, c, events, i, id) {
      FinishingOutcome(lib, Run(lib, c, events[..i]), id, events[i].fault, events[i].salt);
      FinishingCall(lib, c, events, i, id);
    }
    if i: nat :| FindsNode(lib, c, events, i, id, r.node) {
      FinishingOutcome(lib, Run(lib, c, events[..i]), id, events[i].fault, events[i].salt);
      FinishingCall(lib, c, events, i, id);
    }
    if i: nat :| FindsNoHash(lib, c, events, i, id, r.node) {
      FinishingOutcome(lib, Run(lib, c, events[..i]), id, events[i].fault, events[i].salt);
      FinishingCall(lib, c, events, i, id);
    }
  }

  /** Over every interleaving the outcome of a request says what happened to it. */
  lemma OutcomeExplained(lib: Library, c: Cluster, events: seq<Event>, id: nat)
    requires c.requests == map[]
    requires var end := Run(lib, c, events); id in end.requests && end.requests[id].pc.Done?
    ensures var r := Run(lib, c, events).requests[id];
      Explained(lib, c, events, id, r.node, r.password, r.pc.outcome)
  {
    var r := Run(lib, c, events).requests[id];
    var last := LastCall(lib, c, events, id);
    var mid := Run(lib, c, events[..last]);
    FailuresExplained(lib, c, events, id, last);
    FinishingOutcome(lib, mid, id, events[last].fault, events[last].salt);
    if r.pc.outcome == WrongPassword || r.pc.outcome == Failed(BadHash) {
      var i := HashWasOnRecord(lib, c, events[..last], id);
      OnRecordLater(lib, c, events, last, i, id, r.node, mid.requests[id].pc.hash);
    }
  }

  // ---------- existing Nodes are not enrolled ----------

  /** The request is past its Node lookup, or has enrolled. */
  predicate PastLookup(c: Cluster, id: nat) {
    id in c.requests && (c.requests[id].enrolled || c.requests[id].pc.Hash? || c.requests[id].pc.Create?)
  }

  /** Event i is this request's own Node lookup, and it finds no Node. */
  predicate FindsNoNode(lib: Library, c: Cluster, events: seq<Event>, i: nat, id: nat, node: string) {
    && i < |events| && events[i].Proceed? && events[i].id == id && events[i].fault == NoFault
    && var mid := Run(lib, c, events[..i]);
    && id in mid.requests && mid.requests[id].node == node && mid.requests[id].pc == GetNode && node !in mid.nodes
  }

  /** Over every interleaving: whoever enrols a name has looked it up as a Node, in its own execution, and
      found none. */
  lemma {:induction false} EnrolledAfterLookup(lib: Library, c: Cluster, events: seq<Event>, id: nat) returns (i: nat)
    requires c.requests == map[] && PastLookup(Run(lib, c, events), id)
    ensures FindsNoNode(lib, c, events, i, id, Run(lib, c, events).requests[id].node)
  {
    var n := |events| - 1;
    if PastLookup(Run(lib, c, events[..n]), id) {
      i := EnrolledAfterLookup(lib, c, events[..n], id);
      assert events[..n][..i] == events[..i];
    } else {
      i := n;
    }
  }

  /** Only the request's own calls and the registration of its Node. */
  predicate OwnOrRegistration(events: seq<Event>, id: nat, node: string) {
    forall e | e in events :: (e.Proceed? && e.id == id) || e == RegisterNode(node)
  }

  predicate Enrolled(c: Cluster, id: nat) { id in c.requests && c.requests[id].enrolled }

  /** Its Node registers, and it enrols all the same. */
  predicate EnrolsLate(lib: Library, c: Cluster, more: seq<Event>, id: nat, node: string) {
    && OwnOrRegistration(more, id, node) && RegisterNode(node) in more
    && Enrolled(Run(lib, c, more), id) && node in Run(lib, c, more).nodes
  }

  /** A request that is finished, or whose Secret is there, does not enrol by its own calls. */
  lemma {:induction false} CannotEnrol(lib: Library, c: Cluster, events: seq<Event>, id: nat)
    requires id in c.requests && !c.requests[id].enrolled && OwnOrRegistration(events, id, c.requests[id].node)
    requires c.requests[id].pc.Done? || SecretName(c.requests[id].node) in c.secrets
    ensures var r := c.requests[id];
      var c' := Run(lib, c, events);
      && id in c'.requests && !c'.requests[id].enrolled && c'.requests[id].node == r.node
      && (c'.requests[id].pc.Done? || SecretName(r.node) in c'.secrets)
  {
    if events != [] { CannotEnrol(lib, c, events[..|events| - 1], id); }
  }

  /** A request that looks up its Node goes on to enrol it, with nobody's help, exactly if the lookup
      works and finds no Node and the Secret is still missing; a Node that registers afterwards does
      not stop it. */
  lemma LookupDecides(lib: Library, c: Cluster, id: nat, fault: Fault, salt: Salt)
    requires id in c.requests && c.requests[id].pc == GetNode && !c.requests[id].enrolled
    ensures var node := c.requests[id].node;
      fault == NoFault && node !in c.nodes && SecretName(node) !in c.secrets <==>
      exists more: seq<Event> :: EnrolsLate(lib, Step(lib, c, Proceed(id, fault, salt)), more, id, node)
  {
    var node := c.requests[id].node;
    var looked := Step(lib, c, Proceed(id, fault, salt));
    if fault == NoFault && node !in c.nodes && SecretName(node) !in c.secrets {
      var more := LateWrite(lib, looked, id, salt);
    } else {
      forall more: seq<Event> ensures !EnrolsLate(lib, looked, more, id, node) {
        if OwnOrRegistration(more, id, node) { CannotEnrol(lib, looked, more, id); }
      }
    }
  }

  lemma LateWrite(lib: Library, c: Cluster, id: nat, salt: Salt) returns (more: seq<Event>)
    requires id in c.requests && c.requests[id].pc == Hash && SecretName(c.requests[id].node) !in c.secrets
    ensures EnrolsLate(lib, c, more, id, c.requests[id].node)
  {
    var node, go := c.requests[id].node, Proceed(id, NoFault, salt);
    more := [RegisterNode(node), go, go];
    var ready := Step(lib, Step(lib, c, RegisterNode(node)), go);
    assert ready.requests[id].pc.Create? && ready.secrets == c.secrets;
    var _ := RunThree(lib, c, RegisterNode(node), go, go);
    assert RegisterNode(node) == more[0];
  }

  lemma RunThree(lib: Library, c: Cluster, a: Event, b: Event, d: Event) returns (end: Cluster)
    ensures end == Run(lib, c, [a, b, d]) == Step(lib, Step(lib, Step(lib, c, a), b), d)
  {
    assert [a, b, d][..2] == [a, b] && [a, b][..1] == [a] && [a][..0] == [];
    assert Run(lib, c, [a]) == Step(lib, c, a);
    assert Run(lib, c, [a, b]) == Step(lib, Step(lib, c, a), b);
    end := Run(lib, c, [a, b, d]);
  }

  /** So a Node can register and its name be enrolled after that, from any state in which neither it
      nor its Secret exists. */
  lemma LateNodeIsEnrolled(lib: Library, c: Cluster, id: nat, node: string, password: string, salt: Salt)
    returns (more: seq<Event>)
    requires id !in c.requests && node !in c.nodes && SecretName(node) !in c.secrets
    ensures var go := Proceed(id, NoFault, salt);
      EnrolsLate(lib, Run(lib, c, [Start(id, node, password), go, go]), more, id, node)
  {
    var go := Proceed(id, NoFault, salt);
    var looked := RunThree(lib, c, Start(id, node, password), go, go);
    var waiting := Step(lib, Step(lib, c, Start(id, node, password)), go);
    assert waiting.requests[id] == Request(node, password, GetNode, 0, false);
    LookupDecides(lib, waiting, id, NoFault, salt);
    more :| EnrolsLate(lib, looked, more, id, node);
  }

  /** A call can fail after it took effect: a Create that reports an error may have enrolled all the same,
      and its request ends with that error. */
  lemma FailedCreateMayEnrol(lib: Library, c: Cluster, id: nat, salt: Salt)
    requires id in c.requests && c.requests[id].pc.Create? && SecretName(c.requests[id].node) !in c.secrets
    ensures var r, c' := c.requests[id], Step(lib, c, Proceed(id, FailAfter, salt));
      && c'.requests[id].pc == Done(Failed(ApiError)) && c'.requests[id].enrolled
      && SecretName(r.node) in c'.secrets && c'.secrets[SecretName(r.node)] == r.pc.hash
    ensures var c' := Step(lib, c, Proceed(id, FailBefore, salt));
      c'.requests[id].pc == Done(Failed(ApiError)) && c'.secrets == c.secrets
  {
  }

  /** No request for node has got past the Node lookup, and there is no Secret. */
  ghost predicate Shut(c: Cluster, node: string) {
    && SecretName(node) !in c.secrets && node in c.nodes
    && forall id | id in c.requests && c.requests[id].node == node ::
         var pc := c.requests[id].pc;
         pc.GetSecret? || pc.GetNode? || (pc.Done? && pc.outcome != Accepted)
  }

  lemma StepKeepsShut(lib: Library, c: Cluster, e: Event, node: string)
    requires Shut(c, node) && e != RemoveNode(node)
    requires !(e.OthersCreate? && e.name == SecretName(node))
    ensures Shut(Step(lib, c, e), node)
  {
    if e.Proceed? && e.id in c.requests { SecretNameInjective(c.requests[e.id].node, node); }
  }

  /** In particular a name that is a Node throughout, has no Secret at the start and is given none by
      others, never gets one and never has a request accepted, however requests interleave. */
  lemma {:induction false} ExistingNodeIsNeverEnrolled(lib: Library, c: Cluster, events: seq<Event>, node: string)
    requires Shut(c, node) && RemoveNode(node) !in events
    requires forall e | e in events :: !(e.OthersCreate? && e.name == SecretName(node))
    ensures Shut(Run(lib, c, events), node)
  {
    if events != [] {
      ExistingNodeIsNeverEnrolled(lib, c, events[..|events| - 1], node);
      StepKeepsShut(lib, Run(lib, c, events[..|events| - 1]), events[|events| - 1], node);
    }
  }

  // ---------- the retry terminates ----------

  function Deletions(events: seq<Event>, name: string): nat {
    if events == [] then 0
    else Deletions(events[..|events| - 1], name) + (if events[|events| - 1] == DeleteSecret(name) then 1 else 0)
  }

  function Turns(events: seq<Event>, id: nat): nat {
    if events == [] then 0
    else
      var e := events[|events| - 1];
      Turns(events[..|events| - 1], id) + (if e.Proceed? && e.id == id then 1 else 0)
  }

  /** How far into a round a request is. */
  function Position(pc: Pc): nat {
    match pc
    case GetSecret => 0
    case Verify(_) => 1
    case GetNode => 1
    case Hash => 2
    case Create(_) => 3
    case Done(_) => 4
  }

  /** Retries are paid for by deletions; while the Secret is present one more is in hand. */
  ghost predicate Paid(c: Cluster, id: nat, deletions: nat, turns: nat) {
    && id in c.requests
    && var r := c.requests[id];
    && (r.pc.GetSecret? ==> r.retries <= deletions + (if SecretName(r.node) in c.secrets then 1 else 0))
    && (r.pc.GetNode? || r.pc.Hash? || r.pc.Create? ==> r.retries <= deletions)
    && r.retries <= deletions + 1
    && (!r.pc.Done? ==> turns == 4 * r.retries + Position(r.pc))
  }

  lemma OwnStepKeepsPaid(lib: Library, c: Cluster, id: nat, fault: Fault, salt: Salt, deletions: nat, turns: nat)
    requires Paid(c, id, deletions, turns) && !c.requests[id].pc.Done?
    ensures Paid(Advance(lib, c, id, fault, salt), id, deletions, turns + 1)
  {
  }

  lemma StepKeepsPaid(lib: Library, c: Cluster, e: Event, id: nat, deletions: nat, turns: nat)
    requires Paid(c, id, deletions, turns)
    ensures var d := if e == DeleteSecret(SecretName(c.requests[id].node)) then 1 else 0;
      var t := if e.Proceed? && e.id == id then 1 else 0;
      Paid(Step(lib, c, e), id, deletions + d, turns + t) && Step(lib, c, e).requests[id].node == c.requests[id].node
  {
    if e.Proceed? && e.id == id && !c.requests[id].pc.Done? {
      OwnStepKeepsPaid(lib, c, id, e.fault, e.salt, deletions, turns);
    } else {
      assert Step(lib, c, e).requests[id] == c.requests[id];
    }
  }

  lemma {:induction false} RetriesArePaid(lib: Library, c: Cluster, id: nat, node: string, password: string,
                                          events: seq<Event>)
    requires id !in c.requests
    ensures var c' := Run(lib, Step(lib, c, Start(id, node, password)), events);
      && Paid(c', id, Deletions(events, SecretName(node)), Turns(events, id))
      && c'.requests[id].node == node
  {
    if events != [] {
      var before := events[..|events| - 1];
      RetriesArePaid(lib, c, id, node, password, before);
      StepKeepsPaid(lib, Run(lib, Step(lib, c, Start(id, node, password)), before), events[|events| - 1], id,
                    Deletions(before, SecretName(node)), Turns(before, id));
    }
  }

  /** One request meets AlreadyExists at most once more often than its Secret is deleted while it
      runs, and is finished after four turns per round. */
  lemma RetriesAreBounded(lib: Library, c: Cluster, id: nat, node: string, password: string, events: seq<Event>)
    requires id !in c.requests
    ensures var c' := Run(lib, Step(lib, c, Start(id, node, password)), events);
      var deletions := Deletions(events, SecretName(node));
      && id in c'.requests
      && c'.requests[id].retries <= deletions + 1
      && (Turns(events, id) >= 4 * (deletions + 2) ==> c'.requests[id].pc.Done?)
  {
    RetriesArePaid(lib, c, id, node, password, events);
  }
}
