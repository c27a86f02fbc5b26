/**
 `SecretStore.CheckAndSet` as the program it is: one call after another, with whatever the rest of
 the cluster does in between, and the recursive retry after a lost race. Its contract says that it
 is the run of the protocol in NodePasswords made of its own calls and of what others do between
 them, so the theorems there apply to it, and says outright what it decides when nothing interferes.
 */
module SecretStore {
  import opened HashFormat
  import opened Scrypt
  import opened NodePasswords

  /** What happens around one call: what others do before it, and how the call itself fares. */
  datatype Turn = Turn(others: seq<Event>, fault: Fault, salt: Salt)

  const QUIET := Turn([], NoFault, [0, 0, 0, 0, 0, 0, 0, 0])

  /** Events of everyone but this request. */
  predicate Foreign(events: seq<Event>, id: nat) {
    forall e | e in events :: !((e.Start? || e.Proceed?) && e.id == id)
  }

  predicate ForeignScript(script: seq<Turn>, id: nat) {
    forall i | 0 <= i < |script| :: Foreign(script[i].others, id)
  }

  lemma {:induction false} ForeignLeavesRequest(lib: Library, c: Cluster, events: seq<Event>, id: nat)
    requires Foreign(events, id) && id in c.requests
    ensures var c' := Run(lib, c, events); id in c'.requests && c'.requests[id] == c.requests[id]
  {
    if events != [] { ForeignLeavesRequest(lib, c, events[..|events| - 1], id); }
  }

  // ---------- the run an execution is ----------

  function First(script: seq<Turn>): Turn { if script == [] then QUIET else script[0] }

  function Rest(script: seq<Turn>): seq<Turn> { if script == [] then [] else script[1..] }

  /** What happens during the first `calls` calls: before each one what others do, then the call. */
  function Played(id: nat, script: seq<Turn>, calls: nat): seq<Event> {
    if calls == 0 then []
    else
      var turn := First(script);
      turn.others + [Proceed(id, turn.fault, turn.salt)] + Played(id, Rest(script), calls - 1)
  }

  /** The state after them. */
  function Execution(lib: Library, c: Cluster, id: nat, script: seq<Turn>, calls: nat): Cluster
    decreases calls
  {
    if calls == 0 then c
    else Execution(lib, AfterTurn(lib, c, id, First(script)), id, Rest(script), calls - 1)
  }

  function AfterTurn(lib: Library, c: Cluster, id: nat, turn: Turn): Cluster {
    Step(lib, Run(lib, c, turn.others), Proceed(id, turn.fault, turn.salt))
  }

  /** An execution is a run of the protocol. */
  lemma {:induction false} ExecutionIsARun(lib: Library, c: Cluster, id: nat, script: seq<Turn>, calls: nat)
    ensures Execution(lib, c, id, script, calls) == Run(lib, c, Played(id, script, calls))
    decreases calls
  {
    if calls > 0 {
      var turn := First(script);
      var events := turn.others + [Proceed(id, turn.fault, turn.salt)];
      assert events[..|events| - 1] == turn.others;
      assert Run(lib, c, events) == AfterTurn(lib, c, id, turn);
      ExecutionIsARun(lib, AfterTurn(lib, c, id, turn), id, Rest(script), calls - 1);
      RunAppend(lib, c, events, Played(id, Rest(script), calls - 1));
    }
  }

  predicate Scripted(e: Event, script: seq<Turn>) {
    exists i | 0 <= i < |script| :: e in script[i].others
  }

  /** Nothing happens but the request's own calls and what the script says of others. */
  lemma {:induction false} PlayedEvents(id: nat, script: seq<Turn>, calls: nat, e: Event)
    requires e in Played(id, script, calls)
    ensures (e.Proceed? && e.id == id) || Scripted(e, script)
  {
    var turn := First(script);
    if e in Played(id, Rest(script), calls - 1) {
      PlayedEvents(id, Rest(script), calls - 1, e);
      if Scripted(e, Rest(script)) {
        var i :| 0 <= i < |Rest(script)| && e in Rest(script)[i].others;
        assert Rest(script)[i] == script[i + 1];
      }
    }
  }

  /** Turns in which nobody else acts and no call fails, with any salts. */
  predicate Calm(script: seq<Turn>) {
    forall i | 0 <= i < |script| :: script[i].others == [] && script[i].fault == NoFault
  }

  function SaltAt(script: seq<Turn>, i: nat): Salt { if i < |script| then script[i].salt else QUIET.salt }

  predicate About(c: Cluster, id: nat, node: string, password: string) {
    id in c.requests && c.requests[id].node == node && c.requests[id].password == password
  }

  function FaultAt(script: seq<Turn>, i: nat): Fault { if i < |script| then script[i].fault else NoFault }

  /** One of the first `calls` calls fails. */
  predicate Faulted(script: seq<Turn>, calls: nat) {
    exists i | 0 <= i < calls :: FaultAt(script, i) != NoFault
  }

  lemma FaultedMore(script: seq<Turn>, calls: nat)
    ensures Faulted(script, calls + 1) <==> First(script).fault != NoFault || Faulted(Rest(script), calls)
  {
    assert FaultAt(script, 0) == First(script).fault;
    if i :| 0 <= i < calls + 1 && FaultAt(script, i) != NoFault {
      if i > 0 { assert FaultAt(Rest(script), i - 1) == FaultAt(script, i); }
    }
    if i :| 0 <= i < calls && FaultAt(Rest(script), i) != NoFault {
      assert FaultAt(script, i + 1) == FaultAt(Rest(script), i);
    }
  }

  predicate SameStore(a: Cluster, b: Cluster) { a.secrets == b.secrets && a.nodes == b.nodes }

  class Store {
    const lib: Library
    var cluster: Cluster

    constructor (lib: Library, cluster: Cluster)
      ensures this.lib == lib && this.cluster == cluster
    {
      this.lib, this.cluster := lib, cluster;
    }

    /** A request enters. */
    method Begin(id: nat, node: string, password: string)
      requires id !in cluster.requests
      modifies this
      ensures cluster == Step(lib, old(cluster), Start(id, node, password))
      ensures About(cluster, id, node, password) && cluster.requests[id].pc == GetSecret
    {
      cluster := cluster.(requests := cluster.requests[id := Request(node, password, GetSecret, 0, false)]);
    }

    /** One call of the request, after what others do before it. `seen` is the state it meets. */
    method Call(id: nat, script: seq<Turn>)
      returns (seen: Cluster, turn: Turn, rest: seq<Turn>)
      requires ForeignScript(script, id) && Active(cluster, id)
      modifies this
      ensures turn == First(script) && rest == Rest(script)
      ensures cluster == AfterTurn(lib, old(cluster), id, turn)
      ensures Calm(script) ==> seen == old(cluster) && turn.fault == NoFault && Calm(rest)
      ensures ForeignScript(rest, id)
      ensures id in seen.requests && seen.requests[id] == old(cluster.requests[id])
      ensures cluster == Advance(lib, seen, id, turn.fault, turn.salt)
    {
      turn, rest := First(script), Rest(script);
      seen := Run(lib, cluster, turn.others);
      ForeignLeavesRequest(lib, cluster, turn.others, id);
      cluster := Step(lib, seen, Proceed(id, turn.fault, turn.salt));
    }

    /** `calls` is the number of calls made. */
    method CheckAndSet(id: nat, node: string, password: string, script: seq<Turn>)
      returns (outcome: Outcome, ghost calls: nat)
      requires About(cluster, id, node, password) && cluster.requests[id].pc == GetSecret
      requires ForeignScript(script, id)
      modifies this
      ensures cluster == Execution(lib, old(cluster), id, script, calls)
      ensures About(cluster, id, node, password) && cluster.requests[id].pc == Done(outcome)
      ensures outcome == Failed(ApiError) <==> Faulted(script, calls)
      ensures calls <= 4 * (cluster.requests[id].retries - old(cluster.requests[id].retries)) + 4
      ensures Calm(script) ==> Alone(lib, old(cluster), cluster, id, outcome, SaltAt(script, 2))
      decreases |script|, if SecretName(node) in cluster.secrets then 0 else 4
    {
      var name := SecretName(node);
      var seen, turn, rest := Call(id, script);       // Secrets.Get
      ghost var looked := cluster;
      if turn.fault != NoFault {
        FaultedMore(script, 0);
        return Failed(ApiError), 1;
      }
      assert SameStore(cluster, seen) && About(cluster, id, node, password);
      if name !in seen.secrets {
        outcome, calls := Enrol(id, node, password, rest);
        if Calm(script) { AbsentAlone(lib, old(cluster), looked, cluster, id, outcome, SaltAt(script, 2)); }
        FaultedMore(script, calls);
        return outcome, calls + 1;
      }
      var hash := seen.secrets[name];
      if hash == "" {
        FaultedMore(script, 0);
        return Failed(NoHashKey), 1;
      }
      outcome, calls := VerifyStored(id, node, password, hash, rest);
      if Calm(script) { JudgedAlone(lib, old(cluster), cluster, id, outcome, hash, SaltAt(script, 2)); }
      FaultedMore(script, calls);
      return outcome, calls + 1;
    }

    /** verifyHash, which may wait for a slot. */
    method VerifyStored(id: nat, node: string, password: string, hash: string, script: seq<Turn>)
      returns (outcome: Outcome, ghost calls: nat)
      requires About(cluster, id, node, password) && cluster.requests[id].pc == Verify(hash)
      requires ForeignScript(script, id)
      modifies this
      ensures cluster == Execution(lib, old(cluster), id, script, calls)
      ensures About(cluster, id, node, password) && cluster.requests[id].pc == Done(outcome)
      ensures outcome == Failed(ApiError) <==> Faulted(script, calls)
      ensures calls <= 4 * (cluster.requests[id].retries - old(cluster.requests[id].retries)) + 1
      ensures Calm(script) ==>
        outcome == Judge(lib.verify(hash, password)) && SameStore(cluster, old(cluster))
    {
      var _, turn, _ := Call(id, script);
      if turn.fault != NoFault {
        FaultedMore(script, 0);
        return Failed(ApiError), 1;
      }
      FaultedMore(script, 0);
      return Judge(lib.verify(hash, password)), 1;
    }

    /** The NotFound branch, up to the Create. */
    method Enrol(id: nat, node: string, password: string, script: seq<Turn>)
      returns (outcome: Outcome, ghost calls: nat)
      requires About(cluster, id, node, password) && cluster.requests[id].pc == GetNode
      requires ForeignScript(script, id) && SecretName(node) !in cluster.secrets
      modifies this
      ensures cluster == Execution(lib, old(cluster), id, script, calls)
      ensures About(cluster, id, node, password) && cluster.requests[id].pc == Done(outcome)
      ensures outcome == Failed(ApiError) <==> Faulted(script, calls)
      ensures calls <= 4 * (cluster.requests[id].retries - old(cluster.requests[id].retries)) + 3
      ensures Calm(script) ==> AloneAbsent(lib, old(cluster), cluster, id, outcome, SaltAt(script, 1))
      decreases |script|, 3
    {
      var seen, turn, rest := Call(id, script);       // Nodes.Get
      if turn.fault != NoFault {
        FaultedMore(script, 0);
        return Failed(ApiError), 1;
      }
      if node in seen.nodes {
        FaultedMore(script, 0);
        return Failed(NodeExists), 1;
      }
      assert cluster.secrets == seen.secrets && cluster.nodes == seen.nodes;
      outcome, calls := HashAndPublish(id, node, password, rest);
      FaultedMore(script, calls);
      return outcome, calls + 1;
    }

    /** createHash, and what follows. */
    method HashAndPublish(id: nat, node: string, password: string, script: seq<Turn>)
      returns (outcome: Outcome, ghost calls: nat)
      requires About(cluster, id, node, password) && cluster.requests[id].pc == Hash
      requires ForeignScript(script, id)
      modifies this
      ensures cluster == Execution(lib, old(cluster), id, script, calls)
      ensures About(cluster, id, node, password) && cluster.requests[id].pc == Done(outcome)
      ensures outcome == Failed(ApiError) <==> Faulted(script, calls)
      ensures calls <= 4 * (cluster.requests[id].retries - old(cluster.requests[id].retries)) + 2
      ensures Calm(script) && SecretName(node) !in old(cluster.secrets) ==>
                && outcome == Accepted && cluster.nodes == old(cluster.nodes)
                && cluster.secrets == old(cluster.secrets)[SecretName(node) := lib.create(SaltAt(script, 0), password)]
      decreases |script|, 2
    {
      var _, turn, rest := Call(id, script);
      if turn.fault != NoFault {
        FaultedMore(script, 0);
        return Failed(ApiError), 1;
      }
      outcome, calls := Publish(id, node, password, lib.create(turn.salt, password), rest);
      FaultedMore(script, calls);
      return outcome, calls + 1;
    }

    /** The Create and what follows a lost race. Once interference is over, a retry finds the Secret
        that beat it and ends. */
    method Publish(id: nat, node: string, password: string, hash: string, script: seq<Turn>)
      returns (outcome: Outcome, ghost calls: nat)
      requires About(cluster, id, node, password) && cluster.requests[id].pc == Create(hash)
      requires ForeignScript(script, id)
      modifies this
      ensures cluster == Execution(lib, old(cluster), id, script, calls)
      ensures About(cluster, id, node, password) && cluster.requests[id].pc == Done(outcome)
      ensures outcome == Failed(ApiError) <==> Faulted(script, calls)
      ensures calls <= 4 * (cluster.requests[id].retries - old(cluster.requests[id].retries)) + 1
      ensures Calm(script) && SecretName(node) !in old(cluster.secrets) ==>
                && outcome == Accepted && cluster.nodes == old(cluster.nodes)
                && cluster.secrets == old(cluster.secrets)[SecretName(node) := hash]
      decreases |script|, 1
    {
      var seen, turn, rest := Call(id, script);       // Secrets.Create
      if turn.fault != NoFault {
        FaultedMore(script, 0);
        return Failed(ApiError), 1;
      }
      if SecretName(node) in seen.secrets {
        outcome, calls := CheckAndSet(id, node, password, rest);
        FaultedMore(script, calls);
        return outcome, calls + 1;
      }
      FaultedMore(script, 0);
      return Accepted, 1;
    }
  }

  /** What an undisturbed request decides when there is no Secret, and what it leaves behind. */
  ghost predicate AloneAbsent(lib: Library, before: Cluster, after: Cluster, id: nat, outcome: Outcome, salt: Salt)
    requires id in before.requests
  {
    var node, password := before.requests[id].node, before.requests[id].password;
    && after.nodes == before.nodes
    && (node in before.nodes ==> outcome == Failed(NodeExists) && after.secrets == before.secrets)
    && (node !in before.nodes ==>
          && outcome == Accepted
          && after.secrets == before.secrets[SecretName(node) := lib.create(salt, password)])
  }

  /** What an undisturbed request decides when there is one. */
  ghost predicate AlonePresent(lib: Library, before: Cluster, after: Cluster, id: nat, outcome: Outcome)
    requires id in before.requests && SecretName(before.requests[id].node) in before.secrets
  {
    var hash, password := before.secrets[SecretName(before.requests[id].node)], before.requests[id].password;
    && after.nodes == before.nodes && after.secrets == before.secrets
    && (outcome == Accepted <==> Verifies(lib, hash, password))
    && (outcome == WrongPassword <==> hash != "" && lib.verify(hash, password) == Mismatch)
  }

  /** What an undisturbed request decides, and what it leaves behind. */
  ghost predicate Alone(lib: Library, before: Cluster, after: Cluster, id: nat, outcome: Outcome, salt: Salt)
    requires id in before.requests
  {
    if SecretName(before.requests[id].node) in before.secrets then AlonePresent(lib, before, after, id, outcome)
    else AloneAbsent(lib, before, after, id, outcome, salt)
  }

  lemma AbsentAlone(lib: Library, before: Cluster, mid: Cluster, after: Cluster, id: nat, outcome: Outcome, salt: Salt)
    requires id in before.requests && id in mid.requests && SameStore(mid, before)
    requires mid.requests[id].node == before.requests[id].node
    requires mid.requests[id].password == before.requests[id].password
    requires SecretName(before.requests[id].node) !in before.secrets
    requires AloneAbsent(lib, mid, after, id, outcome, salt)
    ensures Alone(lib, before, after, id, outcome, salt)
  {
  }

  lemma JudgedAlone(lib: Library, before: Cluster, after: Cluster, id: nat, outcome: Outcome, hash: string, salt: Salt)
    requires id in before.requests && SameStore(after, before) && hash != ""
    requires var name := SecretName(before.requests[id].node); name in before.secrets && before.secrets[name] == hash
    requires outcome == Judge(lib.verify(hash, before.requests[id].password))
    ensures Alone(lib, before, after, id, outcome, salt)
  {
  }

  /** An undisturbed first request enrols a hash that accepts its password from then on, and
      another password exactly if the key function cannot tell them apart, whatever the salt. */
  lemma EnrolledThenRecognised(scan: Scanner, key: KeyFunction, before: Cluster, after: Cluster, id: nat, salt: Salt,
                               other: string)
    requires IsScanner(scan)
    requires forall salt: Salt, password: string :: |key(password, CreateCall(salt))| == PARAM_KEY_LEN
    requires id in before.requests && Alone(ScryptLibrary(scan, key), before, after, id, Accepted, salt)
    requires SecretName(before.requests[id].node) !in before.secrets
    ensures var lib, node, password := ScryptLibrary(scan, key), before.requests[id].node, before.requests[id].password;
      && SecretName(node) in after.secrets
      && Verifies(lib, after.secrets[SecretName(node)], password)
      && (Verifies(lib, after.secrets[SecretName(node)], other) <==>
          key(other, CreateCall(salt)) == key(password, CreateCall(salt)))
  {
    var password := before.requests[id].password;
    ScryptLibraryIsSound(scan, key);
    assert Verifies(ScryptLibrary(scan, key), ScryptLibrary(scan, key).create(salt, password), password);
    VerifyCreated(scan, key, salt, password, other);
  }

  // ---------- executions amid interference ----------

  /** What an execution does not add to a run: deletions and writes that were not in it or its script. */
  lemma PlayedUndeleted(log: seq<Event>, id: nat, script: seq<Turn>, calls: nat, node: string)
    requires Undeleted(log, node) && !Scripted(DeleteSecret(SecretName(node)), script)
    ensures Undeleted(log + Played(id, script, calls), node)
  {
    if DeleteSecret(SecretName(node)) in Played(id, script, calls) {
      PlayedEvents(id, script, calls, DeleteSecret(SecretName(node)));
    }
  }

  /** However others act between its calls, short of deleting the Secret, an execution leaves a Secret
      that was there as it was, and is accepted only if its password verifies against the one there. */
  lemma ExecutionIsTrusted(lib: Library, origin: Cluster, log: seq<Event>, id: nat, script: seq<Turn>, calls: nat)
    requires Sound(lib) && origin.requests == map[] && id in Run(lib, origin, log).requests
    requires var node := Run(lib, origin, log).requests[id].node;
      Undeleted(log, node) && !Scripted(DeleteSecret(SecretName(node)), script)
    ensures var before := Run(lib, origin, log);
      var after, r := Execution(lib, before, id, script, calls), before.requests[id];
      var name := SecretName(r.node);
      && id in after.requests && after.requests[id].node == r.node && after.requests[id].password == r.password
      && (name in before.secrets ==> name in after.secrets && after.secrets[name] == before.secrets[name])
      && (after.requests[id].pc == Done(Accepted) ==>
            name in after.secrets && Verifies(lib, after.secrets[name], r.password))
  {
    var before, events := Run(lib, origin, log), Played(id, script, calls);
    ExecutionIsARun(lib, before, id, script, calls);
    RunAppend(lib, origin, log, events);
    RequestsKeepTheirs(lib, before, events, id);
    PlayedUndeleted(log, id, script, calls, before.requests[id].node);
    assert (log + events)[..|log|] == log;
    TrustOnFirstUse(lib, origin, log + events, before.requests[id].node, |log|);
  }

  /** Whatever others do between its calls, the outcome of an execution says what happened to it. */
  lemma ExecutionIsExplained(lib: Library, origin: Cluster, log: seq<Event>, id: nat, script: seq<Turn>, calls: nat)
    requires origin.requests == map[] && id in Run(lib, origin, log).requests
    requires var after := Execution(lib, Run(lib, origin, log), id, script, calls);
      id in after.requests && after.requests[id].pc.Done?
    ensures var r := Execution(lib, Run(lib, origin, log), id, script, calls).requests[id];
      Explained(lib, origin, log + Played(id, script, calls), id, r.node, r.password, r.pc.outcome)
  {
    ExecutionIsARun(lib, Run(lib, origin, log), id, script, calls);
    RunAppend(lib, origin, log, Played(id, script, calls));
    OutcomeExplained(lib, origin, log + Played(id, script, calls), id);
  }

  lemma {:induction false} RequestsKeepTheirs(lib: Library, c: Cluster, events: seq<Event>, id: nat)
    requires id in c.requests
    ensures var c' := Run(lib, c, events);
      && id in c'.requests
      && c'.requests[id].node == c.requests[id].node && c'.requests[id].password == c.requests[id].password
  {
    if events != [] { RequestsKeepTheirs(lib, c, events[..|events| - 1], id); }
  }

  /** An execution for a name that is a Node throughout and has no Secret is never accepted, and leaves
      it without one, unless the script has others create the Secret or remove the Node. */
  lemma ExecutionKeepsShut(lib: Library, before: Cluster, id: nat, script: seq<Turn>, calls: nat, node: string)
    requires Shut(before, node) && !Scripted(RemoveNode(node), script)
    requires forall hash: string :: !Scripted(OthersCreate(SecretName(node), hash), script)
    ensures Shut(Execution(lib, before, id, script, calls), node)
  {
    var events := Played(id, script, calls);
    ExecutionIsARun(lib, before, id, script, calls);
    if RemoveNode(node) in events { PlayedEvents(id, script, calls, RemoveNode(node)); }
    forall e | e in events ensures !(e.OthersCreate? && e.name == SecretName(node)) {
      PlayedEvents(id, script, calls, e);
      if e.OthersCreate? { assert e == OthersCreate(e.name, e.hash); }
    }
    ExistingNodeIsNeverEnrolled(lib, before, events, node);
  }

  /** A request that has started makes at most four calls for each deletion of its Secret meanwhile,
      and eight more. */
  lemma CallsAreBounded(lib: Library, c: Cluster, id: nat, node: string, password: string, script: seq<Turn>,
                        calls: nat)
    requires id !in c.requests
    requires var after := Execution(lib, Step(lib, c, Start(id, node, password)), id, script, calls);
      id in after.requests && calls <= 4 * after.requests[id].retries + 4
    ensures calls <= 4 * (Deletions(Played(id, script, calls), SecretName(node)) + 2)
  {
    ExecutionIsARun(lib, Step(lib, c, Start(id, node, password)), id, script, calls);
    RetriesAreBounded(lib, c, id, node, password, Played(id, script, calls));
  }
}
