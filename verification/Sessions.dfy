/**
 Who may open a tunnel and how many at once: `authorizeNode`, `acquire`, `release` and the part of
 `ServeHTTP` between them (internal/tunnel/tunnel.go).
 */
module Sessions {
  import opened Prelude

  const MAX_SESSIONS_PER_NODE := 2
  const NODE_PREFIX := "system:node:"
  const NODES_GROUP := "system:nodes"

  datatype Subject = Subject(commonName: string, organization: seq<string>)

  /** The node a verified peer certificate speaks for, if any. */
  function AuthorizeNode(peer: Option<Subject>): (node: Option<string>)
    ensures forall n: string :: node == Some(n) <==>
              && n != "" && peer.Some?
              && peer.value.commonName == "system:node:" + n
              && "system:nodes" in peer.value.organization
  {
    if peer.None? then None
    else
      var cn := peer.value.commonName;
      if NODE_PREFIX <= cn && cn[|NODE_PREFIX|..] != "" && NODES_GROUP in peer.value.organization
      then Some(cn[|NODE_PREFIX|..])
      else None
  }

  // ---------- the counter ----------

  function Count(active: map<string, int>, node: string): int {
    if node in active then active[node] else 0
  }

  function Acquired(active: map<string, int>, node: string): Option<map<string, int>> {
    if Count(active, node) >= MAX_SESSIONS_PER_NODE then None
    else Some(active[node := Count(active, node) + 1])
  }

  function Released(active: map<string, int>, node: string): map<string, int> {
    if Count(active, node) - 1 <= 0 then active - {node}
    else active[node := Count(active, node) - 1]
  }

  class Handler {
    var active: map<string, int>

    constructor ()
      ensures active == map[]
    {
      active := map[];
    }

    method Acquire(node: string) returns (ok: bool)
      modifies this
      ensures Acquired(old(active), node) == if ok then Some(active) else None
      ensures !ok ==> active == old(active)
    {
      if Count(active, node) >= MAX_SESSIONS_PER_NODE {
        return false;
      }
      active := active[node := Count(active, node) + 1];
      return true;
    }

    method Release(node: string)
      modifies this
      ensures active == Released(old(active), node)
    {
      active := active[node := Count(active, node) - 1];
      if active[node] <= 0 {
        active := active - {node};
      }
      assert active == Released(old(active), node);
    }
  }

  // ---------- interleavings of handlers ----------

  /** What has become of one request to /v1-rke2/connect. */
  datatype Phase =
    | PassedOn          // not a node: handed on without a slot
    | TooMany           // refused with 429
    | Serving(node: string)
    | Ended(node: string)

  datatype Tunnel = Tunnel(active: map<string, int>, requests: map<nat, Phase>)

  /** The two moments at which a handler touches shared state, under the mutex. */
  datatype Event = Arrive(id: nat, peer: Option<Subject>) | End(id: nat)

  /** A request authorized as n asks for a slot. */
  function Enter(t: Tunnel, id: nat, n: string): Tunnel {
    match Acquired(t.active, n)
    case None => t.(requests := t.requests[id := TooMany])
    case Some(a) => Tunnel(a, t.requests[id := Serving(n)])
  }

  function Leave(t: Tunnel, id: nat, n: string): Tunnel {
    Tunnel(Released(t.active, n), t.requests[id := Ended(n)])
  }

  function Step(t: Tunnel, e: Event): Tunnel {
    match e
    case Arrive(id, peer) =>
      if id in t.requests then t
      else (
        match AuthorizeNode(peer)
        case None => t.(requests := t.requests[id := PassedOn])
        case Some(n) => Enter(t, id, n)
      )
    case End(id) =>
      if id in t.requests && t.requests[id].Serving? then Leave(t, id, t.requests[id].node) else t
  }

  function Run(events: seq<Event>): Tunnel {
    if events == [] then Tunnel(map[], map[])
    else Step(Run(events[..|events| - 1]), events[|events| - 1])
  }

  /** The sessions of a node that are open now. */
  function Live(t: Tunnel, n: string): set<nat> { ServingIds(t.requests, n) }

  function ServingIds(requests: map<nat, Phase>, n: string): set<nat> {
    set i | i in requests && requests[i] == Serving(n)
  }

  lemma ServingIdsAfter(requests: map<nat, Phase>, id: nat, phase: Phase, n: string)
    ensures ServingIds(requests[id := phase], n) ==
            if phase == Serving(n) then ServingIds(requests, n) + {id} else ServingIds(requests, n) - {id}
  {
  }

  ghost predicate Accounted(t: Tunnel) {
    forall n: string :: AccountedFor(t, n)
  }

  ghost predicate AccountedFor(t: Tunnel, n: string) {
    && Count(t.active, n) == |Live(t, n)| <= MAX_SESSIONS_PER_NODE
    && (n in t.active <==> Live(t, n) != {})
  }

  lemma EnterKeepsAccountedFor(t: Tunnel, id: nat, m: string, n: string)
    requires AccountedFor(t, n) && id !in t.requests
    ensures AccountedFor(Enter(t, id, m), n)
  {
    var t' := Enter(t, id, m);
    ServingIdsAfter(t.requests, id, t'.requests[id], n);
    assert Live(t, n) - {id} == Live(t, n);
  }

  lemma LeaveKeepsAccountedFor(t: Tunnel, id: nat, n: string)
    requires AccountedFor(t, n) && id in t.requests && t.requests[id].Serving?
    ensures AccountedFor(Leave(t, id, t.requests[id].node), n)
  {
    var m := t.requests[id].node;
    ServingIdsAfter(t.requests, id, Ended(m), n);
    if m == n {
      assert id in Live(t, n);
    } else {
      assert Live(t, n) - {id} == Live(t, n);
    }
  }

  lemma StepKeepsAccountedFor(t: Tunnel, e: Event, n: string)
    requires AccountedFor(t, n)
    ensures AccountedFor(Step(t, e), n)
  {
    match e
    case Arrive(id, peer) =>
      if id !in t.requests {
        match AuthorizeNode(peer)
        case None =>
          ServingIdsAfter(t.requests, id, PassedOn, n);
          assert Live(t, n) - {id} == Live(t, n);
        case Some(m) => EnterKeepsAccountedFor(t, id, m, n);
      }
    case End(id) =>
      if id in t.requests && t.requests[id].Serving? { LeaveKeepsAccountedFor(t, id, n); }
  }

  lemma {:induction false} StepKeepsAccounted(t: Tunnel, e: Event)
    requires Accounted(t)
    ensures Accounted(Step(t, e))
  {
    forall n: string ensures AccountedFor(Step(t, e), n) {
      assert AccountedFor(t, n);
      StepKeepsAccountedFor(t, e, n);
    }
  }

  /** In every interleaving the counter is the number of live sessions, at most two per node, and
      the map holds exactly the nodes that have one. */
  lemma {:induction false} CounterIsLiveSessions(events: seq<Event>)
    ensures Accounted(Run(events))
  {
    if events == [] {
      forall n: string ensures AccountedFor(Run([]), n) { assert Live(Run([]), n) == {}; }
    } else {
      CounterIsLiveSessions(events[..|events| - 1]);
      StepKeepsAccounted(Run(events[..|events| - 1]), events[|events| - 1]);
    }
  }

  /** A node is refused exactly when two of its sessions are live at that moment; otherwise it is
      served, and under its own name. */
  lemma RefusedIffFull(events: seq<Event>, id: nat, peer: Option<Subject>, n: string)
    requires id !in Run(events).requests && AuthorizeNode(peer) == Some(n)
    ensures var before, after := Run(events), Run(events + [Arrive(id, peer)]);
      && (after.requests[id] == TooMany <==> |Live(before, n)| == 2)
      && (after.requests[id] == Serving(n) <==> |Live(before, n)| < 2)
  {
    CounterIsLiveSessions(events);
    assert (events + [Arrive(id, peer)])[..|events|] == events;
    assert AccountedFor(Run(events), n);
  }

  /** A slot comes back: once a session has ended the next arrival of its node is served. */
  lemma EndFreesASlot(events: seq<Event>, ending: nat, id: nat, peer: Option<Subject>, n: string)
    requires ending in Run(events).requests && Run(events).requests[ending] == Serving(n)
    requires id !in Run(events).requests && AuthorizeNode(peer) == Some(n)
    ensures Run(events + [End(ending)] + [Arrive(id, peer)]).requests[id] == Serving(n)
  {
    var before, mid := Run(events), Run(events + [End(ending)]);
    assert (events + [End(ending)])[..|events|] == events;
    CounterIsLiveSessions(events);
    assert AccountedFor(before, n);
    assert Live(mid, n) == Live(before, n) - {ending};
    RefusedIffFull(events + [End(ending)], id, peer, n);
  }
}
