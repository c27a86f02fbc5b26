/**
 The bounded pool of key derivations: runScrypt and the scryptSlots channel
 (internal/nodepassword/scrypt.go), as a machine whose steps are the channel operations.
 */
module ScryptSlots {
  import opened Prelude
  import opened Scrypt

  datatype Purpose = Verifying(hash: string) | Creating(salt: seq<byte>)

  datatype Job =
    | Waiting(call: Call)     // in the select, before the send
    | Deriving(call: Call)    // holding a slot
    | Finished(call: Call)    // slot returned by the deferred receive
    | Cancelled(call: Call)   // context done before the send

  /** tokens: elements in the channel; sent and received: channel operations so far. */
  datatype Pool = Pool(slots: nat, tokens: nat, sent: nat, received: nat, jobs: map<nat, Job>)

  datatype Event = Submit(id: nat, purpose: Purpose) | Send(id: nat) | Cancel(id: nat) | Receive(id: nat)

  /** The derivation a caller asks for; a hash that is refused asks for none. */
  function Wanted(scan: Scanner, purpose: Purpose): Option<Call> {
    match purpose
    case Creating(salt) => Some(CreateCall(salt))
    case Verifying(hash) =>
      match Decide(scan, hash)
      case Refuse(_) => None
      case Evaluate(call, _) => Some(call)
  }

  function Step(scan: Scanner, s: Pool, e: Event): Pool {
    match e
    case Submit(id, purpose) =>
      if id in s.jobs || Wanted(scan, purpose).None? then s
      else s.(jobs := s.jobs[id := Waiting(Wanted(scan, purpose).value)])
    case Send(id) =>
      if id in s.jobs && s.jobs[id].Waiting? && s.tokens < s.slots then
        s.(tokens := s.tokens + 1, sent := s.sent + 1, jobs := s.jobs[id := Deriving(s.jobs[id].call)])
      else s
    case Cancel(id) =>
      if id in s.jobs && s.jobs[id].Waiting? then
        s.(jobs := s.jobs[id := Cancelled(s.jobs[id].call)])
      else s
    case Receive(id) =>
      if id in s.jobs && s.jobs[id].Deriving? && s.tokens > 0 then
        s.(tokens := s.tokens - 1, received := s.received + 1, jobs := s.jobs[id := Finished(s.jobs[id].call)])
      else s
  }

  function Run(scan: Scanner, slots: nat, events: seq<Event>): Pool {
    if events == [] then Pool(slots, 0, 0, 0, map[])
    else Step(scan, Run(scan, slots, events[..|events| - 1]), events[|events| - 1])
  }

  function Running(jobs: map<nat, Job>): set<nat> { set i | i in jobs && jobs[i].Deriving? }
  function Done(jobs: map<nat, Job>): set<nat> { set i | i in jobs && jobs[i].Finished? }

  lemma JobsAfter(jobs: map<nat, Job>, id: nat, job: Job)
    ensures Running(jobs[id := job]) == if job.Deriving? then Running(jobs) + {id} else Running(jobs) - {id}
    ensures Done(jobs[id := job]) == if job.Finished? then Done(jobs) + {id} else Done(jobs) - {id}
  {
  }

  ghost predicate Balanced(s: Pool) {
    && s.tokens == |Running(s.jobs)| <= s.slots
    && s.received == |Done(s.jobs)|
    && s.sent == |Running(s.jobs)| + |Done(s.jobs)|
  }

  ghost predicate AllBounded(s: Pool) {
    forall i | i in s.jobs :: Bounded(s.jobs[i].call)
  }

  lemma WantedIsBounded(scan: Scanner, purpose: Purpose)
    requires Wanted(scan, purpose).Some?
    ensures Bounded(Wanted(scan, purpose).value)
  {
    match purpose
    case Creating(salt) => CreationIsBounded(salt);
    case Verifying(hash) => VerificationIsBounded(scan, hash);
  }

  /** A job that holds no slot and has returned none moves on without taking one. */
  lemma IdleMove(s: Pool, id: nat, job: Job)
    requires Balanced(s) && id !in Running(s.jobs) && id !in Done(s.jobs) && !job.Deriving? && !job.Finished?
    ensures Balanced(s.(jobs := s.jobs[id := job]))
  {
    JobsAfter(s.jobs, id, job);
    assert Running(s.jobs) - {id} == Running(s.jobs) && Done(s.jobs) - {id} == Done(s.jobs);
  }

  lemma SendMove(s: Pool, id: nat, call: Call)
    requires Balanced(s) && id !in Running(s.jobs) && id !in Done(s.jobs) && s.tokens < s.slots
    ensures Balanced(s.(tokens := s.tokens + 1, sent := s.sent + 1, jobs := s.jobs[id := Deriving(call)]))
  {
    JobsAfter(s.jobs, id, Deriving(call));
    assert Done(s.jobs) - {id} == Done(s.jobs);
  }

  lemma ReceiveMove(s: Pool, id: nat, call: Call)
    requires Balanced(s) && id in Running(s.jobs) && id !in Done(s.jobs) && s.tokens > 0
    ensures Balanced(s.(tokens := s.tokens - 1, received := s.received + 1, jobs := s.jobs[id := Finished(call)]))
  {
    JobsAfter(s.jobs, id, Finished(call));
  }

  lemma StepKeepsBalance(scan: Scanner, s: Pool, e: Event)
    requires Balanced(s)
    ensures Balanced(Step(scan, s, e))
  {
    if Step(scan, s, e) != s {
      match e
      case Submit(id, purpose) => IdleMove(s, id, Waiting(Wanted(scan, purpose).value));
      case Cancel(id) => IdleMove(s, id, Cancelled(s.jobs[id].call));
      case Send(id) => SendMove(s, id, s.jobs[id].call);
      case Receive(id) => ReceiveMove(s, id, s.jobs[id].call);
    }
  }

  /** Every derivation is one that some caller asked for. */
  ghost predicate AllWanted(scan: Scanner, s: Pool) {
    forall i | i in s.jobs :: IsWanted(scan, s.jobs[i].call)
  }

  ghost predicate IsWanted(scan: Scanner, call: Call) { exists purpose :: Wanted(scan, purpose) == Some(call) }

  /** A job keeps its call; a new one has what its purpose wants. */
  lemma CallOrigin(scan: Scanner, s: Pool, e: Event, i: nat)
    requires i in Step(scan, s, e).jobs
    ensures var call := Step(scan, s, e).jobs[i].call;
      if i in s.jobs then s.jobs[i].call == call else e.Submit? && Wanted(scan, e.purpose) == Some(call)
  {
  }

  lemma StepKeepsWanted(scan: Scanner, s: Pool, e: Event)
    requires AllWanted(scan, s)
    ensures AllWanted(scan, Step(scan, s, e))
  {
    var s' := Step(scan, s, e);
    forall i | i in s'.jobs ensures IsWanted(scan, s'.jobs[i].call) { CallOrigin(scan, s, e, i); }
  }

  lemma {:induction false} AlwaysWanted(scan: Scanner, slots: nat, events: seq<Event>)
    ensures AllWanted(scan, Run(scan, slots, events))
  {
    if events != [] {
      AlwaysWanted(scan, slots, events[..|events| - 1]);
      StepKeepsWanted(scan, Run(scan, slots, events[..|events| - 1]), events[|events| - 1]);
    }
  }

  lemma WantedAreBounded(scan: Scanner, s: Pool)
    requires AllWanted(scan, s)
    ensures AllBounded(s)
  {
    forall i | i in s.jobs ensures Bounded(s.jobs[i].call) {
      assert IsWanted(scan, s.jobs[i].call);
      var purpose :| Wanted(scan, purpose) == Some(s.jobs[i].call);
      WantedIsBounded(scan, purpose);
    }
  }

  lemma {:induction false} AlwaysBalanced(scan: Scanner, slots: nat, events: seq<Event>)
    ensures Run(scan, slots, events).slots == slots && Balanced(Run(scan, slots, events))
  {
    if events == [] {
      assert Running(map[]) == {} && Done(map[]) == {};
    } else {
      AlwaysBalanced(scan, slots, events[..|events| - 1]);
      StepKeepsBalance(scan, Run(scan, slots, events[..|events| - 1]), events[|events| - 1]);
    }
  }

  /** In every interleaving of verifications, creations and cancellations: derivations under way
      never exceed the slots, each is within bounds, and the sends are the derivations begun, the
      receives those finished, so a slot comes back exactly once and a cancelled wait takes none. */
  lemma SlotsAreBalanced(scan: Scanner, slots: nat, events: seq<Event>)
    ensures Run(scan, slots, events).slots == slots
    ensures Balanced(Run(scan, slots, events)) && AllBounded(Run(scan, slots, events))
  {
    AlwaysBalanced(scan, slots, events);
    AlwaysWanted(scan, slots, events);
    WantedAreBounded(scan, Run(scan, slots, events));
  }

  ghost function Pick(ids: set<nat>): (i: nat)
    requires ids != {}
    ensures i in ids
  {
    var i :| i in ids; i
  }

  /** The memory these jobs' derivations take together. */
  ghost function Memory(jobs: map<nat, Job>, ids: set<nat>): nat
    requires ids <= jobs.Keys
  {
    if ids == {} then 0
    else
      var i := Pick(ids);
      128 * (jobs[i].call.n * jobs[i].call.r) + Memory(jobs, ids - {i})
  }

  lemma {:induction false} MemoryBound(jobs: map<nat, Job>, ids: set<nat>)
    requires ids <= jobs.Keys && forall i | i in ids :: Bounded(jobs[i].call)
    ensures Memory(jobs, ids) <= |ids| * 0x800_0000
  {
    if ids != {} {
      var i := Pick(ids);
      assert Bounded(jobs[i].call);
      MemoryBound(jobs, ids - {i});
      assert |ids - {i}| == |ids| - 1;
    }
  }

  /** What the slots are for: in every interleaving the derivations under way together take no more
      than 128 MiB for each slot. */
  lemma MemoryIsBounded(scan: Scanner, slots: nat, events: seq<Event>)
    ensures var jobs := Run(scan, slots, events).jobs; Memory(jobs, Running(jobs)) <= slots * 0x800_0000
  {
    SlotsAreBalanced(scan, slots, events);
    var jobs := Run(scan, slots, events).jobs;
    MemoryBound(jobs, Running(jobs));
  }

  /** A derivation never blocks on returning its slot, and a waiter never blocks while one is free. */
  lemma NoStuckSlot(scan: Scanner, slots: nat, events: seq<Event>, id: nat)
    ensures var s := Run(scan, slots, events);
      && (id in Running(s.jobs) ==> Step(scan, s, Receive(id)).jobs[id].Finished?)
      && ((id in s.jobs && s.jobs[id].Waiting? && |Running(s.jobs)| < slots) ==>
          Step(scan, s, Send(id)).jobs[id].Deriving?)
  {
    AlwaysBalanced(scan, slots, events);
    var s := Run(scan, slots, events);
    if id in Running(s.jobs) { assert Running(s.jobs) != {}; }
  }
}
