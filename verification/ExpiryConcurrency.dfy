/**
 The tracker of internal/expiry/tracker.go with any number of goroutines at once. `setSeries` writes
 the gauge before it takes the lock; `pruneSeries` holds the lock and, key by key, deletes first the
 gauge and then the map entry. Each of those is one atomic step here.
 */
module ExpiryConcurrency {
  import opened Prelude
  import opened Expiry

  datatype Job = Recording | Scanning(seen: set<Key>, start: int)

  datatype Thread =
    | Setting(todo: seq<Key>, pending: Option<Key>, job: Job)   // pending: gauge written, map not yet
    | Pruning(seen: set<Key>, start: int, left: set<Key>, doomed: Option<Key>)  // doomed: gauge deleted, map not yet

  datatype World = World(gauge: set<Key>, series: map<Key, int>, threads: map<nat, Thread>, holder: Option<nat>)

  datatype Event =
    | BeginRecord(id: nat, key: Key)
    | BeginScan(id: nat, keys: seq<Key>, start: int)
    | WriteGauge(id: nat)
    | WriteSeries(id: nat, now: int)
    | TakeLock(id: nat)
    | Examine(id: nat, key: Key)
    | DropSeries(id: nat)
    | Finish(id: nat)

  function Listed(keys: seq<Key>): set<Key> { set k | k in keys }

  function Step(w: World, e: Event): World {
    match e
    case BeginRecord(id, key) =>
      if id in w.threads then w
      else w.(threads := w.threads[id := Setting([key], None, Recording)])
    case BeginScan(id, keys, start) =>
      if id in w.threads then w
      else w.(threads := w.threads[id := Setting(keys, None, Scanning(Listed(keys), start))])
    case _ => if e.id in w.threads then Proceed(w, e, w.threads[e.id]) else w
  }

  function Proceed(w: World, e: Event, t: Thread): World {
    match e
    case WriteGauge(id) =>
      if t.Setting? && t.pending.None? && t.todo != [] then
        w.(gauge := w.gauge + {t.todo[0]},
           threads := w.threads[id := Setting(t.todo[1..], Some(t.todo[0]), t.job)])
      else w
    case WriteSeries(id, now) =>
      if t.Setting? && t.pending.Some? && w.holder.None? then
        w.(series := w.series[t.pending.value := now],
           threads := w.threads[id := Setting(t.todo, None, t.job)])
      else w
    case TakeLock(id) =>
      if t.Setting? && t.pending.None? && t.todo == [] && t.job.Scanning? && w.holder.None? then
        w.(threads := w.threads[id := Pruning(t.job.seen, t.job.start, w.series.Keys, None)], holder := Some(id))
      else w
    case Examine(id, k) =>
      if t.Pruning? && t.doomed.None? && k in t.left then
        if k in t.seen || (k in w.series && w.series[k] > t.start) then
          w.(threads := w.threads[id := t.(left := t.left - {k})])
        else
          w.(gauge := w.gauge - {k}, threads := w.threads[id := t.(left := t.left - {k}, doomed := Some(k))])
      else w
    case DropSeries(id) =>
      if t.Pruning? && t.doomed.Some? then
        w.(series := w.series - {t.doomed.value}, threads := w.threads[id := t.(doomed := None)])
      else w
    case Finish(id) =>
      if t.Setting? && t.pending.None? && t.todo == [] && t.job.Recording? then w.(threads := w.threads - {id})
      else if t.Pruning? && t.left == {} && t.doomed.None? then w.(threads := w.threads - {id}, holder := None)
      else w
    case _ => w
  }

  function Run(events: seq<Event>): World {
    if events == [] then World({}, map[], map[], None)
    else Step(Run(events[..|events| - 1]), events[|events| - 1])
  }

  // ---------- what every interleaving keeps ----------

  predicate SetterOf(w: World, id: nat, k: Key) {
    id in w.threads && w.threads[id].Setting? && w.threads[id].pending == Some(k)
  }

  /** A setter has exported k and not yet recorded it. */
  ghost predicate InFlight(w: World, k: Key) { exists id: nat :: SetterOf(w, id, k) }

  ghost predicate Held(w: World, id: nat) { id in w.threads && w.threads[id].Pruning? }

  ghost predicate Tracked(w: World) {
    && (forall k | k in w.gauge :: k in w.series || InFlight(w, k))
    && (forall id: nat :: Held(w, id) <==> w.holder == Some(id))
    && (forall id: nat | Held(w, id) && w.threads[id].doomed.Some? && w.threads[id].doomed.value in w.gauge ::
          InFlight(w, w.threads[id].doomed.value))
  }

  /** A setter other than the thread that moved is still one. */
  lemma StillInFlight(w: World, e: Event, k: Key)
    requires InFlight(w, k) && !(e.WriteSeries? && SetterOf(w, e.id, k))
    ensures InFlight(Step(w, e), k)
  {
    var id: nat :| SetterOf(w, id, k);
    assert SetterOf(Step(w, e), id, k);
  }

  lemma GaugeStaysTracked(w: World, e: Event, k: Key)
    requires Tracked(w) && k in Step(w, e).gauge
    ensures k in Step(w, e).series || InFlight(Step(w, e), k)
  {
    var w' := Step(w, e);
    if k !in w.gauge {
      assert SetterOf(w', e.id, k);
    } else if InFlight(w, k) {
      if e.WriteSeries? && SetterOf(w, e.id, k) {
        if w.holder.None? { assert k in w'.series; } else { assert w' == w; }
      } else {
        StillInFlight(w, e, k);
      }
    } else {
      assert !(Held(w, e.id) && w.threads[e.id].doomed == Some(k));
    }
  }

  lemma LockStaysHeld(w: World, e: Event)
    requires Tracked(w)
    ensures forall id: nat :: Held(Step(w, e), id) <==> Step(w, e).holder == Some(id)
  {
    var w' := Step(w, e);
    forall id: nat ensures Held(w', id) <==> w'.holder == Some(id) {
      assert Held(w, id) <==> w.holder == Some(id);
      assert Held(w, e.id) <==> w.holder == Some(e.id);
    }
  }

  lemma DoomedStaysGone(w: World, e: Event, id: nat)
    requires Tracked(w)
    requires var w' := Step(w, e);
      Held(w', id) && w'.threads[id].doomed.Some? && w'.threads[id].doomed.value in w'.gauge
    ensures InFlight(Step(w, e), Step(w, e).threads[id].doomed.value)
  {
    var w' := Step(w, e);
    var k := w'.threads[id].doomed.value;
    assert Held(w, id) && w.threads[id].doomed == Some(k);
    if k !in w.gauge {
      assert SetterOf(w', e.id, k);
    } else {
      assert w.holder == Some(id);
      assert InFlight(w, k);
      if e.WriteSeries? && SetterOf(w, e.id, k) { assert w' == w; } else { StillInFlight(w, e, k); }
    }
  }

  /** In every interleaving, whatever is exported is recorded or about to be. */
  lemma {:induction false} ExportedIsTracked(events: seq<Event>)
    ensures Tracked(Run(events))
  {
    if events != [] {
      var w, e := Run(events[..|events| - 1]), events[|events| - 1];
      ExportedIsTracked(events[..|events| - 1]);
      var w' := Step(w, e);
      forall k | k in w'.gauge ensures k in w'.series || InFlight(w', k) { GaugeStaysTracked(w, e, k); }
      LockStaysHeld(w, e);
      forall id: nat | Held(w', id) && w'.threads[id].doomed.Some? && w'.threads[id].doomed.value in w'.gauge
        ensures InFlight(w', w'.threads[id].doomed.value)
      {
        DoomedStaysGone(w, e, id);
      }
    }
  }

  /** So nothing exported escapes pruning: a pruner that takes the lock while no setter is in flight
      will examine every exported key. */
  lemma PrunerSeesEverything(events: seq<Event>, id: nat)
    requires var w := Run(events);
      && (forall k: Key :: !InFlight(w, k))
      && w.holder.None? && Step(w, TakeLock(id)).holder == Some(id)
    ensures var w' := Step(Run(events), TakeLock(id));
      id in w'.threads && w'.threads[id].Pruning? && w'.gauge <= w'.threads[id].left
  {
    ExportedIsTracked(events);
    var w := Run(events);
    forall k | k in w.gauge ensures k in w.series { assert !InFlight(w, k); }
  }

  /** The pruner has still to look at k, or has reason to keep it, or is deleting it. */
  predicate Sweeps(t: Thread, k: Key, at: int)
    requires t.Pruning?
  {
    k in t.left || k in t.seen || at > t.start || t.doomed == Some(k)
  }

  /** While a pruner works, whatever it has not yet looked at is still on its list. */
  ghost predicate Sweeping(w: World) {
    forall id: nat, k | Held(w, id) && k in w.series :: Sweeps(w.threads[id], k, w.series[k])
  }

  lemma StepKeepsSweeping(w: World, e: Event)
    requires Tracked(w) && Sweeping(w)
    ensures Sweeping(Step(w, e))
  {
    var w' := Step(w, e);
    LockStaysHeld(w, e);
    forall id: nat, k | Held(w', id) && k in w'.series
      ensures Sweeps(w'.threads[id], k, w'.series[k])
    {
      assert w'.holder == Some(id);
      if Held(w, id) { assert w.holder == Some(id) && k in w.series && Sweeps(w.threads[id], k, w.series[k]); }
    }
  }

  lemma {:induction false} AlwaysSweeping(events: seq<Event>)
    ensures Sweeping(Run(events))
  {
    if events != [] {
      AlwaysSweeping(events[..|events| - 1]);
      ExportedIsTracked(events[..|events| - 1]);
      StepKeepsSweeping(Run(events[..|events| - 1]), events[|events| - 1]);
    }
  }

  /** In every interleaving, when a scan has finished pruning, each series still exported was listed by
      that scan, or recorded since it began, or is being set at that very moment. */
  lemma NothingStaleSurvivesAScan(events: seq<Event>, id: nat, k: Key)
    requires var w := Run(events);
      && Held(w, id) && w.threads[id].left == {} && w.threads[id].doomed.None?
      && k in w.gauge
    ensures var w := Run(events);
      k in w.threads[id].seen || (k in w.series && w.series[k] > w.threads[id].start) || InFlight(w, k)
  {
    ExportedIsTracked(events);
    AlwaysSweeping(events);
    if k in Run(events).series { assert Sweeps(Run(events).threads[id], k, Run(events).series[k]); }
  }

  // ---------- when recorded keys are exported ----------

  function Continue(w: World, more: seq<Event>): World
    decreases |more|
  {
    if more == [] then w else Continue(Step(w, more[0]), more[1..])
  }

  lemma {:induction false} RunContinues(events: seq<Event>, more: seq<Event>)
    ensures Run(events + more) == Continue(Run(events), more)
    decreases |more|
  {
    if more == [] {
      assert events + more == events;
    } else {
      assert (events + [more[0]])[..|events|] == events;
      assert events + more == (events + [more[0]]) + more[1..];
      RunContinues(events + [more[0]], more[1..]);
    }
  }

  /** A pruner deletes k from the gauge in this step. */
  predicate Drops(w: World, e: Event, k: Key) {
    && e.Examine? && e.key == k && e.id in w.threads
    && var t := w.threads[e.id];
    && t.Pruning? && t.doomed.None? && k in t.left
    && !(k in t.seen || (k in w.series && w.series[k] > t.start))
  }

  /** It does so while a setter has exported k and not yet recorded it. */
  ghost predicate Races(w: World, e: Event, k: Key) { Drops(w, e, k) && InFlight(w, k) }

  ghost predicate RaceFree(events: seq<Event>, from: nat, k: Key) {
    forall i | from <= i < |events| :: !Races(Run(events[..i]), events[i], k)
  }

  /** The lock holder has deleted k from the gauge and is about to delete it from the map. */
  ghost predicate Doomed(w: World, k: Key) { exists id: nat :: Held(w, id) && w.threads[id].doomed == Some(k) }

  ghost predicate Lost(w: World, k: Key) { k in w.series && k !in w.gauge && !Doomed(w, k) }

  lemma StepKeepsExported(w: World, e: Event, k: Key)
    requires Tracked(w) && !Lost(w, k) && (InFlight(w, k) ==> k in w.gauge) && !Races(w, e, k)
    ensures !Lost(Step(w, e), k)
  {
    var w' := Step(w, e);
    if k in w'.series && k !in w'.gauge {
      if k in w.gauge {
        assert Drops(w, e, k) && Held(w', e.id);
      } else if k !in w.series {
        assert SetterOf(w, e.id, k);
        assert InFlight(w, k);
      } else {
        var id: nat :| Held(w, id) && w.threads[id].doomed == Some(k);
        assert w.holder == Some(id);
        assert Held(w', id) && w'.threads[id].doomed == Some(k);
      }
    }
  }

  lemma StepKeepsPendingExported(w: World, e: Event, k: Key)
    requires (InFlight(w, k) ==> k in w.gauge) && !Races(w, e, k)
    ensures InFlight(Step(w, e), k) ==> k in Step(w, e).gauge
  {
    var w' := Step(w, e);
    if InFlight(w', k) {
      var id: nat :| SetterOf(w', id, k);
      assert SetterOf(w, id, k) || e == WriteGauge(id);
    }
  }

  /** In every run in which no pruner deletes k while a setter has it pending, k is, whenever it is
      recorded, exported or just being deleted from both. */
  lemma {:induction false} RecordedIsExported(events: seq<Event>, k: Key)
    requires RaceFree(events, 0, k)
    ensures !Lost(Run(events), k) && (InFlight(Run(events), k) ==> k in Run(events).gauge)
  {
    if events != [] {
      var before, e := events[..|events| - 1], events[|events| - 1];
      assert forall i | 0 <= i < |before| :: before[..i] == events[..i];
      RecordedIsExported(before, k);
      ExportedIsTracked(before);
      StepKeepsExported(Run(before), e, k);
      StepKeepsPendingExported(Run(before), e, k);
    }
  }

  predicate Spares(events: seq<Event>, k: Key) {
    forall e | e in events :: !(e.Examine? && e.key == k)
  }

  /** A pruner that has dealt with k runs to its end; a setter waiting to record k still waits. */
  lemma PrunerFinishes(w: World, id: nat, setter: nat, k: Key) returns (more: seq<Event>)
    requires Held(w, id) && w.threads[id].doomed.None? && k !in w.threads[id].left
    requires SetterOf(w, setter, k) && k !in w.gauge
    ensures Spares(more, k)
    ensures var w' := Continue(w, more);
      && SetterOf(w', setter, k) && k !in w'.gauge && w'.holder.None? && w'.threads == w.threads - {id}
    decreases w.threads[id].left
  {
    var t := w.threads[id];
    if t.left == {} {
      more := [Finish(id)];
      assert Continue(w, more) == Step(w, Finish(id));
    } else {
      var x :| x in t.left;
      var w1 := Step(w, Examine(id, x));
      assert SetterOf(w1, setter, k);
      if w1.threads[id].doomed.None? {
        var rest := PrunerFinishes(w1, id, setter, k);
        more := [Examine(id, x)] + rest;
        assert more[1..] == rest;
      } else {
        var w2 := Step(w1, DropSeries(id));
        assert SetterOf(w2, setter, k);
        var rest := PrunerFinishes(w2, id, setter, k);
        more := [Examine(id, x)] + ([DropSeries(id)] + rest);
        assert more[1..] == [DropSeries(id)] + rest && more[1..][1..] == rest;
      }
    }
  }

  lemma LostAtLast(w: World, setter: nat, k: Key)
    requires Tracked(w) && SetterOf(w, setter, k) && k !in w.gauge && w.holder.None?
    ensures Lost(Step(w, WriteSeries(setter, 0)), k)
  {
    LockStaysHeld(w, WriteSeries(setter, 0));
    assert forall id: nat :: !Held(Step(w, WriteSeries(setter, 0)), id);
  }

  lemma {:induction false} ContinueAppend(w: World, a: seq<Event>, e: Event)
    ensures Continue(w, a + [e]) == Step(Continue(w, a), e)
    decreases |a|
  {
    if a != [] {
      assert (a + [e])[1..] == a[1..] + [e];
      ContinueAppend(Step(w, a[0]), a[1..], e);
    } else {
      assert a + [e] == [e] && [e][1..] == [];
    }
  }

  /** Without another race on k, this continuation leaves k recorded and not exported. */
  ghost predicate Loses(events: seq<Event>, more: seq<Event>, k: Key) {
    RaceFree(events + more, |events|, k) && Lost(Run(events + more), k)
  }

  lemma RaceLoses(events: seq<Event>, e: Event, setter: nat, k: Key) returns (more: seq<Event>)
    requires Drops(Run(events), e, k) && SetterOf(Run(events), setter, k)
    ensures Loses(events + [e], more, k)
    ensures var w, end := Run(events), Run(events + [e] + more);
      end.threads == (w.threads - {e.id})[setter := w.threads[setter].(pending := None)]
  {
    var w1 := Step(Run(events), e);
    assert (events + [e])[..|events|] == events;
    var drained := PrunerDrains(Run(events), e, setter, k);
    more := drained + [WriteSeries(setter, 0)];
    RunContinues(events + [e], drained);
    RunContinues(events + [e], more);
    ContinueAppend(w1, drained, WriteSeries(setter, 0));
    ExportedIsTracked(events + [e] + drained);
    LostAtLast(Continue(w1, drained), setter, k);
    SparedIsRaceFree(events + [e], more, k);
  }

  /** After deleting k from the gauge the pruner deletes it from the map and runs to its end. */
  lemma PrunerDrains(w: World, e: Event, setter: nat, k: Key) returns (drained: seq<Event>)
    requires Drops(w, e, k) && SetterOf(w, setter, k)
    ensures Spares(drained, k)
    ensures var w' := Continue(Step(w, e), drained);
      && SetterOf(w', setter, k) && k !in w'.gauge && w'.holder.None? && w'.threads == w.threads - {e.id}
  {
    var w1 := Step(w, e);
    var w2 := Step(w1, DropSeries(e.id));
    assert SetterOf(w1, setter, k) && SetterOf(w2, setter, k);
    var rest := PrunerFinishes(w2, e.id, setter, k);
    drained := [DropSeries(e.id)] + rest;
    assert drained[1..] == rest;
    assert w2.threads - {e.id} == w.threads - {e.id};
  }

  lemma SparedIsRaceFree(events: seq<Event>, more: seq<Event>, k: Key)
    requires Spares(more, k)
    ensures RaceFree(events + more, |events|, k)
  {
    forall i | |events| <= i < |events + more| ensures !Races(Run((events + more)[..i]), (events + more)[i], k) {
      assert (events + more)[i] in more;
    }
  }

  /** The condition is exact: after a run free of races on k, a step is a race exactly if some
      continuation without another one ends with k recorded and not exported. */
  lemma RaceIff(events: seq<Event>, e: Event, k: Key)
    requires RaceFree(events, 0, k)
    ensures Races(Run(events), e, k) <==> exists more: seq<Event> :: Loses(events + [e], more, k)
  {
    if Races(Run(events), e, k) {
      var setter: nat :| SetterOf(Run(events), setter, k);
      var more := RaceLoses(events, e, setter, k);
    } else if more: seq<Event> :| Loses(events + [e], more, k) {
      var all := events + [e] + more;
      forall i | 0 <= i < |all| ensures !Races(Run(all[..i]), all[i], k) {
        if i < |events| {
          assert all[..i] == events[..i] && all[i] == events[i];
        } else if i == |events| {
          assert all[..i] == events && all[i] == e;
        }
      }
      RecordedIsExported(all, k);
    }
  }

  // ---------- and a scan mends what a race left ----------

  /** A scan with nobody else at work, somewhere between its start and its end. */
  ghost predicate ScanningAlone(w: World, id: nat, keys: seq<Key>, start: int) {
    && w.threads.Keys == {id}
    && var t, listed := w.threads[id], Listed(keys);
    && (forall k | k in w.series :: k in listed || w.series[k] <= start)
    && match t
       case Setting(todo, pending, job) =>
         && w.holder.None? && job == Scanning(listed, start)
         && Listed(todo) <= listed && (pending.Some? ==> pending.value in listed && pending.value in w.gauge)
         && (forall k | k in w.gauge :: k in w.series || pending == Some(k))
         && (forall k | k in listed :: k in todo || (k in w.gauge && (k in w.series || pending == Some(k))))
       case Pruning(seen, began, left, doomed) =>
         && w.holder == Some(id) && seen == listed && began == start
         && listed <= w.gauge <= w.series.Keys && (doomed.Some? ==> doomed.value !in listed && doomed.value !in w.gauge)
         && (forall k | k in w.series :: k in left || k in listed || doomed == Some(k))
  }

  ghost predicate ScanDone(w: World, keys: seq<Key>) {
    w.threads == map[] && w.gauge == w.series.Keys == Listed(keys)
  }

  /** The scan's own steps, after its beginning. */
  predicate StepsOf(events: seq<Event>, id: nat) {
    forall e | e in events :: e.id == id && !e.BeginRecord? && !e.BeginScan?
  }

  lemma ScanStep(w: World, e: Event, id: nat, keys: seq<Key>, start: int)
    requires ScanningAlone(w, id, keys, start) && e.id == id && !e.BeginRecord? && !e.BeginScan?
    ensures ScanningAlone(Step(w, e), id, keys, start) || ScanDone(Step(w, e), keys)
  {
    var t := w.threads[id];
    if Step(w, e) != w {
      if t.Setting? { SettingStep(w, e, id, keys, start); } else { PruningStep(w, e, id, keys, start); }
    }
  }

  lemma SettingStep(w: World, e: Event, id: nat, keys: seq<Key>, start: int)
    requires ScanningAlone(w, id, keys, start) && e.id == id && w.threads[id].Setting?
    requires (e.WriteGauge? || e.WriteSeries? || e.TakeLock?) && Step(w, e) != w
    ensures ScanningAlone(Step(w, e), id, keys, start)
  {
    var t := w.threads[id];
    if e.WriteGauge? {
      assert t.todo == [t.todo[0]] + t.todo[1..];
      assert t.todo[0] in Listed(t.todo) && Listed(t.todo[1..]) <= Listed(t.todo);
    }
  }

  lemma PruningStep(w: World, e: Event, id: nat, keys: seq<Key>, start: int)
    requires ScanningAlone(w, id, keys, start) && e.id == id && w.threads[id].Pruning?
    requires !e.BeginRecord? && !e.BeginScan? && Step(w, e) != w
    ensures ScanningAlone(Step(w, e), id, keys, start) || ScanDone(Step(w, e), keys)
  {
    if e.Finish? { assert Step(w, e).threads.Keys == {}; }
  }

  lemma {:induction false} ScanRuns(w: World, own: seq<Event>, id: nat, keys: seq<Key>, start: int)
    requires ScanningAlone(w, id, keys, start) || ScanDone(w, keys)
    requires StepsOf(own, id)
    ensures ScanningAlone(Continue(w, own), id, keys, start) || ScanDone(Continue(w, own), keys)
    decreases |own|
  {
    if own != [] {
      if ScanningAlone(w, id, keys, start) { ScanStep(w, own[0], id, keys, start); }
      ScanRuns(Step(w, own[0]), own[1..], id, keys, start);
    }
  }

  /** From any state that any interleaving left behind, a scan that then runs alone, and sees nothing
      newer than its start, ends with exactly the listed keys both exported and recorded. */
  lemma QuietScanMends(events: seq<Event>, id: nat, keys: seq<Key>, start: int, own: seq<Event>)
    requires var w := Run(events); w.threads == map[] && forall k | k in w.series :: w.series[k] <= start
    requires StepsOf(own, id)
    ensures var end := Run(events + [BeginScan(id, keys, start)] + own);
      id !in end.threads ==> end.gauge == end.series.Keys == Listed(keys)
  {
    var w, begin := Run(events), BeginScan(id, keys, start);
    ExportedIsTracked(events);
    forall k | k in w.gauge ensures k in w.series { assert !InFlight(w, k); }
    assert w.holder.None? by { assert forall i: nat :: !Held(w, i); }
    assert (events + [begin])[..|events|] == events;
    RunContinues(events + [begin], own);
    ScanRuns(Step(w, begin), own, id, keys, start);
  }

  // ---------- only the inclusion survives ----------

  function Four(w: World, a: Event, b: Event, c: Event, d: Event): World {
    Step(Step(Step(Step(w, a), b), c), d)
  }

  lemma RunFourMore(events: seq<Event>, a: Event, b: Event, c: Event, d: Event)
    ensures Run(events + [a, b, c, d]) == Four(Run(events), a, b, c, d)
  {
    var all := events + [a, b, c, d];
    var n := |events|;
    assert all[..n + 3] == events + [a, b, c];
    assert (events + [a, b, c])[..n + 2] == events + [a, b];
    assert (events + [a, b])[..n + 1] == events + [a];
    assert (events + [a])[..n] == events;
    assert Run(events + [a]) == Step(Run(events), a);
    assert Run(events + [a, b]) == Step(Run(events + [a]), b);
    assert Run(events + [a, b, c]) == Step(Run(events + [a, b]), c);
  }

  /** k is exported and recorded. */
  lemma RecordOnce(k: Key)
    ensures Four(World({}, map[], map[], None), BeginRecord(0, k), WriteGauge(0), WriteSeries(0, 1), Finish(0))
            == World({k}, map[k := 1], map[], None)
  {
    var w1 := Step(World({}, map[], map[], None), BeginRecord(0, k));
    var w2 := Step(w1, WriteGauge(0));
    assert w2.threads[0] == Setting([], Some(k), Recording);
    var w3 := Step(w2, WriteSeries(0, 1));
    assert w3.threads[0] == Setting([], None, Recording);
    assert Step(w3, Finish(0)) == World({k}, map[k := 1], map[], None);
  }

  const PRUNER := Pruning({}, 5, {}, None)

  /** A scan that does not list k takes the lock, and k is set again. */
  lemma SetAgainUnderLock(k: Key)
    ensures Four(World({k}, map[k := 1], map[], None),
                 BeginScan(1, [], 5), TakeLock(1), BeginRecord(2, k), WriteGauge(2))
            == World({k}, map[k := 1],
                     map[1 := PRUNER.(left := {k}), 2 := Setting([], Some(k), Recording)], Some(1))
  {
    var w1 := Step(World({k}, map[k := 1], map[], None), BeginScan(1, [], 5));
    assert Listed([]) == {};
    assert w1.threads[1] == Setting([], None, Scanning({}, 5));
    var w2 := Step(w1, TakeLock(1));
    assert w2.threads[1] == PRUNER.(left := {k}) && w2.holder == Some(1);
    var w3 := Step(w2, BeginRecord(2, k));
    assert w3.threads[2] == Setting([k], None, Recording);
    var w4 := Step(w3, WriteGauge(2));
    assert [k][1..] == [];
    assert w4.threads == map[1 := PRUNER.(left := {k}), 2 := Setting([], Some(k), Recording)];
    assert w4.gauge == {k};
  }

  lemma RaceIsReached(k: Key) returns (events: seq<Event>)
    ensures Run(events) == World({k}, map[k := 1],
                                 map[1 := PRUNER.(left := {k}), 2 := Setting([], Some(k), Recording)], Some(1))
  {
    var begun := [BeginRecord(0, k), WriteGauge(0), WriteSeries(0, 1), Finish(0)];
    RunFourMore([], BeginRecord(0, k), WriteGauge(0), WriteSeries(0, 1), Finish(0));
    assert [] + begun == begun;
    RecordOnce(k);
    RunFourMore(begun, BeginScan(1, [], 5), TakeLock(1), BeginRecord(2, k), WriteGauge(2));
    SetAgainUnderLock(k);
    events := begun + [BeginScan(1, [], 5), TakeLock(1), BeginRecord(2, k), WriteGauge(2)];
  }

  /** Such races do happen: the pruner is about to delete the key the setter has pending. What they can
      leave is a recorded key that is not exported, with nobody in flight. */
  lemma RecordedMayBeUnexported(k: Key) returns (events: seq<Event>)
    ensures Lost(Run(events), k) && forall j: Key :: !InFlight(Run(events), j)
  {
    var begun := RaceIsReached(k);
    var more := RaceLoses(begun, Examine(1, k), 2, k);
    events := begun + [Examine(1, k)] + more;
    assert Run(events).threads == map[2 := Setting([], None, Recording)];
  }
}
