/**
 The certificate-expiry tracker (internal/expiry/tracker.go) run by one goroutine at a time: what is
 exported after a scan is what the Secrets say, and a recorded expiry is found again by a scan.
 */
module Expiry {
  import opened Prelude
  import opened Text
  import opened NodePasswords

  const ANNOTATION_PREFIX := "rke2-supervisor-shim/not-after."
  const WARN_WITHIN := 120 * 24 * 3600

  datatype Key = Key(node: string, kind: string)

  /** RFC 3339 text of an instant, in seconds. */
  datatype TimeText = TimeText(parse: string -> Option<int>, show: int -> string)

  /** Annotations in the order the map iteration yields them. */
  datatype Secret = Secret(name: string, annotations: seq<(string, string)>)

  datatype Entry = Entry(key: Key, notAfter: int)

  // ---------- what the Secrets say ----------

  function EntryOf(lib: TimeText, secret: Secret, a: (string, string)): Option<Entry> {
    if !(ANNOTATION_PREFIX <= a.0) then None
    else
      match lib.parse(a.1)
      case None => None
      case Some(t) => Some(Entry(Key(TrimSuffix(secret.name, NAME_SUFFIX), a.0[|ANNOTATION_PREFIX|..]), t))
  }

  function EntriesIn(lib: TimeText, secret: Secret, n: nat): seq<Entry>
    requires n <= |secret.annotations|
  {
    if n == 0 then []
    else
      var e := EntryOf(lib, secret, secret.annotations[n - 1]);
      if e.None? then EntriesIn(lib, secret, n - 1) else EntriesIn(lib, secret, n - 1) + [e.value]
  }

  function Entries(lib: TimeText, secrets: seq<Secret>): seq<Entry> {
    if secrets == [] then []
    else
      var last := secrets[|secrets| - 1];
      Entries(lib, secrets[..|secrets| - 1]) + EntriesIn(lib, last, |last.annotations|)
  }

  function KeysOf(es: seq<Entry>): set<Key> { set i | 0 <= i < |es| :: es[i].key }

  /** The exported value of each key: the last entry for it. */
  function Values(es: seq<Entry>): (m: map<Key, int>)
    ensures m.Keys == KeysOf(es)
  {
    if es == [] then map[]
    else
      var before := Values(es[..|es| - 1]);
      KeysOfAppend(es[..|es| - 1], es[|es| - 1]);
      before[es[|es| - 1].key := es[|es| - 1].notAfter]
  }

  lemma KeysOfAppend(es: seq<Entry>, e: Entry)
    ensures KeysOf(es + [e]) == KeysOf(es) + {e.key}
    ensures e in es + [e] && (es + [e])[..|es|] == es
  {
    var all := es + [e];
    forall k | k in KeysOf(es) + {e.key} ensures k in KeysOf(all) {
      if k == e.key {
        assert all[|es|].key == k;
      } else {
        var i :| 0 <= i < |es| && es[i].key == k;
        assert all[i].key == k;
      }
    }
  }

  /** The two clock readings one entry of a scan takes: when it is set, and when its remaining life is
      computed. A clock gives those of the i-th entry. */
  datatype Reading = Reading(at: int, until: int)
  type Clock = nat -> Reading

  predicate IsSoon(e: Entry, r: Reading) { e.notAfter - r.until <= WARN_WITHIN }

  function Soon(es: seq<Entry>, clock: Clock): nat {
    if es == [] then 0
    else Soon(es[..|es| - 1], clock) + (if IsSoon(es[|es| - 1], clock(|es| - 1)) then 1 else 0)
  }

  /** The entries a warning is due for. */
  function DueSoon(es: seq<Entry>, clock: Clock): set<int> {
    set i | 0 <= i < |es| && es[i].notAfter - clock(i).until <= 120 * 24 * 3600
  }

  /** Soon counts them. */
  lemma {:induction false} SoonCounts(es: seq<Entry>, clock: Clock)
    ensures Soon(es, clock) == |DueSoon(es, clock)|
  {
    if es != [] {
      var n := |es| - 1;
      SoonCounts(es[..n], clock);
      assert DueSoon(es, clock) == DueSoon(es[..n], clock) + (if IsSoon(es[n], clock(n)) then {n} else {});
    }
  }

  /** There are none exactly if every entry has more than the warning time left. */
  lemma NoneDueIff(es: seq<Entry>, clock: Clock)
    ensures |DueSoon(es, clock)| == 0 <==>
            forall i | 0 <= i < |es| :: es[i].notAfter - clock(i).until > 120 * 24 * 3600
  {
    if i :| 0 <= i < |es| && es[i].notAfter - clock(i).until <= 120 * 24 * 3600 { assert i in DueSoon(es, clock); }
  }

  /** Annotation j of Secret i records an expiry, and this is it. */
  predicate Records(lib: TimeText, secrets: seq<Secret>, i: nat, j: nat, e: Entry) {
    && i < |secrets| && j < |secrets[i].annotations|
    && secrets[i].annotations[j].0 == "rke2-supervisor-shim/not-after." + e.key.kind
    && lib.parse(secrets[i].annotations[j].1) == Some(e.notAfter)
    && e.key.node == TrimSuffix(secrets[i].name, ".node-password.rke2")
  }

  lemma EntryOfIff(lib: TimeText, secrets: seq<Secret>, i: nat, j: nat, e: Entry)
    requires i < |secrets| && j < |secrets[i].annotations|
    ensures EntryOf(lib, secrets[i], secrets[i].annotations[j]) == Some(e) <==> Records(lib, secrets, i, j, e)
  {
    var a := secrets[i].annotations[j].0;
    if ANNOTATION_PREFIX <= a { assert a == ANNOTATION_PREFIX + a[|ANNOTATION_PREFIX|..]; }
    if a == ANNOTATION_PREFIX + e.key.kind { assert a[|ANNOTATION_PREFIX|..] == e.key.kind; }
  }

  type Place = (nat, nat)

  predicate Before(a: Place, b: Place) { a.0 < b.0 || (a.0 == b.0 && a.1 < b.1) }

  /** es are what the annotations before `end` record, at those places and in that order, each once. */
  ghost predicate Enumerates(lib: TimeText, secrets: seq<Secret>, es: seq<Entry>, at: seq<Place>, end: Place) {
    && |at| == |es|
    && (forall k | 0 <= k < |es| :: Before(at[k], end) && Records(lib, secrets, at[k].0, at[k].1, es[k]))
    && (forall k, l | 0 <= k < l < |at| :: Before(at[k], at[l]))
    && (forall i: nat, j: nat, e | Records(lib, secrets, i, j, e) && Before((i, j), end) :: (i, j) in at)
  }

  lemma NextPlace(a: Place, i: nat, j: nat)
    ensures Before(a, (i, j + 1)) <==> Before(a, (i, j)) || a == (i, j)
  {
  }

  lemma EnumerateAdd(lib: TimeText, secrets: seq<Secret>, es: seq<Entry>, at: seq<Place>, i: nat, j: nat, e: Entry)
    requires Enumerates(lib, secrets, es, at, (i, j)) && Records(lib, secrets, i, j, e)
    ensures Enumerates(lib, secrets, es + [e], at + [(i, j)], (i, j + 1))
  {
    var es1, at1 := es + [e], at + [(i, j)];
    forall k | 0 <= k < |es1|
      ensures Before(at1[k], (i, j + 1)) && Records(lib, secrets, at1[k].0, at1[k].1, es1[k])
    {
      NextPlace(at1[k], i, j);
      if k < |es| { assert at1[k] == at[k] && es1[k] == es[k]; }
    }
    forall k, l | 0 <= k < l < |at1| ensures Before(at1[k], at1[l]) {
      if l < |at| { assert Before(at[k], at[l]); } else { assert Before(at[k], (i, j)); }
    }
    forall i1: nat, j1: nat, e1 | Records(lib, secrets, i1, j1, e1) && Before((i1, j1), (i, j + 1))
      ensures (i1, j1) in at1
    {
      NextPlace((i1, j1), i, j);
      if (i1, j1) == (i, j) { assert at1[|at|] == (i, j); } else { assert (i1, j1) in at; }
    }
  }

  lemma EnumerateSkip(lib: TimeText, secrets: seq<Secret>, es: seq<Entry>, at: seq<Place>, i: nat, j: nat)
    requires Enumerates(lib, secrets, es, at, (i, j)) && forall e :: !Records(lib, secrets, i, j, e)
    ensures Enumerates(lib, secrets, es, at, (i, j + 1))
  {
    forall k | 0 <= k < |es| ensures Before(at[k], (i, j + 1)) { NextPlace(at[k], i, j); }
    forall i1: nat, j1: nat, e1 | Records(lib, secrets, i1, j1, e1) && Before((i1, j1), (i, j + 1))
      ensures (i1, j1) in at
    {
      NextPlace((i1, j1), i, j);
    }
  }

  lemma EnumerateOneMore(lib: TimeText, secrets: seq<Secret>, es: seq<Entry>, at: seq<Place>, i: nat, j: nat)
    returns (more: seq<Place>)
    requires i < |secrets| && j < |secrets[i].annotations| && Enumerates(lib, secrets, es, at, (i, j))
    ensures var e := EntryOf(lib, secrets[i], secrets[i].annotations[j]);
      Enumerates(lib, secrets, if e.None? then es else es + [e.value], more, (i, j + 1))
  {
    var o := EntryOf(lib, secrets[i], secrets[i].annotations[j]);
    if o.Some? {
      EntryOfIff(lib, secrets, i, j, o.value);
      more := at + [(i, j)];
      EnumerateAdd(lib, secrets, es, at, i, j, o.value);
    } else {
      forall e ensures !Records(lib, secrets, i, j, e) { EntryOfIff(lib, secrets, i, j, e); }
      more := at;
      EnumerateSkip(lib, secrets, es, at, i, j);
    }
  }

  lemma EntriesInNext(lib: TimeText, es: seq<Entry>, secret: Secret, n: nat)
    requires n < |secret.annotations|
    ensures var e, before := EntryOf(lib, secret, secret.annotations[n]), es + EntriesIn(lib, secret, n);
      es + EntriesIn(lib, secret, n + 1) == if e.None? then before else before + [e.value]
  {
  }

  /** The scan finds what the annotations record, in order, each once and nothing else. */
  lemma {:induction false} EnumerateSecret(lib: TimeText, secrets: seq<Secret>, es: seq<Entry>, at: seq<Place>,
                                           i: nat, n: nat)
    returns (more: seq<Place>)
    requires i < |secrets| && n <= |secrets[i].annotations| && Enumerates(lib, secrets, es, at, (i, 0))
    ensures Enumerates(lib, secrets, es + EntriesIn(lib, secrets[i], n), more, (i, n))
  {
    if n == 0 {
      more := at;
      assert es + [] == es;
    } else {
      var before := EnumerateSecret(lib, secrets, es, at, i, n - 1);
      more := EnumerateOneMore(lib, secrets, es + EntriesIn(lib, secrets[i], n - 1), before, i, n - 1);
      EntriesInNext(lib, es, secrets[i], n - 1);
    }
  }

  lemma NextSecret(lib: TimeText, secrets: seq<Secret>, es: seq<Entry>, at: seq<Place>, i: nat)
    requires i < |secrets| && Enumerates(lib, secrets, es, at, (i, |secrets[i].annotations|))
    ensures Enumerates(lib, secrets, es, at, (i + 1, 0))
  {
    forall i1: nat, j1: nat, e | Records(lib, secrets, i1, j1, e) && Before((i1, j1), (i + 1, 0))
      ensures (i1, j1) in at
    {
      assert Before((i1, j1), (i, |secrets[i].annotations|));
    }
  }

  lemma {:induction false} EnumerateSecrets(lib: TimeText, secrets: seq<Secret>, n: nat) returns (at: seq<Place>)
    requires n <= |secrets|
    ensures Enumerates(lib, secrets, Entries(lib, secrets[..n]), at, (n, 0))
  {
    if n == 0 {
      at := [];
    } else {
      var before := EnumerateSecrets(lib, secrets, n - 1);
      assert secrets[..n][..n - 1] == secrets[..n - 1];
      at := EnumerateSecret(lib, secrets, Entries(lib, secrets[..n - 1]), before, n - 1, |secrets[n - 1].annotations|);
      NextSecret(lib, secrets, Entries(lib, secrets[..n]), at, n - 1);
    }
  }

  /** So the entries of a scan are those annotations of the listed Secrets that record an expiry. */
  lemma EntriesAreRecords(lib: TimeText, secrets: seq<Secret>) returns (at: seq<Place>)
    ensures Enumerates(lib, secrets, Entries(lib, secrets), at, (|secrets|, 0))
    ensures forall e :: e in Entries(lib, secrets) <==> exists i: nat, j: nat :: Records(lib, secrets, i, j, e)
  {
    at := EnumerateSecrets(lib, secrets, |secrets|);
    assert secrets[..|secrets|] == secrets;
    var es := Entries(lib, secrets);
    forall e ensures e in es <==> exists i: nat, j: nat :: Records(lib, secrets, i, j, e) {
      if e in es {
        var k :| 0 <= k < |es| && es[k] == e;
        assert Records(lib, secrets, at[k].0, at[k].1, e);
      }
      if i: nat, j: nat :| Records(lib, secrets, i, j, e) {
        assert (i, j) in at;
        var k :| 0 <= k < |at| && at[k] == (i, j);
        RecordsOnce(lib, secrets, i, j, e, es[k]);
      }
    }
  }

  lemma RecordsOnce(lib: TimeText, secrets: seq<Secret>, i: nat, j: nat, e: Entry, other: Entry)
    requires Records(lib, secrets, i, j, e) && Records(lib, secrets, i, j, other)
    ensures e == other
  {
    EntryOfIff(lib, secrets, i, j, e);
    EntryOfIff(lib, secrets, i, j, other);
  }

  /** Entry i is the last for its key, and says this. */
  predicate IsLast(es: seq<Entry>, i: nat, k: Key, v: int) {
    i < |es| && es[i] == Entry(k, v) && forall j | i < j < |es| :: es[j].key != k
  }

  lemma IsLastOneMore(es: seq<Entry>, e: Entry, i: nat, k: Key, v: int)
    ensures IsLast(es + [e], i, k, v) <==>
            if i == |es| then e == Entry(k, v) else IsLast(es, i, k, v) && e.key != k
  {
    var all := es + [e];
    if i < |es| {
      if IsLast(all, i, k, v) {
        assert all[|es|].key != k;
        forall j | i < j < |es| ensures es[j].key != k { assert all[j] == es[j]; }
      }
      if IsLast(es, i, k, v) && e.key != k {
        forall j | i < j < |all| ensures all[j].key != k { if j < |es| { assert all[j] == es[j]; } }
      }
    }
  }

  /** The value exported for a key is that of the last entry for it. */
  lemma {:induction false} ValuesIff(es: seq<Entry>, k: Key, v: int)
    ensures (k in Values(es) && Values(es)[k] == v) <==> exists i: nat :: IsLast(es, i, k, v)
  {
    if es != [] {
      var n := |es| - 1;
      assert es == es[..n] + [es[n]];
      ValuesIff(es[..n], k, v);
      forall i: nat ensures IsLast(es, i, k, v) <==>
                            if i == n then es[n] == Entry(k, v) else IsLast(es[..n], i, k, v) && es[n].key != k
      {
        IsLastOneMore(es[..n], es[n], i, k, v);
      }
      if es[n] == Entry(k, v) { assert IsLast(es, n, k, v); }
      if i: nat :| IsLast(es[..n], i, k, v) { assert i < n; }
    }
  }

  // ---------- one entry after another ----------

  /** A scan in progress. */
  datatype Progress = Progress(gauge: map<Key, int>, series: map<Key, int>, seen: set<Key>, soon: nat, count: nat)

  function Apply(p: Progress, e: Entry, clock: Clock): Progress {
    Progress(p.gauge[e.key := e.notAfter], p.series[e.key := clock(p.count).at], p.seen + {e.key},
             p.soon + (if IsSoon(e, clock(p.count)) then 1 else 0), p.count + 1)
  }

  function Fold(p: Progress, es: seq<Entry>, clock: Clock): Progress {
    if es == [] then p else Apply(Fold(p, es[..|es| - 1], clock), es[|es| - 1], clock)
  }

  lemma FoldOneMore(p: Progress, es: seq<Entry>, e: Entry, clock: Clock)
    ensures Fold(p, es + [e], clock) == Apply(Fold(p, es, clock), e, clock)
  {
    assert (es + [e])[..|es|] == es;
  }

  lemma {:induction false} FoldAppend(p: Progress, a: seq<Entry>, b: seq<Entry>, clock: Clock)
    ensures Fold(p, a + b, clock) == Fold(Fold(p, a, clock), b, clock)
  {
    if b == [] {
      assert a + b == a;
    } else {
      assert (a + b)[..|a + b| - 1] == a + b[..|b| - 1];
      FoldAppend(p, a, b[..|b| - 1], clock);
    }
  }

  // ---------- the program ----------

  class Tracker {
    const lib: TimeText
    var gauge: map<Key, int>     // exported series and their values
    var series: map<Key, int>    // when this tracker last set each of them
    var issued: map<string, nat>
    var expiringSoon: nat
    ghost var latest: int        // no series was set later than this

    /** Whatever is exported is recorded, and was recorded by now. */
    ghost predicate Valid()
      reads this
    {
      gauge.Keys <= series.Keys && forall k | k in series :: series[k] <= latest
    }

    /** Exported and recorded are the same: what is added as long as nothing runs concurrently. */
    ghost predicate Paired()
      reads this
    {
      gauge.Keys == series.Keys
    }

    constructor (lib: TimeText)
      ensures Valid() && Paired()
      ensures this.lib == lib && gauge == map[] && series == map[] && issued == map[]
    {
      this.lib := lib;
      gauge, series, issued, expiringSoon := map[], map[], map[], 0;
      latest := 0;
    }

    method SetSeries(key: Key, notAfter: int, now: int)
      modifies this`gauge, this`series, this`latest
      ensures old(Valid()) ==> Valid()
      ensures old(Paired()) ==> Paired()
      ensures latest == if now > old(latest) then now else old(latest)
      ensures gauge == old(gauge)[key := notAfter] && series == old(series)[key := now]
    {
      gauge := gauge[key := notAfter];
      series := series[key := now];
      latest := if now > latest then now else latest;
    }

    /** Everything not seen and not set since `start` goes, from both maps; nothing else does. */
    method PruneSeries(seen: set<Key>, start: int)
      modifies this`gauge, this`series
      ensures old(Valid()) ==> Valid()
      ensures old(Paired()) ==> Paired()
      ensures series == map k | k in old(series) && (k in seen || old(series)[k] > start) :: old(series)[k]
      ensures gauge == old(gauge) - (old(series).Keys - series.Keys)
    {
      var left := series.Keys;
      var all := series;
      while left != {}
        invariant left <= all.Keys
        invariant series == map k | k in all && (k in left || k in seen || all[k] > start) :: all[k]
        invariant gauge == old(gauge) - (all.Keys - series.Keys)
        decreases left
      {
        var k :| k in left;
        left := left - {k};
        if k in seen || all[k] > start {
          continue;
        }
        gauge := gauge - {k};
        series := series - {k};
      }
    }

    /** The patch sent to the Secret, if one is. */
    method RecordIssued(node: string, kind: string, notAfter: int, now: int)
      returns (patch: Option<(string, (string, string))>)
      requires Valid()
      modifies this`gauge, this`series, this`issued, this`latest
      ensures Valid() && (old(Paired()) ==> Paired())
      ensures issued == old(issued)[kind := (if kind in old(issued) then old(issued)[kind] else 0) + 1]
      ensures node == "" ==> patch == None && gauge == old(gauge) && series == old(series)
      ensures node != "" ==>
        && gauge == old(gauge)[Key(node, kind) := notAfter]
        && series == old(series)[Key(node, kind) := now]
        && patch == Some((SecretName(node), (ANNOTATION_PREFIX + kind, lib.show(notAfter))))
    {
      issued := issued[kind := (if kind in issued then issued[kind] else 0) + 1];
      if node == "" {
        return None;
      }
      SetSeries(Key(node, kind), notAfter, now);
      return Some((SecretName(node), (ANNOTATION_PREFIX + kind, lib.show(notAfter))));
    }

    /** A scan that began at `start`; `secrets` is None when listing them failed. If nothing was set
        since it began, both maps end up holding exactly the parseable annotations of the listed
        Secrets, even if a race had left them apart. */
    method Scan(secrets: Option<seq<Secret>>, start: int, clock: Clock)
      requires Valid()
      modifies this`gauge, this`series, this`expiringSoon, this`latest
      ensures Valid() && (old(Paired()) ==> Paired())
      ensures secrets.None? ==> gauge == old(gauge) && series == old(series) && expiringSoon == old(expiringSoon)
      ensures secrets.Some? ==>
        var es := Entries(lib, secrets.value);
        && Scanned(es, start, old(gauge), old(series), gauge, series)
        && expiringSoon == |DueSoon(es, clock)|
      ensures secrets.Some? && old(latest) <= start ==>
        gauge == Values(Entries(lib, secrets.value)) && series.Keys == gauge.Keys
    {
      if secrets.None? {
        return;
      }
      var soon, seen, count := 0, {}, 0;
      ghost var p := Progress(gauge, series, {}, 0, 0);
      for i := 0 to |secrets.value|
        invariant Valid() && (old(Paired()) ==> Paired())
        invariant Progress(gauge, series, seen, soon, count) == Fold(p, Entries(lib, secrets.value[..i]), clock)
      {
        var sec := secrets.value[i];
        seen, soon, count := ScanSecret(sec, clock, seen, soon, count);
        assert secrets.value[..i + 1][..i] == secrets.value[..i];
        FoldAppend(p, Entries(lib, secrets.value[..i]), EntriesIn(lib, sec, |sec.annotations|), clock);
      }
      assert secrets.value[..|secrets.value|] == secrets.value;
      ghost var es := Entries(lib, secrets.value);
      expiringSoon := soon;
      PruneSeries(seen, start);
      ScanEnds(es, start, clock, old(gauge), old(series), old(latest), gauge, series);
    }

    /** The annotations of one Secret. */
    method ScanSecret(sec: Secret, clock: Clock, seen0: set<Key>, soon0: nat, count0: nat)
      returns (seen: set<Key>, soon: nat, count: nat)
      requires Valid()
      modifies this`gauge, this`series, this`latest
      ensures Valid() && (old(Paired()) ==> Paired())
      ensures Progress(gauge, series, seen, soon, count) ==
              Fold(Progress(old(gauge), old(series), seen0, soon0, count0),
                   EntriesIn(lib, sec, |sec.annotations|), clock)
    {
      seen, soon, count := seen0, soon0, count0;
      ghost var p := Progress(gauge, series, seen0, soon0, count0);
      for j := 0 to |sec.annotations|
        invariant Valid() && (old(Paired()) ==> Paired())
        invariant Progress(gauge, series, seen, soon, count) == Fold(p, EntriesIn(lib, sec, j), clock)
      {
        var e := EntryOf(lib, sec, sec.annotations[j]);
        if e.None? {
          continue;
        }
        FoldOneMore(p, EntriesIn(lib, sec, j), e.value, clock);
        SetSeries(e.value.key, e.value.notAfter, clock(count).at);
        seen := seen + {e.value.key};
        if e.value.notAfter - clock(count).until <= WARN_WITHIN {
          soon := soon + 1;
        }
        count := count + 1;
      }
    }
  }

  /** What applying these entries comes to. */
  ghost predicate Applied(gauge0: map<Key, int>, series0: map<Key, int>, es: seq<Entry>, clock: Clock, p: Progress) {
    && p.gauge == gauge0 + Values(es) && p.seen == KeysOf(es) && p.soon == Soon(es, clock) && p.count == |es|
    && p.series.Keys == series0.Keys + KeysOf(es)
    && forall k | k in series0 && k !in KeysOf(es) :: p.series[k] == series0[k]
  }

  lemma AppliedOneMore(gauge0: map<Key, int>, series0: map<Key, int>, es: seq<Entry>, e: Entry, clock: Clock,
                       p: Progress)
    requires Applied(gauge0, series0, es, clock, p)
    ensures Applied(gauge0, series0, es + [e], clock, Apply(p, e, clock))
  {
    KeysOfAppend(es, e);
    MergeOneMore(gauge0, Values(es), e.key, e.notAfter);
  }

  lemma {:induction false} FoldIs(gauge0: map<Key, int>, series0: map<Key, int>, es: seq<Entry>, clock: Clock)
    ensures Applied(gauge0, series0, es, clock, Fold(Progress(gauge0, series0, {}, 0, 0), es, clock))
  {
    if es != [] {
      var before := es[..|es| - 1];
      FoldIs(gauge0, series0, before, clock);
      assert es == before + [es[|es| - 1]];
      AppliedOneMore(gauge0, series0, before, es[|es| - 1], clock,
                     Fold(Progress(gauge0, series0, {}, 0, 0), before, clock));
    }
  }

  lemma MergeOneMore(base: map<Key, int>, m: map<Key, int>, k: Key, v: int)
    ensures base + m[k := v] == (base + m)[k := v]
  {
  }

  lemma FoldThenPruned(es: seq<Entry>, start: int, clock: Clock, gauge0: map<Key, int>, series0: map<Key, int>,
                       gauge: map<Key, int>, series: map<Key, int>)
    requires var p := Fold(Progress(gauge0, series0, {}, 0, 0), es, clock);
      && series == (map k | k in p.series && (k in p.seen || p.series[k] > start) :: p.series[k])
      && gauge == p.gauge - (p.series.Keys - series.Keys)
    ensures Scanned(es, start, gauge0, series0, gauge, series)
  {
    FoldIs(gauge0, series0, es, clock);
    var p := Fold(Progress(gauge0, series0, {}, 0, 0), es, clock);
    assert p.series.Keys - series.Keys == series0.Keys - series.Keys;
  }

  lemma ScanEnds(es: seq<Entry>, start: int, clock: Clock, gauge0: map<Key, int>, series0: map<Key, int>, latest0: int,
                 gauge: map<Key, int>, series: map<Key, int>)
    requires gauge0.Keys <= series0.Keys && forall k | k in series0 :: series0[k] <= latest0
    requires var p := Fold(Progress(gauge0, series0, {}, 0, 0), es, clock);
      && series == (map k | k in p.series && (k in p.seen || p.series[k] > start) :: p.series[k])
      && gauge == p.gauge - (p.series.Keys - series.Keys)
    ensures Scanned(es, start, gauge0, series0, gauge, series)
    ensures Fold(Progress(gauge0, series0, {}, 0, 0), es, clock).soon == |DueSoon(es, clock)|
    ensures latest0 <= start ==> gauge == Values(es) && series.Keys == gauge.Keys
  {
    FoldIs(gauge0, series0, es, clock);
    SoonCounts(es, clock);
    FoldThenPruned(es, start, clock, gauge0, series0, gauge, series);
    if latest0 <= start { QuietScanIsExact(es, start, gauge0, series0, gauge, series); }
  }

  /** What a scan leaves: every listed key, and of the others those set since it began. */
  ghost predicate Scanned(es: seq<Entry>, start: int, gauge0: map<Key, int>, series0: map<Key, int>,
                          gauge: map<Key, int>, series: map<Key, int>)
  {
    && series.Keys == KeysOf(es) + (set k | k in series0 && series0[k] > start)
    && gauge == (gauge0 + Values(es)) - (series0.Keys - series.Keys)
  }

  // ---------- what follows ----------

  /** With nothing concurrent - what is exported was recorded, and all before the scan - a scan leaves
      exactly the parseable annotations of the listed Secrets, in both maps, with their values, whether
      or not something recorded was missing from the gauge. */
  lemma QuietScanIsExact(es: seq<Entry>, start: int, gauge0: map<Key, int>, series0: map<Key, int>,
                         gauge: map<Key, int>, series: map<Key, int>)
    requires Scanned(es, start, gauge0, series0, gauge, series)
    requires gauge0.Keys <= series0.Keys && forall k | k in series0 :: series0[k] <= start
    ensures gauge.Keys == series.Keys == KeysOf(es)
    ensures gauge == Values(es)
  {
    assert series.Keys == KeysOf(es);
    assert gauge.Keys == KeysOf(es);
  }

  /** An expiry recorded for a node is read back by a scan of the Secret it was recorded on. */
  lemma RecordedIsFound(lib: TimeText, node: string, kind: string, notAfter: int)
    requires lib.parse(lib.show(notAfter)) == Some(notAfter)
    ensures var a := (ANNOTATION_PREFIX + kind, lib.show(notAfter));
      EntryOf(lib, Secret(SecretName(node), [a]), a) == Some(Entry(Key(node, kind), notAfter))
  {
    TrimSuffixOf(node, NAME_SUFFIX);
    assert (ANNOTATION_PREFIX + kind)[|ANNOTATION_PREFIX|..] == kind;
  }
}
