/**
 Rotation of the shim's own serving certificate (internal/certs/serving.go): a check every twelve
 hours that re-issues within thirty days of expiry and may fail.
 */
module Rotation {
  import opened Prelude
  import opened Pki

  const HOUR := 3600
  const DEFAULT_TTL := 365 * 24 * HOUR
  const RENEW_BEFORE := 30 * 24 * HOUR
  const CHECK_EVERY := 12 * HOUR

  function EffectiveTtl(ttl: int): int { if ttl == 0 then DEFAULT_TTL else ttl }

  // ---------- the program ----------

  /** What the listener serves; only its expiry matters here. */
  datatype KeyPair = KeyPair(serial: nat, notAfter: int)

  class Manager {
    const ca: Ca
    const ttl: int
    var current: KeyPair
    var notAfter: int

    /** The recorded expiry is that of the certificate being served. */
    ghost predicate Valid()
      reads this
    {
      current.notAfter == notAfter && (ca.notAfter.Some? ==> notAfter <= ca.notAfter.value)
    }

    /** A manager whose first issuance succeeded; otherwise there is none. */
    constructor (ca: Ca, ttl: int, now: int, serial: nat)
      ensures Valid() && this.ca == ca && this.ttl == (if ttl == 0 then 365 * 24 * 3600 else ttl)
      ensures notAfter == NotAfter(ca, now, this.ttl) && current == KeyPair(serial, notAfter)
    {
      this.ca := ca;
      var t := EffectiveTtl(ttl);
      this.ttl := t;
      notAfter := NotAfter(ca, now, t);
      current := KeyPair(serial, NotAfter(ca, now, t));
    }

    method Issue(now: int, serial: nat, works: bool) returns (err: bool)
      requires Valid()
      modifies this
      ensures Valid() && err == !works
      ensures notAfter == if works then NotAfter(ca, now, ttl) else old(notAfter)
      ensures current.serial == if works then serial else old(current.serial)
    {
      if !works {
        return true;
      }
      var end := NotAfter(ca, now, ttl);
      current := KeyPair(serial, end);
      notAfter := end;
      return false;
    }

    /** The loop, given whether issuing would work at each tick. */
    method Run(start: int, ticks: seq<bool>)
      requires Valid()
      modifies this
      ensures Valid()
      ensures notAfter == Continue(ca, ttl, Phase(start, old(notAfter), 0, start), ticks).notAfter
    {
      var now := start;
      for k := 0 to |ticks|
        invariant Valid()
        invariant now == start + k * CHECK_EVERY
        invariant Continue(ca, ttl, Phase(start, old(notAfter), 0, start), ticks[..k]).now == now
        invariant notAfter == Continue(ca, ttl, Phase(start, old(notAfter), 0, start), ticks[..k]).notAfter
      {
        assert ticks[..k + 1][..k] == ticks[..k];
        now := now + CHECK_EVERY;
        if notAfter - now > RENEW_BEFORE {
          continue;
        }
        var _ := Issue(now, k, ticks[k]);
      }
      assert ticks[..|ticks|] == ticks;
    }
  }

  // ---------- runs ----------

  /** now: the last tick; failures: failed issuances in a row since lastGood, the last tick at which
      the certificate was left alone or renewed. */
  datatype Phase = Phase(now: int, notAfter: int, failures: nat, lastGood: int)

  function Tick(ca: Ca, ttl: int, s: Phase, works: bool): Phase {
    var now := s.now + CHECK_EVERY;
    if s.notAfter - now > RENEW_BEFORE then Phase(now, s.notAfter, 0, now)
    else if works then Phase(now, NotAfter(ca, now, ttl), 0, now)
    else Phase(now, s.notAfter, s.failures + 1, s.lastGood)
  }

  function Continue(ca: Ca, ttl: int, s: Phase, ticks: seq<bool>): Phase {
    if ticks == [] then s else Tick(ca, ttl, Continue(ca, ttl, s, ticks[..|ticks| - 1]), ticks[|ticks| - 1])
  }

  function Begin(ca: Ca, ttl: int, start: int): Phase {
    Phase(start, NotAfter(ca, start, ttl), 0, start)
  }

  function Min(a: int, b: int): int { if a < b then a else b }

  /** The life a certificate has left at a good tick, at the least. */
  function Guaranteed(ca: Ca, ttl: int, lastGood: int): int {
    var m := Min(RENEW_BEFORE, ttl);
    if ca.notAfter.Some? then Min(m, ca.notAfter.value - lastGood) else m
  }

  ghost predicate OnSchedule(ca: Ca, ttl: int, s: Phase) {
    && s.now == s.lastGood + s.failures * CHECK_EVERY
    && s.notAfter - s.lastGood >= Guaranteed(ca, ttl, s.lastGood)
    && (ca.notAfter.Some? ==> s.notAfter <= ca.notAfter.value)
  }

  lemma {:induction false} StaysOnSchedule(ca: Ca, ttl: int, start: int, ticks: seq<bool>)
    ensures OnSchedule(ca, ttl, Continue(ca, ttl, Begin(ca, ttl, start), ticks))
  {
    if ticks != [] { StaysOnSchedule(ca, ttl, start, ticks[..|ticks| - 1]); }
  }

  /** At every instant up to the next tick, the certificate served has at least the guaranteed life
      less one interval for each failure in a row and one more; and it never outlives the CA. */
  lemma RemainingLife(ca: Ca, ttl: int, start: int, ticks: seq<bool>, k: nat, instant: int)
    requires var s := Continue(ca, ttl, Begin(ca, ttl, start), ticks);
      s.failures <= k && s.now <= instant <= s.now + CHECK_EVERY
    ensures var s := Continue(ca, ttl, Begin(ca, ttl, start), ticks);
      && s.notAfter - instant >= Guaranteed(ca, ttl, s.lastGood) - (k + 1) * CHECK_EVERY
      && (ca.notAfter.Some? ==> s.notAfter <= ca.notAfter.value)
  {
    StaysOnSchedule(ca, ttl, start, ticks);
  }

  /** With a lifetime of at least the renewal window, the default being one, and a CA that outlasted it
      at the last good tick, fifty-nine failures in a row never let the certificate expire. */
  lemma NeverExpired(ca: Ca, ttl: int, start: int, ticks: seq<bool>, instant: int)
    requires var s := Continue(ca, ttl, Begin(ca, ttl, start), ticks);
      && ttl >= RENEW_BEFORE && s.failures <= 59 && s.now <= instant <= s.now + CHECK_EVERY
      && (ca.notAfter.Some? ==> ca.notAfter.value - s.lastGood >= RENEW_BEFORE)
    ensures instant <= Continue(ca, ttl, Begin(ca, ttl, start), ticks).notAfter
  {
    RemainingLife(ca, ttl, start, ticks, 59, instant);
  }

  // ---------- how many failures are too many ----------

  /** The least life a certificate has left when issuing it first fails, if no CA cuts it: all of it if
      it is renewed at every tick, otherwise what the last tick that left it alone found. */
  function Worst(ttl: int): int {
    if ttl <= RENEW_BEFORE then ttl else RENEW_BEFORE + 1 + (ttl - RENEW_BEFORE - 1) % CHECK_EVERY
  }

  /** An instant before the next tick, after at most k failures in a row, of a run whose certificate the
      CA does not cut. */
  ghost predicate Exposed(ca: Ca, ttl: int, start: int, ticks: seq<bool>, k: nat, instant: int) {
    var s := Continue(ca, ttl, Begin(ca, ttl, start), ticks);
    && s.failures <= k && s.now <= instant <= s.now + CHECK_EVERY
    && (ca.notAfter.Some? ==> s.notAfter < ca.notAfter.value)
  }

  ghost predicate Covered(ca: Ca, ttl: int, start: int, ticks: seq<bool>, instant: int) {
    instant <= Continue(ca, ttl, Begin(ca, ttl, start), ticks).notAfter
  }

  /** Once a CA has cut a certificate it cuts all later ones. */
  lemma {:induction false} CutStays(ca: Ca, ttl: int, start: int, ticks: seq<bool>)
    requires ca.notAfter.Some?
    ensures var s := Continue(ca, ttl, Begin(ca, ttl, start), ticks);
      && s.notAfter <= ca.notAfter.value
      && (s.notAfter == ca.notAfter.value ==> s.now + ttl >= ca.notAfter.value)
  {
    if ticks != [] { CutStays(ca, ttl, start, ticks[..|ticks| - 1]); }
  }

  /** The life left at the last good tick is the lifetime less j intervals, and if any less then more
      than the renewal window. */
  ghost predicate LifeLess(ttl: int, s: Phase, j: nat) {
    && s.now == s.lastGood + s.failures * CHECK_EVERY
    && s.notAfter - s.lastGood == ttl - j * CHECK_EVERY
    && (j > 0 ==> ttl - j * CHECK_EVERY > RENEW_BEFORE)
  }

  lemma TickLife(ca: Ca, ttl: int, s: Phase, works: bool, i: nat) returns (j: nat)
    requires LifeLess(ttl, s, i)
    requires ca.notAfter.Some? ==> Tick(ca, ttl, s, works).notAfter < ca.notAfter.value
    ensures LifeLess(ttl, Tick(ca, ttl, s, works), j)
  {
    if s.notAfter - (s.now + CHECK_EVERY) > RENEW_BEFORE {
      j := i + s.failures + 1;
    } else {
      j := if works then 0 else i;
    }
  }

  lemma {:induction false} LifeAtLastGood(ca: Ca, ttl: int, start: int, ticks: seq<bool>) returns (j: nat)
    requires var s := Continue(ca, ttl, Begin(ca, ttl, start), ticks);
      ca.notAfter.Some? ==> s.notAfter < ca.notAfter.value
    ensures LifeLess(ttl, Continue(ca, ttl, Begin(ca, ttl, start), ticks), j)
  {
    j := 0;
    if ticks != [] {
      var before := ticks[..|ticks| - 1];
      if ca.notAfter.Some? { CutStays(ca, ttl, start, before); }
      var i := LifeAtLastGood(ca, ttl, start, before);
      j := TickLife(ca, ttl, Continue(ca, ttl, Begin(ca, ttl, start), before), ticks[|ticks| - 1], i);
    }
  }

  lemma RemainderBelow(a: int, j: nat)
    requires a - j * CHECK_EVERY >= 0
    ensures a % CHECK_EVERY <= a - j * CHECK_EVERY
  {
    assert a == a / CHECK_EVERY * CHECK_EVERY + a % CHECK_EVERY;
    assert j <= a / CHECK_EVERY;
  }

  lemma WorstIsLeast(ttl: int, j: nat)
    requires j > 0 ==> ttl - j * CHECK_EVERY > RENEW_BEFORE
    ensures ttl - j * CHECK_EVERY >= Worst(ttl)
  {
    if ttl > RENEW_BEFORE { RemainderBelow(ttl - RENEW_BEFORE - 1, j); }
  }

  lemma EnoughLife(ca: Ca, ttl: int, start: int, ticks: seq<bool>, k: nat, instant: int)
    requires (k + 1) * CHECK_EVERY <= Worst(ttl) && Exposed(ca, ttl, start, ticks, k, instant)
    ensures Covered(ca, ttl, start, ticks, instant)
  {
    var j := LifeAtLastGood(ca, ttl, start, ticks);
    WorstIsLeast(ttl, j);
  }

  lemma {:induction false} ContinueAppend(ca: Ca, ttl: int, s: Phase, a: seq<bool>, b: seq<bool>)
    ensures Continue(ca, ttl, s, a + b) == Continue(ca, ttl, Continue(ca, ttl, s, a), b)
  {
    if b == [] {
      assert a + b == a;
    } else {
      assert (a + b)[..|a + b| - 1] == a + b[..|b| - 1];
      ContinueAppend(ca, ttl, s, a, b[..|b| - 1]);
    }
  }

  function Failing(n: nat): seq<bool> { seq(n, i => false) }

  /** Ticks that find enough life leave the certificate alone. */
  lemma {:induction false} IdleTicks(ca: Ca, ttl: int, s: Phase, n: nat)
    requires s.failures == 0 && s.lastGood == s.now
    requires n > 0 ==> s.notAfter - (s.now + n * CHECK_EVERY) > RENEW_BEFORE
    ensures Continue(ca, ttl, s, Failing(n)) == Phase(s.now + n * CHECK_EVERY, s.notAfter, 0, s.now + n * CHECK_EVERY)
  {
    if n > 0 {
      assert Failing(n)[..n - 1] == Failing(n - 1);
      IdleTicks(ca, ttl, s, n - 1);
    }
  }

  /** Once it has to be renewed every tick is a failure. */
  lemma {:induction false} FailingTicks(ca: Ca, ttl: int, s: Phase, n: nat)
    requires s.notAfter - (s.now + CHECK_EVERY) <= RENEW_BEFORE
    ensures Continue(ca, ttl, s, Failing(n)) == Phase(s.now + n * CHECK_EVERY, s.notAfter, s.failures + n, s.lastGood)
  {
    if n > 0 {
      assert Failing(n)[..n - 1] == Failing(n - 1);
      FailingTicks(ca, ttl, s, n - 1);
    }
  }

  const NO_CA := Ca(None, 0)

  /** The worst run: a certificate that is left alone for as long as it can be, and then k failures. */
  lemma WorstRun(ttl: int, k: nat) returns (ticks: seq<bool>)
    ensures var s := Continue(NO_CA, ttl, Begin(NO_CA, ttl, 0), ticks);
      && s.failures == k && s.notAfter - s.now == Worst(ttl) - k * CHECK_EVERY
  {
    var idle := if ttl <= RENEW_BEFORE then 0 else (ttl - RENEW_BEFORE - 1) / CHECK_EVERY;
    assert ttl - idle * CHECK_EVERY == Worst(ttl);
    var first := Begin(NO_CA, ttl, 0);
    IdleTicks(NO_CA, ttl, first, idle);
    FailingTicks(NO_CA, ttl, Continue(NO_CA, ttl, first, Failing(idle)), k);
    ContinueAppend(NO_CA, ttl, first, Failing(idle), Failing(k));
    ticks := Failing(idle) + Failing(k);
  }

  /** For every lifetime the exact number: every instant up to the next tick after at most k failures in
      a row is covered, whatever the run, exactly if k + 1 intervals fit into the worst life left. */
  lemma HarmlessIff(ttl: int, k: nat)
    ensures (forall ca, start, ticks, instant | Exposed(ca, ttl, start, ticks, k, instant) ::
               Covered(ca, ttl, start, ticks, instant)) <==> (k + 1) * CHECK_EVERY <= Worst(ttl)
  {
    if (k + 1) * CHECK_EVERY <= Worst(ttl) {
      forall ca, start, ticks, instant | Exposed(ca, ttl, start, ticks, k, instant)
        ensures Covered(ca, ttl, start, ticks, instant)
      {
        EnoughLife(ca, ttl, start, ticks, k, instant);
      }
    } else {
      var ticks := WorstRun(ttl, k);
      var instant := Continue(NO_CA, ttl, Begin(NO_CA, ttl, 0), ticks).now + CHECK_EVERY;
      assert Exposed(NO_CA, ttl, 0, ticks, k, instant) && !Covered(NO_CA, ttl, 0, ticks, instant);
    }
  }

  /** With the default lifetime that is sixty failures. */
  lemma DefaultLifetimeIff(k: nat)
    ensures (forall ca, start, ticks, instant | Exposed(ca, DEFAULT_TTL, start, ticks, k, instant) ::
               Covered(ca, DEFAULT_TTL, start, ticks, instant)) <==> k <= 60
  {
    HarmlessIff(DEFAULT_TTL, k);
    assert Worst(DEFAULT_TTL) == RENEW_BEFORE + CHECK_EVERY;
  }

  /** Fifty-nine is the number that is harmless for every lifetime from the renewal window on. */
  lemma EveryLifetimeIff(k: nat)
    ensures (forall ttl, ca, start, ticks, instant
               | ttl >= RENEW_BEFORE && Exposed(ca, ttl, start, ticks, k, instant) ::
               Covered(ca, ttl, start, ticks, instant)) <==> k <= 59
  {
    if k <= 59 {
      forall ttl, ca, start, ticks, instant | ttl >= RENEW_BEFORE && Exposed(ca, ttl, start, ticks, k, instant)
        ensures Covered(ca, ttl, start, ticks, instant)
      {
        HarmlessIff(ttl, k);
      }
    } else {
      HarmlessIff(RENEW_BEFORE, k);
    }
  }
}
