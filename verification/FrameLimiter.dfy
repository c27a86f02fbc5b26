/**
 The WebSocket frame limiter of internal/tunnel/tunnel.go: an incremental parser of RFC 6455
 framing that fails a connection once a data message grows past a limit.

 `Advance` and `Scan` are the reference: one byte at a time over the whole stream. The class
 `FrameLimitConn` is the program: it takes the stream in arbitrary pieces and skips payload in bulk.
 */
module FrameLimiter {
  import opened Prelude

  newtype uint64 = x: int | 0 <= x < 0x1_0000_0000_0000_0000
  newtype int64 = x: int | -0x8000_0000_0000_0000 <= x < 0x8000_0000_0000_0000

  /** The largest limit for which `msg + int64(length)` cannot overflow; see SumOverflows. */
  const MAX_SAFE_LIMIT: int64 := 0x3fff_ffff_ffff_ffff

  // ---------- big-endian integers ----------

  function Pow256(n: nat): (p: nat)
    ensures p >= 1
  {
    if n == 0 then 1 else 256 * Pow256(n - 1)
  }

  function BigEndian(bs: seq<byte>): (v: nat)
    ensures v < Pow256(|bs|)
  {
    if bs == [] then 0 else 256 * BigEndian(bs[..|bs| - 1]) + bs[|bs| - 1]
  }

  lemma Pow256Values()
    ensures Pow256(2) == 0x1_0000
    ensures Pow256(8) == 0x1_0000_0000_0000_0000
  {
    assert Pow256(2) == 0x1_0000;
    assert Pow256(4) == 0x1_0000_0000;
    assert Pow256(6) == 0x1_0000_0000_0000;
  }

  // ---------- headers ----------

  /** The whole length of a frame header, once its first two bytes are known. */
  function HeaderLen(h: seq<byte>): (n: Option<nat>)
    ensures n.None? <==> |h| < 2
    ensures n.Some? ==> 2 <= n.value <= 14
  {
    if |h| < 2 then None
    else
      var l := h[1] % 128;
      Some(2 + (if l == 126 then 2 else if l == 127 then 8 else 0) + (if h[1] >= 128 then 4 else 0))
  }

  predicate Complete(h: seq<byte>) {
    HeaderLen(h).Some? && HeaderLen(h).value <= |h|
  }

  /** The payload length a complete header announces; it always fits 64 bits. */
  function PayloadLen(h: seq<byte>): (n: nat)
    requires Complete(h)
    ensures n < 0x1_0000_0000_0000_0000
  {
    var l := h[1] % 128;
    Pow256Values();
    if l == 126 then BigEndian(h[2..4])
    else if l == 127 then BigEndian(h[2..10])
    else l
  }

  // ---------- the reference parser ----------

  /** hdr: bytes of an unfinished header; payload: bytes of the current frame still to pass;
      msg: payload bytes announced so far by the current data message. */
  datatype ParserState = ParserState(hdr: seq<byte>, payload: nat, msg: nat)

  datatype Outcome = Running(state: ParserState) | Rejected

  const START := Running(ParserState([], 0, 0))

  /** What a finished header does to the message total. */
  function Account(max: nat, s: ParserState, h: seq<byte>): Outcome
    requires Complete(h)
  {
    var length := PayloadLen(h);
    if h[0] % 16 >= 8 then Running(ParserState([], length, s.msg))
    else
      var total := (if h[0] % 16 == 0 then s.msg else 0) + length;
      if total > max then Rejected else Running(ParserState([], length, total))
  }

  function Advance(max: nat, s: ParserState, b: byte): Outcome {
    if s.payload > 0 then Running(s.(payload := s.payload - 1))
    else
      var h := s.hdr + [b];
      if Complete(h) then Account(max, s, h) else Running(s.(hdr := h))
  }

  function Scan(max: nat, from: Outcome, bs: seq<byte>): Outcome {
    if bs == [] then from
    else
      match Scan(max, from, bs[..|bs| - 1])
      case Rejected => Rejected
      case Running(s) => Advance(max, s, bs[|bs| - 1])
  }

  /** What holds between any two bytes of a stream that has not been rejected. */
  ghost predicate WellFormed(max: nat, s: ParserState) {
    && s.msg <= max
    && s.payload < 0x1_0000_0000_0000_0000
    && |s.hdr| < 14
    && !Complete(s.hdr)
    && (s.hdr != [] ==> s.payload == 0)
  }

  lemma AdvanceKeepsWellFormed(max: nat, s: ParserState, b: byte)
    requires WellFormed(max, s)
    ensures var o := Advance(max, s, b); o.Running? ==> WellFormed(max, o.state)
  {
    if s.payload == 0 {
      var h := s.hdr + [b];
      if !Complete(h) && |h| >= 2 { assert HeaderLen(h).value <= 14; }
    }
  }

  lemma {:induction false} ScanKeepsWellFormed(max: nat, s: ParserState, bs: seq<byte>)
    requires WellFormed(max, s)
    ensures var o := Scan(max, Running(s), bs); o.Running? ==> WellFormed(max, o.state)
  {
    if bs != [] {
      ScanKeepsWellFormed(max, s, bs[..|bs| - 1]);
      var o := Scan(max, Running(s), bs[..|bs| - 1]);
      if o.Running? { AdvanceKeepsWellFormed(max, o.state, bs[|bs| - 1]); }
    }
  }

  // ---------- independence of read boundaries ----------

  lemma {:induction false} ScanAppend(max: nat, from: Outcome, a: seq<byte>, b: seq<byte>)
    ensures Scan(max, from, a + b) == Scan(max, Scan(max, from, a), b)
  {
    if b == [] {
      assert a + b == a;
    } else {
      assert (a + b)[..|a + b| - 1] == a + b[..|b| - 1];
      ScanAppend(max, from, a, b[..|b| - 1]);
    }
  }

  lemma {:induction false} RejectionAbsorbs(max: nat, bs: seq<byte>)
    ensures Scan(max, Rejected, bs) == Rejected
  {
    if bs != [] { RejectionAbsorbs(max, bs[..|bs| - 1]); }
  }

  /** A rejection anywhere rejects the whole. */
  lemma PrefixRejects(max: nat, from: Outcome, bs: seq<byte>, i: nat)
    requires i <= |bs| && Scan(max, from, bs[..i]) == Rejected
    ensures Scan(max, from, bs) == Rejected
  {
    assert bs == bs[..i] + bs[i..];
    ScanAppend(max, from, bs[..i], bs[i..]);
    RejectionAbsorbs(max, bs[i..]);
  }

  lemma ScanOneMore(max: nat, from: Outcome, bs: seq<byte>, i: nat)
    requires i < |bs| && Scan(max, from, bs[..i]).Running?
    ensures Scan(max, from, bs[..i + 1]) == Advance(max, Scan(max, from, bs[..i]).state, bs[i])
  {
    assert bs[..i + 1][..i] == bs[..i];
  }

  lemma ScanPiece(max: nat, from: Outcome, bs: seq<byte>, i: nat, j: nat)
    requires i <= j <= |bs|
    ensures Scan(max, from, bs[..j]) == Scan(max, Scan(max, from, bs[..i]), bs[i..j])
  {
    assert bs[..j] == bs[..i] + bs[i..j];
    ScanAppend(max, from, bs[..i], bs[i..j]);
  }

  lemma ScanByte(max: nat, s: ParserState, bs: seq<byte>, i: nat)
    requires i < |bs|
    ensures Scan(max, Running(s), bs[i..i + 1]) == Advance(max, s, bs[i])
  {
    assert bs[i..i + 1] == [bs[i]] && [bs[i]][..0] == [];
  }

  function ScanChunks(max: nat, from: Outcome, chunks: seq<seq<byte>>): Outcome {
    if chunks == [] then from
    else Scan(max, ScanChunks(max, from, chunks[..|chunks| - 1]), chunks[|chunks| - 1])
  }

  lemma {:induction false} ChunksAreTheStream(max: nat, from: Outcome, chunks: seq<seq<byte>>)
    ensures ScanChunks(max, from, chunks) == Scan(max, from, Flatten(chunks))
  {
    if chunks != [] {
      var before := chunks[..|chunks| - 1];
      ChunksAreTheStream(max, from, before);
      ScanAppend(max, from, Flatten(before), chunks[|chunks| - 1]);
    }
  }

  /** Any two ways of cutting one stream end in the same parser state, or both in rejection. */
  lemma CutIndependence(max: nat, from: Outcome, one: seq<seq<byte>>, other: seq<seq<byte>>)
    requires Flatten(one) == Flatten(other)
    ensures ScanChunks(max, from, one) == ScanChunks(max, from, other)
  {
    ChunksAreTheStream(max, from, one);
    ChunksAreTheStream(max, from, other);
  }

  /** Skipping payload in bulk is the same as passing it byte by byte. */
  lemma {:induction false} BulkSkip(max: nat, s: ParserState, bs: seq<byte>)
    requires |bs| <= s.payload
    ensures Scan(max, Running(s), bs) == Running(s.(payload := s.payload - |bs|))
  {
    if bs != [] { BulkSkip(max, s, bs[..|bs| - 1]); }
  }

  // ---------- runs of Read ----------

  /** A connection seen from outside: the parser and the bytes handed to the reader so far. */
  datatype Conn = Conn(outcome: Outcome, delivered: seq<byte>)

  /** One Read whose underlying source yields `chunk`. A failed connection reads nothing. */
  function Deliver(max: nat, c: Conn, chunk: seq<byte>): Conn {
    var o := Scan(max, c.outcome, chunk);
    Conn(o, if c.outcome.Running? && o.Running? then c.delivered + chunk else c.delivered)
  }

  function ReadAll(max: nat, chunks: seq<seq<byte>>): Conn {
    if chunks == [] then Conn(START, [])
    else Deliver(max, ReadAll(max, chunks[..|chunks| - 1]), chunks[|chunks| - 1])
  }

  /** Over every run of Read, what was delivered is an accepted prefix of the stream, nothing is
      withheld before a rejection, and the run fails exactly when the reference rejects. */
  lemma {:induction false} DeliveredIsAcceptedPrefix(max: nat, chunks: seq<seq<byte>>)
    ensures var c := ReadAll(max, chunks);
      && c.delivered <= Flatten(chunks)
      && Scan(max, START, c.delivered).Running?
      && c.outcome == Scan(max, START, Flatten(chunks))
      && (c.outcome.Running? ==> c.delivered == Flatten(chunks) && WellFormed(max, c.outcome.state))
  {
    if chunks != [] {
      var before, last := chunks[..|chunks| - 1], chunks[|chunks| - 1];
      DeliveredIsAcceptedPrefix(max, before);
      ScanAppend(max, START, Flatten(before), last);
      RejectionAbsorbs(max, last);
      var c := ReadAll(max, before);
      if c.outcome.Running? { ScanKeepsWellFormed(max, c.outcome.state, last); }
    }
  }

  /** Errors are sticky: once a run has failed, later reads deliver nothing and stay failed. */
  lemma {:induction false} FailureIsSticky(max: nat, chunks: seq<seq<byte>>, more: seq<seq<byte>>)
    requires ReadAll(max, chunks).outcome.Rejected?
    ensures ReadAll(max, chunks + more) == ReadAll(max, chunks)
  {
    if more == [] {
      assert chunks + more == chunks;
    } else {
      assert (chunks + more)[..|chunks + more| - 1] == chunks + more[..|more| - 1];
      FailureIsSticky(max, chunks, more[..|more| - 1]);
      RejectionAbsorbs(max, more[|more| - 1]);
    }
  }

  // ---------- 64-bit arithmetic ----------

  /** Two's-complement addition, as the source language defines it for int64. */
  function WrappingSum(a: int64, b: int64): int64 {
    var s := a as int + b as int;
    if s >= 0x8000_0000_0000_0000 then (s - 0x1_0000_0000_0000_0000) as int64
    else if s < -0x8000_0000_0000_0000 then (s + 0x1_0000_0000_0000_0000) as int64
    else s as int64
  }

  /** Whether the continuation test `msg + int64(length) > max`, reached only when length <= max,
      decides what it means to decide: exactly when the limit is at most MAX_SAFE_LIMIT. Above it
      a message of max bytes followed by a continuation of max bytes would be let through. */
  lemma SumOverflows(max: int64)
    requires 0 <= max
    ensures (forall msg: int64, length: int64 | 0 <= msg <= max && 0 <= length <= max ::
               WrappingSum(msg, length) > max <==> msg as int + length as int > max as int)
            <==> max <= MAX_SAFE_LIMIT
  {
    if max > MAX_SAFE_LIMIT {
      assert !(WrappingSum(max, max) > max);
    }
  }

  // ---------- the program ----------

  datatype ReadError = MessageTooLarge | SourceError(cause: string)

  /** frameLimitConn. The 64-bit fields are newtypes, so every sum, difference and conversion
      below is proved not to overflow, whatever length a peer announces. */
  class FrameLimitConn {
    const max: int64
    var hdr: seq<byte>
    var payload: uint64
    var msg: int64
    var failed: bool
    ghost var delivered: seq<byte>

    ghost predicate Valid()
      reads this
    {
      0 <= max <= MAX_SAFE_LIMIT && 0 <= msg && WellFormed(max as int, State())
    }

    ghost function State(): ParserState
      requires 0 <= msg
      reads this
    {
      ParserState(hdr, payload as int, msg as int)
    }

    ghost function View(): Conn
      requires 0 <= msg
      reads this
    {
      Conn(if failed then Rejected else Running(State()), delivered)
    }

    constructor (max: int64)
      requires 0 <= max <= MAX_SAFE_LIMIT
      ensures Valid() && this.max == max && View() == Conn(START, [])
    {
      this.max := max;
      hdr, payload, msg, failed := [], 0, 0, false;
      delivered := [];
    }

    /** One call of Read; `chunk` and `srcErr` are what the underlying source would return. */
    method Read(chunk: seq<byte>, srcErr: Option<ReadError>) returns (n: nat, err: Option<ReadError>)
      requires Valid()
      requires |chunk| < 0x8000_0000_0000_0000
      modifies this
      ensures Valid()
      ensures View() == Deliver(max as int, old(View()), chunk)
      ensures failed ==> n == 0 && err == Some(MessageTooLarge)
      ensures !failed ==> n == |chunk| && err == srcErr
    {
      RejectionAbsorbs(max as int, chunk);
      if failed {
        return 0, Some(MessageTooLarge);
      }
      var ok := Inspect(chunk);
      if !ok {
        failed := true;
        return 0, Some(MessageTooLarge);
      }
      delivered := delivered + chunk;
      return |chunk|, srcErr;
    }

    method Inspect(b: seq<byte>) returns (ok: bool)
      requires Valid()
      requires |b| < 0x8000_0000_0000_0000
      modifies this`hdr, this`payload, this`msg
      ensures Valid()
      ensures ok ==> Scan(max as int, Running(old(State())), b) == Running(State())
      ensures !ok ==> Scan(max as int, Running(old(State())), b) == Rejected
    {
      ghost var from := Running(State());
      var i := 0;
      assert b[..0] == [];
      while i < |b|
        invariant 0 <= i <= |b|
        invariant Valid()
        invariant Scan(max as int, from, b[..i]) == Running(State())
      {
        ghost var start := i;
        var accepted;
        i, accepted := Consume(b, i);
        ScanPiece(max as int, from, b, start, i);
        if !accepted {
          PrefixRejects(max as int, from, b, i);
          return false;
        }
      }
      assert b[..i] == b;
      return true;
    }

    /** One round of the loop: all there is of the payload, or one header byte. */
    method Consume(b: seq<byte>, i: nat) returns (next: nat, ok: bool)
      requires Valid() && i < |b| < 0x8000_0000_0000_0000
      modifies this`hdr, this`payload, this`msg
      ensures Valid() && i < next <= |b|
      ensures Scan(max as int, Running(old(State())), b[i..next]) == if ok then Running(State()) else Rejected
    {
      if payload > 0 {
        ghost var before := State();
        var k := SkipPayload((|b| - i) as uint64);
        BulkSkip(max as int, before, b[i..i + k as int]);
        return i + k as int, true;
      }
      ScanByte(max as int, State(), b, i);
      ok := TakeHeaderByte(b[i]);
      next := i + 1;
    }

    /** As much of the payload as there is among the next `left` bytes. */
    method SkipPayload(left: uint64) returns (k: uint64)
      requires Valid() && payload > 0 && left > 0
      modifies this`payload
      ensures Valid() && 0 < k <= left && k <= old(payload)
      ensures k == left || k == old(payload)
      ensures State() == old(State()).(payload := old(payload) as int - k as int)
    {
      k := if payload < left then payload else left;
      payload := payload - k;
    }

    /** The part of the loop between payloads: one more header byte. */
    method TakeHeaderByte(b: byte) returns (ok: bool)
      requires Valid() && payload == 0
      modifies this`hdr, this`payload, this`msg
      ensures Valid()
      ensures Advance(max as int, old(State()), b) == if ok then Running(State()) else Rejected
    {
      AdvanceKeepsWellFormed(max as int, State(), b);
      hdr := hdr + [b];
      var need := HeaderLen(hdr);
      if need.None? || |hdr| < need.value {
        return true;
      }
      var opcode := hdr[0] % 16;
      var length := PayloadLen(hdr) as uint64;
      hdr := [];
      if opcode >= 8 {
      } else if opcode == 0 {
        if length > max as uint64 || msg + length as int64 > max {
          return false;
        }
        msg := msg + length as int64;
      } else {
        if length > max as uint64 {
          return false;
        }
        msg := length as int64;
      }
      payload := length;
      return true;
    }
  }
}
