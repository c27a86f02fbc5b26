/**
 RFC 6455 frames (section 5.2) and messages (section 5.4), written from the side of the sender, and
 what the limiter does with a stream of them. Nothing here mentions the limiter's own notion of a
 message: a message ends where the FIN bit says so, whereas the limiter looks only at opcodes.
 */
module Frames {
  import opened Prelude
  import opened FrameLimiter

  /** How the payload length is written. RFC 6455 asks senders for the shortest form; a receiver
      must find the same boundaries whichever is used. */
  datatype LengthForm = Short | Extended16 | Extended64

  datatype Frame = Frame(fin: bool, rsv: nat, opcode: nat, mask: Option<seq<byte>>,
                         form: LengthForm, payload: seq<byte>)
  {
    predicate Encodable() {
      && rsv < 8 && opcode < 16
      && (mask.Some? ==> |mask.value| == 4)
      && match form
         case Short => |payload| <= 125
         case Extended16 => |payload| < 0x1_0000
         case Extended64 => |payload| < 0x1_0000_0000_0000_0000
    }

    predicate Data() { opcode < 8 }

    function Header(): seq<byte>
      requires Encodable()
    {
      var b0 := (if fin then 128 else 0) + 16 * rsv + opcode;
      var m := if mask.Some? then 128 else 0;
      var key := if mask.Some? then mask.value else [];
      match form
      case Short => [b0, m + |payload|] + key
      case Extended16 => [b0, m + 126] + ToBigEndian(|payload|, 2) + key
      case Extended64 => [b0, m + 127] + ToBigEndian(|payload|, 8) + key
    }

    function Encode(): seq<byte>
      requires Encodable()
    {
      Header() + payload
    }
  }

  function ToBigEndian(v: nat, n: nat): (bs: seq<byte>)
    ensures |bs| == n
  {
    if n == 0 then [] else ToBigEndian(v / 256, n - 1) + [v % 256]
  }

  lemma {:induction false} BigEndianRoundTrip(v: nat, n: nat)
    requires v < Pow256(n)
    ensures BigEndian(ToBigEndian(v, n)) == v
  {
    if n > 0 {
      BigEndianRoundTrip(v / 256, n - 1);
      var bs := ToBigEndian(v, n);
      assert bs[..|bs| - 1] == ToBigEndian(v / 256, n - 1);
    }
  }

  // ---------- streams ----------

  predicate AllEncodable(fs: seq<Frame>) {
    forall i | 0 <= i < |fs| :: fs[i].Encodable()
  }

  function EncodeAll(fs: seq<Frame>): seq<byte>
    requires AllEncodable(fs)
  {
    if fs == [] then [] else EncodeAll(fs[..|fs| - 1]) + fs[|fs| - 1].Encode()
  }

  /** Section 5.4: the last data frame so far did not carry FIN. */
  predicate InMessage(fs: seq<Frame>) {
    fs != [] &&
    var last := fs[|fs| - 1];
    if last.Data() then !last.fin else InMessage(fs[..|fs| - 1])
  }

  /** Section 5.4: inside a message every data frame is a continuation, outside none is. Control
      frames may come anywhere. */
  predicate Ordered(fs: seq<Frame>) {
    fs == [] ||
    var before, last := fs[..|fs| - 1], fs[|fs| - 1];
    Ordered(before) && (last.Data() ==> (last.opcode == 0 <==> InMessage(before)))
  }

  /** Payload bytes of the message still open after these frames. */
  function OpenBytes(fs: seq<Frame>): nat {
    if fs == [] then 0
    else
      var before, last := fs[..|fs| - 1], fs[|fs| - 1];
      if !last.Data() then OpenBytes(before)
      else if last.fin then 0
      else OpenBytes(before) + |last.payload|
  }

  /** Total payload of every message, in order, an unfinished one last. */
  function MessageTotals(fs: seq<Frame>): seq<nat> {
    CompleteTotals(fs) + (if InMessage(fs) then [OpenBytes(fs)] else [])
  }

  function CompleteTotals(fs: seq<Frame>): seq<nat> {
    if fs == [] then []
    else
      var before, last := fs[..|fs| - 1], fs[|fs| - 1];
      CompleteTotals(before) +
      (if last.Data() && last.fin then [OpenBytes(before) + |last.payload|] else [])
  }

  /** Frame k takes its message past the limit. */
  predicate Crosses(max: nat, fs: seq<Frame>, k: nat) {
    k < |fs| && fs[k].Data() && OpenBytes(fs[..k]) + |fs[k].payload| > max
  }

  // ---------- one header ----------

  /** A header that is as long as it says is complete only as a whole. */
  lemma NoPrefixComplete(h: seq<byte>)
    requires HeaderLen(h) == Some(|h|)
    ensures Complete(h) && forall i | 0 <= i < |h| :: !Complete(h[..i])
  {
    forall i | 0 <= i < |h| ensures !Complete(h[..i]) {
      assert i >= 2 ==> HeaderLen(h[..i]) == HeaderLen(h);
    }
  }

  /** The seven-bit length field and how many bytes extend it. */
  function Length7(f: Frame): nat {
    match f.form case Short => |f.payload| case Extended16 => 126 case Extended64 => 127
  }

  function ExtraBytes(f: Frame): nat {
    match f.form case Short => 0 case Extended16 => 2 case Extended64 => 8
  }

  lemma HeaderParts(f: Frame)
    requires f.Encodable()
    ensures f.Header() ==
      [(if f.fin then 128 else 0) + 16 * f.rsv + f.opcode, (if f.mask.Some? then 128 else 0) + Length7(f)]
      + (if f.form.Short? then [] else ToBigEndian(|f.payload|, ExtraBytes(f)))
      + (if f.mask.Some? then f.mask.value else [])
  {
  }

  lemma HeaderBytes(f: Frame)
    requires f.Encodable()
    ensures var h := f.Header();
      && |h| == 2 + ExtraBytes(f) + (if f.mask.Some? then 4 else 0)
      && h[0] % 16 == f.opcode && h[1] % 128 == Length7(f) && (h[1] >= 128 <==> f.mask.Some?)
      && h[2..2 + ExtraBytes(f)] == (if f.form.Short? then [] else ToBigEndian(|f.payload|, ExtraBytes(f)))
  {
    HeaderParts(f);
  }

  lemma ExtendedLength(f: Frame)
    requires f.Encodable() && !f.form.Short?
    ensures BigEndian(ToBigEndian(|f.payload|, ExtraBytes(f))) == |f.payload|
  {
    Pow256Values();
    BigEndianRoundTrip(|f.payload|, ExtraBytes(f));
  }

  /** The limiter reads off a header its length, its opcode and the payload length, and no proper
      prefix of it looks complete. */
  lemma HeaderDecodes(f: Frame)
    requires f.Encodable()
    ensures var h := f.Header();
      && Complete(h) && HeaderLen(h) == Some(|h|)
      && PayloadLen(h) == |f.payload|
      && h[0] % 16 == f.opcode
      && forall i | 0 <= i < |h| :: !Complete(h[..i])
  {
    var h := f.Header();
    HeaderBytes(f);
    assert HeaderLen(h) == Some(|h|);
    NoPrefixComplete(h);
    if !f.form.Short? { ExtendedLength(f); }
  }

  lemma AdvanceInHeader(max: nat, s: ParserState, h: seq<byte>, i: nat)
    requires s.payload == 0 && i < |h|
    ensures Advance(max, s.(hdr := h[..i]), h[i]) ==
            if Complete(h[..i + 1]) then Account(max, s.(hdr := h[..i]), h[..i + 1]) else Running(s.(hdr := h[..i + 1]))
  {
    assert h[..i] + [h[i]] == h[..i + 1];
  }

  /** Inside a header nothing is decided. */
  lemma {:induction false} ScanInHeader(max: nat, s: ParserState, h: seq<byte>, i: nat)
    requires s.hdr == [] && s.payload == 0 && i < |h|
    requires forall j | 0 <= j < |h| :: !Complete(h[..j])
    ensures Scan(max, Running(s), h[..i]) == Running(s.(hdr := h[..i]))
  {
    if i == 0 {
      assert h[..0] == [];
    } else {
      ScanInHeader(max, s, h, i - 1);
      ScanOneMore(max, Running(s), h, i - 1);
      AdvanceInHeader(max, s, h, i - 1);
      assert !Complete(h[..i]);
    }
  }

  /** Its last byte decides everything. */
  lemma ScanHeader(max: nat, s: ParserState, h: seq<byte>)
    requires s.hdr == [] && s.payload == 0
    requires Complete(h) && forall j | 0 <= j < |h| :: !Complete(h[..j])
    ensures Scan(max, Running(s), h) == Account(max, s, h)
  {
    var i := |h| - 1;
    ScanInHeader(max, s, h, i);
    ScanOneMore(max, Running(s), h, i);
    AdvanceInHeader(max, s, h, i);
    assert h[..i + 1] == h;
  }

  /** The message total after a data frame, as the limiter keeps it. */
  function NewTotal(msg: nat, f: Frame): nat {
    if !f.Data() then msg else if f.opcode == 0 then msg + |f.payload| else |f.payload|
  }

  lemma AccountsForFrame(max: nat, msg: nat, f: Frame)
    requires f.Encodable()
    ensures Scan(max, Running(ParserState([], 0, msg)), f.Header()) ==
      if f.Data() && NewTotal(msg, f) > max then Rejected
      else Running(ParserState([], |f.payload|, NewTotal(msg, f)))
  {
    var h := f.Header();
    HeaderDecodes(f);
    ScanHeader(max, ParserState([], 0, msg), h);
  }

  /** The state at every byte of a frame that is let through. */
  lemma InsideFrame(max: nat, msg: nat, f: Frame, i: nat)
    requires f.Encodable() && i <= |f.Encode()|
    requires f.Data() ==> NewTotal(msg, f) <= max
    ensures Scan(max, Running(ParserState([], 0, msg)), f.Encode()[..i]) ==
      if i < |f.Header()| then Running(ParserState(f.Header()[..i], 0, msg))
      else Running(ParserState([], |f.Encode()| - i, NewTotal(msg, f)))
  {
    var h := f.Header();
    if i < |h| {
      assert f.Encode()[..i] == h[..i];
      HeaderDecodes(f);
      ScanInHeader(max, ParserState([], 0, msg), h, i);
    } else {
      assert f.Encode()[..i] == h + f.payload[..i - |h|];
      ScanAppend(max, Running(ParserState([], 0, msg)), h, f.payload[..i - |h|]);
      AccountsForFrame(max, msg, f);
      BulkSkip(max, ParserState([], |f.payload|, NewTotal(msg, f)), f.payload[..i - |h|]);
    }
  }

  // ---------- whole streams ----------

  function Encodings(fs: seq<Frame>): (es: seq<seq<byte>>)
    requires AllEncodable(fs)
    ensures |es| == |fs| && forall i | 0 <= i < |fs| :: es[i] == fs[i].Encode()
  {
    seq(|fs|, i requires 0 <= i < |fs| => fs[i].Encode())
  }

  lemma {:induction false} EncodeAllIsFlat(fs: seq<Frame>)
    requires AllEncodable(fs)
    ensures EncodeAll(fs) == Flatten(Encodings(fs))
  {
    if fs != [] {
      EncodeAllIsFlat(fs[..|fs| - 1]);
      assert Encodings(fs[..|fs| - 1]) == Encodings(fs)[..|fs| - 1];
    }
  }

  lemma EncodeIsNotEmpty(f: Frame)
    requires f.Encodable()
    ensures |f.Encode()| > 0
  {
  }

  lemma EncodingsPrefix(fs: seq<Frame>, j: nat)
    requires AllEncodable(fs) && j < |fs|
    ensures EncodeAll(fs[..j]) == Flatten(Encodings(fs)[..j]) && Encodings(fs)[j] == fs[j].Encode()
  {
    EncodeAllIsFlat(fs[..j]);
    assert Encodings(fs[..j]) == Encodings(fs)[..j];
  }

  lemma EncodeAllPrefix(fs: seq<Frame>, j: nat)
    requires AllEncodable(fs) && j <= |fs|
    ensures EncodeAll(fs[..j]) <= EncodeAll(fs)
    ensures j < |fs| ==> |EncodeAll(fs[..j])| < |EncodeAll(fs)|
    ensures j < |fs| ==> EncodeAll(fs[..j]) + fs[j].Encode() <= EncodeAll(fs)
  {
    if j == |fs| {
      assert fs[..j] == fs;
    } else {
      EncodeAllIsFlat(fs);
      EncodingsPrefix(fs, j);
      FlattenPrefix(Encodings(fs), j);
      EncodeIsNotEmpty(fs[j]);
    }
  }

  lemma {:induction false} OrderedPrefix(fs: seq<Frame>, j: nat)
    requires Ordered(fs) && j <= |fs|
    ensures Ordered(fs[..j])
  {
    if j == |fs| {
      assert fs[..j] == fs;
    } else {
      assert fs[..|fs| - 1][..j] == fs[..j];
      OrderedPrefix(fs[..|fs| - 1], j);
    }
  }

  // ---------- any frames at all ----------

  /** The limiter's total after these frames, in whatever order: opcodes alone count. */
  function Total(fs: seq<Frame>): nat {
    if fs == [] then 0 else NewTotal(Total(fs[..|fs| - 1]), fs[|fs| - 1])
  }

  /** Frame k takes that total past the limit. */
  predicate Overflows(max: nat, fs: seq<Frame>, k: nat) {
    k < |fs| && fs[k].Data() && NewTotal(Total(fs[..k]), fs[k]) > max
  }

  predicate NoneOverflows(max: nat, fs: seq<Frame>) {
    forall k | 0 <= k < |fs| :: !Overflows(max, fs, k)
  }

  lemma OverflowsInPrefix(max: nat, fs: seq<Frame>, j: nat)
    requires j <= |fs|
    ensures forall k | 0 <= k < j :: Overflows(max, fs[..j], k) <==> Overflows(max, fs, k)
  {
    forall k | 0 <= k < j ensures Overflows(max, fs[..j], k) <==> Overflows(max, fs, k) {
      assert fs[..j][..k] == fs[..k];
    }
  }

  /** A stream in which no frame overflows runs through to a frame boundary. */
  lemma {:induction false} QuietStream(max: nat, fs: seq<Frame>)
    requires AllEncodable(fs) && NoneOverflows(max, fs)
    ensures Scan(max, START, EncodeAll(fs)) == Running(ParserState([], 0, Total(fs)))
  {
    if fs != [] {
      var before, last := fs[..|fs| - 1], fs[|fs| - 1];
      OverflowsInPrefix(max, fs, |fs| - 1);
      QuietStream(max, before);
      assert !Overflows(max, fs, |fs| - 1);
      ScanAppend(max, START, EncodeAll(before), last.Encode());
      InsideFrame(max, Total(before), last, |last.Encode()|);
      assert last.Encode()[..|last.Encode()|] == last.Encode();
    }
  }

  /** Every proper prefix of a header at a boundary still runs. */
  lemma RunsInsideHeader(max: nat, quiet: seq<byte>, msg: nat, f: Frame, i: nat)
    requires f.Encodable() && i < |quiet| + |f.Header()|
    requires Scan(max, START, quiet) == Running(ParserState([], 0, msg))
    ensures Scan(max, START, (quiet + f.Header())[..i]).Running?
  {
    var h := f.Header();
    if i < |quiet| {
      assert (quiet + h)[..i] == quiet[..i];
      if Scan(max, START, quiet[..i]).Rejected? { PrefixRejects(max, START, quiet, i); }
    } else {
      assert (quiet + h)[..i] == quiet + h[..i - |quiet|];
      ScanAppend(max, START, quiet, h[..i - |quiet|]);
      HeaderDecodes(f);
      ScanInHeader(max, ParserState([], 0, msg), h, i - |quiet|);
    }
  }

  /** Where the limiter stands when frame k begins, if no earlier frame overflows. */
  lemma AtFrame(max: nat, fs: seq<Frame>, k: nat)
    requires AllEncodable(fs) && k < |fs| && forall j | 0 <= j < k :: !Overflows(max, fs, j)
    ensures Scan(max, START, EncodeAll(fs[..k])) == Running(ParserState([], 0, Total(fs[..k])))
  {
    OverflowsInPrefix(max, fs, k);
    QuietStream(max, fs[..k]);
  }

  lemma HeaderInStream(fs: seq<Frame>, k: nat)
    requires AllEncodable(fs) && k < |fs|
    ensures EncodeAll(fs[..k]) + fs[k].Header() <= EncodeAll(fs)
  {
    EncodeAllPrefix(fs, k);
    assert EncodeAll(fs[..k]) + fs[k].Header() <= EncodeAll(fs[..k]) + fs[k].Encode();
  }

  /** Rejection happens at the last header byte of the first overflowing frame, and not before. */
  lemma RejectionPoint(max: nat, fs: seq<Frame>, k: nat)
    requires AllEncodable(fs) && Overflows(max, fs, k) && forall j | 0 <= j < k :: !Overflows(max, fs, j)
    ensures var cut := EncodeAll(fs[..k]) + fs[k].Header();
      && cut <= EncodeAll(fs)
      && Scan(max, START, cut) == Rejected
      && forall i | 0 <= i < |cut| :: Scan(max, START, cut[..i]).Running?
  {
    var quiet, f, msg := EncodeAll(fs[..k]), fs[k], Total(fs[..k]);
    HeaderInStream(fs, k);
    AtFrame(max, fs, k);
    ScanAppend(max, START, quiet, f.Header());
    AccountsForFrame(max, msg, f);
    forall i | 0 <= i < |quiet + f.Header()| ensures Scan(max, START, (quiet + f.Header())[..i]).Running? {
      RunsInsideHeader(max, quiet, msg, f, i);
    }
  }

  lemma FirstOverflow(max: nat, fs: seq<Frame>, k: nat) returns (first: nat)
    requires Overflows(max, fs, k)
    ensures first <= k && Overflows(max, fs, first) && forall j | 0 <= j < first :: !Overflows(max, fs, j)
  {
    first := 0;
    while !Overflows(max, fs, first)
      invariant first <= k
      invariant forall j | 0 <= j < first :: !Overflows(max, fs, j)
      decreases k - first
    {
      first := first + 1;
    }
  }

  /** Where the header of frame k ends. */
  function HeaderEnd(fs: seq<Frame>, k: nat): nat
    requires AllEncodable(fs) && k < |fs|
  {
    |EncodeAll(fs[..k])| + |fs[k].Header()|
  }

  /** If a stream is rejected at one point and not before, its prefixes are rejected from there on. */
  lemma RejectedFrom(max: nat, stream: seq<byte>, cut: seq<byte>, bs: seq<byte>)
    requires cut <= stream && bs <= stream && Scan(max, START, cut) == Rejected
    requires forall i | 0 <= i < |cut| :: Scan(max, START, cut[..i]).Running?
    ensures Scan(max, START, bs).Rejected? <==> |cut| <= |bs|
  {
    if |cut| <= |bs| {
      assert bs[..|cut|] == cut;
      PrefixRejects(max, START, bs, |cut|);
    } else {
      assert bs == cut[..|bs|];
    }
  }

  /** Where the first overflowing frame decides. */
  lemma PrefixUpTo(max: nat, fs: seq<Frame>, first: nat, bs: seq<byte>)
    requires AllEncodable(fs) && bs <= EncodeAll(fs)
    requires Overflows(max, fs, first) && forall j | 0 <= j < first :: !Overflows(max, fs, j)
    ensures Scan(max, START, bs).Rejected? <==> HeaderEnd(fs, first) <= |bs|
  {
    RejectionPoint(max, fs, first);
    RejectedFrom(max, EncodeAll(fs), EncodeAll(fs[..first]) + fs[first].Header(), bs);
  }

  lemma QuietPrefix(max: nat, fs: seq<Frame>, bs: seq<byte>)
    requires AllEncodable(fs) && NoneOverflows(max, fs) && bs <= EncodeAll(fs)
    ensures Scan(max, START, bs).Running?
  {
    QuietStream(max, fs);
    assert bs == EncodeAll(fs)[..|bs|];
    if Scan(max, START, bs).Rejected? { PrefixRejects(max, START, EncodeAll(fs), |bs|); }
  }

  /** Frame k overflows, and bs reaches the end of its header. */
  predicate Reaches(max: nat, fs: seq<Frame>, bs: seq<byte>, k: nat)
    requires AllEncodable(fs)
  {
    Overflows(max, fs, k) && HeaderEnd(fs, k) <= |bs|
  }

  /** A prefix of a stream of frames is rejected exactly if it reaches the end of the header of some
      frame that overflows. */
  lemma PrefixRejectedIff(max: nat, fs: seq<Frame>, bs: seq<byte>)
    requires AllEncodable(fs) && bs <= EncodeAll(fs)
    ensures Scan(max, START, bs).Rejected? <==> exists k: nat :: Reaches(max, fs, bs, k)
  {
    if k: nat :| Overflows(max, fs, k) {
      var first := FirstOverflow(max, fs, k);
      PrefixUpTo(max, fs, first, bs);
      if HeaderEnd(fs, first) <= |bs| { assert Reaches(max, fs, bs, first); }
      if k: nat :| Reaches(max, fs, bs, k) {
        assert first <= k;
        HeaderEndsInOrder(fs, first, k);
      }
    } else {
      QuietPrefix(max, fs, bs);
    }
  }

  lemma HeaderEndsInOrder(fs: seq<Frame>, j: nat, k: nat)
    requires AllEncodable(fs) && j < |fs| && k < |fs|
    ensures j <= k ==> HeaderEnd(fs, j) <= HeaderEnd(fs, k)
  {
    if j < k {
      HeaderInStream(fs[..k], j);
      assert fs[..k][..j] == fs[..j] && fs[..k][j] == fs[j];
    }
  }

  // ---------- what overflows, by opcode alone ----------

  /** Payload bytes of the data frames. */
  function DataBytes(fs: seq<Frame>): nat {
    if fs == [] then 0
    else DataBytes(fs[..|fs| - 1]) + (if fs[|fs| - 1].Data() then |fs[|fs| - 1].payload| else 0)
  }

  /** From frame i on, which is a data frame, all data frames are continuations. */
  predicate Group(fs: seq<Frame>, i: nat) {
    i < |fs| && fs[i].Data() && forall j | i < j < |fs| :: fs[j].Data() ==> fs[j].opcode == 0
  }

  lemma DataBytesOneMore(fs: seq<Frame>, i: nat)
    requires i < |fs|
    ensures var n := |fs| - 1;
      DataBytes(fs[i..]) == DataBytes(fs[..n][i..]) + (if fs[n].Data() then |fs[n].payload| else 0)
  {
    assert fs[i..][..|fs[i..]| - 1] == fs[..|fs| - 1][i..];
  }

  /** No data frame and its continuations come to more than the limiter's total. */
  lemma {:induction false} GroupWithinTotal(fs: seq<Frame>, i: nat)
    requires Group(fs, i)
    ensures DataBytes(fs[i..]) <= Total(fs)
  {
    var n := |fs| - 1;
    DataBytesOneMore(fs, i);
    if i < n {
      assert Group(fs[..n], i);
      GroupWithinTotal(fs[..n], i);
    } else {
      assert fs[..n][i..] == [];
    }
  }

  /** And some come to just that, if there is a data frame at all. */
  lemma {:induction false} TotalIsAGroup(fs: seq<Frame>) returns (i: nat)
    ensures Total(fs) > 0 ==> Group(fs, i) && DataBytes(fs[i..]) == Total(fs)
  {
    i := 0;
    if fs != [] {
      var n := |fs| - 1;
      var last := fs[n];
      i := TotalIsAGroup(fs[..n]);
      if last.Data() && (last.opcode != 0 || Total(fs[..n]) == 0) { i := n; }
      if Total(fs) > 0 {
        DataBytesOneMore(fs, i);
        if i == n { assert fs[..n][i..] == []; }
      }
    }
  }

  /** Frame k ends a data frame and continuations of it, by opcode, of more than max bytes in all. */
  predicate TooMuch(max: nat, fs: seq<Frame>, i: nat, k: nat) {
    k < |fs| && fs[k].Data() && Group(fs[..k + 1], i) && DataBytes(fs[i..k + 1]) > max
  }

  /** A frame overflows exactly if it brings some data frame and the continuations after it, counted by
      opcode alone and whatever FIN says, past the limit. */
  lemma OverflowsIff(max: nat, fs: seq<Frame>, k: nat)
    requires k < |fs|
    ensures Overflows(max, fs, k) <==> exists i: nat :: TooMuch(max, fs, i, k)
  {
    var upTo := fs[..k + 1];
    assert upTo[..k] == fs[..k] && fs[k].Data() ==> Total(upTo) == NewTotal(Total(fs[..k]), fs[k]);
    if Overflows(max, fs, k) {
      var i := TotalIsAGroup(upTo);
      assert upTo[i..] == fs[i..k + 1];
      assert TooMuch(max, fs, i, k);
    }
    if i: nat :| TooMuch(max, fs, i, k) {
      GroupWithinTotal(upTo, i);
      assert upTo[i..] == fs[i..k + 1];
    }
  }

  // ---------- any bytes at all ----------

  lemma {:induction false} BigEndianInverse(bs: seq<byte>)
    ensures ToBigEndian(BigEndian(bs), |bs|) == bs
  {
    if bs != [] {
      var n := |bs| - 1;
      assert BigEndian(bs) / 256 == BigEndian(bs[..n]) && BigEndian(bs) % 256 == bs[n];
      BigEndianInverse(bs[..n]);
    }
  }

  /** n bytes of bs from an offset on, continued with zeros. */
  function Take(bs: seq<byte>, from: nat, n: nat): (t: seq<byte>)
    ensures |t| == n
  {
    seq(n, i requires 0 <= i < n => if from + i < |bs| then bs[from + i] else 0)
  }

  lemma TakeMore(bs: seq<byte>, from: nat, n: nat, m: nat)
    ensures Take(bs, from, n) + Take(bs, from + n, m) == Take(bs, from, n + m)
  {
  }

  lemma TakeComparable(bs: seq<byte>, n: nat)
    ensures if n <= |bs| then Take(bs, 0, n) == bs[..n] else bs <= Take(bs, 0, n)
  {
  }

  /** The frame that a stream starts with, zeros standing for what is missing. */
  function FirstFrame(bs: seq<byte>): Frame {
    var b0, b1 := Take(bs, 0, 1)[0], Take(bs, 1, 1)[0];
    var l := b1 % 128;
    var form := if l == 126 then Extended16 else if l == 127 then Extended64 else Short;
    var extra := if l == 126 then 2 else if l == 127 then 8 else 0;
    var length := if form.Short? then l else BigEndian(Take(bs, 2, extra));
    var key := if b1 >= 128 then 4 else 0;
    Frame(b0 >= 128, b0 / 16 % 8, b0 % 16, if b1 >= 128 then Some(Take(bs, 2 + extra, 4)) else None, form,
          Take(bs, 2 + extra + key, length))
  }

  lemma FirstFrameIsEncodable(bs: seq<byte>)
    ensures FirstFrame(bs).Encodable()
  {
    Pow256Values();
  }

  lemma FirstTwo(bs: seq<byte>)
    ensures var f := FirstFrame(bs);
      Take(bs, 0, 2) == [(if f.fin then 128 else 0) + 16 * f.rsv + f.opcode,
                         (if f.mask.Some? then 128 else 0) + Length7(f)]
  {
    var b0, b1 := Take(bs, 0, 1)[0], Take(bs, 1, 1)[0];
    assert Take(bs, 0, 2) == [b0, b1];
    assert b0 == b0 / 128 * 128 + b0 / 16 % 8 * 16 + b0 % 16;
    assert b1 == b1 / 128 * 128 + b1 % 128;
  }

  lemma FirstExtra(bs: seq<byte>)
    requires !FirstFrame(bs).form.Short?
    ensures var f := FirstFrame(bs); ToBigEndian(|f.payload|, ExtraBytes(f)) == Take(bs, 2, ExtraBytes(f))
  {
    BigEndianInverse(Take(bs, 2, ExtraBytes(FirstFrame(bs))));
  }

  lemma FirstKey(bs: seq<byte>)
    ensures var f := FirstFrame(bs);
      Take(bs, 2 + ExtraBytes(f), if f.mask.Some? then 4 else 0) == if f.mask.Some? then f.mask.value else []
  {
  }

  lemma FirstHeader(bs: seq<byte>)
    requires FirstFrame(bs).Encodable()
    ensures var f := FirstFrame(bs);
      f.Header() == Take(bs, 0, 2) + Take(bs, 2, ExtraBytes(f))
                    + Take(bs, 2 + ExtraBytes(f), if f.mask.Some? then 4 else 0)
  {
    var f := FirstFrame(bs);
    FirstTwo(bs);
    if f.form.Short? { assert Take(bs, 2, ExtraBytes(f)) == []; } else { FirstExtra(bs); }
    FirstKey(bs);
    HeaderParts(f);
  }

  lemma FirstFrameTakes(bs: seq<byte>)
    requires FirstFrame(bs).Encodable()
    ensures FirstFrame(bs).Encode() == Take(bs, 0, |FirstFrame(bs).Encode()|)
  {
    var f := FirstFrame(bs);
    var e, k := ExtraBytes(f), if f.mask.Some? then 4 else 0;
    FirstHeader(bs);
    TakeMore(bs, 0, 2, e);
    TakeMore(bs, 0, 2 + e, k);
    TakeMore(bs, 0, 2 + e + k, |f.payload|);
  }

  /** A stream starts with f, or ends within it. */
  predicate StartsWith(bs: seq<byte>, f: Frame)
    requires f.Encodable()
  {
    var e := f.Encode();
    |e| > 0 && if |e| <= |bs| then e <= bs else bs <= e
  }

  lemma SomeFirstFrame(bs: seq<byte>) returns (f: Frame)
    ensures f.Encodable() && StartsWith(bs, f)
  {
    f := FirstFrame(bs);
    FirstFrameIsEncodable(bs);
    FirstFrameTakes(bs);
    EncodeIsNotEmpty(f);
    TakeComparable(bs, |f.Encode()|);
  }

  lemma EncodeOneMore(fs: seq<Frame>, f: Frame)
    requires AllEncodable(fs) && f.Encodable()
    ensures AllEncodable(fs + [f]) && EncodeAll(fs + [f]) == EncodeAll(fs) + f.Encode()
  {
    assert (fs + [f])[..|fs|] == fs;
  }

  lemma Regroup(a: seq<byte>, e: seq<byte>, bs: seq<byte>)
    ensures e <= bs ==> a + bs == a + e + bs[|e|..]
    ensures bs <= e ==> a + bs <= a + e
  {
  }

  lemma {:induction false} FramesFrom(done: seq<Frame>, rest: seq<byte>) returns (fs: seq<Frame>)
    requires AllEncodable(done)
    ensures AllEncodable(fs) && EncodeAll(done) + rest <= EncodeAll(fs)
    decreases |rest|
  {
    var f := SomeFirstFrame(rest);
    EncodeOneMore(done, f);
    Regroup(EncodeAll(done), f.Encode(), rest);
    if |f.Encode()| > |rest| { return done + [f]; }
    fs := FramesFrom(done + [f], rest[|f.Encode()|..]);
  }

  /** Every byte string is the beginning of a stream of frames; and the limiter rejects it exactly if it
      reaches the end of the header of a frame that brings some data frame and its continuations, by
      opcode alone, past the limit. Nothing is asked of whoever sent it. */
  lemma AnyStream(max: nat, bs: seq<byte>) returns (fs: seq<Frame>)
    ensures AllEncodable(fs) && bs <= EncodeAll(fs)
    ensures Scan(max, START, bs).Rejected? <==>
            exists i: nat, k: nat :: TooMuch(max, fs, i, k) && HeaderEnd(fs, k) <= |bs|
  {
    fs := FramesFrom([], bs);
    assert EncodeAll([]) + bs == bs;
    PrefixRejectedIff(max, fs, bs);
    if k: nat :| Reaches(max, fs, bs, k) {
      OverflowsIff(max, fs, k);
      var i: nat :| TooMuch(max, fs, i, k);
    }
    if i: nat, k: nat :| TooMuch(max, fs, i, k) && HeaderEnd(fs, k) <= |bs| {
      OverflowsIff(max, fs, k);
      assert Reaches(max, fs, bs, k);
    }
  }

  // ---------- messages ----------

  lemma {:induction false} FirstOfMessage(fs: seq<Frame>)
    ensures !InMessage(fs) ==> OpenBytes(fs) == 0
  {
    if fs != [] { FirstOfMessage(fs[..|fs| - 1]); }
  }

  lemma CrossesInPrefix(max: nat, fs: seq<Frame>, j: nat)
    requires j <= |fs|
    ensures forall k | 0 <= k < j :: Crosses(max, fs[..j], k) <==> Crosses(max, fs, k)
  {
    forall k | 0 <= k < j ensures Crosses(max, fs[..j], k) <==> Crosses(max, fs, k) {
      assert fs[..j][..k] == fs[..k];
    }
  }

  /** In a well-ordered stream the total is the size of the open message. */
  lemma {:induction false} TotalIsOpenMessage(fs: seq<Frame>)
    requires Ordered(fs) && InMessage(fs)
    ensures Total(fs) == OpenBytes(fs)
  {
    var before, last := fs[..|fs| - 1], fs[|fs| - 1];
    if InMessage(before) { TotalIsOpenMessage(before); }
    FirstOfMessage(before);
  }

  /** There a frame overflows exactly if it crosses: opcodes alone tell what FIN tells. */
  lemma OverflowsIsCrosses(max: nat, fs: seq<Frame>, k: nat)
    requires Ordered(fs) && k < |fs|
    ensures Overflows(max, fs, k) <==> Crosses(max, fs, k)
  {
    OrderedPrefix(fs, k + 1);
    assert fs[..k + 1][..k] == fs[..k];
    OrderedPrefix(fs, k);
    FirstOfMessage(fs[..k]);
    if InMessage(fs[..k]) { TotalIsOpenMessage(fs[..k]); }
  }

  ghost predicate SomeCrossing(max: nat, fs: seq<Frame>) { exists k: nat :: Crosses(max, fs, k) }
  ghost predicate SomeTooLarge(max: nat, fs: seq<Frame>) { exists t | t in MessageTotals(fs) :: t > max }

  lemma CrossingOneMore(max: nat, fs: seq<Frame>)
    requires fs != []
    ensures SomeCrossing(max, fs) <==> SomeCrossing(max, fs[..|fs| - 1]) || Crosses(max, fs, |fs| - 1)
  {
    var before := fs[..|fs| - 1];
    CrossesInPrefix(max, fs, |fs| - 1);
    if k: nat :| Crosses(max, fs, k) {
      assert k < |before| ==> Crosses(max, before, k);
    }
    if k: nat :| Crosses(max, before, k) {
      assert Crosses(max, fs, k);
    }
  }

  lemma ControlKeepsTotals(fs: seq<Frame>)
    requires fs != [] && !fs[|fs| - 1].Data()
    ensures MessageTotals(fs) == MessageTotals(fs[..|fs| - 1])
  {
  }

  lemma DataTotals(fs: seq<Frame>)
    requires fs != [] && fs[|fs| - 1].Data()
    ensures MessageTotals(fs) == CompleteTotals(fs[..|fs| - 1]) + [OpenBytes(fs[..|fs| - 1]) + |fs[|fs| - 1].payload|]
  {
    FirstOfMessage(fs[..|fs| - 1]);
  }

  /** What one more frame does to the totals: nothing if it is a control frame; otherwise the open
      one, or a new one, grows by its payload. */
  lemma TotalsOneMore(fs: seq<Frame>, t: nat)
    requires fs != []
    ensures var before, last := fs[..|fs| - 1], fs[|fs| - 1];
      t in MessageTotals(fs) <==>
        if last.Data() then t in CompleteTotals(before) || t == OpenBytes(before) + |last.payload|
        else t in MessageTotals(before)
  {
    if fs[|fs| - 1].Data() { DataTotals(fs); } else { ControlKeepsTotals(fs); }
  }

  /** Some frame crosses the limit exactly when some message is too large. */
  lemma {:induction false} CrossingMeansTooLarge(max: nat, fs: seq<Frame>)
    ensures SomeCrossing(max, fs) <==> SomeTooLarge(max, fs)
  {
    if fs != [] {
      var before, last := fs[..|fs| - 1], fs[|fs| - 1];
      CrossingMeansTooLarge(max, before);
      CrossingOneMore(max, fs);
      FirstOfMessage(before);
      var size := OpenBytes(before) + |last.payload|;
      if SomeCrossing(max, before) {
        var t :| t in MessageTotals(before) && t > max;
        TotalsOneMore(fs, t);
        TotalsOneMore(fs, size);
        assert t in MessageTotals(fs) || (size in MessageTotals(fs) && size >= t);
      } else if Crosses(max, fs, |fs| - 1) {
        TotalsOneMore(fs, size);
      } else {
        forall t | t in MessageTotals(fs) ensures t <= max { TotalsOneMore(fs, t); }
      }
    }
  }

  /** The limiter rejects a well-ordered stream exactly when one of its messages exceeds the limit. */
  lemma LimiterIsExact(max: nat, fs: seq<Frame>)
    requires AllEncodable(fs) && Ordered(fs)
    ensures Scan(max, START, EncodeAll(fs)).Rejected? <==> SomeTooLarge(max, fs)
  {
    CrossingMeansTooLarge(max, fs);
    PrefixRejectedIff(max, fs, EncodeAll(fs));
    if k: nat :| Crosses(max, fs, k) {
      OverflowsIsCrosses(max, fs, k);
      HeaderInStream(fs, k);
      assert Reaches(max, fs, EncodeAll(fs), k);
    }
    if k: nat :| Reaches(max, fs, EncodeAll(fs), k) { OverflowsIsCrosses(max, fs, k); }
  }

  // ---------- boundaries and deliveries ----------

  ghost predicate AtBoundary(o: Outcome) {
    o.Running? && o.state.hdr == [] && o.state.payload == 0
  }

  /** Where the sender ends its first j frames. */
  function BoundaryAt(fs: seq<Frame>, j: nat): nat
    requires AllEncodable(fs) && j <= |fs|
  {
    |EncodeAll(fs[..j])|
  }

  lemma NextBoundary(fs: seq<Frame>, j: nat)
    requires AllEncodable(fs) && j < |fs|
    ensures EncodeAll(fs[..j + 1]) == EncodeAll(fs[..j]) + fs[j].Encode()
    ensures BoundaryAt(fs, j + 1) == BoundaryAt(fs, j) + |fs[j].Encode()| > BoundaryAt(fs, j)
  {
    assert fs[..j + 1] == fs[..j] + [fs[j]];
    EncodeOneMore(fs[..j], fs[j]);
    EncodeIsNotEmpty(fs[j]);
  }

  lemma {:induction false} Bracket(f: nat -> nat, i: nat, n: nat) returns (j: nat)
    requires f(0) <= i < f(n)
    ensures j < n && f(j) <= i < f(j + 1)
  {
    if i < f(n - 1) { j := Bracket(f, i, n - 1); } else { j := n - 1; }
  }

  /** The frame that byte offset i falls into. */
  lemma FrameContaining(fs: seq<Frame>, i: nat, n: nat) returns (j: nat)
    requires AllEncodable(fs) && n <= |fs| && i < BoundaryAt(fs, n)
    ensures j < n && BoundaryAt(fs, j) <= i < BoundaryAt(fs, j + 1)
  {
    assert BoundaryAt(fs, 0) == 0;
    j := Bracket((m: nat) => if m <= |fs| then BoundaryAt(fs, m) else 0, i, n);
  }

  ghost predicate LetThrough(max: nat, fs: seq<Frame>) {
    AllEncodable(fs) && NoneOverflows(max, fs)
  }

  lemma LetThroughPrefix(max: nat, fs: seq<Frame>, j: nat)
    requires LetThrough(max, fs) && j <= |fs|
    ensures LetThrough(max, fs[..j])
  {
    OverflowsInPrefix(max, fs, j);
  }

  /** Strictly inside frame j the limiter is between boundaries. */
  lemma BetweenBoundaries(max: nat, fs: seq<Frame>, j: nat, d: nat)
    requires LetThrough(max, fs) && j < |fs| && 0 < d < |fs[j].Encode()|
    ensures !AtBoundary(Scan(max, START, EncodeAll(fs[..j]) + fs[j].Encode()[..d]))
  {
    AtFrame(max, fs, j);
    assert !Overflows(max, fs, j);
    ScanAppend(max, START, EncodeAll(fs[..j]), fs[j].Encode()[..d]);
    InsideFrame(max, Total(fs[..j]), fs[j], d);
  }

  lemma CutPrefix(whole: seq<byte>, a: seq<byte>, b: seq<byte>, i: nat)
    requires a + b <= whole && |a| <= i <= |a| + |b|
    ensures whole[..i] == a + b[..i - |a|]
  {
    assert whole[..|a| + |b|] == a + b;
  }

  lemma FrameInStream(fs: seq<Frame>, j: nat)
    requires AllEncodable(fs) && j < |fs|
    ensures EncodeAll(fs[..j]) + fs[j].Encode() <= EncodeAll(fs)
  {
    EncodeAllPrefix(fs, j);
  }

  lemma CutInsideFrame(fs: seq<Frame>, j: nat, i: nat)
    requires AllEncodable(fs) && j < |fs| && BoundaryAt(fs, j) <= i < BoundaryAt(fs, j + 1)
    ensures i <= |EncodeAll(fs)| && i - BoundaryAt(fs, j) < |fs[j].Encode()|
    ensures EncodeAll(fs)[..i] == EncodeAll(fs[..j]) + fs[j].Encode()[..i - BoundaryAt(fs, j)]
  {
    NextBoundary(fs, j);
    FrameInStream(fs, j);
    CutPrefix(EncodeAll(fs), EncodeAll(fs[..j]), fs[j].Encode(), i);
  }

  /** On a stream that is let through, the limiter stands at a frame boundary exactly where the
      sender put one. */
  lemma BoundariesAreExact(max: nat, fs: seq<Frame>, i: nat)
    requires LetThrough(max, fs) && i <= |EncodeAll(fs)|
    ensures AtBoundary(Scan(max, START, EncodeAll(fs)[..i]))
            <==> exists j | 0 <= j <= |fs| :: BoundaryAt(fs, j) == i
  {
    assert fs[..|fs|] == fs;
    if j :| 0 <= j <= |fs| && BoundaryAt(fs, j) == i {
      EncodeAllPrefix(fs, j);
      assert EncodeAll(fs)[..i] == EncodeAll(fs[..j]);
      LetThroughPrefix(max, fs, j);
      QuietStream(max, fs[..j]);
    } else {
      assert i != BoundaryAt(fs, |fs|);
      var j := FrameContaining(fs, i, |fs|);
      assert BoundaryAt(fs, j) != i;
      CutInsideFrame(fs, j, i);
      BetweenBoundaries(max, fs, j, i - BoundaryAt(fs, j));
    }
  }

  /** Of two prefixes of one stream, the one that still runs is shorter than the one that does not. */
  lemma RunningIsShorter(max: nat, stream: seq<byte>, good: seq<byte>, bad: seq<byte>)
    requires good <= stream && bad <= stream
    requires Scan(max, START, good).Running? && Scan(max, START, bad).Rejected?
    ensures |good| < |bad|
  {
    if |bad| <= |good| {
      assert good == bad + good[|bad|..];
      ScanAppend(max, START, bad, good[|bad|..]);
      RejectionAbsorbs(max, good[|bad|..]);
      assert false;
    }
  }

  /** However the stream is cut into reads, no byte at or past the last header byte of the first
      overflowing frame is ever delivered; in particular no payload byte of it is. */
  lemma NoRejectedPayloadDelivered(max: nat, fs: seq<Frame>, k: nat, chunks: seq<seq<byte>>)
    requires AllEncodable(fs) && Overflows(max, fs, k) && forall j | 0 <= j < k :: !Overflows(max, fs, j)
    requires Flatten(chunks) <= EncodeAll(fs)
    ensures |ReadAll(max, chunks).delivered| < HeaderEnd(fs, k)
  {
    RejectionPoint(max, fs, k);
    DeliveredIsAcceptedPrefix(max, chunks);
    var cut := EncodeAll(fs[..k]) + fs[k].Header();
    RunningIsShorter(max, EncodeAll(fs), ReadAll(max, chunks).delivered, cut);
  }
}
