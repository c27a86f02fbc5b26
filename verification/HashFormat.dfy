/**
 The textual node-password hash of internal/nodepassword/scrypt.go: its printer, the lenient scanner
 it is read back with, and how the two combine into a check that only canonical text passes.
 */
module HashFormat {
  import opened Prelude
  import opened Text

  /** $<ver>:<salt in hex>:<n>:<r>:<p>:<enc> */
  datatype Fields = Fields(ver: nat, salt: seq<byte>, n: nat, r: int, p: int, enc: string)

  // ---------- printing ----------

  type nibble = d: int | 0 <= d < 16

  function HexChar(d: nibble): char { if d < 10 then '0' + d as char else 'a' + (d - 10) as char }

  function Hex(bs: seq<byte>): string {
    if bs == [] then "" else [HexChar(bs[0] / 16), HexChar(bs[0] % 16)] + Hex(bs[1..])
  }

  function Print(f: Fields): string {
    "$" + (Decimal(f.ver) + ":" + AfterVersion(f))
  }

  function AfterVersion(f: Fields): string { Hex(f.salt) + ":" + AfterSalt(f) }
  function AfterSalt(f: Fields): string { Decimal(f.n) + ":" + AfterN(f) }
  function AfterN(f: Fields): string { Signed(f.r) + ":" + AfterR(f) }
  function AfterR(f: Fields): string { Signed(f.p) + ":" + f.enc }

  // ---------- scanning ----------

  function HexValue(c: char): Option<nibble> {
    if '0' <= c <= '9' then Some((c - '0') as int)
    else if 'a' <= c <= 'f' then Some((c - 'a') as int + 10)
    else if 'A' <= c <= 'F' then Some((c - 'A') as int + 10)
    else None
  }

  /** A scanned value and the text after it. */
  datatype Scanned<+T> = Fail | Got(value: T, rest: string)

  /** Length of the longest prefix whose characters all satisfy p. */
  function Span(p: char -> bool, s: string): (n: nat)
    ensures n <= |s|
    ensures forall i | 0 <= i < n :: p(s[i])
    ensures n < |s| ==> !p(s[n])
  {
    if s == "" || !p(s[0]) then 0 else 1 + Span(p, s[1..])
  }

  /** White space before a verb is skipped; a line break there is an error. */
  function SkipSpace(s: string): Option<string> {
    if s == "" || !IsSpace(s[0]) then Some(s)
    else if s[0] == '\n' then None
    else SkipSpace(s[1..])
  }

  function Literal(c: char, s: string): Option<string> {
    if s != "" && s[0] == c then Some(s[1..]) else None
  }

  function ScanDigits(s: string): Scanned<nat> {
    var n := Span(IsDigit, s);
    if n == 0 then Fail else Got(DecimalValue(s[..n]), s[n..])
  }

  function ScanUint(s0: string): Scanned<nat> {
    match SkipSpace(s0)
    case None => Fail
    case Some(s) =>
      match ScanDigits(s)
      case Fail => Fail
      case Got(v, rest) => if IsUint64(v) then Got(v, rest) else Fail
  }

  function InRange(negative: bool, r: Scanned<nat>): Scanned<int> {
    if r.Fail? then Fail
    else
      var v: int := r.value;
      var i := if negative then -v else v;
      if IsInt64(i) then Got(i, r.rest) else Fail
  }

  predicate IsInt64(i: int) { -0x8000_0000_0000_0000 <= i < 0x8000_0000_0000_0000 }
  predicate IsUint64(i: int) { 0 <= i < 0x1_0000_0000_0000_0000 }

  function ScanInt(s0: string): Scanned<int> {
    match SkipSpace(s0)
    case None => Fail
    case Some(s) =>
      if s != "" && s[0] == '-' then InRange(true, ScanDigits(s[1..]))
      else InRange(false, ScanDigits(if s != "" && s[0] == '+' then s[1..] else s))
  }

  /** Pairs of hex digits until something else; half a pair is an error. */
  function ScanHexPairs(s: string): Scanned<seq<byte>> {
    if s == "" || HexValue(s[0]).None? then Got([], s)
    else if |s| == 1 || HexValue(s[1]).None? then Fail
    else
      match ScanHexPairs(s[2..])
      case Fail => Fail
      case Got(bs, rest) => Got([HexValue(s[0]).value * 16 + HexValue(s[1]).value] + bs, rest)
  }

  function ScanHex(s0: string): Scanned<seq<byte>> {
    match SkipSpace(s0)
    case None => Fail
    case Some(s) =>
      var r := ScanHexPairs(s);
      if r.Got? && r.value == [] then Fail else r
  }

  predicate IsAsciiWord(c: char) { !IsSpace(c) && c < 128 as char }

  /** What the library makes of a word from its first byte beyond ASCII on: it reads on in runes, so
      that bytes can change and blanks beyond ASCII end the word. */
  type WideReader = string -> string

  function ScanWord(wide: WideReader, s0: string): Option<string> {
    match SkipSpace(s0)
    case None => None
    case Some(s) =>
      var n := Span(IsAsciiWord, s);
      var word := s[..n] + (if n < |s| && !IsSpace(s[n]) then wide(s[n..]) else "");
      if word == "" then None else Some(word)
  }

  function ThenColon<T>(r: Scanned<T>): Scanned<T> {
    if r.Fail? then Fail
    else
      match Literal(':', r.rest)
      case None => Fail
      case Some(rest) => Got(r.value, rest)
  }

  function ScanAfterN(wide: WideReader, s: string): Option<(int, int, string)> {
    var r := ThenColon(ScanInt(s));
    if r.Fail? then None else
    var p := ThenColon(ScanInt(r.rest));
    if p.Fail? then None else
    var enc := ScanWord(wide, p.rest);
    if enc.None? then None else Some((r.value, p.value, enc.value))
  }

  /** fmt.Sscanf with the hash format. It accepts leading blanks, signs, leading zeros, upper-case
      hex and anything after the first blank that follows the last field. */
  function Sscanf(wide: WideReader, hash: string): Option<Fields> {
    var s := Literal('$', hash);
    if s.None? then None else
    var ver := ThenColon(ScanUint(s.value));
    if ver.Fail? then None else
    var salt := ThenColon(ScanHex(ver.rest));
    if salt.Fail? then None else
    var n := ThenColon(ScanUint(salt.rest));
    if n.Fail? then None else
    var t := ScanAfterN(wide, n.rest);
    if t.None? then None
    else Some(Fields(ver.value, salt.value, n.value, t.value.0, t.value.1, t.value.2))
  }

  // ---------- the printer is injective ----------

  lemma Nibbles(b: byte)
    ensures b / 16 < 16 && b / 16 * 16 + b % 16 == b
    ensures HexValue(HexChar(b / 16)) == Some(b / 16) && HexValue(HexChar(b % 16)) == Some(b % 16)
  {
    HexCharValue(b / 16);
    HexCharValue(b % 16);
  }

  lemma HexCharValue(d: nibble)
    ensures HexValue(HexChar(d)) == Some(d) && HexChar(d) != ':'
  {
  }

  lemma {:induction false} HexShape(bs: seq<byte>)
    ensures |Hex(bs)| == 2 * |bs|
    ensures forall i | 0 <= i < |Hex(bs)| :: HexValue(Hex(bs)[i]).Some?
  {
    if bs != [] {
      HexShape(bs[1..]);
      Nibbles(bs[0]);
    }
  }

  predicate NoColon(s: string) { ':' !in s }

  lemma FirstColon(a: string, x: string)
    requires NoColon(a)
    ensures IndexOf(a + ":" + x, ':') == |a|
  {
    var s := a + ":" + x;
    assert forall j | 0 <= j < |a| :: s[j] == a[j];
    IndexAt(s, ':', |a|);
  }

  lemma SplitAtColon(a: string, x: string, b: string, y: string)
    requires NoColon(a) && NoColon(b)
    requires a + ":" + x == b + ":" + y
    ensures a == b && x == y
  {
    FirstColon(a, x);
    FirstColon(b, y);
    var s := a + ":" + x;
    assert a == s[..|a|] && b == s[..|b|];
    assert x == s[|a| + 1..] && y == s[|b| + 1..];
  }

  lemma SignedHasNoColon(i: int)
    ensures NoColon(Signed(i)) && Signed(i) != "" && !IsSpace(Signed(i)[0])
    ensures i < 0 <==> Signed(i)[0] == '-'
    ensures i >= 0 ==> Signed(i)[0] != '+'
  {
    DecimalIsDigits(if i < 0 then -i else i);
  }

  lemma FieldsHaveNoColon(f: Fields)
    ensures NoColon(Decimal(f.ver)) && NoColon(Hex(f.salt)) && NoColon(Decimal(f.n))
    ensures NoColon(Signed(f.r)) && NoColon(Signed(f.p))
  {
    SignedHasNoColon(f.ver);
    SignedHasNoColon(f.n);
    SignedHasNoColon(f.r);
    SignedHasNoColon(f.p);
    HexShape(f.salt);
  }

  lemma SignedInjective(i: int, j: int)
    requires Signed(i) == Signed(j)
    ensures i == j
  {
    var a, b := if i < 0 then -i else i, if j < 0 then -j else j;
    DecimalIsDigits(a);
    DecimalIsDigits(b);
    SignedHasNoColon(i);
    SignedHasNoColon(j);
    if i < 0 { assert Signed(i)[1..] == Decimal(a) && Signed(j)[1..] == Decimal(b); }
  }

  lemma {:induction false} HexInjective(a: seq<byte>, b: seq<byte>)
    requires Hex(a) == Hex(b)
    ensures a == b
  {
    HexShape(a);
    HexShape(b);
    if a != [] {
      Nibbles(a[0]);
      Nibbles(b[0]);
      assert Hex(a)[0] == Hex(b)[0] && Hex(a)[1] == Hex(b)[1];
      assert Hex(a)[2..] == Hex(a[1..]) && Hex(b)[2..] == Hex(b[1..]);
      HexInjective(a[1..], b[1..]);
      assert a == [a[0]] + a[1..] && b == [b[0]] + b[1..];
    }
  }

  /** One text is the print of at most one set of fields, whatever the fields hold. */
  lemma PrintInjective(f: Fields, g: Fields)
    requires Print(f) == Print(g)
    ensures f == g
  {
    FieldsHaveNoColon(f);
    FieldsHaveNoColon(g);
    assert Print(f)[1..] == Decimal(f.ver) + ":" + AfterVersion(f);
    assert Print(g)[1..] == Decimal(g.ver) + ":" + AfterVersion(g);
    SplitAtColon(Decimal(f.ver), AfterVersion(f), Decimal(g.ver), AfterVersion(g));
    SplitAtColon(Hex(f.salt), AfterSalt(f), Hex(g.salt), AfterSalt(g));
    SplitAtColon(Decimal(f.n), AfterN(f), Decimal(g.n), AfterN(g));
    SplitAtColon(Signed(f.r), AfterR(f), Signed(g.r), AfterR(g));
    SplitAtColon(Signed(f.p), f.enc, Signed(g.p), g.enc);
    DecimalIsDigits(f.ver);
    DecimalIsDigits(g.ver);
    DecimalIsDigits(f.n);
    DecimalIsDigits(g.n);
    HexInjective(f.salt, g.salt);
    SignedInjective(f.r, g.r);
    SignedInjective(f.p, g.p);
  }

  /** The layout: the six fields in order, joined by colons after a dollar sign. */
  lemma PrintLayout(f: Fields)
    ensures Print(f) ==
            "$" + Join([Decimal(f.ver), Hex(f.salt), Decimal(f.n), Signed(f.r), Signed(f.p), f.enc], ':')
  {
    var parts := [Decimal(f.ver), Hex(f.salt), Decimal(f.n), Signed(f.r), Signed(f.p), f.enc];
    JoinStep(parts);
    JoinStep(parts[1..]);
    JoinStep(parts[2..]);
    JoinStep(parts[3..]);
    JoinStep(parts[4..]);
  }

  lemma JoinStep(parts: seq<string>)
    requires |parts| > 1
    ensures Join(parts, ':') == parts[0] + ":" + Join(parts[1..], ':')
  {
  }

  /** Bytes are two lower-case hex digits each, the high one first. */
  lemma {:induction false} HexDigits(bs: seq<byte>, i: nat)
    requires i < |bs|
    ensures |Hex(bs)| == 2 * |bs|
    ensures Hex(bs)[2 * i] == HexDigit(bs[i] / 16) && Hex(bs)[2 * i + 1] == HexDigit(bs[i] % 16)
  {
    HexShape(bs);
    if i > 0 {
      HexDigits(bs[1..], i - 1);
      assert Hex(bs)[2 * i] == Hex(bs[1..])[2 * (i - 1)] && Hex(bs)[2 * i + 1] == Hex(bs[1..])[2 * (i - 1) + 1];
    }
  }

  function HexDigit(d: nibble): char { "0123456789abcdef"[d] }

  // ---------- what a scanner may be  // ---------- what a scanner may be ----------

  /** Fields that survive being printed and scanned. */
  predicate Scannable(f: Fields) {
    && IsUint64(f.ver) && IsUint64(f.n) && IsInt64(f.r) && IsInt64(f.p)
    && f.salt != []
    && f.enc != "" && NoBlanks(f.enc)
  }

  predicate IsAscii(s: string) { forall i | 0 <= i < |s| :: s[i] < 128 as char }

  predicate NoBlanks(s: string) { forall i | 0 <= i < |s| :: !IsSpace(s[i]) }

  /** Any scanner that reads back printed fields, if their text is ASCII, and returns only scannable
      ones; how lenient it is otherwise, and what it does beyond ASCII, does not matter below. */
  ghost predicate IsScanner(scan: string -> Option<Fields>) {
    && (forall f: Fields | Scannable(f) && IsAscii(f.enc) :: scan(Print(f)) == Some(f))
    && (forall h: string :: scan(h).Some? ==> Scannable(scan(h).value))
  }

  lemma SpanAt(p: char -> bool, s: string, n: nat)
    requires n <= |s| && forall i | 0 <= i < n :: p(s[i])
    requires n < |s| ==> !p(s[n])
    ensures Span(p, s) == n
  {
  }

  lemma ScanDigitsOf(d: string, rest: string)
    requires Digits(d)
    ensures ScanDigits(d + ":" + rest) == Got(DecimalValue(d), ":" + rest)
  {
    var s := d + ":" + rest;
    assert forall j | 0 <= j < |d| :: s[j] == d[j];
    SpanAt(IsDigit, s, |d|);
    assert s[..|d|] == d && s[|d|..] == ":" + rest;
  }

  lemma AtColon<T>(v: T, rest: string)
    ensures ThenColon(Got(v, ":" + rest)) == Got(v, rest)
  {
    assert (":" + rest)[1..] == rest;
  }

  lemma ScanUintOf(n: nat, rest: string)
    requires IsUint64(n)
    ensures ThenColon(ScanUint(Decimal(n) + ":" + rest)) == Got(n, rest)
  {
    DecimalIsDigits(n);
    var s := Decimal(n) + ":" + rest;
    ScanDigitsOf(Decimal(n), rest);
    assert s[0] == Decimal(n)[0];
    AtColon(n, rest);
  }

  lemma ScanUnsignedInt(d: string, rest: string)
    requires Digits(d)
    ensures ScanInt(d + ":" + rest) == InRange(false, Got(DecimalValue(d), ":" + rest))
  {
    var s := d + ":" + rest;
    assert s[0] == d[0];
    assert SkipSpace(s) == Some(s);
    ScanDigitsOf(d, rest);
  }

  lemma ScanNegativeInt(d: string, rest: string)
    requires Digits(d)
    ensures ScanInt("-" + d + ":" + rest) == InRange(true, Got(DecimalValue(d), ":" + rest))
  {
    var s := "-" + d + ":" + rest;
    assert s[1..] == d + ":" + rest;
    assert SkipSpace(s) == Some(s);
    ScanDigitsOf(d, rest);
  }

  lemma ScanIntOf(i: int, rest: string)
    requires IsInt64(i)
    ensures ThenColon(ScanInt(Signed(i) + ":" + rest)) == Got(i, rest)
  {
    var a := if i < 0 then -i else i;
    DecimalIsDigits(a);
    if i < 0 { ScanNegativeInt(Decimal(a), rest); } else { ScanUnsignedInt(Decimal(a), rest); }
    AtColon(i, rest);
  }

  lemma ScanPair(x: char, y: char, hi: nibble, lo: nibble, more: string)
    requires HexValue(x) == Some(hi) && HexValue(y) == Some(lo) && ScanHexPairs(more).Got?
    ensures ScanHexPairs([x, y] + more) == Got([hi * 16 + lo] + ScanHexPairs(more).value, ScanHexPairs(more).rest)
  {
    assert ([x, y] + more)[2..] == more;
  }

  /** The two digits of the first byte stand in front. */
  lemma HexInFront(bs: seq<byte>, rest: string) returns (x: char, y: char, hi: nibble, lo: nibble)
    requires bs != []
    ensures HexValue(x) == Some(hi) && HexValue(y) == Some(lo) && hi * 16 + lo == bs[0]
    ensures Hex(bs) + ":" + rest == [x, y] + (Hex(bs[1..]) + ":" + rest)
  {
    Nibbles(bs[0]);
    hi, lo := bs[0] / 16, bs[0] % 16;
    x, y := HexChar(hi), HexChar(lo);
  }

  lemma ScanFirstPair(s: string, x: char, y: char, more: string, b: byte, bs: seq<byte>, rest: string)
    requires HexValue(x).Some? && HexValue(y).Some? && HexValue(x).value * 16 + HexValue(y).value == b
    requires s == [x, y] + more && ScanHexPairs(more) == Got(bs, rest)
    ensures ScanHexPairs(s) == Got([b] + bs, rest)
  {
    ScanPair(x, y, HexValue(x).value, HexValue(y).value, more);
  }

  lemma {:induction false} ScanHexOf(bs: seq<byte>, rest: string)
    ensures ScanHexPairs(Hex(bs) + ":" + rest) == Got(bs, ":" + rest)
  {
    if bs == [] {
      assert Hex(bs) + ":" + rest == ":" + rest;
    } else {
      ScanHexOf(bs[1..], rest);
      var x, y, hi, lo := HexInFront(bs, rest);
      ScanFirstPair(Hex(bs) + ":" + rest, x, y, Hex(bs[1..]) + ":" + rest, bs[0], bs[1..], ":" + rest);
      assert [bs[0]] + bs[1..] == bs;
    }
  }

  lemma ScanSaltOf(bs: seq<byte>, rest: string)
    requires bs != []
    ensures ThenColon(ScanHex(Hex(bs) + ":" + rest)) == Got(bs, rest)
  {
    ScanHexOf(bs, rest);
    HexShape(bs);
    var s := Hex(bs) + ":" + rest;
    assert s[0] == Hex(bs)[0];
    assert HexValue(s[0]).Some? ==> !IsSpace(s[0]);
    assert (":" + rest)[1..] == rest;
  }

  lemma ScanWordOf(wide: WideReader, w: string)
    requires w != "" && NoBlanks(w) && IsAscii(w)
    ensures ScanWord(wide, w) == Some(w)
  {
    assert SkipSpace(w) == Some(w);
    SpanAt(IsAsciiWord, w, |w|);
    assert w[..|w|] + "" == w;
  }

  lemma ScanAfterNOf(wide: WideReader, f: Fields, word: string)
    requires IsInt64(f.r) && IsInt64(f.p) && ScanWord(wide, f.enc) == Some(word)
    ensures ScanAfterN(wide, AfterN(f)) == Some((f.r, f.p, word))
  {
    ScanIntOf(f.r, AfterR(f));
    ScanIntOf(f.p, f.enc);
  }

  /** Scanning a print reads the fields back, up to what is made of the last one. */
  lemma SscanfOfPrint(wide: WideReader, f: Fields, word: string)
    requires IsUint64(f.ver) && IsUint64(f.n) && IsInt64(f.r) && IsInt64(f.p) && f.salt != []
    requires ScanWord(wide, f.enc) == Some(word)
    ensures Sscanf(wide, Print(f)) == Some(f.(enc := word))
  {
    assert Print(f)[0] == '$' && Print(f)[1..] == Decimal(f.ver) + ":" + AfterVersion(f);
    assert Literal('$', Print(f)) == Some(Decimal(f.ver) + ":" + AfterVersion(f));
    ScanUintOf(f.ver, AfterVersion(f));
    ScanSaltOf(f.salt, AfterSalt(f));
    ScanUintOf(f.n, AfterN(f));
    ScanAfterNOf(wide, f, word);
  }

  /** Sscanf reads back everything the printer writes from ASCII, whatever the library does beyond. */
  lemma SscanfReadsPrint(wide: WideReader, f: Fields)
    requires Scannable(f) && IsAscii(f.enc)
    ensures Sscanf(wide, Print(f)) == Some(f)
  {
    ScanWordOf(wide, f.enc);
    SscanfOfPrint(wide, f, f.enc);
  }

  lemma ScanWordBeforeBlank(wide: WideReader, w: string, junk: string)
    requires w != "" && NoBlanks(w) && IsAscii(w)
    ensures ScanWord(wide, w + " " + junk) == Some(w)
  {
    var s := w + " " + junk;
    assert s[0] == w[0] && s[|w|] == ' ' && forall i | 0 <= i < |w| :: s[i] == w[i];
    assert SkipSpace(s) == Some(s);
    SpanAt(IsAsciiWord, s, |w|);
    assert s[..|w|] + "" == w;
  }

  /** The scanner does not look beyond a blank after the last field, so it reads the fields of many texts
      that are not their print; that is what the re-print check is for. */
  lemma SscanfIgnoresTheRest(wide: WideReader, f: Fields, junk: string)
    requires Scannable(f) && IsAscii(f.enc)
    ensures Sscanf(wide, Print(f) + " " + junk) == Some(f) && Print(f) != Print(f) + " " + junk
  {
    var tail := " " + junk;
    var g := f.(enc := f.enc + tail);
    assert f.enc + tail == f.enc + " " + junk;
    LongerPrint(f, tail);
    assert Print(f) + tail == Print(f) + " " + junk;
    ScanWordBeforeBlank(wide, f.enc, junk);
    SscanfOfPrint(wide, g, f.enc);
  }

  lemma LongerPrint(f: Fields, tail: string)
    ensures Print(f.(enc := f.enc + tail)) == Print(f) + tail
  {
    var g := f.(enc := f.enc + tail);
    assert AfterR(g) == AfterR(f) + tail;
    assert AfterN(g) == AfterN(f) + tail;
    assert AfterSalt(g) == AfterSalt(f) + tail;
    assert AfterVersion(g) == AfterVersion(f) + tail;
  }

  lemma ScannedWord(wide: WideReader, s: string)
    requires forall t: string :: NoBlanks(wide(t))
    ensures ScanWord(wide, s).Some? ==> ScanWord(wide, s).value != "" && NoBlanks(ScanWord(wide, s).value)
  {
    if SkipSpace(s).Some? {
      var u := SkipSpace(s).value;
      var n := Span(IsAsciiWord, u);
      assert NoBlanks(u[..n]);
      assert NoBlanks(wide(u[n..]));
    }
  }

  /** The lenient scanner meets what is asked of scanners, if no ASCII blank comes out of a wide word. */
  lemma SscanfIsScanner(wide: WideReader)
    requires forall t: string :: NoBlanks(wide(t))
    ensures IsScanner(hash => Sscanf(wide, hash))
  {
    var scan := hash => Sscanf(wide, hash);
    forall f: Fields | Scannable(f) && IsAscii(f.enc) ensures scan(Print(f)) == Some(f) { SscanfReadsPrint(wide, f); }
    forall hash: string ensures scan(hash).Some? ==> Scannable(scan(hash).value) { SscanfIsScannable(wide, hash); }
  }

  lemma SscanfIsScannable(wide: WideReader, hash: string)
    requires forall t: string :: NoBlanks(wide(t))
    ensures Sscanf(wide, hash).Some? ==> Scannable(Sscanf(wide, hash).value)
  {
    if Sscanf(wide, hash).Some? {
      var ver := ThenColon(ScanUint(Literal('$', hash).value));
      var salt := ThenColon(ScanHex(ver.rest));
      var n := ThenColon(ScanUint(salt.rest));
      var r := ThenColon(ScanInt(n.rest));
      var p := ThenColon(ScanInt(r.rest));
      ScannedWord(wide, p.rest);
    }
  }
}
