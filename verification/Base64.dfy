/**
 Unpadded standard base64 (section 4 of RFC 4648), with the decoder the shim uses: it skips line
 breaks and does not insist that unused trailing bits are zero (section 3.5).
 */
module Base64 {
  import opened Prelude

  type sextet = v: int | 0 <= v < 64

  function CharOf(v: sextet): char {
    if v < 26 then 'A' + v as char
    else if v < 52 then 'a' + (v - 26) as char
    else if v < 62 then '0' + (v - 52) as char
    else if v == 62 then '+' else '/'
  }

  function ValueOf(c: char): (v: Option<sextet>)
    ensures v.Some? ==> CharOf(v.value) == c
  {
    if 'A' <= c <= 'Z' then Some((c - 'A') as int)
    else if 'a' <= c <= 'z' then Some((c - 'a') as int + 26)
    else if '0' <= c <= '9' then Some((c - '0') as int + 52)
    else if c == '+' then Some(62)
    else if c == '/' then Some(63)
    else None
  }

  lemma CharRoundTrip(v: sextet)
    ensures ValueOf(CharOf(v)) == Some(v)
  {
  }

  /** The alphabet of RFC 4648, section 4: A to Z, a to z, 0 to 9, plus and slash. */
  lemma Alphabet(v: sextet)
    ensures CharOf(0) == 'A' && CharOf(25) == 'Z' && CharOf(26) == 'a' && CharOf(51) == 'z'
    ensures CharOf(52) == '0' && CharOf(61) == '9' && CharOf(62) == '+' && CharOf(63) == '/'
    ensures v !in {25, 51, 61, 62, 63} ==> CharOf(v + 1) as int == CharOf(v) as int + 1
  {
  }

  // ---------- three bytes are four sextets ----------

  datatype Quad = Quad(a: sextet, b: sextet, c: sextet, d: sextet)
  datatype Triple = Triple(x: byte, y: byte, z: byte)

  function Pack(t: Triple): Quad {
    Quad(t.x / 4, t.x % 4 * 16 + t.y / 16, t.y % 16 * 4 + t.z / 64, t.z % 64)
  }

  function Unpack(q: Quad): Triple {
    Triple(q.a * 4 + q.b / 16, q.b % 16 * 16 + q.c / 4, q.c % 4 * 64 + q.d)
  }

  /** Both are the digits of one number, most significant first. */
  lemma PackIsBigEndian(t: Triple)
    ensures var q := Pack(t);
      0x4_0000 * q.a + 0x1000 * q.b + 0x40 * q.c + q.d == 0x1_0000 * t.x + 0x100 * t.y + t.z
  {
    assert t.x == t.x / 4 * 4 + t.x % 4;
    assert t.y == t.y / 16 * 16 + t.y % 16;
    assert t.z == t.z / 64 * 64 + t.z % 64;
  }

  lemma UnpackPack(t: Triple)
    ensures Unpack(Pack(t)) == t
    ensures t.y == 0 && t.z == 0 ==> Pack(t).c == 0 && Pack(t).d == 0
    ensures t.z == 0 ==> Pack(t).d == 0
  {
    assert Pack(t).b / 16 == t.x % 4 && Pack(t).b % 16 == t.y / 16;
    assert Pack(t).c / 4 == t.y % 16 && Pack(t).c % 4 == t.z / 64;
  }

  /** Cutting a quad short loses nothing exactly when the bits no byte uses are zero. */
  lemma PackUnpack(q: Quad)
    ensures Pack(Unpack(q)) == q
    ensures Pack(Unpack(q).(z := 0)) == q.(c := q.c / 4 * 4, d := 0)
    ensures Pack(Unpack(q).(y := 0, z := 0)) == q.(b := q.b / 16 * 16, c := 0, d := 0)
  {
    var t := Unpack(q);
    assert t.x / 4 == q.a && t.x % 4 == q.b / 16;
    assert t.y / 16 == q.b % 16 && t.y % 16 == q.c / 4;
    assert t.z / 64 == q.c % 4 && t.z % 64 == q.d;
  }

  // ---------- the codec ----------

  function Text(q: Quad): string {
    [CharOf(q.a), CharOf(q.b), CharOf(q.c), CharOf(q.d)]
  }

  function Value(s: string, i: nat): Option<sextet> {
    if i < |s| then ValueOf(s[i]) else Some(0)
  }

  /** The first four characters as a quad, missing ones as zero. */
  function Quantum(s: string): (q: Option<Quad>)
  {
    var a, b, c, d := Value(s, 0), Value(s, 1), Value(s, 2), Value(s, 3);
    if a.Some? && b.Some? && c.Some? && d.Some?
    then Some(Quad(a.value, b.value, c.value, d.value)) else None
  }

  function Encode(bs: seq<byte>): string {
    if bs == [] then ""
    else if |bs| == 1 then Text(Pack(Triple(bs[0], 0, 0)))[..2]
    else if |bs| == 2 then Text(Pack(Triple(bs[0], bs[1], 0)))[..3]
    else Text(Pack(Triple(bs[0], bs[1], bs[2]))) + Encode(bs[3..])
  }

  function DecodeQuanta(s: string): Option<seq<byte>> {
    if s == "" then Some([])
    else if |s| == 1 || Quantum(s).None? then None
    else
      var t := Unpack(Quantum(s).value);
      if |s| == 2 then Some([t.x])
      else if |s| == 3 then Some([t.x, t.y])
      else
        var rest := DecodeQuanta(s[4..]);
        if rest.None? then None else Some([t.x, t.y, t.z] + rest.value)
  }

  function DropLineBreaks(s: string): string {
    if s == "" then ""
    else (if s[0] == '\r' || s[0] == '\n' then "" else [s[0]]) + DropLineBreaks(s[1..])
  }

  function Decode(s: string): Option<seq<byte>> {
    DecodeQuanta(DropLineBreaks(s))
  }

  // ---------- round trips ----------

  predicate InAlphabet(s: string) {
    forall i | 0 <= i < |s| :: ValueOf(s[i]).Some?
  }

  lemma QuantumOfText(q: Quad, rest: string)
    ensures Quantum(Text(q) + rest) == Some(q)
    ensures q.d == 0 ==> Quantum(Text(q)[..3]) == Some(q)
    ensures q.c == 0 && q.d == 0 ==> Quantum(Text(q)[..2]) == Some(q)
    ensures InAlphabet(Text(q))
  {
    CharRoundTrip(q.a);
    CharRoundTrip(q.b);
    CharRoundTrip(q.c);
    CharRoundTrip(q.d);
  }

  lemma {:induction false} EncodeInAlphabet(bs: seq<byte>)
    ensures InAlphabet(Encode(bs))
    ensures Encode(bs) == "" <==> bs == []
  {
    if |bs| >= 3 {
      QuantumOfText(Pack(Triple(bs[0], bs[1], bs[2])), "");
      EncodeInAlphabet(bs[3..]);
    } else if |bs| == 2 {
      QuantumOfText(Pack(Triple(bs[0], bs[1], 0)), "");
    } else if |bs| == 1 {
      QuantumOfText(Pack(Triple(bs[0], 0, 0)), "");
    }
  }

  lemma {:induction false} NoLineBreaks(s: string)
    requires forall i | 0 <= i < |s| :: s[i] != '\r' && s[i] != '\n'
    ensures DropLineBreaks(s) == s
  {
    if s != "" { NoLineBreaks(s[1..]); }
  }

  /** Carriage returns and line feeds do not count, wherever they stand. */
  lemma {:induction false} LineBreaksDoNotCount(a: string, c: char, b: string)
    requires c == '\r' || c == '\n'
    ensures Decode(a + [c] + b) == Decode(a + b)
  {
    DropOneBreak(a, c, b);
  }

  lemma {:induction false} DropOneBreak(a: string, c: char, b: string)
    requires c == '\r' || c == '\n'
    ensures DropLineBreaks(a + [c] + b) == DropLineBreaks(a + b)
  {
    if a == "" {
      assert a + [c] + b == [c] + b && a + b == b;
      assert ([c] + b)[1..] == b;
    } else {
      DropOneBreak(a[1..], c, b);
      assert (a + [c] + b)[1..] == a[1..] + [c] + b && (a + b)[1..] == a[1..] + b;
    }
  }

  /** Decoding the text of one quad, whole or cut short. */
  lemma DecodeText(q: Quad, rest: string)
    requires DecodeQuanta(rest).Some?
    ensures var t := Unpack(q); DecodeQuanta(Text(q) + rest) == Some([t.x, t.y, t.z] + DecodeQuanta(rest).value)
  {
    QuantumOfText(q, rest);
    assert (Text(q) + rest)[4..] == rest;
  }

  lemma DecodeShortText(q: Quad)
    ensures q.d == 0 ==> DecodeQuanta(Text(q)[..3]) == Some([Unpack(q).x, Unpack(q).y])
    ensures q.c == 0 && q.d == 0 ==> DecodeQuanta(Text(q)[..2]) == Some([Unpack(q).x])
  {
    QuantumOfText(q, "");
  }

  lemma ShortRoundTrip(x: byte, y: byte)
    ensures DecodeQuanta(Encode([x])) == Some([x])
    ensures DecodeQuanta(Encode([x, y])) == Some([x, y])
  {
    UnpackPack(Triple(x, 0, 0));
    UnpackPack(Triple(x, y, 0));
    DecodeShortText(Pack(Triple(x, 0, 0)));
    DecodeShortText(Pack(Triple(x, y, 0)));
  }

  lemma {:induction false} QuantaRoundTrip(bs: seq<byte>)
    ensures DecodeQuanta(Encode(bs)) == Some(bs)
  {
    if |bs| >= 3 {
      var t := Triple(bs[0], bs[1], bs[2]);
      QuantaRoundTrip(bs[3..]);
      UnpackPack(t);
      DecodeText(Pack(t), Encode(bs[3..]));
      assert bs == [t.x, t.y, t.z] + bs[3..];
    } else if |bs| == 2 {
      assert bs == [bs[0], bs[1]];
      ShortRoundTrip(bs[0], bs[1]);
    } else if |bs| == 1 {
      assert bs == [bs[0]];
      ShortRoundTrip(bs[0], 0);
    }
  }

  /** Decoding undoes encoding, for every byte string. */
  lemma RoundTrip(bs: seq<byte>)
    ensures Decode(Encode(bs)) == Some(bs)
  {
    EncodeInAlphabet(bs);
    NoLineBreaks(Encode(bs));
    QuantaRoundTrip(bs);
  }

  /** What decodes, line breaks apart: any text of the alphabet, unless one character is left over. */
  lemma {:induction false} DecodableIff(s: string)
    ensures DecodeQuanta(s).Some? <==> InAlphabet(s) && |s| % 4 != 1
  {
    if |s| >= 4 {
      DecodableParts(s);
      InAlphabetParts(s);
      DecodableIff(s[4..]);
    } else {
      DecodableTail(s);
    }
  }

  lemma DecodableParts(s: string)
    requires |s| >= 4
    ensures DecodeQuanta(s).Some? <==> InAlphabet(s[..4]) && DecodeQuanta(s[4..]).Some?
    ensures |s[4..]| % 4 == |s| % 4
  {
    QuantumIff(s);
  }

  lemma DecodableTail(s: string)
    requires |s| < 4
    ensures DecodeQuanta(s).Some? <==> InAlphabet(s) && |s| % 4 != 1
  {
    QuantumIff(s);
  }

  lemma InAlphabetParts(s: string)
    requires |s| >= 4
    ensures InAlphabet(s) <==> InAlphabet(s[..4]) && InAlphabet(s[4..])
  {
    assert forall i | 4 <= i < |s| :: s[i] == s[4..][i - 4];
  }

  lemma QuantumIff(s: string)
    ensures Quantum(s).Some? <==> InAlphabet(if |s| < 4 then s else s[..4])
  {
    var t := if |s| < 4 then s else s[..4];
    assert forall i | 0 <= i < |t| :: Value(s, i) == ValueOf(t[i]);
    if InAlphabet(t) {
      assert Value(s, 0).Some? && Value(s, 1).Some? && Value(s, 2).Some? && Value(s, 3).Some?;
    } else {
      var i :| 0 <= i < |t| && ValueOf(t[i]).None?;
      assert Value(s, i).None?;
    }
  }

  // ---------- stray bits ----------

  /** How many values the last character can take without a byte noticing. */
  function Slack(length: nat): (k: nat)
    ensures k == 1 || k == 4 || k == 16
  {
    match length % 4
    case 2 => 16
    case 3 => 4
    case _ => 1
  }

  /** v without the bits below slack. */
  function Clear(v: sextet, slack: nat): (u: sextet)
    ensures u <= v && (slack == 1 || slack == 4 || slack == 16 ==> v < u + slack <= 64)
  {
    if slack == 16 then v / 16 * 16 else if slack == 4 then v / 4 * 4 else v
  }

  lemma ClearTwice(v: sextet, slack: nat, w: nat)
    requires (slack == 1 || slack == 4 || slack == 16) && w < slack
    ensures Clear(Clear(v, slack) + w, slack) == Clear(v, slack)
  {
  }

  /** The value of the last character. */
  function Last(s: string): sextet
    requires InAlphabet(s) && s != ""
  {
    ValueOf(s[|s| - 1]).value
  }

  /** s with w in the bits of its last character that no byte uses. */
  function WithStray(s: string, w: nat): (t: string)
    requires InAlphabet(s) && w < Slack(|s|)
    ensures |t| == |s|
  {
    if s == "" then "" else s[..|s| - 1] + [CharOf(Clear(Last(s), Slack(|s|)) + w)]
  }

  function Stray(s: string): (w: nat)
    requires InAlphabet(s)
    ensures w < Slack(|s|)
  {
    if s == "" then 0 else Last(s) - Clear(Last(s), Slack(|s|))
  }

  lemma CharInjective(v: sextet, w: sextet)
    ensures CharOf(v) == CharOf(w) <==> v == w
  {
    CharRoundTrip(v);
    CharRoundTrip(w);
  }

  lemma NewLast(s: string, v: sextet)
    requires InAlphabet(s) && s != ""
    ensures var t := s[..|s| - 1] + [CharOf(v)]; InAlphabet(t) && Last(t) == v
  {
    CharRoundTrip(v);
  }

  /** Setting the stray bits changes them and nothing else. */
  lemma StrayBits(s: string, w: nat)
    requires InAlphabet(s) && w < Slack(|s|)
    ensures InAlphabet(WithStray(s, w))
    ensures s != "" ==> Stray(WithStray(s, w)) == w
    ensures WithStray(WithStray(s, w), 0) == WithStray(s, 0)
  {
    if s != "" {
      NewLast(s, Clear(Last(s), Slack(|s|)) + w);
      ClearTwice(Last(s), Slack(|s|), w);
    }
  }

  lemma StrayIsOwn(s: string)
    requires InAlphabet(s)
    ensures WithStray(s, Stray(s)) == s
  {
    if s != "" { assert CharOf(Last(s)) == s[|s| - 1]; }
  }

  lemma TextOfQuantum(s: string)
    requires Quantum(s).Some?
    ensures |s| >= 4 ==> Text(Quantum(s).value) == s[..4]
    ensures 2 <= |s| < 4 ==> Text(Quantum(s).value)[..|s|] == s
  {
  }

  lemma EncodeDecodedPair(s: string)
    requires |s| == 2 && DecodeQuanta(s).Some? && InAlphabet(s)
    ensures Encode(DecodeQuanta(s).value) == WithStray(s, 0)
  {
    var q := Quantum(s).value;
    TextOfQuantum(s);
    PackUnpack(q);
    assert Encode(DecodeQuanta(s).value) == Text(q.(b := q.b / 16 * 16, c := 0, d := 0))[..2];
  }

  lemma EncodeDecodedTriple(s: string)
    requires |s| == 3 && DecodeQuanta(s).Some? && InAlphabet(s)
    ensures Encode(DecodeQuanta(s).value) == WithStray(s, 0)
  {
    var q := Quantum(s).value;
    TextOfQuantum(s);
    PackUnpack(q);
    assert Encode(DecodeQuanta(s).value) == Text(q.(c := q.c / 4 * 4, d := 0))[..3];
  }

  lemma FullQuantum(s: string)
    requires |s| >= 4 && DecodeQuanta(s).Some?
    ensures DecodeQuanta(s[4..]).Some?
    ensures Encode(DecodeQuanta(s).value) == s[..4] + Encode(DecodeQuanta(s[4..]).value)
  {
    PackUnpack(Quantum(s).value);
    TextOfQuantum(s);
    assert DecodeQuanta(s).value[3..] == DecodeQuanta(s[4..]).value;
  }

  lemma StrayOfTail(s: string)
    requires |s| >= 4 && InAlphabet(s)
    ensures InAlphabet(s[4..]) && s[..4] + WithStray(s[4..], 0) == WithStray(s, 0)
  {
    assert s == s[..4] + s[4..];
    assert |s[4..]| % 4 == |s| % 4;
    if s[4..] == "" { StrayIsOwn(s); } else { assert Last(s[4..]) == Last(s); }
  }

  /** Encoding what was decoded clears the stray bits. */
  lemma {:induction false} EncodeDecoded(s: string)
    requires DecodeQuanta(s).Some?
    ensures InAlphabet(s) && Encode(DecodeQuanta(s).value) == WithStray(s, 0)
  {
    DecodableIff(s);
    if |s| >= 4 {
      FullQuantum(s);
      EncodeDecoded(s[4..]);
      StrayOfTail(s);
    } else if |s| == 3 {
      EncodeDecodedTriple(s);
    } else if |s| == 2 {
      EncodeDecodedPair(s);
    }
  }

  /** Encoding undoes decoding exactly on texts without line breaks whose unused bits are zero. */
  lemma CanonicalIff(s: string)
    requires Decode(s).Some?
    ensures Encode(Decode(s).value) == s <==> InAlphabet(s) && Stray(s) == 0
  {
    EncodeDecoded(DropLineBreaks(s));
    EncodeInAlphabet(Decode(s).value);
    if InAlphabet(s) {
      NoLineBreaks(s);
      StrayIsOwn(s);
      StrayBits(s, 0);
    }
  }

  /** Two texts decode alike exactly if they differ in line breaks and stray bits only. */
  lemma AlikeIff(s: string, t: string)
    requires Decode(s).Some? && Decode(t).Some?
    ensures InAlphabet(DropLineBreaks(s)) && InAlphabet(DropLineBreaks(t))
    ensures Decode(s) == Decode(t) <==> WithStray(DropLineBreaks(s), 0) == WithStray(DropLineBreaks(t), 0)
  {
    EncodeDecoded(DropLineBreaks(s));
    EncodeDecoded(DropLineBreaks(t));
    QuantaRoundTrip(Decode(s).value);
    QuantaRoundTrip(Decode(t).value);
  }

  // ---------- how many texts one key has ----------

  lemma FirstThree(s: string)
    requires |s| >= 4 && DecodeQuanta(s).Some?
    ensures DecodeQuanta(s[4..]).Some? && |DecodeQuanta(s).value| == 3 + |DecodeQuanta(s[4..]).value|
  {
  }

  lemma FewCharacters(s: string)
    requires |s| < 4 && DecodeQuanta(s).Some?
    ensures |s| != 1
    ensures |DecodeQuanta(s).value| == if |s| == 0 then 0 else |s| - 1
  {
  }

  lemma {:induction false} DecodedLength(s: string)
    requires DecodeQuanta(s).Some?
    ensures 4 * |DecodeQuanta(s).value| <= 3 * |s| < 4 * |DecodeQuanta(s).value| + 4
  {
    if |s| >= 4 {
      FirstThree(s);
      DecodedLength(s[4..]);
    } else {
      FewCharacters(s);
    }
  }

  lemma SlackOfLength(n: nat, bytes: nat)
    requires n % 4 != 1 && 4 * bytes <= 3 * n < 4 * bytes + 4
    ensures Slack(n) == TextsPerKey(bytes)
  {
    assert n == n / 4 * 4 + n % 4;
    assert bytes == n / 4 * 3 + (if n % 4 == 0 then 0 else n % 4 - 1);
  }

  lemma SlackOfKey(s: string)
    requires DecodeQuanta(s).Some?
    ensures Slack(|s|) == TextsPerKey(|DecodeQuanta(s).value|)
  {
    DecodedLength(s);
    DecodableIff(s);
    SlackOfLength(|s|, |DecodeQuanta(s).value|);
  }

  /** The number of texts, without line breaks, that decode to a key of this length. */
  function TextsPerKey(length: nat): nat {
    match length % 3
    case 0 => 1
    case 1 => 16
    case _ => 4
  }

  function Variants(s: string, n: nat): set<string>
    requires InAlphabet(s) && n <= Slack(|s|)
  {
    if n == 0 then {} else Variants(s, n - 1) + {WithStray(s, n - 1)}
  }

  lemma {:induction false} VariantIsIn(s: string, n: nat, w: nat)
    requires InAlphabet(s) && w < n <= Slack(|s|)
    ensures WithStray(s, w) in Variants(s, n)
  {
    if w < n - 1 { VariantIsIn(s, n - 1, w); }
  }

  lemma {:induction false} VariantFrom(s: string, n: nat, t: string) returns (w: nat)
    requires InAlphabet(s) && n <= Slack(|s|) && t in Variants(s, n)
    ensures w < n && t == WithStray(s, w)
  {
    if t == WithStray(s, n - 1) { w := n - 1; } else { w := VariantFrom(s, n - 1, t); }
  }

  lemma VariantsDiffer(s: string, v: nat, w: nat)
    requires InAlphabet(s) && v < w < Slack(|s|)
    ensures WithStray(s, v) != WithStray(s, w)
  {
    StrayBits(s, v);
    StrayBits(s, w);
  }

  lemma NewVariant(s: string, n: nat)
    requires InAlphabet(s) && n < Slack(|s|)
    ensures WithStray(s, n) !in Variants(s, n)
  {
    if WithStray(s, n) in Variants(s, n) {
      var w := VariantFrom(s, n, WithStray(s, n));
      VariantsDiffer(s, w, n);
      assert false;
    }
  }

  lemma OneMore<T>(all: set<T>, x: T)
    requires x !in all
    ensures |all + {x}| == |all| + 1
  {
  }

  lemma {:induction false} VariantsAreDistinct(s: string, n: nat)
    requires InAlphabet(s) && n <= Slack(|s|)
    ensures |Variants(s, n)| == n
  {
    if n > 0 {
      VariantsAreDistinct(s, n - 1);
      NewVariant(s, n - 1);
      OneMore(Variants(s, n - 1), WithStray(s, n - 1));
    }
  }

  lemma AlikeIsVariant(s: string, t: string)
    requires DecodeQuanta(s).Some? && DecodeQuanta(t) == DecodeQuanta(s)
    ensures InAlphabet(s) && InAlphabet(t) && |s| == |t| && t == WithStray(s, Stray(t))
  {
    EncodeDecoded(s);
    EncodeDecoded(t);
    assert |t| == |s|;
    if s != "" { SameClearing(s, t); }
    StrayIsOwn(t);
  }

  lemma SameClearing(s: string, t: string)
    requires InAlphabet(s) && InAlphabet(t) && |s| == |t| > 0
    requires WithStray(s, 0) == WithStray(t, 0)
    ensures s[..|s| - 1] == t[..|s| - 1] && Clear(Last(s), Slack(|s|)) == Clear(Last(t), Slack(|s|))
  {
    var n := |s| - 1;
    assert s[..n] == WithStray(s, 0)[..n] && t[..n] == WithStray(t, 0)[..n];
    assert WithStray(s, 0)[n] == WithStray(t, 0)[n];
    CharInjective(Clear(Last(s), Slack(|s|)), Clear(Last(t), Slack(|s|)));
  }

  lemma VariantIsAlike(s: string, w: nat)
    requires DecodeQuanta(s).Some? && InAlphabet(s) && w < Slack(|s|)
    ensures DecodeQuanta(WithStray(s, w)) == DecodeQuanta(s)
  {
    StrayBits(s, w);
    var t := WithStray(s, w);
    DecodableIff(s);
    DecodableIff(t);
    EncodeDecoded(s);
    EncodeDecoded(t);
    QuantaRoundTrip(DecodeQuanta(s).value);
    QuantaRoundTrip(DecodeQuanta(t).value);
  }

  lemma VariantsAreAlike(s: string, t: string)
    requires DecodeQuanta(s).Some? && InAlphabet(s)
    ensures t in Variants(s, Slack(|s|)) <==> DecodeQuanta(t) == DecodeQuanta(s)
  {
    if t in Variants(s, Slack(|s|)) {
      var w := VariantFrom(s, Slack(|s|), t);
      VariantIsAlike(s, w);
    }
    if DecodeQuanta(t) == DecodeQuanta(s) {
      AlikeIsVariant(s, t);
      VariantIsIn(s, Slack(|s|), Stray(t));
    }
  }

  /** All texts of one key: one, four or sixteen, by the length of the key. */
  lemma TextsOfOneKey(s: string) returns (texts: set<string>)
    requires DecodeQuanta(s).Some?
    ensures forall t: string :: t in texts <==> DecodeQuanta(t) == DecodeQuanta(s)
    ensures |texts| == TextsPerKey(|DecodeQuanta(s).value|)
  {
    EncodeDecoded(s);
    texts := Variants(s, Slack(|s|));
    VariantsAreDistinct(s, Slack(|s|));
    SlackOfKey(s);
    forall t: string ensures t in texts <==> DecodeQuanta(t) == DecodeQuanta(s) { VariantsAreAlike(s, t); }
  }
}
