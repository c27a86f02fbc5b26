/**
 The string functions the shim leans on. A string is a sequence of bytes, one per char.
 */
module Text {
  import opened Prelude

  // ---------- decimal numbers ----------

  type digit = d: int | 0 <= d < 10

  function DigitChar(d: digit): char { '0' + d as char }

  predicate IsDigit(c: char) { '0' <= c <= '9' }

  function DigitValue(c: char): digit
    requires IsDigit(c)
  {
    (c - '0') as int
  }

  function Decimal(n: nat): string {
    if n < 10 then [DigitChar(n)] else Decimal(n / 10) + [DigitChar(n % 10)]
  }

  function Signed(i: int): string {
    if i < 0 then "-" + Decimal(-i) else Decimal(i)
  }

  predicate Digits(d: string) {
    d != "" && forall i | 0 <= i < |d| :: IsDigit(d[i])
  }

  function DecimalValue(s: string): nat
    requires forall i | 0 <= i < |s| :: IsDigit(s[i])
  {
    if s == "" then 0 else 10 * DecimalValue(s[..|s| - 1]) + DigitValue(s[|s| - 1])
  }

  lemma {:induction false} DecimalIsDigits(n: nat)
    ensures Digits(Decimal(n)) && DecimalValue(Decimal(n)) == n
  {
    if n < 10 {
      assert Decimal(n)[..0] == "";
    } else {
      DecimalIsDigits(n / 10);
      var s := Decimal(n);
      assert s[..|s| - 1] == Decimal(n / 10);
    }
  }

  // ---------- blanks ----------

  predicate IsSpace(c: char) { c == ' ' || '\t' <= c <= '\r' }

  /** White space beyond ASCII, in UTF-8. */
  predicate IsWideBlank(w: string) {
    || w == [0xc2 as char, 0x85 as char]
    || w == [0xc2 as char, 0xa0 as char]
    || w == [0xe1 as char, 0x9a as char, 0x80 as char]
    || (|w| == 3 && w[..2] == [0xe2 as char, 0x80 as char]
        && (0x80 as char <= w[2] <= 0x8a as char || w[2] in [0xa8 as char, 0xa9 as char, 0xaf as char]))
    || w == [0xe2 as char, 0x81 as char, 0x9f as char]
    || w == [0xe3 as char, 0x80 as char, 0x80 as char]
  }

  type Sort = string -> bool

  /** The length of the blank that s starts with, or 0; `wide` tells the blanks of two and three bytes. */
  function LeadingOf(wide: Sort, s: string): (n: nat)
    ensures n <= |s|
  {
    if s != "" && IsSpace(s[0]) then 1
    else if |s| >= 2 && wide(s[..2]) then 2
    else if |s| >= 3 && wide(s[..3]) then 3
    else 0
  }

  function TrailingOf(wide: Sort, s: string): (n: nat)
    ensures n <= |s|
  {
    if s != "" && IsSpace(s[|s| - 1]) then 1
    else if |s| >= 2 && wide(s[|s| - 2..]) then 2
    else if |s| >= 3 && wide(s[|s| - 3..]) then 3
    else 0
  }

  function LeadingBlank(wide: Sort): string -> nat { s => LeadingOf(wide, s) }
  function TrailingBlank(wide: Sort): string -> nat { s => TrailingOf(wide, s) }

  /** s without what `lead` finds at its start, as often as it finds something. */
  function TrimLeft(lead: string -> nat, s: string): string {
    if 0 < lead(s) <= |s| then TrimLeft(lead, s[lead(s)..]) else s
  }

  function TrimRight(trail: string -> nat, s: string): string
    decreases |s|
  {
    if 0 < trail(s) <= |s| then TrimRight(trail, s[..|s| - trail(s)]) else s
  }

  /** strings.TrimSpace. */
  function TrimSpace(s: string): string {
    TrimRight(TrailingBlank(IsWideBlank), TrimLeft(LeadingBlank(IsWideBlank), s))
  }

  /** The UTF-8 encoding of a code point from U+0080 to U+FFFF. */
  function Utf8(cp: int): string
    requires 0x80 <= cp < 0x10000
  {
    if cp < 0x800 then [(0xc0 + cp / 64) as char, (0x80 + cp % 64) as char]
    else [(0xe0 + cp / 4096) as char, (0x80 + cp / 64 % 64) as char, (0x80 + cp % 64) as char]
  }

  /** The white space code points of Unicode beyond ASCII. */
  predicate IsWhiteSpace(cp: int) {
    cp in [0x85, 0xa0, 0x1680, 0x2028, 0x2029, 0x202f, 0x205f, 0x3000] || 0x2000 <= cp <= 0x200a
  }

  lemma WideBlankCodes()
    ensures Utf8(0x85) == [0xc2 as char, 0x85 as char] && Utf8(0xa0) == [0xc2 as char, 0xa0 as char]
    ensures Utf8(0x1680) == [0xe1 as char, 0x9a as char, 0x80 as char]
    ensures Utf8(0x2028) == [0xe2 as char, 0x80 as char, 0xa8 as char]
    ensures Utf8(0x2029) == [0xe2 as char, 0x80 as char, 0xa9 as char]
    ensures Utf8(0x202f) == [0xe2 as char, 0x80 as char, 0xaf as char]
    ensures Utf8(0x205f) == [0xe2 as char, 0x81 as char, 0x9f as char]
    ensures Utf8(0x3000) == [0xe3 as char, 0x80 as char, 0x80 as char]
  {
  }

  lemma CodeIsWideBlank(cp: int)
    requires 0x80 <= cp < 0x10000 && IsWhiteSpace(cp)
    ensures IsWideBlank(Utf8(cp))
  {
    WideBlankCodes();
    if 0x2000 <= cp <= 0x200a { assert Utf8(cp) == [0xe2 as char, 0x80 as char, (cp - 0x2000 + 0x80) as char]; }
  }

  lemma WideBlankCode(w: string) returns (cp: int)
    requires IsWideBlank(w)
    ensures 0x80 <= cp < 0x10000 && IsWhiteSpace(cp) && w == Utf8(cp)
  {
    WideBlankCodes();
    if |w| == 2 {
      cp := if w[1] == 0x85 as char then 0x85 else 0xa0;
    } else if w[0] == 0xe1 as char {
      cp := 0x1680;
    } else if w[0] == 0xe3 as char {
      cp := 0x3000;
    } else if w[1] == 0x81 as char {
      cp := 0x205f;
    } else {
      cp := 0x2000 + (w[2] as int - 0x80);
    }
  }

  lemma WideBlankIff(w: string)
    ensures IsWideBlank(w) <==> exists cp :: 0x80 <= cp < 0x10000 && IsWhiteSpace(cp) && w == Utf8(cp)
  {
    if IsWideBlank(w) { var cp := WideBlankCode(w); }
    if cp :| 0x80 <= cp < 0x10000 && IsWhiteSpace(cp) && w == Utf8(cp) { CodeIsWideBlank(cp); }
  }

  /** One blank: an ASCII one, or a wide one. */
  predicate IsBlankOf(wide: Sort, w: string) {
    (|w| == 1 && (w[0] == ' ' || 9 <= w[0] as int <= 13)) || (2 <= |w| <= 3 && wide(w))
  }

  function BlankOf(wide: Sort): Sort { w => IsBlankOf(wide, w) }

  ghost predicate StartsWith(sort: Sort, s: string) { exists n :: 0 < n <= |s| && sort(s[..n]) }
  ghost predicate EndsWith(sort: Sort, s: string) { exists m :: 0 <= m < |s| && sort(s[m..]) }

  predicate Each(sort: Sort, pieces: seq<string>) { forall i | 0 <= i < |pieces| :: sort(pieces[i]) }

  /** lead finds one of the sort at the start of s if there is one. */
  ghost predicate FindsFirst(lead: string -> nat, sort: Sort, s: string) {
    lead(s) <= |s| && (lead(s) > 0 <==> StartsWith(sort, s)) && (lead(s) > 0 ==> sort(s[..lead(s)]))
  }

  ghost predicate FindsLast(trail: string -> nat, sort: Sort, s: string) {
    trail(s) <= |s| && (trail(s) > 0 <==> EndsWith(sort, s)) && (trail(s) > 0 ==> sort(s[|s| - trail(s)..]))
  }

  ghost predicate Finds(lead: string -> nat, trail: string -> nat, sort: Sort) {
    && (forall s: string :: FindsFirst(lead, sort, s))
    && (forall s: string :: FindsLast(trail, sort, s))
  }

  lemma PieceInFront(sort: Sort, s: string, n: nat, rest: seq<string>, t: string)
    requires n <= |s| && sort(s[..n]) && Each(sort, rest) && s[n..] == Flatten(rest) + t
    ensures Each(sort, [s[..n]] + rest) && s == Flatten([s[..n]] + rest) + t
  {
    FlattenFirst(s[..n], rest);
    ThreeParts(s[..n], Flatten(rest), t);
    assert s == s[..n] + s[n..];
  }

  lemma PieceBehind(sort: Sort, s: string, n: nat, before: seq<string>, t: string)
    requires n <= |s| && sort(s[|s| - n..]) && Each(sort, before) && s[..|s| - n] == t + Flatten(before)
    ensures Each(sort, before + [s[|s| - n..]]) && s == t + Flatten(before + [s[|s| - n..]])
  {
    var w := s[|s| - n..];
    assert (before + [w])[..|before|] == before;
    ThreeParts(t, Flatten(before), w);
    assert s == s[..|s| - n] + w;
  }

  lemma {:induction false} TrimLeftIs(lead: string -> nat, trail: string -> nat, sort: Sort, s: string)
    returns (cut: seq<string>)
    requires Finds(lead, trail, sort)
    ensures Each(sort, cut) && s == Flatten(cut) + TrimLeft(lead, s) && !StartsWith(sort, TrimLeft(lead, s))
  {
    assert FindsFirst(lead, sort, s);
    var n := lead(s);
    cut := [];
    if n > 0 {
      var rest := TrimLeftIs(lead, trail, sort, s[n..]);
      cut := [s[..n]] + rest;
      PieceInFront(sort, s, n, rest, TrimLeft(lead, s[n..]));
    }
  }

  lemma {:induction false} TrimRightIs(lead: string -> nat, trail: string -> nat, sort: Sort, s: string)
    returns (cut: seq<string>)
    requires Finds(lead, trail, sort)
    ensures Each(sort, cut) && s == TrimRight(trail, s) + Flatten(cut) && !EndsWith(sort, TrimRight(trail, s))
    decreases |s|
  {
    assert FindsLast(trail, sort, s);
    var n := trail(s);
    cut := [];
    if n > 0 {
      var w := s[|s| - n..];
      var before := TrimRightIs(lead, trail, sort, s[..|s| - n]);
      cut := before + [w];
      PieceBehind(sort, s, n, before, TrimRight(trail, s[..|s| - n]));
    }
  }

  lemma PrefixStarts(sort: Sort, s: string, t: string)
    requires t <= s && StartsWith(sort, t)
    ensures StartsWith(sort, s)
  {
    var n :| 0 < n <= |t| && sort(t[..n]);
    assert s[..n] == t[..n];
  }

  lemma ThreeParts(l: string, t: string, r: string)
    ensures l + (t + r) == l + t + r && t <= t + r
  {
  }

  lemma TrimBoth(lead: string -> nat, trail: string -> nat, sort: Sort, s: string)
    returns (before: seq<string>, after: seq<string>)
    requires Finds(lead, trail, sort)
    ensures var t := TrimRight(trail, TrimLeft(lead, s));
      && Each(sort, before) && Each(sort, after) && s == Flatten(before) + t + Flatten(after)
      && !StartsWith(sort, t) && !EndsWith(sort, t)
  {
    before := TrimLeftIs(lead, trail, sort, s);
    var rest := TrimLeft(lead, s);
    after := TrimRightIs(lead, trail, sort, rest);
    var t, l, r := TrimRight(trail, rest), Flatten(before), Flatten(after);
    ThreeParts(l, t, r);
    if StartsWith(sort, t) { PrefixStarts(sort, rest, t); }
  }

  lemma LeadingFinds(wide: Sort, s: string)
    ensures FindsFirst(LeadingBlank(wide), BlankOf(wide), s)
  {
    var n := LeadingOf(wide, s);
    if n == 1 { assert s[..1][0] == s[0]; }
    if n > 0 { assert IsBlankOf(wide, s[..n]); }
    if k :| 0 < k <= |s| && BlankOf(wide)(s[..k]) { assert k == 1 ==> s[..k][0] == s[0]; }
  }

  lemma TrailingFinds(wide: Sort, s: string)
    ensures FindsLast(TrailingBlank(wide), BlankOf(wide), s)
  {
    var n := TrailingOf(wide, s);
    if n == 1 { assert s[|s| - 1..][0] == s[|s| - 1]; }
    if n > 0 { assert IsBlankOf(wide, s[|s| - n..]); }
    if m :| 0 <= m < |s| && BlankOf(wide)(s[m..]) {
      assert |s| - m == 1 ==> s[m..][0] == s[|s| - 1];
      assert |s| - m == 2 ==> m == |s| - 2;
      assert |s| - m == 3 ==> m == |s| - 3;
    }
  }

  lemma BlanksAreFound(wide: Sort)
    ensures Finds(LeadingBlank(wide), TrailingBlank(wide), BlankOf(wide))
  {
    forall s: string ensures FindsFirst(LeadingBlank(wide), BlankOf(wide), s) { LeadingFinds(wide, s); }
    forall s: string ensures FindsLast(TrailingBlank(wide), BlankOf(wide), s) { TrailingFinds(wide, s); }
  }

  /** Trimming takes blanks off both ends and leaves a text that neither starts nor ends with one. */
  lemma TrimIsExact(s: string) returns (before: seq<string>, after: seq<string>)
    ensures var blank, t := BlankOf(IsWideBlank), TrimSpace(s);
      && Each(blank, before) && Each(blank, after) && s == Flatten(before) + t + Flatten(after)
      && !StartsWith(blank, t) && !EndsWith(blank, t)
  {
    BlanksAreFound(IsWideBlank);
    before, after := TrimBoth(LeadingBlank(IsWideBlank), TrailingBlank(IsWideBlank), BlankOf(IsWideBlank), s);
  }

  // ---------- pieces ----------

  /** strings.Split on one character. */
  function Split(s: string, c: char): (parts: seq<string>)
    ensures parts != []
  {
    if s == "" then [""]
    else if s[0] == c then [""] + Split(s[1..], c)
    else
      var rest := Split(s[1..], c);
      [[s[0]] + rest[0]] + rest[1..]
  }

  function Join(parts: seq<string>, c: char): string {
    if parts == [] then "" else if |parts| == 1 then parts[0]
    else parts[0] + [c] + Join(parts[1..], c)
  }

  lemma {:induction false} JoinSplitParts(s: string, c: char)
    ensures Join(Split(s, c), c) == s
  {
    if s != "" {
      JoinSplitParts(s[1..], c);
      var rest, parts := Split(s[1..], c), Split(s, c);
      assert s == [s[0]] + s[1..];
      if s[0] == c {
        assert parts[1..] == rest;
      } else {
        GrowFirst(s[0], rest, c);
      }
    }
  }

  lemma GrowFirst(x: char, parts: seq<string>, c: char)
    requires parts != []
    ensures Join([[x] + parts[0]] + parts[1..], c) == [x] + Join(parts, c)
  {
    var grown := [[x] + parts[0]] + parts[1..];
    assert grown[1..] == parts[1..];
    if |parts| > 1 {
      assert [x] + parts[0] + [c] + Join(parts[1..], c) == [x] + (parts[0] + [c] + Join(parts[1..], c));
    }
  }

  lemma {:induction false} PartsHaveNoSeparator(s: string, c: char, i: nat)
    requires i < |Split(s, c)|
    ensures c !in Split(s, c)[i]
  {
    if s != "" {
      if s[0] == c {
        if i > 0 { PartsHaveNoSeparator(s[1..], c, i - 1); }
      } else {
        PartsHaveNoSeparator(s[1..], c, i);
      }
    }
  }

  /** The parts are the stretches between the separators: joined they give the text back, and none
      contains a separator. */
  lemma SplitIsExact(s: string, c: char)
    ensures Join(Split(s, c), c) == s
    ensures forall i | 0 <= i < |Split(s, c)| :: c !in Split(s, c)[i]
  {
    JoinSplitParts(s, c);
    forall i | 0 <= i < |Split(s, c)| ensures c !in Split(s, c)[i] { PartsHaveNoSeparator(s, c, i); }
  }

  /** Offset of the first c, or |s|. */
  function IndexOf(s: string, c: char): (i: nat)
    ensures i <= |s| && (i < |s| ==> s[i] == c) && forall j | 0 <= j < i :: s[j] != c
  {
    if s == "" || s[0] == c then 0 else 1 + IndexOf(s[1..], c)
  }

  /** Offset of the last c, or -1. */
  function LastIndexOf(s: string, c: char): (i: int)
    ensures -1 <= i < |s| && (i >= 0 ==> s[i] == c) && forall j | i < j < |s| :: s[j] != c
  {
    if s == "" then -1 else if s[|s| - 1] == c then |s| - 1 else LastIndexOf(s[..|s| - 1], c)
  }

  lemma {:induction false} LastIndexAt(s: string, c: char, i: nat)
    requires i < |s| && s[i] == c && c !in s[i + 1..]
    ensures LastIndexOf(s, c) == i
  {
    if i < |s| - 1 {
      assert s[|s| - 1] in s[i + 1..];
      assert s[..|s| - 1][i + 1..] <= s[i + 1..];
      LastIndexAt(s[..|s| - 1], c, i);
    }
  }

  lemma IndexAt(s: string, c: char, i: nat)
    requires i < |s| && s[i] == c && forall j | 0 <= j < i :: s[j] != c
    ensures IndexOf(s, c) == i
  {
  }

  predicate HasSuffix(s: string, suffix: string) {
    |suffix| <= |s| && s[|s| - |suffix|..] == suffix
  }

  function TrimSuffix(s: string, suffix: string): string {
    if HasSuffix(s, suffix) then s[..|s| - |suffix|] else s
  }

  lemma TrimSuffixOf(s: string, suffix: string)
    ensures TrimSuffix(s + suffix, suffix) == s
  {
    assert (s + suffix)[|s|..] == suffix;
  }

  lemma TrimSuffixElse(s: string, suffix: string)
    requires forall t: string :: s != t + suffix
    ensures TrimSuffix(s, suffix) == s
  {
    if HasSuffix(s, suffix) { assert s == s[..|s| - |suffix|] + suffix; }
  }

  predicate Contains(s: string, sub: string) {
    exists i | 0 <= i <= |s| :: sub <= s[i..]
  }
}
