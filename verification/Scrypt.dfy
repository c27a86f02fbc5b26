/**
 Hashing and verifying node passwords (internal/nodepassword/scrypt.go). The key-derivation function
 itself is a parameter; what is modelled is which stored hashes are evaluated, with which
 parameters, and how many evaluations run at once.
 */
module Scrypt {
  import opened Prelude
  import opened HashFormat
  import opened Text
  import Base64

  const VERSION := 1
  const PARAM_N := 15
  const PARAM_R := 8
  const PARAM_P := 1
  const PARAM_KEY_LEN := 64
  const PARAM_SALT_LEN := 8
  const MAX_PARAM_N := 16
  const MAX_PARAM_R := 16
  const MAX_PARAM_P := 4
  const MIN_KEY_LEN := 32
  const MAX_KEY_LEN := 1024
  const MIN_PASSWORD := 8
  const MAX_PASSWORD := 256

  predicate ValidPassword(password: string) {
    MIN_PASSWORD <= |password| <= MAX_PASSWORD
  }

  /** Arguments of one key derivation, besides the password. */
  datatype Call = Call(salt: seq<byte>, n: nat, r: nat, p: nat, keyLen: nat)

  /** scrypt.Key: password and arguments to derived key. */
  type KeyFunction = (string, Call) -> seq<byte>

  type Scanner = string -> Option<Fields>

  // ---------- creating ----------

  function CreateCall(salt: seq<byte>): Call {
    Call(salt, Pow2(PARAM_N), PARAM_R, PARAM_P, PARAM_KEY_LEN)
  }

  function CreateHash(key: KeyFunction, salt: seq<byte>, secret: string): string {
    Print(Fields(VERSION, salt, PARAM_N, PARAM_R, PARAM_P, Base64.Encode(key(secret, CreateCall(salt)))))
  }

  // ---------- verifying ----------

  datatype Verdict = Match | Mismatch | Malformed | UnsupportedVersion

  /** Whether a stored hash is evaluated at all, and against which derived key. */
  datatype Decision = Evaluate(call: Call, want: seq<byte>) | Refuse(verdict: Verdict)

  predicate InBounds(f: Fields, dk: seq<byte>) {
    && 1 <= f.n <= MAX_PARAM_N
    && 1 <= f.r <= MAX_PARAM_R
    && 1 <= f.p <= MAX_PARAM_P
    && MIN_KEY_LEN <= |dk| <= MAX_KEY_LEN
  }

  function Decide(scan: Scanner, hash: string): Decision {
    match scan(hash)
    case None => Refuse(Malformed)
    case Some(f) =>
      if f.ver != VERSION then Refuse(UnsupportedVersion)
      else if Print(f) != hash then Refuse(Malformed)
      else
        match Base64.Decode(f.enc)
        case None => Refuse(Malformed)
        case Some(dk) =>
          if !InBounds(f, dk) then Refuse(Malformed)
          else Evaluate(Call(f.salt, Pow2(f.n), f.r, f.p, |dk|), dk)
  }

  function VerifyHash(scan: Scanner, key: KeyFunction, hash: string, secret: string): Verdict {
    match Decide(scan, hash)
    case Refuse(v) => v
    case Evaluate(call, want) => if key(secret, call) == want then Match else Mismatch
  }

  /** hash is the print of acceptable fields whose key text decodes to dk. */
  ghost predicate Canonical(hash: string, f: Fields, dk: seq<byte>) {
    && hash == Print(f) && f.ver == VERSION
    && Base64.Decode(f.enc) == Some(dk) && InBounds(f, dk)
  }

  /** With any scanner whatsoever, what is evaluated is canonical text, and no two scanners can read
      the same text differently and both have it evaluated. */
  lemma ReprintPinsFields(scan: Scanner, other: Scanner, hash: string)
    requires Decide(scan, hash).Evaluate? && Decide(other, hash).Evaluate?
    ensures Canonical(hash, scan(hash).value, Decide(scan, hash).want)
    ensures scan(hash) == other(hash)
    ensures Decide(scan, hash) == Decide(other, hash)
  {
    PrintInjective(scan(hash).value, other(hash).value);
  }

  /** A key text without blanks that decodes is a word of the alphabet. */
  lemma KeyTextIsAscii(text: string)
    requires NoBlanks(text) && Base64.Decode(text).Some?
    ensures Base64.DecodeQuanta(text) == Base64.Decode(text)
    ensures IsAscii(text)
  {
    Base64.NoLineBreaks(text);
    Base64.DecodableIff(text);
    forall i | 0 <= i < |text| ensures text[i] < 128 as char { assert Base64.ValueOf(text[i]).Some?; }
  }

  /** With a scanner that reads printed text, the hashes evaluated are exactly the canonical ones. */
  lemma EvaluatedIffCanonical(scan: Scanner, hash: string)
    requires IsScanner(scan)
    ensures Decide(scan, hash).Evaluate? <==> exists f, dk :: Scannable(f) && Canonical(hash, f, dk)
    ensures forall f, dk | Scannable(f) && Canonical(hash, f, dk) ::
              Decide(scan, hash) == Evaluate(Call(f.salt, Pow2(f.n), f.r, f.p, |dk|), dk)
  {
    if Decide(scan, hash).Evaluate? {
      assert Canonical(hash, scan(hash).value, Decide(scan, hash).want);
    }
    forall f, dk | Scannable(f) && Canonical(hash, f, dk)
      ensures Decide(scan, hash) == Evaluate(Call(f.salt, Pow2(f.n), f.r, f.p, |dk|), dk)
    {
      KeyTextIsAscii(f.enc);
      assert scan(Print(f)) == Some(f);
    }
  }

  // ---------- the texts of one decision ----------

  lemma AlphabetIsAWord(text: string)
    requires Base64.InAlphabet(text)
    ensures NoBlanks(text) && IsAscii(text)
  {
    forall i | 0 <= i < |text| ensures !IsSpace(text[i]) && text[i] < 128 as char {
      assert Base64.ValueOf(text[i]).Some?;
    }
  }

  /** Another key text that decodes alike makes another hash that is treated alike. */
  lemma SameDecision(scan: Scanner, f: Fields, dk: seq<byte>, text: string)
    requires IsScanner(scan) && Scannable(f) && Canonical(Print(f), f, dk)
    requires Base64.DecodeQuanta(text) == Some(dk)
    ensures Decide(scan, Print(f.(enc := text))) == Decide(scan, Print(f))
  {
    var g := f.(enc := text);
    Base64.DecodableIff(text);
    AlphabetIsAWord(text);
    Base64.NoLineBreaks(text);
    assert Scannable(g) && Canonical(Print(g), g, dk);
    EvaluatedIffCanonical(scan, Print(f));
    EvaluatedIffCanonical(scan, Print(g));
  }

  /** Hashes treated alike differ in the key text only, and those texts decode alike. */
  lemma SameDecisionText(scan: Scanner, f: Fields, dk: seq<byte>, other: string) returns (text: string)
    requires IsScanner(scan) && Scannable(f) && Canonical(Print(f), f, dk)
    requires Decide(scan, other) == Decide(scan, Print(f))
    ensures other == Print(f.(enc := text)) && Base64.DecodeQuanta(text) == Some(dk)
  {
    EvaluatedIffCanonical(scan, Print(f));
    var g := scan(other).value;
    text := g.enc;
    KeyTextIsAscii(text);
    Pow2Injective(f.n, g.n);
    assert g == f.(enc := text);
  }

  lemma Pow2Injective(a: nat, b: nat)
    ensures Pow2(a) == Pow2(b) <==> a == b
  {
    if a < b { Pow2Monotone(a, b); }
    if b < a { Pow2Monotone(b, a); }
  }

  function Prints(f: Fields, texts: set<string>): set<string> { set t | t in texts :: Print(f.(enc := t)) }

  lemma {:induction false} PrintsAreDistinct(f: Fields, texts: set<string>)
    ensures |Prints(f, texts)| == |texts|
  {
    if texts != {} {
      var t :| t in texts;
      var rest := texts - {t};
      PrintsAreDistinct(f, rest);
      forall u | u in rest ensures Print(f.(enc := u)) != Print(f.(enc := t)) {
        if Print(f.(enc := u)) == Print(f.(enc := t)) { PrintInjective(f.(enc := u), f.(enc := t)); }
      }
      assert Prints(f, texts) == Prints(f, rest) + {Print(f.(enc := t))};
    }
  }

  /** All texts that are evaluated as this one is: one, four or sixteen, by the length of the key. */
  lemma TextsOfOneDecision(scan: Scanner, hash: string) returns (texts: set<string>)
    requires IsScanner(scan) && Decide(scan, hash).Evaluate?
    ensures forall other: string :: other in texts <==> Decide(scan, other) == Decide(scan, hash)
    ensures |texts| == Base64.TextsPerKey(|Decide(scan, hash).want|)
  {
    var f, dk := scan(hash).value, Decide(scan, hash).want;
    KeyTextIsAscii(f.enc);
    var keys := Base64.TextsOfOneKey(f.enc);
    texts := Prints(f, keys);
    PrintsAreDistinct(f, keys);
    forall other: string ensures other in texts <==> Decide(scan, other) == Decide(scan, hash) {
      if other in texts {
        var t :| t in keys && other == Print(f.(enc := t));
        SameDecision(scan, f, dk, t);
      }
      if Decide(scan, other) == Decide(scan, hash) {
        var t := SameDecisionText(scan, f, dk, other);
        assert t in keys;
      }
    }
  }

  /** An accepted hash has a second accepted text with the same meaning exactly if the length of its
      key is no multiple of three. */
  lemma SecondTextIff(scan: Scanner, hash: string)
    requires IsScanner(scan) && Decide(scan, hash).Evaluate?
    ensures (exists other: string :: other != hash && Decide(scan, other) == Decide(scan, hash))
            <==> |Decide(scan, hash).want| % 3 != 0
  {
    var texts := TextsOfOneDecision(scan, hash);
    assert hash in texts;
    if |texts| == 1 {
      var t :| texts == {t};
    } else {
      assert texts - {hash} != {} by { assert |texts - {hash}| == |texts| - 1; }
      var other :| other in texts - {hash};
    }
  }

  // ---------- a created hash ----------

  /** A hash just created is canonical, and is evaluated with the very arguments it was made with. */
  lemma CreatedHashIsEvaluated(scan: Scanner, key: KeyFunction, salt: seq<byte>, secret: string)
    requires IsScanner(scan) && salt != [] && |key(secret, CreateCall(salt))| == PARAM_KEY_LEN
    ensures Decide(scan, CreateHash(key, salt, secret)) ==
            Evaluate(CreateCall(salt), key(secret, CreateCall(salt)))
  {
    var dk := key(secret, CreateCall(salt));
    var enc := Base64.Encode(dk);
    Base64.EncodeInAlphabet(dk);
    AlphabetIsAWord(enc);
    Base64.RoundTrip(dk);
    var f := Fields(VERSION, salt, PARAM_N, PARAM_R, PARAM_P, enc);
    assert scan(Print(f)) == Some(f);
  }

  /** A password verifies against its own hash, and another one exactly if the key function
      cannot tell the two apart. */
  lemma VerifyCreated(scan: Scanner, key: KeyFunction, salt: seq<byte>, secret: string, other: string)
    requires IsScanner(scan) && salt != [] && |key(secret, CreateCall(salt))| == PARAM_KEY_LEN
    ensures VerifyHash(scan, key, CreateHash(key, salt, secret), secret) == Match
    ensures VerifyHash(scan, key, CreateHash(key, salt, secret), other) ==
            if key(other, CreateCall(salt)) == key(secret, CreateCall(salt)) then Match else Mismatch
  {
    CreatedHashIsEvaluated(scan, key, salt, secret);
  }

  /** Two stored hashes verify the same passwords, with the same verdicts. */
  ghost predicate VerifyAlike(scan: Scanner, key: KeyFunction, one: string, other: string) {
    forall password :: VerifyHash(scan, key, one, password) == VerifyHash(scan, key, other, password)
  }

  lemma SameVerdict(scan: Scanner, key: KeyFunction, one: string, other: string)
    requires Decide(scan, one) == Decide(scan, other)
    ensures VerifyAlike(scan, key, one, other)
  {
  }

  /** An accepted hash is one of one, four or sixteen texts that verify exactly the same passwords. */
  lemma AlikeTexts(scan: Scanner, key: KeyFunction, hash: string) returns (texts: set<string>)
    requires IsScanner(scan) && Decide(scan, hash).Evaluate?
    ensures |texts| == Base64.TextsPerKey(|Decide(scan, hash).want|) && hash in texts
    ensures forall other | other in texts :: VerifyAlike(scan, key, hash, other)
  {
    texts := TextsOfOneDecision(scan, hash);
    forall other | other in texts ensures VerifyAlike(scan, key, hash, other) {
      SameVerdict(scan, key, hash, other);
    }
  }

  /** The hash of a 64-byte key is one of sixteen. */
  lemma SixteenTexts(scan: Scanner, key: KeyFunction, hash: string) returns (texts: set<string>)
    requires IsScanner(scan) && Decide(scan, hash).Evaluate? && |Decide(scan, hash).want| == PARAM_KEY_LEN
    ensures |texts| == 16 && hash in texts
    ensures forall other | other in texts :: VerifyAlike(scan, key, hash, other)
  {
    assert Base64.TextsPerKey(PARAM_KEY_LEN) == 16;
    texts := AlikeTexts(scan, key, hash);
  }

  /** What verifying comes to: a canonical hash is compared with the key derived with the parameters it
      records, whatever they are; any other text is neither a match nor a mismatch. */
  lemma VerdictIff(scan: Scanner, key: KeyFunction, hash: string, password: string)
    requires IsScanner(scan)
    ensures forall f, dk | Scannable(f) && Canonical(hash, f, dk) ::
              VerifyHash(scan, key, hash, password) ==
              if key(password, Call(f.salt, Pow2(f.n), f.r, f.p, |dk|)) == dk then Match else Mismatch
    ensures !(exists f, dk :: Scannable(f) && Canonical(hash, f, dk)) ==>
              VerifyHash(scan, key, hash, password) ==
              if scan(hash).Some? && scan(hash).value.ver != 1 then UnsupportedVersion else Malformed
  {
    EvaluatedIffCanonical(scan, hash);
  }

  lemma CreatedParameters()
    ensures Pow2(PARAM_N) == 32768
    ensures Decimal(VERSION) == "1" && Decimal(PARAM_N) == "15" && Signed(PARAM_R) == "8" && Signed(PARAM_P) == "1"
  {
    assert Pow2(8) == 256;
  }

  /** The text of a created hash: version, salt in hex, the parameters of the program, and the derived
      key in base64, as rke2 writes them. */
  lemma CreatedText(key: KeyFunction, salt: seq<byte>, secret: string)
    ensures CreateHash(key, salt, secret) ==
            "$" + Join(["1", Hex(salt), "15", "8", "1", Base64.Encode(key(secret, Call(salt, 32768, 8, 1, 64)))], ':')
  {
    CreatedParameters();
    PrintLayout(Fields(VERSION, salt, PARAM_N, PARAM_R, PARAM_P, Base64.Encode(key(secret, CreateCall(salt)))));
  }

  // ---------- what one evaluation may cost ----------

  /** The constraints of section 2 of RFC 7914, N being a power of two. */
  ghost predicate MeetsRfc7914(call: Call) {
    && 1 < call.n < Pow2(16 * call.r)   // 2^(128 * r / 8)
    && 128 * (call.p * call.r) <= (0x1_0000_0000 - 1) * 32
    && call.keyLen <= (0x1_0000_0000 - 1) * 32
  }

  /** The memory and parameter bounds every evaluation respects. */
  ghost predicate Bounded(call: Call) {
    && (exists e: nat :: 1 <= e <= MAX_PARAM_N && call.n == Pow2(e))
    && call.n > 1 && 1 <= call.r <= MAX_PARAM_R && 1 <= call.p <= MAX_PARAM_P
    && 128 * (call.n * call.r) <= 0x800_0000
    && MIN_KEY_LEN <= call.keyLen <= MAX_KEY_LEN
    && (MeetsRfc7914(call) <==> !(call.n == 0x1_0000 && call.r == 1))
  }

  lemma {:induction false} Pow2Monotone(a: nat, b: nat)
    requires a < b
    ensures 2 * Pow2(a) <= Pow2(b)
  {
    if a < b - 1 { Pow2Monotone(a, b - 1); }
  }

  lemma ProductBound(a: nat, b: nat, c: nat, d: nat)
    requires a <= c && b <= d
    ensures a * b <= c * d
  {
    assert a * b <= a * d <= c * d;
  }

  lemma Pow2Of16()
    ensures Pow2(16) == 0x1_0000
  {
    assert Pow2(8) == 0x100;
  }

  lemma ExponentBound(e: nat)
    requires 1 <= e <= MAX_PARAM_N
    ensures 1 < Pow2(e) <= 0x1_0000
    ensures Pow2(e) == 0x1_0000 <==> e == 16
  {
    Pow2Of16();
    Pow2Monotone(0, e);
    if e < 16 { Pow2Monotone(e, 16); }
  }

  /** N < 2^(16r) fails only at N = 2^16, r = 1. */
  lemma RfcUpperBound(e: nat, r: nat)
    requires 1 <= e <= MAX_PARAM_N && 1 <= r
    ensures Pow2(e) < Pow2(16 * r) <==> !(e == 16 && r == 1)
  {
    if e < 16 * r { Pow2Monotone(e, 16 * r); }
  }

  lemma CostBound(e: nat, call: Call)
    requires 1 <= e <= MAX_PARAM_N && call.n == Pow2(e)
    requires 1 <= call.r <= MAX_PARAM_R && 1 <= call.p <= MAX_PARAM_P
    requires MIN_KEY_LEN <= call.keyLen <= MAX_KEY_LEN
    ensures Bounded(call)
  {
    ExponentBound(e);
    RfcUpperBound(e, call.r);
    ProductBound(call.n, call.r, 0x1_0000, MAX_PARAM_R);
    ProductBound(call.p, call.r, MAX_PARAM_P, MAX_PARAM_R);
  }

  /** Whatever text is stored and however it is scanned, a verification that runs at all runs within
      the bounds: 128 MiB, and the RFC's constraints except for N = 2^16 with r = 1. */
  lemma VerificationIsBounded(scan: Scanner, hash: string)
    requires Decide(scan, hash).Evaluate?
    ensures Bounded(Decide(scan, hash).call)
  {
    CostBound(scan(hash).value.n, Decide(scan, hash).call);
  }

  /** Any non-empty salt, any power of two up to 2^16, and any r, p and key within the bounds. */
  ghost predicate Askable(call: Call, want: seq<byte>) {
    && call.salt != [] && (exists e: nat :: 1 <= e <= 16 && call.n == Pow2(e))
    && 1 <= call.r <= 16 && 1 <= call.p <= 4
    && call.keyLen == |want| && 32 <= |want| <= 1024
  }

  /** What a stored hash can ask for is that and nothing else. */
  lemma ReachableIff(scan: Scanner, call: Call, want: seq<byte>)
    requires IsScanner(scan)
    ensures (exists hash: string :: Decide(scan, hash) == Evaluate(call, want)) <==> Askable(call, want)
  {
    if hash: string :| Decide(scan, hash) == Evaluate(call, want) {
      var f := scan(hash).value;
      assert Scannable(f) && 1 <= f.n <= MAX_PARAM_N;
    }
    if Askable(call, want) {
      var e: nat :| 1 <= e <= MAX_PARAM_N && call.n == Pow2(e);
      var hash := HashFor(scan, call, want, e);
    }
  }

  lemma HashFor(scan: Scanner, call: Call, want: seq<byte>, e: nat) returns (hash: string)
    requires IsScanner(scan) && call.salt != [] && 1 <= e <= MAX_PARAM_N && call.n == Pow2(e)
    requires 1 <= call.r <= MAX_PARAM_R && 1 <= call.p <= MAX_PARAM_P
    requires call.keyLen == |want| && MIN_KEY_LEN <= |want| <= MAX_KEY_LEN
    ensures Decide(scan, hash) == Evaluate(call, want)
  {
    var enc := Base64.Encode(want);
    Base64.EncodeInAlphabet(want);
    AlphabetIsAWord(enc);
    Base64.RoundTrip(want);
    var f := Fields(VERSION, call.salt, e, call.r, call.p, enc);
    hash := Print(f);
    assert scan(Print(f)) == Some(f);
  }

  /** Both limits are met: some accepted hash costs 128 MiB, and some accepted hash is outside the RFC. */
  lemma BoundsAreReached(scan: Scanner, salt: seq<byte>, want: seq<byte>) returns (large: string, outside: string)
    requires IsScanner(scan) && salt != [] && MIN_KEY_LEN <= |want| <= MAX_KEY_LEN
    ensures Decide(scan, large).Evaluate? && Decide(scan, outside).Evaluate?
    ensures var call := Decide(scan, large).call; 128 * (call.n * call.r) == 0x800_0000
    ensures !MeetsRfc7914(Decide(scan, outside).call)
  {
    Pow2Of16();
    large := HashFor(scan, Call(salt, Pow2(16), 16, 1, |want|), want, 16);
    outside := HashFor(scan, Call(salt, Pow2(16), 1, 1, |want|), want, 16);
    VerificationIsBounded(scan, outside);
  }

  lemma CreationIsBounded(salt: seq<byte>)
    ensures Bounded(CreateCall(salt)) && MeetsRfc7914(CreateCall(salt))
  {
    CostBound(PARAM_N, CreateCall(salt));
    ExponentBound(PARAM_N);
  }
}
