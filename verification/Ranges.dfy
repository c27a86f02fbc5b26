/**
 What a network range holds. `IPNet.Contains` compares bytes under a mask; for the masks that CIDRs have,
 that is comparing integers with their low bits divided away.
 */
module Ranges {
  import opened Prelude
  import opened Addresses

  // ---------- bits ----------

  type index8 = i: int | 0 <= i < 8

  /** Bit i of a byte, the most significant first. */
  function Bit(b: bv8, i: index8): bool {
    match i
    case 0 => b & 0x80 != 0 case 1 => b & 0x40 != 0 case 2 => b & 0x20 != 0 case 3 => b & 0x10 != 0
    case 4 => b & 0x08 != 0 case 5 => b & 0x04 != 0 case 6 => b & 0x02 != 0 case 7 => b & 0x01 != 0
  }

  /** How bits are read off bytes. */
  type Bits = (bv8, index8) -> bool

  function BitOf(): Bits { (b: bv8, i: index8) => Bit(b, i) }

  /** Bit i of a sequence of bytes. */
  function BitAt(bit: Bits, bs: seq<bv8>, i: nat): bool
    requires i < 8 * |bs|
  {
    bit(bs[i / 8], i % 8)
  }

  /** The first n bits as an integer. */
  function Leading(bit: Bits, bs: seq<bv8>, n: nat): nat
    requires n <= 8 * |bs|
  {
    if n == 0 then 0 else 2 * Leading(bit, bs, n - 1) + (if BitAt(bit, bs, n - 1) then 1 else 0)
  }

  /** An address as an integer. */
  function Number(bs: seq<bv8>): nat { Leading(BitOf(), bs, 8 * |bs|) }

  predicate SameBits(bit: Bits, x: seq<bv8>, y: seq<bv8>, k: nat)
    requires |x| == |y| && k <= 8 * |x|
  {
    forall i | 0 <= i < k :: BitAt(bit, x, i) == BitAt(bit, y, i)
  }

  lemma {:induction false} LeadingIff(bit: Bits, x: seq<bv8>, y: seq<bv8>, k: nat)
    requires |x| == |y| && k <= 8 * |x|
    ensures Leading(bit, x, k) == Leading(bit, y, k) <==> SameBits(bit, x, y, k)
  {
    if k > 0 { LeadingIff(bit, x, y, k - 1); }
  }

  // ---------- dividing low bits away ----------

  lemma AtLeastOnce(p: nat, m: nat)
    requires m >= 1
    ensures p * m >= p
  {
    assert p * m == p * (m - 1) + p;
  }

  lemma QuotientIs(n: nat, p: nat, q: nat, r: nat)
    requires n == p * q + r && r < p
    ensures n / p == q
  {
    var q1, r1 := n / p, n % p;
    assert n == p * q1 + r1;
    if q1 < q {
      assert p * q == p * q1 + p * (q - q1);
      AtLeastOnce(p, q - q1);
      assert false;
    }
    if q < q1 {
      assert p * q1 == p * q + p * (q1 - q);
      AtLeastOnce(p, q1 - q);
      assert false;
    }
  }

  lemma HalfFirst(n: nat, p: nat)
    requires p > 0
    ensures n / (2 * p) == n / 2 / p
  {
    var h := n / 2;
    var q, r := h / p, h % p;
    assert h == p * q + r;
    assert 2 * h == (2 * p) * q + 2 * r by { assert 2 * (p * q) == (2 * p) * q; }
    QuotientIs(n, 2 * p, q, 2 * r + n % 2);
  }

  /** Dividing by 2^d leaves the integer of the leading bits. */
  lemma {:induction false} LeadingIsQuotient(bit: Bits, bs: seq<bv8>, n: nat, d: nat)
    requires d <= n <= 8 * |bs|
    ensures Leading(bit, bs, n) / Pow2(d) == Leading(bit, bs, n - d)
  {
    if d > 0 {
      HalfFirst(Leading(bit, bs, n), Pow2(d - 1));
      LeadingIsQuotient(bit, bs, n - 1, d - 1);
    }
  }

  // ---------- masks ----------

  type upto8 = d: int | 0 <= d <= 8

  /** A byte whose low d bits are zero and the others one. */
  function HighOnes(d: upto8): bv8 {
    match d
    case 0 => 0xff case 1 => 0xfe case 2 => 0xfc case 3 => 0xf8 case 4 => 0xf0
    case 5 => 0xe0 case 6 => 0xc0 case 7 => 0x80 case 8 => 0x00
  }

  /** The number of low bits of byte i that a mask of k leading one bits clears. */
  function Cleared(i: nat, k: nat): upto8 {
    if k >= 8 * i + 8 then 0 else if k <= 8 * i then 8 else 8 * i + 8 - k
  }

  /** n bytes of which the first k bits are one. */
  function PrefixMask(n: nat, k: nat): (m: seq<bv8>)
    ensures |m| == n && forall i | 0 <= i < n :: m[i] == HighOnes(Cleared(i, k))
  {
    seq(n, i requires 0 <= i < n => HighOnes(Cleared(i, k)))
  }

  /** Comparing bytes under masks. */
  type Comparison = (bv8, bv8, bv8) -> bool

  predicate Under(a: bv8, b: bv8, m: bv8) { a & m == b & m }

  function UnderMask(): Comparison { (a, b, m) => Under(a, b, m) }

  predicate Agree(same: Comparison, x: seq<bv8>, y: seq<bv8>, m: seq<bv8>)
    requires |x| == |y| == |m|
  {
    forall i | 0 <= i < |x| :: same(x[i], y[i], m[i])
  }

  /** Bytes agree under a mask that clears d bits exactly if their other bits do. */
  predicate Masks(same: Comparison, bit: Bits, a: bv8, b: bv8, d: upto8) {
    same(a, b, HighOnes(d)) <==> forall i: index8 | i < 8 - d :: bit(a, i) == bit(b, i)
  }

  ghost predicate AllMask(same: Comparison, bit: Bits) {
    forall a: bv8, b: bv8, d: upto8 :: Masks(same, bit, a, b, d)
  }

  type below8 = d: int | 0 <= d < 8

  /** A mask that clears one bit less compares one bit more. */
  predicate OneBitMore(same: Comparison, bit: Bits, a: bv8, b: bv8, d: below8) {
    same(a, b, HighOnes(d)) <==> same(a, b, HighOnes(d + 1)) && bit(a, 7 - d) == bit(b, 7 - d)
  }

  ghost predicate Steps(same: Comparison, bit: Bits, d: below8) {
    forall a: bv8, b: bv8 :: OneBitMore(same, bit, a, b, d)
  }

  ghost predicate NothingCompared(same: Comparison) {
    forall a: bv8, b: bv8 :: same(a, b, HighOnes(8))
  }

  lemma Mask0(a: bv8, b: bv8)
    ensures Under(a, b, 0xff) <==> Under(a, b, 0xfe) && (a & 0x01 != 0 <==> b & 0x01 != 0)
  {
  }

  lemma Byte0(a: bv8, b: bv8)
    ensures Under(a, b, HighOnes(0)) <==> Under(a, b, HighOnes(1)) && Bit(a, 7) == Bit(b, 7)
  {
    assert HighOnes(0) == 0xff && HighOnes(1) == 0xfe;
    Mask0(a, b);
  }

  lemma Step0()
    ensures Steps(UnderMask(), BitOf(), 0)
  {
    forall a: bv8, b: bv8 ensures OneBitMore(UnderMask(), BitOf(), a, b, 0) { Byte0(a, b); }
  }

  lemma Mask1(a: bv8, b: bv8)
    ensures Under(a, b, 0xfe) <==> Under(a, b, 0xfc) && (a & 0x02 != 0 <==> b & 0x02 != 0)
  {
  }

  lemma Byte1(a: bv8, b: bv8)
    ensures Under(a, b, HighOnes(1)) <==> Under(a, b, HighOnes(2)) && Bit(a, 6) == Bit(b, 6)
  {
    assert HighOnes(1) == 0xfe && HighOnes(2) == 0xfc;
    Mask1(a, b);
  }

  lemma Step1()
    ensures Steps(UnderMask(), BitOf(), 1)
  {
    forall a: bv8, b: bv8 ensures OneBitMore(UnderMask(), BitOf(), a, b, 1) { Byte1(a, b); }
  }

  lemma Mask2(a: bv8, b: bv8)
    ensures Under(a, b, 0xfc) <==> Under(a, b, 0xf8) && (a & 0x04 != 0 <==> b & 0x04 != 0)
  {
  }

  lemma Byte2(a: bv8, b: bv8)
    ensures Under(a, b, HighOnes(2)) <==> Under(a, b, HighOnes(3)) && Bit(a, 5) == Bit(b, 5)
  {
    assert HighOnes(2) == 0xfc && HighOnes(3) == 0xf8;
    Mask2(a, b);
  }

  lemma Step2()
    ensures Steps(UnderMask(), BitOf(), 2)
  {
    forall a: bv8, b: bv8 ensures OneBitMore(UnderMask(), BitOf(), a, b, 2) { Byte2(a, b); }
  }

  lemma Mask3(a: bv8, b: bv8)
    ensures Under(a, b, 0xf8) <==> Under(a, b, 0xf0) && (a & 0x08 != 0 <==> b & 0x08 != 0)
  {
  }

  lemma Byte3(a: bv8, b: bv8)
    ensures Under(a, b, HighOnes(3)) <==> Under(a, b, HighOnes(4)) && Bit(a, 4) == Bit(b, 4)
  {
    assert HighOnes(3) == 0xf8 && HighOnes(4) == 0xf0;
    Mask3(a, b);
  }

  lemma Step3()
    ensures Steps(UnderMask(), BitOf(), 3)
  {
    forall a: bv8, b: bv8 ensures OneBitMore(UnderMask(), BitOf(), a, b, 3) { Byte3(a, b); }
  }

  lemma Mask4(a: bv8, b: bv8)
    ensures Under(a, b, 0xf0) <==> Under(a, b, 0xe0) && (a & 0x10 != 0 <==> b & 0x10 != 0)
  {
  }

  lemma Byte4(a: bv8, b: bv8)
    ensures Under(a, b, HighOnes(4)) <==> Under(a, b, HighOnes(5)) && Bit(a, 3) == Bit(b, 3)
  {
    assert HighOnes(4) == 0xf0 && HighOnes(5) == 0xe0;
    Mask4(a, b);
  }

  lemma Step4()
    ensures Steps(UnderMask(), BitOf(), 4)
  {
    forall a: bv8, b: bv8 ensures OneBitMore(UnderMask(), BitOf(), a, b, 4) { Byte4(a, b); }
  }

  lemma Mask5(a: bv8, b: bv8)
    ensures Under(a, b, 0xe0) <==> Under(a, b, 0xc0) && (a & 0x20 != 0 <==> b & 0x20 != 0)
  {
  }

  lemma Byte5(a: bv8, b: bv8)
    ensures Under(a, b, HighOnes(5)) <==> Under(a, b, HighOnes(6)) && Bit(a, 2) == Bit(b, 2)
  {
    assert HighOnes(5) == 0xe0 && HighOnes(6) == 0xc0;
    Mask5(a, b);
  }

  lemma Step5()
    ensures Steps(UnderMask(), BitOf(), 5)
  {
    forall a: bv8, b: bv8 ensures OneBitMore(UnderMask(), BitOf(), a, b, 5) { Byte5(a, b); }
  }

  lemma Mask6(a: bv8, b: bv8)
    ensures Under(a, b, 0xc0) <==> Under(a, b, 0x80) && (a & 0x40 != 0 <==> b & 0x40 != 0)
  {
  }

  lemma Byte6(a: bv8, b: bv8)
    ensures Under(a, b, HighOnes(6)) <==> Under(a, b, HighOnes(7)) && Bit(a, 1) == Bit(b, 1)
  {
    assert HighOnes(6) == 0xc0 && HighOnes(7) == 0x80;
    Mask6(a, b);
  }

  lemma Step6()
    ensures Steps(UnderMask(), BitOf(), 6)
  {
    forall a: bv8, b: bv8 ensures OneBitMore(UnderMask(), BitOf(), a, b, 6) { Byte6(a, b); }
  }

  lemma Mask7(a: bv8, b: bv8)
    ensures Under(a, b, 0x80) <==> Under(a, b, 0x00) && (a & 0x80 != 0 <==> b & 0x80 != 0)
  {
  }

  lemma Byte7(a: bv8, b: bv8)
    ensures Under(a, b, HighOnes(7)) <==> Under(a, b, HighOnes(8)) && Bit(a, 0) == Bit(b, 0)
  {
    assert HighOnes(7) == 0x80 && HighOnes(8) == 0x00;
    Mask7(a, b);
  }

  lemma Step7()
    ensures Steps(UnderMask(), BitOf(), 7)
  {
    forall a: bv8, b: bv8 ensures OneBitMore(UnderMask(), BitOf(), a, b, 7) { Byte7(a, b); }
  }

  lemma AllSteps(d: below8)
    ensures Steps(UnderMask(), BitOf(), d)
  {
    match d
    case 0 => Step0();
    case 1 => Step1();
    case 2 => Step2();
    case 3 => Step3();
    case 4 => Step4();
    case 5 => Step5();
    case 6 => Step6();
    case 7 => Step7();
  }

  lemma NoBits(a: bv8, b: bv8)
    ensures Under(a, b, HighOnes(8))
  {
    assert a & 0x00 == 0 && b & 0x00 == 0;
  }

  lemma NoMask()
    ensures NothingCompared(UnderMask())
  {
    forall a: bv8, b: bv8 ensures UnderMask()(a, b, HighOnes(8)) { NoBits(a, b); }
  }

  lemma {:induction false} MasksFrom(same: Comparison, bit: Bits, a: bv8, b: bv8, d: upto8)
    requires NothingCompared(same) && forall e: below8 :: Steps(same, bit, e)
    ensures Masks(same, bit, a, b, d)
    decreases 8 - d
  {
    if d < 8 {
      MasksFrom(same, bit, a, b, d + 1);
      assert Steps(same, bit, d) && OneBitMore(same, bit, a, b, d);
    }
  }

  lemma StepsAreMasks(same: Comparison, bit: Bits)
    requires NothingCompared(same) && forall e: below8 :: Steps(same, bit, e)
    ensures AllMask(same, bit)
  {
    forall a: bv8, b: bv8, d: upto8 ensures Masks(same, bit, a, b, d) { MasksFrom(same, bit, a, b, d); }
  }

  lemma MasksMask()
    ensures AllMask(UnderMask(), BitOf())
  {
    NoMask();
    forall e: below8 ensures Steps(UnderMask(), BitOf(), e) { AllSteps(e); }
    StepsAreMasks(UnderMask(), BitOf());
  }

  /** So addresses agree under a mask of k leading one bits exactly if their first k bits do. */
  lemma AgreeIsSameBits(same: Comparison, bit: Bits, x: seq<bv8>, y: seq<bv8>, k: nat)
    requires AllMask(same, bit) && |x| == |y| && k <= 8 * |x|
    ensures Agree(same, x, y, PrefixMask(|x|, k)) <==> SameBits(bit, x, y, k)
  {
    var m := PrefixMask(|x|, k);
    if Agree(same, x, y, m) {
      forall i | 0 <= i < k ensures BitAt(bit, x, i) == BitAt(bit, y, i) {
        var j := i / 8;
        assert same(x[j], y[j], m[j]);
        assert Masks(same, bit, x[j], y[j], Cleared(j, k));
      }
    }
    if SameBits(bit, x, y, k) {
      forall j | 0 <= j < |x| ensures same(x[j], y[j], m[j]) {
        assert Masks(same, bit, x[j], y[j], Cleared(j, k));
        forall t: index8 | t < 8 - Cleared(j, k) ensures bit(x[j], t) == bit(y[j], t) {
          var i := 8 * j + t;
          assert i / 8 == j && i % 8 == t;
          assert BitAt(bit, x, i) == BitAt(bit, y, i);
        }
      }
    }
  }

  lemma SameQuotientIff(bit: Bits, x: seq<bv8>, y: seq<bv8>, k: nat)
    requires |x| == |y| && k <= 8 * |x|
    ensures var w := 8 * |x|;
      Leading(bit, x, w) / Pow2(w - k) == Leading(bit, y, w) / Pow2(w - k) <==> SameBits(bit, x, y, k)
  {
    var w := 8 * |x|;
    LeadingIsQuotient(bit, x, w, w - k);
    LeadingIsQuotient(bit, y, w, w - k);
    LeadingIff(bit, x, y, k);
  }

  lemma AgreeIsQuotient(same: Comparison, bit: Bits, x: seq<bv8>, y: seq<bv8>, k: nat)
    requires AllMask(same, bit) && |x| == |y| && k <= 8 * |x|
    ensures var w := 8 * |x|;
      Agree(same, x, y, PrefixMask(|x|, k)) <==>
      Leading(bit, x, w) / Pow2(w - k) == Leading(bit, y, w) / Pow2(w - k)
  {
    AgreeIsSameBits(same, bit, x, y, k);
    SameQuotientIff(bit, x, y, k);
  }

  /** That is, if they have the same quotient, as integers, by the power of two that is masked off. */
  lemma AgreeIff(x: seq<bv8>, y: seq<bv8>, k: nat)
    requires |x| == |y| && k <= 8 * |x|
    ensures Agree(UnderMask(), x, y, PrefixMask(|x|, k)) <==>
            Number(x) / Pow2(8 * |x| - k) == Number(y) / Pow2(8 * |x| - k)
  {
    MasksMask();
    AgreeIsQuotient(UnderMask(), BitOf(), x, y, k);
  }

  /** The block of the first k bits of a number: the addresses a CIDR names. */
  predicate InBlock(number: seq<bv8>, k: nat, a: Ip)
    requires k <= 8 * |number|
  {
    && |Octets(a)| == |number|
    && Number(number) / Pow2(8 * |number| - k) == Number(Octets(a)) / Pow2(8 * |number| - k)
  }

  /** A CIDR's range: its number, of either family, and a mask of k leading one bits, which for IPv4 can
      also be written as that of the mapped address. */
  predicate IsRange(n: Net, k: nat) {
    var w := |Octets(n.ip)|;
    && (w == 4 || w == 16) && k <= 8 * w
    && (n.mask == PrefixMask(w, k) || (w == 4 && n.mask == PrefixMask(16, 96 + k)))
  }

  lemma MappedMask(k: nat)
    requires k <= 32
    ensures PrefixMask(16, 96 + k)[12..] == PrefixMask(4, k)
  {
  }

  /** A range holds exactly the addresses of its family that agree with its number in the first k bits. */
  lemma ContainsIff(n: Net, k: nat, a: Ip)
    requires IsRange(n, k)
    ensures n.Contains(a) <==> InBlock(Octets(n.ip), k, a)
  {
    var number, x := Octets(n.ip), Octets(a);
    if |number| == 4 { MappedMask(k); }
    assert n.NumberAndMask() == Some((number, PrefixMask(|number|, k)));
    if |x| == |number| {
      AgreeIff(number, x, k);
      ContainsIsAgreement(n, a, number, PrefixMask(|number|, k));
    }
  }

  lemma ContainsIsAgreement(n: Net, a: Ip, number: seq<bv8>, mask: seq<bv8>)
    requires n.NumberAndMask() == Some((number, mask)) && |Octets(a)| == |number|
    ensures n.Contains(a) <==> Agree(UnderMask(), number, Octets(a), mask)
  {
    var x := Octets(a);
    if n.Contains(a) {
      forall i | 0 <= i < |x| ensures UnderMask()(number[i], x[i], mask[i]) {
        assert number[i] & mask[i] == x[i] & mask[i];
      }
    }
    if Agree(UnderMask(), number, x, mask) {
      forall i | 0 <= i < |x| ensures number[i] & mask[i] == x[i] & mask[i] {
        assert UnderMask()(number[i], x[i], mask[i]);
      }
    }
  }
}
