/** The adaptive Golomb/Rice code: what `entropyDecodeValue` and `entropyRiceDecode` compute
    from a bit stream, the mirror encoder, and the bound on the adaptive mean. */
module Rice {
  import opened MachineInt
  import opened BitStream

  // ----- counting leading zeros -----

  /** The `found` label of `count_leading_zeros`: zeros above the top bit of a byte. */
  function ZerosInByte(curbyte: int): int {
    var low := (curbyte / 16) % 16 == 0;
    var output := if low then 4 else 0;
    var c := if low then curbyte else curbyte / 16;
    if (c / 8) % 2 > 0 then output
    else if (c / 4) % 2 > 0 then output + 1
    else if (c / 2) % 2 > 0 then output + 2
    else if c % 2 > 0 then output + 3
    else output + 4
  }

  function CountLeadingZeros(input: int): int {
    if input / 0x100_0000 > 0 then ZerosInByte(input / 0x100_0000)
    else if (input / 0x1_0000) % 256 > 0 then 8 + ZerosInByte(input / 0x1_0000)
    else if (input / 0x100) % 256 > 0 then 16 + ZerosInByte(input / 0x100)
    else if input % 256 > 0 then 24 + ZerosInByte(input)
    else 32
  }

  /** The number of binary digits of v. */
  function BitLength(v: nat): nat {
    if v == 0 then 0 else 1 + BitLength(v / 2)
  }

  lemma {:induction false} BitLengthBounds(v: nat)
    ensures v < Pow2(BitLength(v))
    ensures v > 0 ==> Pow2(BitLength(v) - 1) <= v
  {
    if v > 0 {
      BitLengthBounds(v / 2);
    }
  }

  lemma {:induction false} BitLengthMonotone(v: nat, w: nat)
    requires v <= w
    ensures BitLength(v) <= BitLength(w)
  {
    if v > 0 {
      BitLengthMonotone(v / 2, w / 2);
    }
  }

  lemma {:induction false} BitLengthShift(v: nat, n: nat)
    requires v >= Pow2(n)
    ensures v / Pow2(n) > 0 && BitLength(v) == n + BitLength(v / Pow2(n))
  {
    if n > 0 {
      BitLengthShift(v / 2, n - 1);
      QuotientOfHalf(v, Pow2(n - 1));
    }
  }

  lemma BitLengthOfWord(v: nat)
    ensures v >= 16 ==> BitLength(v) == 4 + BitLength(v / 16)
    ensures v >= 0x100 ==> BitLength(v) == 8 + BitLength(v / 0x100)
    ensures v >= 0x1_0000 ==> BitLength(v) == 16 + BitLength(v / 0x1_0000)
    ensures v >= 0x100_0000 ==> BitLength(v) == 24 + BitLength(v / 0x100_0000)
  {
    Pow2Values();
    if v >= 16 { BitLengthShift(v, 4); }
    if v >= 0x100 { BitLengthShift(v, 8); }
    if v >= 0x1_0000 { BitLengthShift(v, 16); }
    if v >= 0x100_0000 { BitLengthShift(v, 24); }
  }

  lemma BitLengthOfNibble(c: nat)
    requires 0 < c < 16
    ensures BitLength(c) == if c >= 8 then 4 else if c >= 4 then 3 else if c >= 2 then 2 else 1
  {
    assert BitLength(c) == 1 + BitLength(c / 2);
    assert c >= 2 ==> BitLength(c / 2) == 1 + BitLength(c / 4);
    assert c >= 4 ==> BitLength(c / 4) == 1 + BitLength(c / 8);
    assert c >= 8 ==> BitLength(c / 8) == 1 + BitLength(c / 16);
  }

  lemma ZerosInByteIsCount(b: nat)
    requires 0 < b < 256
    ensures ZerosInByte(b) == 8 - BitLength(b)
  {
    hide BitLength;
    if b < 16 {
      BitLengthOfNibble(b);
    } else {
      BitLengthOfNibble(b / 16);
      BitLengthOfWord(b);
    }
  }

  lemma LeadingZerosByByte(v: uint32)
    ensures v >= 0x100_0000 ==> CountLeadingZeros(v) == ZerosInByte(v / 0x100_0000)
    ensures 0x1_0000 <= v < 0x100_0000 ==> CountLeadingZeros(v) == 8 + ZerosInByte(v / 0x1_0000)
    ensures 0x100 <= v < 0x1_0000 ==> CountLeadingZeros(v) == 16 + ZerosInByte(v / 0x100)
    ensures 0 < v < 0x100 ==> CountLeadingZeros(v) == 24 + ZerosInByte(v)
    ensures v == 0 ==> CountLeadingZeros(v) == 32
  {
    hide ZerosInByte;
    if v < 0x100_0000 {
      assert v / 0x100_0000 == 0;
      if v < 0x1_0000 {
        assert v / 0x1_0000 == 0;
        if v < 0x100 {
          assert v / 0x100 == 0;
        }
      }
    }
  }

  /** `count_leading_zeros` is the leading-zero count of a 32-bit word. */
  lemma LeadingZerosIsCount(v: uint32)
    ensures CountLeadingZeros(v) == 32 - BitLength(v)
  {
    LeadingZerosByByte(v);
    BitLengthOfWord(v);
    if v >= 0x100_0000 {
      ZerosInByteIsCount(v / 0x100_0000);
    } else if v >= 0x1_0000 {
      ZerosInByteIsCount(v / 0x1_0000);
    } else if v >= 0x100 {
      ZerosInByteIsCount(v / 0x100);
    } else if v > 0 {
      ZerosInByteIsCount(v);
    }
  }

  // ----- one codeword -----

  const RICE_THRESHOLD := 8

  /** The number of ones before the first zero at pos, at most nine, x of them already read. */
  function OnesPrefix(buf: seq<byte>, pos: int, x: nat): (r: Result<nat>)
    requires x <= RICE_THRESHOLD + 1
    ensures r.Success? ==> x <= r.value <= RICE_THRESHOLD + 1
    ensures r.Failure? ==> r.error == IndexOutOfRange
    decreases RICE_THRESHOLD + 1 - x, pos
  {
    if x > RICE_THRESHOLD then Success(x)
    else if !InRange(buf, pos) then Failure(IndexOutOfRange)
    else if BitAt(buf, pos) == 0 then Success(x)
    else OnesPrefix(buf, pos + 1, x + 1)
  }

  /** `uint32((1<<uint(k))-1) & mask`: a negative count is a huge one, which leaves 0 - 1. */
  function Factor(k: int, mask: uint32): (m: uint32)
    ensures 0 <= k <= 32 ==> m < Pow2(k)
  {
    Pow2Values();
    if 0 <= k < 32 then
      Pow2Monotone(k, 32);
      AndBound(Pow2(k) - 1, mask);
      BitAnd(Pow2(k) - 1, mask)
    else
      AndBound(0xFFFF_FFFF, mask);
      BitAnd(0xFFFF_FFFF, mask)
  }

  lemma AndBound(x: nat, y: nat)
    ensures BitAnd(x, y) <= x
  {
  }

  /** The value `entropyDecodeValue` returns at pos, and the position it stops at. */
  function DecodeValue(buf: seq<byte>, pos: int, readSampleSize: int, k: int, mask: uint32): (r: Result<(int32, int)>)
    ensures r.Failure? ==> r.error == IndexOutOfRange
  {
    var x :- OnesPrefix(buf, pos, 0);
    if x > RICE_THRESHOLD then
      var raw :- Read(buf, pos + x, readSampleSize);
      // the mask keeps all of the raw value, or nothing where its shift count is 32 or more
      Success((if 1 <= readSampleSize <= 32 then Wrap32(raw) else 0, pos + x + readSampleSize))
    else if k == 1 then
      Success((x, pos + x + 1))
    else
      var extraBits :- Read(buf, pos + x + 1, k);
      var base := Mul32(x, Wrap32(Factor(k, mask)));
      if extraBits > 1 then Success((Add32(base, Wrap32(extraBits - 1)), pos + x + 1 + k))
      else Success((base, pos + x + k))
  }

  /** With the parameters a bounded mean leads to nothing wraps. */
  lemma DecodeValueRange(buf: seq<byte>, pos: int, readSampleSize: int, k: int, mask: uint32)
    requires 1 <= readSampleSize <= 31 && 0 <= k <= 16
    ensures var r := DecodeValue(buf, pos, readSampleSize, k, mask);
      r.Success? ==> 0 <= r.value.0 && (readSampleSize <= 30 ==> r.value.0 < 0x4000_0000)
  {
    hide Read, OnesPrefix, Factor, Pow2, Wrap32;
    Pow2Bounds(k, readSampleSize);
    var prefix := OnesPrefix(buf, pos, 0);
    if prefix.Success? {
      var x, m := prefix.value, Factor(k, mask);
      var raw, extra := Read(buf, pos + x, readSampleSize), Read(buf, pos + x + 1, k);
      if x > RICE_THRESHOLD {
        if raw.Success? { WrapIdentity(raw.value); }
      } else if k != 1 && extra.Success? {
        MulMono(0, x, m);
        MulMono(x, 8, m);
        WrapIdentity(m);
        WrapIdentity(x * m);
        if extra.value > 1 {
          WrapIdentity(extra.value - 1);
          WrapIdentity(x * m + (extra.value - 1));
        }
      }
    }
  }

  lemma Pow2Bounds(k: nat, n: nat)
    requires k <= 16
    ensures Pow2(k) <= 0x1_0000
    ensures n <= 30 ==> Pow2(n) <= 0x4000_0000
    ensures n <= 31 ==> Pow2(n) <= 0x8000_0000
  {
    Pow2Values();
    Pow2Monotone(k, 16);
    Pow2Add(24, 6);
    if n <= 30 {
      Pow2Monotone(n, 30);
    }
  }

  function Remainder(r: nat, k: nat): seq<Bit>
    requires 1 <= k
  {
    if k == 1 then [] else if r == 0 then Zeros(k - 1) else Bits(r + 1, k)
  }

  function Ones(n: nat): seq<Bit> {
    seq(n, _ => 1)
  }

  function Zeros(n: nat): seq<Bit> {
    seq(n, _ => 0)
  }

  /** Quotient and remainder by repeated subtraction. */
  function Quotient(v: nat, m: nat): nat
    requires m >= 1
  {
    if v < m then 0 else 1 + Quotient(v - m, m)
  }

  function Rest(v: nat, m: nat): (r: nat)
    requires m >= 1
    ensures r < m
  {
    if v < m then v else Rest(v - m, m)
  }

  lemma {:induction false} QuotientRest(v: nat, m: nat)
    requires m >= 1
    ensures v == Quotient(v, m) * m + Rest(v, m)
  {
    if v >= m {
      QuotientRest(v - m, m);
    }
  }

  /** What a step of the prefix is worth: no factor is applied when k is 1. */
  function Multiplier(k: int, mask: uint32): uint32 {
    if k == 1 then 1 else Factor(k, mask)
  }

  /** v as a number of steps and what is left; a factor of zero leaves everything. */
  function Parts(v: nat, m: nat): (nat, nat) {
    if m == 0 then (0, v) else (Quotient(v, m), Rest(v, m))
  }

  /** v can be sent as a prefix and a remainder of k bits. */
  predicate HasPrefix(v: nat, k: int, mask: uint32) {
    && 1 <= k <= 32
    && var (q, r) := Parts(v, Multiplier(k, mask));
      q <= RICE_THRESHOLD && (k == 1 || r + 1 < Pow2(k))
  }

  /** The codeword of v: a unary quotient and a remainder, or nine ones and v itself. */
  function Code(v: nat, readSampleSize: nat, k: int, mask: uint32): seq<Bit> {
    if HasPrefix(v, k, mask) then
      var (q, r) := Parts(v, Multiplier(k, mask));
      Ones(q) + [0] + Remainder(r, k)
    else
      Ones(RICE_THRESHOLD + 1) + Bits(v, readSampleSize)
  }

  lemma {:induction false} OnesPrefixReads(buf: seq<byte>, pos: int, x: nat, n: nat)
    requires x + n <= RICE_THRESHOLD + 1 && Has(buf, pos, Ones(n))
    requires x + n <= RICE_THRESHOLD ==> InRange(buf, pos + n) && BitAt(buf, pos + n) == 0
    ensures OnesPrefix(buf, pos, x) == Success(x + n)
    decreases n
  {
    if n > 0 {
      assert Ones(n) == [1] + Ones(n - 1);
      HasConcat(buf, pos, [1], Ones(n - 1));
      assert BitAt(buf, pos + 0) == [1][0];
      OnesPrefixReads(buf, pos + 1, x + 1, n - 1);
    }
  }

  lemma PrefixRoundTrip(buf: seq<byte>, pos: int, q: nat, r: nat, k: int)
    requires 1 <= k <= 32 && q <= RICE_THRESHOLD && (k == 1 || r + 1 < Pow2(k))
    requires Has(buf, pos, Ones(q) + [0] + Remainder(r, k))
    ensures OnesPrefix(buf, pos, 0) == Success(q)
    ensures k > 1 && r > 0 ==> Read(buf, pos + q + 1, k) == Success(r + 1)
    ensures k > 1 && r == 0 ==>
      if k == 17 && pos + q + 17 == 8 * |buf| then Read(buf, pos + q + 1, k) == Failure(IndexOutOfRange)
      else Read(buf, pos + q + 1, k).Success? && Read(buf, pos + q + 1, k).value <= 1
  {
    hide OnesPrefix, Pow2, Bits, Read, Value, Has;
    HasConcat(buf, pos, Ones(q) + [0], Remainder(r, k));
    HasConcat(buf, pos, Ones(q), [0]);
    ZeroBit(buf, pos + q);
    OnesPrefixReads(buf, pos, 0, q);
    var at := pos + q + 1;
    if k > 1 && r == 0 {
      ZerosRead(buf, at, k);
    } else if k > 1 {
      ReadBits(buf, at, r + 1, k);
    }
  }

  lemma ZeroBit(buf: seq<byte>, pos: int)
    requires Has(buf, pos, [0])
    ensures InRange(buf, pos) && BitAt(buf, pos) == 0
  {
    assert BitAt(buf, pos + 0) == [0][0];
  }

  /** The decoder looks one bit beyond a zero remainder. That bit may lie past the packet, except
      where the second half of a 17-bit read would start there. */
  lemma ZerosRead(buf: seq<byte>, at: int, k: int)
    requires 2 <= k <= 32 && Has(buf, at, Zeros(k - 1))
    ensures if k == 17 && at + 16 == 8 * |buf| then Read(buf, at, k) == Failure(IndexOutOfRange)
      else Read(buf, at, k).Success? && Read(buf, at, k).value <= 1
  {
    hide Pow2;
    ZerosValue(buf, at, k - 1);
    assert Value(buf, at, k) <= 1;
  }

  lemma DecodePrefix(buf: seq<byte>, pos: int, q: nat, r: nat, readSampleSize: int, k: int, mask: uint32)
    requires 1 <= readSampleSize <= 32 && 1 <= k <= 32 && q <= RICE_THRESHOLD
    requires if k == 1 then r == 0 else r + 1 < Pow2(k)
    requires Has(buf, pos, Ones(q) + [0] + Remainder(r, k))
    ensures DecodeValue(buf, pos, readSampleSize, k, mask)
      == if k == 17 && r == 0 && pos + q + 17 == 8 * |buf| then Failure(IndexOutOfRange)
         else Success((Wrap32(q * Multiplier(k, mask) + r), pos + |Ones(q) + [0] + Remainder(r, k)|))
  {
    hide Has, Read, OnesPrefix, Factor, Wrap32, Pow2;
    PrefixRoundTrip(buf, pos, q, r, k);
    assert |Remainder(r, k)| == if k == 1 then 0 else if r == 0 then k - 1 else k;
    var m := Multiplier(k, mask);
    if k == 1 {
      WrapIdentity(q);
    } else {
      WrapProduct(q, m);
      WrapSum(q * m, r);
    }
  }

  lemma DecodeEscape(buf: seq<byte>, pos: int, v: nat, readSampleSize: int, k: int, mask: uint32)
    requires 1 <= readSampleSize <= 32 && v < Pow2(readSampleSize)
    requires Has(buf, pos, Ones(9) + Bits(v, readSampleSize))
    ensures DecodeValue(buf, pos, readSampleSize, k, mask) == Success((Wrap32(v), pos + 9 + readSampleSize))
  {
    hide Read, OnesPrefix, Has, Bits, Pow2, Factor;
    HasConcat(buf, pos, Ones(9), Bits(v, readSampleSize));
    OnesPrefixReads(buf, pos, 0, 9);
    ReadBits(buf, pos + 9, v, readSampleSize);
  }

  /** The one codeword that cannot end a packet: a zero remainder of a 17-bit parameter. */
  predicate EndsTooSoon(buf: seq<byte>, pos: int, v: nat, readSampleSize: nat, k: int, mask: uint32) {
    && k == 17 && HasPrefix(v, k, mask) && Parts(v, Multiplier(k, mask)).1 == 0
    && pos + |Code(v, readSampleSize, k, mask)| == 8 * |buf|
  }

  /** Codeword round trip, for every parameter and mask: whatever follows the codeword, the decoder
      returns int32 of the value and stops at the codeword's end, also where the last bit it looks
      at is past the packet, with the one exception above. */
  lemma CodewordRoundTrip(buf: seq<byte>, pos: int, v: nat, readSampleSize: int, k: int, mask: uint32)
    requires 1 <= readSampleSize <= 32 && v < Pow2(readSampleSize)
    requires Has(buf, pos, Code(v, readSampleSize, k, mask))
    ensures DecodeValue(buf, pos, readSampleSize, k, mask)
      == if EndsTooSoon(buf, pos, v, readSampleSize, k, mask) then Failure(IndexOutOfRange)
         else Success((Wrap32(v), pos + |Code(v, readSampleSize, k, mask)|))
  {
    hide DecodeValue, Has, Quotient, Rest, Multiplier, Pow2, Bits, Remainder, Wrap32;
    if HasPrefix(v, k, mask) {
      var m := Multiplier(k, mask);
      var (q, r) := Parts(v, m);
      if m > 0 { QuotientRest(v, m); }
      MultiplierOfOne(mask);
      assert v == q * m + r;
      DecodePrefix(buf, pos, q, r, readSampleSize, k, mask);
      RemainderLength(r, k);
    } else {
      DecodeEscape(buf, pos, v, readSampleSize, k, mask);
    }
  }

  lemma MultiplierOfOne(mask: uint32)
    ensures Multiplier(1, mask) == 1
  {
  }

  lemma RemainderLength(r: nat, k: int)
    requires 1 <= k
    ensures |Remainder(r, k)| == if k == 1 then 0 else if r == 0 then k - 1 else k
  {
  }

  // ----- the code in plain terms -----

  function Min(a: nat, b: nat): nat {
    if a < b then a else b
  }

  /** Under a mask of b ones the factor is 2^min(k, b) - 1. */
  lemma FactorIsPower(k: nat, b: nat, mask: uint32)
    requires k <= 32 && b <= 32 && mask == Pow2(b) - 1
    ensures Factor(k, mask) == Pow2(Min(k, b)) - 1
  {
    hide BitAnd, Pow2;
    Pow2Values();
    BitAndMask(Pow2(k) - 1, b);
    if k <= b {
      Pow2Monotone(k, b);
      DivUnique(Pow2(k) - 1, Pow2(b), 0, Pow2(k) - 1);
    } else {
      Pow2Add(k - b, b);
      assert Pow2(k) - 1 == (Pow2(k - b) - 1) * Pow2(b) + (Pow2(b) - 1);
      DivUnique(Pow2(k) - 1, Pow2(b), Pow2(k - b) - 1, Pow2(b) - 1);
    }
  }

  lemma RiceMaskIsOnes(kmodifier: nat)
    ensures RiceMask(kmodifier) == Pow2(Min(kmodifier, 32)) - 1
  {
    Pow2Values();
  }

  /** The packet has q ones at pos, and then a zero unless they are nine. */
  ghost predicate HasOnes(buf: seq<byte>, pos: int, q: nat) {
    && q <= 9
    && (forall j :: pos <= j < pos + q ==> InRange(buf, j) && BitAt(buf, j) == 1)
    && (q < 9 ==> InRange(buf, pos + q) && BitAt(buf, pos + q) == 0)
  }

  lemma {:induction false} OnesCounted(buf: seq<byte>, pos: int, q: nat, x: nat)
    requires HasOnes(buf, pos, q) && x <= q
    ensures OnesPrefix(buf, pos + x, x) == Success(q)
    decreases q - x
  {
    if x < q {
      OnesCounted(buf, pos, q, x + 1);
    }
  }

  /** What any codeword under a mask of b ones is worth, in the packet's own bits. Nine ones are
      followed by the value itself. At most eight ones, and a zero, count 2^min(k, b) - 1 each; the k
      bits after them add their value less one, except that values 0 and 1 add nothing and take
      one bit less. With k = 1 the ones are all there is. */
  lemma CodewordMeaning(buf: seq<byte>, pos: int, q: nat, readSampleSize: int, k: int, b: nat, mask: uint32)
    requires HasOnes(buf, pos, q) && b <= 32 && mask == Pow2(b) - 1
    requires 1 <= readSampleSize <= 32 && 1 <= k <= 16
    ensures var r := DecodeValue(buf, pos, readSampleSize, k, mask);
      && (q == 9 && InRange(buf, pos + 9) && (readSampleSize > 16 ==> InRange(buf, pos + 25)) ==>
            r == Success((Wrap32(Value(buf, pos + 9, readSampleSize)), pos + 9 + readSampleSize)))
      && (q < 9 && k == 1 ==> r == Success((q, pos + q + 1)))
      && (q < 9 && k > 1 && InRange(buf, pos + q + 1) ==>
            var factor, field := Pow2(Min(k, b)) - 1, Value(buf, pos + q + 1, k);
            r == if field > 1 then Success((q * factor + field - 1, pos + q + 1 + k))
                 else Success((q * factor, pos + q + k)))
  {
    hide OnesPrefix, Factor, Value, Wrap32, HasOnes, Pow2, BitAt;
    OnesCounted(buf, pos, q, 0);
    if q < 9 && k > 1 {
      var factor := Pow2(Min(k, b)) - 1;
      FactorIsPower(k, b, mask);
      Pow2Values();
      Pow2Monotone(Min(k, b), 16);
      Pow2Monotone(k, 16);
      Pow2Monotone(0, Min(k, b));
      ValueBound(buf, pos + q + 1, k);
      MulMono(0, q, factor);
      MulMono(q, 8, factor);
      WrapIdentity(factor);
      WrapIdentity(q * factor);
      var field := Value(buf, pos + q + 1, k);
      if field > 1 {
        WrapIdentity(field - 1);
        WrapIdentity(q * factor + (field - 1));
      }
    }
  }

  /** v is q steps of m and a rest below m in exactly one way, with at most eight steps for v up to
      9 * m - 1. With m = 2^k - 1 that is up to 9 * 2^k - 10. */
  lemma StepsUnique(v: nat, m: nat, q: nat, r: nat)
    requires m >= 1
    ensures v == q * m + r && r < m <==> q == v / m && r == v % m
    ensures v / m <= 8 <==> v <= 9 * m - 1
  {
    DivMod(v, m);
    if v == q * m + r && r < m { DivUnique(v, m, q, r); }
    if v / m <= 8 { MulMono(v / m, 8, m); }
    if v / m >= 9 { MulMono(9, v / m, m); }
  }

  /** Which codeword the encoder uses under a mask of b ones: with m = 2^min(k, b) - 1, the q steps and
      the rest r that v is in exactly one way, for at most eight steps, and the escape beyond. */
  lemma CodeIsStepsOrEscape(v: nat, readSampleSize: nat, k: int, b: nat, mask: uint32, q: nat, r: nat)
    requires 2 <= k <= 16 && 1 <= b <= 32 && mask == Pow2(b) - 1
    requires v == q * (Pow2(Min(k, b)) - 1) + r && r < Pow2(Min(k, b)) - 1
    ensures Code(v, readSampleSize, k, mask)
         == if q <= 8 then Ones(q) + [0] + Remainder(r, k) else Ones(9) + Bits(v, readSampleSize)
  {
    hide Quotient, Rest, Pow2, Bits, Remainder, Factor, Ones;
    var m := Pow2(Min(k, b)) - 1;
    FactorIsPower(k, b, mask);
    Pow2Monotone(Min(k, b), k);
    var (q', r') := Parts(v, m);
    QuotientRest(v, m);
    DivUnique(v, m, q, r);
    DivUnique(v, m, q', r');
  }

  lemma {:induction false} ZerosValue(buf: seq<byte>, pos: int, n: nat)
    requires Has(buf, pos, Zeros(n))
    ensures Value(buf, pos, n) == 0
  {
    if n > 0 {
      assert Zeros(n) == Zeros(n - 1) + [0];
      HasConcat(buf, pos, Zeros(n - 1), [0]);
      assert BitAt(buf, pos + (n - 1) + 0) == [0][0];
      ZerosValue(buf, pos, n - 1);
    }
  }

  // ----- the adaptive mean -----

  datatype Params = Params(readSampleSize: int, kmodifier: nat, historymult: int, mask: uint32) {
    predicate Valid() {
      1 <= readSampleSize <= 32 && 0 <= historymult <= MAX_HISTORYMULT
    }

    /** A read size at which adding the sign modifier cannot overflow; `decodeFrame` passes at
        most 25 for 16- and 24-bit streams. */
    predicate Narrow() {
      Valid() && readSampleSize <= 30
    }
  }

  const MAX_HISTORYMULT := 7 * 255 / 4
  const MAX_HISTORY := 512 * 0xFFFF

  predicate HistoryBounded(history: int) {
    0 <= history <= MAX_HISTORY
  }

  function SampleK(history: int, kmodifier: int): int {
    var k := 31 - kmodifier - CountLeadingZeros(Shr(history, 9) + 3);
    if k < 0 then k + kmodifier else kmodifier
  }

  function ZeroRunK(history: int): int {
    CountLeadingZeros(history) + Quo(Add32(Wrap32(history), 16), 64) - 24
  }

  function NextHistory(history: int, decodedValue: int32, historymult: int): int {
    if decodedValue > 0xFFFF then 0xFFFF
    else history + decodedValue * historymult - Shr(history * historymult, 9)
  }

  /** The sample parameter is the capped floor of log2((history >> 9) + 3). */
  lemma SampleKIsLog(history: int, kmodifier: nat)
    requires HistoryBounded(history)
    ensures var log := BitLength(Shr(history, 9) + 3) - 1;
      && Pow2(log) <= Shr(history, 9) + 3 < Pow2(log + 1)
      && SampleK(history, kmodifier) == (if log < kmodifier then log else kmodifier)
      && (if kmodifier == 0 then 0 else 1) <= SampleK(history, kmodifier) <= 16
  {
    assert Shr(history, 9) == history / 512 by { Pow2Values(); assert Pow2(9) == 2 * Pow2(8); }
    var v := history / 512 + 3;
    LeadingZerosIsCount(v);
    BitLengthBounds(v);
    BitLengthMonotone(v, 0x1_0002);
    assert BitLength(0x1_0002) == 17 by { Pow2Values(); BitLengthShift(0x1_0002, 16); }
    BitLengthMonotone(3, v);
    assert BitLength(3) == 2;
  }

  lemma ZeroRunKRange(history: int)
    requires 0 <= history < 128
    ensures ZeroRunK(history) == CountLeadingZeros(history) + (history + 16) / 64 - 24
    ensures 2 <= ZeroRunK(history) <= 8
  {
    hide CountLeadingZeros, BitLength, Wrap32;
    WrapIdentity(history);
    WrapIdentity(history + 16);
    assert Quo(history + 16, 64) == (history + 16) / 64;
    hide Quo;
    LeadingZerosIsCount(history);
    BitLengthOfWord(history);
    if history >= 16 {
      BitLengthOfNibble(history / 16);
    } else if history > 0 {
      BitLengthOfNibble(history);
    } else {
      assert BitLength(0) == 0 by { BitLengthOfZero(); }
    }
  }

  lemma BitLengthOfZero()
    ensures BitLength(0) == 0
  {
  }

  /** One update keeps the mean in bounds for every non-negative decoded value. */
  lemma NextHistoryBounded(history: int, decodedValue: int32, historymult: int)
    requires HistoryBounded(history) && 0 <= historymult <= MAX_HISTORYMULT && decodedValue >= 0
    ensures HistoryBounded(NextHistory(history, decodedValue, historymult))
  {
    if decodedValue <= 0xFFFF {
      var m, d := historymult, decodedValue;
      assert Shr(history * m, 9) == (history * m) / 512 by { Pow2Values(); assert Pow2(9) == 2 * Pow2(8); }
      MulMono(0, d, m);
      MulMono(d, 0xFFFF, m);
      MulMono(0, history, m);
      MulMono(m, 512, history);
      MulMono(history, MAX_HISTORY, 512 - m);
      assert history * (512 - m) == 512 * history - history * m;
      assert MAX_HISTORY * (512 - m) == 512 * (0xFFFF * (512 - m));
    }
  }

  /** With a 31-bit read size the bound has one exception: the increment of the largest raw
      value wraps to -2^31. It then fails for every multiplier except 0. */
  lemma NextHistoryBoundedExactly(history: int, x: int32, signModifier: int, historymult: int)
    requires HistoryBounded(history) && 0 <= historymult <= MAX_HISTORYMULT
    requires 0 <= x && 0 <= signModifier <= 1
    ensures HistoryBounded(NextHistory(history, Add32(x, signModifier), historymult))
       <==> !(x == 0x7FFF_FFFF && signModifier == 1 && historymult >= 1)
  {
    var m := historymult;
    if x == 0x7FFF_FFFF && signModifier == 1 {
      assert Wrap32(x + 1) == -0x8000_0000;
      assert Shr(history * m, 9) >= 0 by { MulMono(0, history, m); ShrShrinks(history * m, 9); }
      if m >= 1 { MulMono(1, m, 0x8000_0000); }
      assert m == 0 ==> history * m == 0 && Shr(0, 9) == 0 by { ShrShrinks(0, 9); }
    } else {
      NextHistoryBounded(history, x + signModifier, m);
    }
  }

  // ----- a whole channel -----

  /** The sign is folded into the low bit. */
  function FinalValue(decodedValue: int32): int32 {
    var half := Quo(Add32(decodedValue, 1), 2);
    if decodedValue % 2 != 0 then Mul32(half, -1) else half
  }

  function ZigZag(v: int): nat {
    if v >= 0 then 2 * v else -2 * v - 1
  }

  /** Folding the sign back is exact if and only if the zig-zag value is below the largest int32. */
  lemma FinalValueOfZigZag(v: int32)
    ensures FinalValue(Wrap32(ZigZag(v))) == v <==> ZigZag(v) < 0x7FFF_FFFF
  {
    hide Wrap32;
    var zz := ZigZag(v);
    if zz < 0x7FFF_FFFF {
      WrapIdentity(zz);
      WrapIdentity(zz + 1);
      WrapIdentity(v);
    } else if zz == 0x7FFF_FFFF {
      WrapIdentity(zz);
      assert Wrap32(zz + 1) == -0x8000_0000 && Wrap32(0x4000_0000) == 0x4000_0000 by { WrapOfLargest(); }
    } else {
      FoldedHigh(v);
    }
  }

  /** A zig-zag value of 32 bits reads as a negative number and comes back 2^31 away. */
  lemma FoldedHigh(v: int32)
    requires ZigZag(v) > 0x7FFF_FFFF
    ensures FinalValue(Wrap32(ZigZag(v))) != v
  {
    var d := ZigZag(v) - 0x1_0000_0000;
    assert Wrap32(ZigZag(v)) == d;
    assert Add32(d, 1) == d + 1;
    if v < 0 {
      var w: int := v;
      assert Quo(d + 1, 2) == -w - 0x8000_0000;
      assert Mul32(-w - 0x8000_0000, -1) == Wrap32(w + 0x8000_0000);
    }
  }

  lemma WrapOfLargest()
    ensures Wrap32(0x8000_0000) == -0x8000_0000 && Wrap32(0x4000_0000) == 0x4000_0000
  {
  }

  /** The decoder between two iterations of its outer loop. */
  datatype State = State(pos: int, count: nat, history: int, signModifier: int)

  function ZeroSamples(n: nat): seq<int32> {
    seq(n, _ => 0)
  }

  /** One iteration of the outer loop of `entropyRiceDecode`: the next state and the samples it
      writes at `count`. `cap` is the length of the output buffer. */
  function Iteration(buf: seq<byte>, s: State, size: nat, cap: nat, p: Params): (r: Result<(State, seq<int32>)>)
    ensures r.Success? ==> r.value.0.count == s.count + |r.value.1| <= cap && |r.value.1| >= 1
    ensures r.Success? ==> 0 <= r.value.0.signModifier <= 1
    ensures r.Failure? ==> r.error == IndexOutOfRange
  {
    var (x, pos) :- DecodeValue(buf, s.pos, p.readSampleSize, SampleK(s.history, p.kmodifier), 0xFFFF_FFFF);
    var decodedValue := Add32(x, s.signModifier);
    if s.count >= cap then Failure(IndexOutOfRange) else
    var history := NextHistory(s.history, decodedValue, p.historymult);
    AfterSample(buf, pos, s.count, decodedValue, history, size, cap, p)
  }

  /** The rest of the iteration: a mean below 128 announces a run of zeros, which may be empty. */
  function AfterSample(buf: seq<byte>, pos: int, count: nat, decodedValue: int32, history: int,
                       size: nat, cap: nat, p: Params): (r: Result<(State, seq<int32>)>)
    requires count < cap
    ensures r.Success? ==> r.value.0.count == count + |r.value.1| <= cap && |r.value.1| >= 1
    ensures r.Success? ==> 0 <= r.value.0.signModifier <= 1
    ensures r.Failure? ==> r.error == IndexOutOfRange
  {
    if history < 128 && count + 1 < size then
      var (blockSize, next) :- DecodeValue(buf, pos, 16, ZeroRunK(history), p.mask);
      var zeros := if blockSize > 0 then blockSize else 0;
      if zeros > 0 && count + 1 + zeros > cap then Failure(IndexOutOfRange) else
      Success((State(next, count + 1 + zeros, 0, if blockSize > 0xFFFF then 0 else 1),
               [FinalValue(decodedValue)] + ZeroSamples(zeros)))
    else
      Success((State(pos, count + 1, history, 0), [FinalValue(decodedValue)]))
  }

  /** The mean an iteration computes, before a run of zeros resets it. */
  function UpdatedMean(buf: seq<byte>, s: State, cap: nat, p: Params): Result<int>
  {
    var (x, _) :- DecodeValue(buf, s.pos, p.readSampleSize, SampleK(s.history, p.kmodifier), 0xFFFF_FFFF);
    if s.count >= cap then Failure(IndexOutOfRange)
    else Success(NextHistory(s.history, Add32(x, s.signModifier), p.historymult))
  }

  ghost predicate Inv(s: State) {
    HistoryBounded(s.history) && 0 <= s.signModifier <= 1
  }

  /** The iteration reads the largest 31-bit value just after a run of zeros, so that the increment
      wraps, and the mean follows it. */
  predicate Overflows(buf: seq<byte>, s: State, cap: nat, p: Params) {
    && p.Valid() && s.signModifier == 1 && p.historymult >= 1 && s.count < cap
    && var r := DecodeValue(buf, s.pos, p.readSampleSize, SampleK(s.history, p.kmodifier), 0xFFFF_FFFF);
      r.Success? && r.value.0 == 0x7FFF_FFFF
  }

  /** Below a read size of 31 that cannot happen. */
  lemma NarrowNeverOverflows(buf: seq<byte>, s: State, cap: nat, p: Params)
    requires p.Narrow() && Inv(s)
    ensures !Overflows(buf, s, cap, p)
  {
    hide DecodeValue, SampleK;
    SampleKIsLog(s.history, p.kmodifier);
    DecodeValueRange(buf, s.pos, p.readSampleSize, SampleK(s.history, p.kmodifier), 0xFFFF_FFFF);
  }

  /** One iteration: the updated mean is in bounds if and only if the increment does not wrap. */
  lemma UpdatedMeanBoundedExactly(buf: seq<byte>, s: State, cap: nat, p: Params)
    requires p.Valid() && p.readSampleSize <= 31 && Inv(s) && UpdatedMean(buf, s, cap, p).Success?
    ensures HistoryBounded(UpdatedMean(buf, s, cap, p).value) <==> !Overflows(buf, s, cap, p)
  {
    hide DecodeValue, SampleK, NextHistory, HistoryBounded;
    SampleKIsLog(s.history, p.kmodifier);
    var k := SampleK(s.history, p.kmodifier);
    DecodeValueRange(buf, s.pos, p.readSampleSize, k, 0xFFFF_FFFF);
    var x := DecodeValue(buf, s.pos, p.readSampleSize, k, 0xFFFF_FFFF).value.0;
    NextHistoryBoundedExactly(s.history, x, s.signModifier, p.historymult);
  }

  /** The next iteration starts with the updated mean or with zero. */
  lemma IterationMean(buf: seq<byte>, s: State, size: nat, cap: nat, p: Params)
    requires p.Valid() && Iteration(buf, s, size, cap, p).Success?
    ensures UpdatedMean(buf, s, cap, p).Success?
    ensures var history := Iteration(buf, s, size, cap, p).value.0.history;
      history == UpdatedMean(buf, s, cap, p).value || history == 0
  {
    hide DecodeValue, SampleK, NextHistory, ZeroRunK;
  }

  lemma IterationKeepsInv(buf: seq<byte>, s: State, size: nat, cap: nat, p: Params)
    requires p.Valid() && p.readSampleSize <= 31 && Inv(s) && !Overflows(buf, s, cap, p)
    ensures var r := Iteration(buf, s, size, cap, p);
      r.Success? ==> Inv(r.value.0)
  {
    hide Iteration, UpdatedMean, Overflows;
    if Iteration(buf, s, size, cap, p).Success? {
      IterationMean(buf, s, size, cap, p);
      UpdatedMeanBoundedExactly(buf, s, cap, p);
    }
  }

  /** A run of the decoder's outer loop over some stream: the states its iterations start in, and
      the one it ends with. */
  ghost predicate IsRun(run: seq<State>, buf: seq<byte>, size: nat, cap: nat, p: Params) {
    forall i :: 0 <= i < |run| - 1 ==>
      run[i].count < size && Leads(Iteration(buf, run[i], size, cap, p), run[i + 1])
  }

  predicate Leads(r: Result<(State, seq<int32>)>, next: State) {
    r.Success? && r.value.0 == next
  }

  /** Every mean of this state: the one it starts with, and the one its iteration computes. */
  ghost predicate MeansBounded(buf: seq<byte>, s: State, size: nat, cap: nat, p: Params)
  {
    && HistoryBounded(s.history)
    && (s.count < size && UpdatedMean(buf, s, cap, p).Success? ==> HistoryBounded(UpdatedMean(buf, s, cap, p).value))
  }

  /** The state's iteration takes place and overflows. */
  predicate OverflowsIn(buf: seq<byte>, s: State, size: nat, cap: nat, p: Params) {
    s.count < size && Overflows(buf, s, cap, p)
  }

  /** Adaptive mean bound: in every run on any stream from any initial history of a byte, every
      mean stays in bounds, so both adaptive parameters stay in the range the reads support,
      unless an iteration overflows; no iteration does below a read size of 31. */
  lemma {:induction false} MeanBoundedOnRuns(run: seq<State>, buf: seq<byte>, size: nat, cap: nat, p: Params, i: nat)
    requires p.Valid() && p.readSampleSize <= 31 && IsRun(run, buf, size, cap, p) && i < |run|
    requires 0 <= run[0].history <= 255 && run[0].signModifier == 0
    requires p.readSampleSize == 31 ==> forall j :: 0 <= j < i ==> !OverflowsIn(buf, run[j], size, cap, p)
    ensures 0 <= run[i].history <= MAX_HISTORY && 0 <= run[i].signModifier <= 1
    ensures p.readSampleSize <= 30 || !OverflowsIn(buf, run[i], size, cap, p) ==>
      MeansBounded(buf, run[i], size, cap, p)
    ensures (if p.kmodifier == 0 then 0 else 1) <= SampleK(run[i].history, p.kmodifier) <= 16
    ensures forall mean :: 0 <= mean < 128 ==> 2 <= ZeroRunK(mean) <= 8
  {
    hide Overflows, SampleK, ZeroRunK, Iteration, UpdatedMean;
    if i > 0 {
      MeanBoundedOnRuns(run, buf, size, cap, p, i - 1);
      assert run[i - 1].count < size && Leads(Iteration(buf, run[i - 1], size, cap, p), run[i]);
      if p.Narrow() { NarrowNeverOverflows(buf, run[i - 1], cap, p); }
      IterationKeepsInv(buf, run[i - 1], size, cap, p);
    }
    if p.Narrow() { NarrowNeverOverflows(buf, run[i], cap, p); }
    SampleKIsLog(run[i].history, p.kmodifier);
    if run[i].count < size && UpdatedMean(buf, run[i], cap, p).Success? {
      UpdatedMeanBoundedExactly(buf, run[i], cap, p);
    }
    forall mean | 0 <= mean < 128 ensures 2 <= ZeroRunK(mean) <= 8 {
      ZeroRunKRange(mean);
    }
  }

  /** The exact condition, for every read size up to 31: all means of a run, those at the head of
      an iteration and those computed inside it, are in bounds if and only if no iteration
      overflows. */
  lemma MeanBoundedExactly(run: seq<State>, buf: seq<byte>, size: nat, cap: nat, p: Params)
    requires p.Valid() && p.readSampleSize <= 31 && IsRun(run, buf, size, cap, p) && run != []
    requires 0 <= run[0].history <= 255 && run[0].signModifier == 0
    ensures (forall i :: 0 <= i < |run| ==> MeansBounded(buf, run[i], size, cap, p))
       <==> (forall i :: 0 <= i < |run| ==> !OverflowsIn(buf, run[i], size, cap, p))
  {
    hide OverflowsIn, Iteration, MeansBounded;
    if i :| 0 <= i < |run| && OverflowsIn(buf, run[i], size, cap, p) {
      FirstOverflow(run, buf, size, cap, p, i);
    } else {
      forall i | 0 <= i < |run| ensures MeansBounded(buf, run[i], size, cap, p) {
        MeanBoundedOnRuns(run, buf, size, cap, p, i);
      }
    }
  }

  lemma {:induction false} FirstOverflow(run: seq<State>, buf: seq<byte>, size: nat, cap: nat, p: Params, i: nat)
    requires p.Valid() && p.readSampleSize <= 31 && IsRun(run, buf, size, cap, p)
    requires i < |run| && OverflowsIn(buf, run[i], size, cap, p)
    requires 0 <= run[0].history <= 255 && run[0].signModifier == 0
    ensures exists j :: 0 <= j < |run| && !MeansBounded(buf, run[j], size, cap, p)
  {
    hide Iteration, DecodeValue, NextHistory, SampleK;
    if j :| 0 <= j < i && OverflowsIn(buf, run[j], size, cap, p) {
      FirstOverflow(run, buf, size, cap, p, j);
    } else {
      MeanBoundedOnRuns(run, buf, size, cap, p, i);
      UpdatedMeanBoundedExactly(buf, run[i], cap, p);
      assert !MeansBounded(buf, run[i], size, cap, p);
    }
  }

  /** d is what zig-zag makes of the sample it is folded into. */
  lemma ZigZagOfFinalValue(d: int32)
    requires d >= 0
    ensures d < 0x7FFF_FFFF ==> ZigZag(FinalValue(d)) == d
    ensures d == 0x7FFF_FFFF ==> ZigZag(FinalValue(d)) == 0x8000_0000
  {
    hide Wrap32;
    WrapsOfFolding(d);
  }

  lemma WrapsOfFolding(d: int32)
    requires d >= 0
    ensures d < 0x7FFF_FFFF ==> Wrap32(d + 1) == d + 1
    ensures d == 0x7FFF_FFFF ==> Wrap32(d + 1) == -0x8000_0000
    ensures forall h: int :: -0x7FFF_FFFF <= h <= 0x7FFF_FFFF ==> Wrap32(h * -1) == -h
  {
  }

  /** The mean is pulled towards 512 * d by m parts in 512, and stays at 512 * d once there. */
  lemma MeanIsPulled(history: int, d: int32, m: int)
    requires HistoryBounded(history) && 0 <= d <= 0xFFFF && 0 <= m <= MAX_HISTORYMULT
    ensures var mean := NextHistory(history, d, m);
      && 0 <= 512 * mean - ((512 - m) * history + 512 * m * d) < 512
      && (history <= 512 * d ==> history <= mean <= 512 * d)
      && (history >= 512 * d ==> 512 * d <= mean <= history)
  {
    var product := history * m;
    assert Shr(product, 9) == product / 512 by { Pow2Values(); assert Pow2(9) == 2 * Pow2(8); }
    var floor := product / 512;
    DivMod(product, 512);
    assert (512 - m) * history == 512 * history - product;
    assert 512 * m * d == 512 * (d * m);
    var gap := history - 512 * d;
    assert gap * m == product - 512 * (d * m);
    if gap <= 0 { MulMono(gap, 0, m); MulMono(m, 512, -gap); } else { MulMono(0, gap, m); MulMono(m, 512, gap); }
  }

  /** What the mean is, on runs. With d the zig-zag value of the sample an iteration writes and m the
      multiplier: above 0xFFFF the new mean is 0xFFFF; otherwise it is ((512 - m) * mean + 512 * m * d)
      / 512, rounded up, which lies between the old mean and 512 * d. The next iteration starts with
      it, or with zero after a run of zeros, which follows exactly if it is below 128 and more
      samples are to come. */
  lemma MeanFollowsSamples(run: seq<State>, buf: seq<byte>, size: nat, cap: nat, p: Params, i: nat)
    requires p.Valid() && p.readSampleSize <= 31 && IsRun(run, buf, size, cap, p) && i + 1 < |run|
    requires 0 <= run[0].history <= 255 && run[0].signModifier == 0
    requires p.readSampleSize == 31 ==>
      p.historymult >= 1 && forall j :: 0 <= j <= i ==> !OverflowsIn(buf, run[j], size, cap, p)
    ensures Iteration(buf, run[i], size, cap, p).Success? && UpdatedMean(buf, run[i], cap, p).Success?
    ensures var d := ZigZag(Iteration(buf, run[i], size, cap, p).value.1[0]);
      var before, mean, m := run[i].history, UpdatedMean(buf, run[i], cap, p).value, p.historymult;
      && (d > 0xFFFF ==> mean == 0xFFFF)
      && (d <= 0xFFFF ==> 0 <= 512 * mean - ((512 - m) * before + 512 * m * d) < 512)
      && (d <= 0xFFFF && before <= 512 * d ==> before <= mean <= 512 * d)
      && (d <= 0xFFFF && before >= 512 * d ==> 512 * d <= mean <= before)
      && run[i + 1].history == (if mean < 128 && run[i].count + 1 < size then 0 else mean)
      && (run[i + 1].signModifier == 1 ==> mean < 128 && run[i].count + 1 < size)
  {
    hide OverflowsIn, SampleK, ZeroRunK, FinalValue, ZigZag, NextHistory, MeansBounded;
    assert run[i].count < size && Leads(Iteration(buf, run[i], size, cap, p), run[i + 1]);
    MeanBoundedOnRuns(run, buf, size, cap, p, i);
    DecodedValue(buf, run[i], size, cap, p);
  }

  lemma MeanAfterPeak(history: int, d: int32, m: int)
    requires d > 0xFFFF
    ensures NextHistory(history, d, m) == 0xFFFF
  {
  }

  lemma DecodedValue(buf: seq<byte>, s: State, size: nat, cap: nat, p: Params)
    requires p.Valid() && p.readSampleSize <= 31 && Inv(s) && s.count < size
    requires p.readSampleSize == 31 ==> p.historymult >= 1 && !OverflowsIn(buf, s, size, cap, p)
    requires Iteration(buf, s, size, cap, p).Success?
    ensures UpdatedMean(buf, s, cap, p).Success?
    ensures var (next, samples) := Iteration(buf, s, size, cap, p).value;
      var d, mean, m := ZigZag(samples[0]), UpdatedMean(buf, s, cap, p).value, p.historymult;
      && (d > 0xFFFF ==> mean == 0xFFFF)
      && (d <= 0xFFFF ==> 0 <= 512 * mean - ((512 - m) * s.history + 512 * m * d) < 512)
      && (d <= 0xFFFF && s.history <= 512 * d ==> s.history <= mean <= 512 * d)
      && (d <= 0xFFFF && s.history >= 512 * d ==> 512 * d <= mean <= s.history)
      && next.history == (if mean < 128 && s.count + 1 < size then 0 else mean)
      && (next.signModifier == 1 ==> mean < 128 && s.count + 1 < size)
  {
    hide DecodeValue, SampleK, ZeroRunK, FinalValue, ZigZag, NextHistory, Wrap32;
    var k := SampleK(s.history, p.kmodifier);
    SampleKIsLog(s.history, p.kmodifier);
    DecodeValueRange(buf, s.pos, p.readSampleSize, k, 0xFFFF_FFFF);
    var x := DecodeValue(buf, s.pos, p.readSampleSize, k, 0xFFFF_FFFF).value.0;
    var d := Add32(x, s.signModifier);
    assert x == 0x7FFF_FFFF ==> s.signModifier == 0;
    WrapIdentity(x + s.signModifier);
    ZigZagOfFinalValue(d);
    if d <= 0xFFFF {
      MeanIsPulled(s.history, d, p.historymult);
    } else {
      MeanAfterPeak(s.history, d, p.historymult);
    }
  }

  /** A complete run with an overflow, after which the decoder goes on: a zero sample, an empty run
      of zeros, the largest 31-bit value, another empty run, and a last sample. The mean inside the
      second iteration is -2^32, although every iteration starts with a mean in bounds. */
  lemma MeanEscapes() returns (run: seq<State>, buf: seq<byte>, p: Params)
    ensures p == Params(31, 1, 2, RiceMask(1)) && p.Valid() && IsRun(run, buf, 3, 3, p)
    ensures |run| == 4 && run[0] == Start(0, 0) && run[3].count == 3
    ensures OverflowsIn(buf, run[1], 3, 3, p) && UpdatedMean(buf, run[1], 3, p) == Success(-0x1_0000_0000)
    ensures forall i :: 0 <= i < 4 ==> HistoryBounded(run[i].history)
  {
    hide Iteration, Pow2, Overflows, UpdatedMean, HistoryBounded;
    p := Params(31, 1, 2, RiceMask(1));
    Pow2Values();
    Pow2Add(24, 7);
    var s1, s2, s3;
    buf, s1, s2, s3 := OverflowingStream(Pow2(31) - 1, p);
    run := [Start(0, 0), s1, s2, s3];
    assert HistoryBounded(Start(0, 0).history) by { BoundsOfZero(); }
  }

  lemma BoundsOfZero()
    ensures HistoryBounded(0) && HistoryBounded(2)
  {
  }

  lemma OverflowingStream(v: nat, p: Params) returns (buf: seq<byte>, s1: State, s2: State, s3: State)
    requires p == Params(31, 1, 2, RiceMask(1)) && v == 0x7FFF_FFFF < Pow2(31)
    ensures Leads(Iteration(buf, Start(0, 0), 3, 3, p), s1) && Leads(Iteration(buf, s1, 3, 3, p), s2)
    ensures Leads(Iteration(buf, s2, 3, 3, p), s3)
    ensures Start(0, 0).count < 3 && s1.count == 1 && s2.count == 2 && s3.count == 3
    ensures Overflows(buf, s1, 3, p) && UpdatedMean(buf, s1, 3, p) == Success(-0x1_0000_0000)
    ensures HistoryBounded(s1.history) && HistoryBounded(s2.history) && HistoryBounded(s3.history)
  {
    hide DecodeValue, Has, Code, SampleK, ZeroRunK, Pow2, FinalValue, RiceMask, HistoryBounded, NextHistory, Wrap32;
    var zero, noRun, largest := Code(0, 31, 1, 0xFFFF_FFFF), Code(0, 16, 8, p.mask), Code(v, 31, 1, 0xFFFF_FFFF);
    var p1, p2, p3 := |zero|, |zero| + |noRun|, |zero| + |noRun| + |largest|;
    var p4 := p3 + |noRun|;
    buf := Pack(zero + (noRun + (largest + (noRun + zero))));
    PackHas(zero + (noRun + (largest + (noRun + zero))));
    HasConcat(buf, 0, zero, noRun + (largest + (noRun + zero)));
    HasConcat(buf, p1, noRun, largest + (noRun + zero));
    HasConcat(buf, p2, largest, noRun + zero);
    HasConcat(buf, p3, noRun, zero);
    Pow2IsPositive();
    CodewordRoundTrip(buf, 0, 0, 31, 1, 0xFFFF_FFFF);
    CodewordRoundTrip(buf, p1, 0, 16, 8, p.mask);
    CodewordRoundTrip(buf, p2, v, 31, 1, 0xFFFF_FFFF);
    CodewordRoundTrip(buf, p3, 0, 16, 8, p.mask);
    CodewordRoundTrip(buf, p4, 0, 31, 1, 0xFFFF_FFFF);
    OverflowParameters();
    OverflowWraps();
    BoundsOfZero();
    s1, s2 := State(p2, 1, 0, 1), State(p4, 2, 0, 1);
    s3 := State(p4 + |zero|, 3, 2, 0);
  }

  lemma OverflowParameters()
    ensures SampleK(0, 1) == 1 && ZeroRunK(0) == 8 && ZeroRunK(-0x1_0000_0000) == 8
    ensures NextHistory(0, 0, 2) == 0 && NextHistory(0, 1, 2) == 2 && NextHistory(0, -0x8000_0000, 2) == -0x1_0000_0000
  {
    hide CountLeadingZeros, Shr, Wrap32;
    assert Shr(0, 9) == 0 by { ShrShrinks(0, 9); }
    assert CountLeadingZeros(3) == 30 && CountLeadingZeros(0) == 32 && CountLeadingZeros(-0x1_0000_0000) == 32 by {
      ZerosOfWords();
    }
    OverflowWraps();
  }

  lemma ZerosOfWords()
    ensures CountLeadingZeros(3) == 30 && CountLeadingZeros(0) == 32 && CountLeadingZeros(-0x1_0000_0000) == 32
  {
    hide ZerosInByte;
    assert ZerosInByte(3) == 6 by { ZerosOfThree(); }
  }

  lemma ZerosOfThree()
    ensures ZerosInByte(3) == 6
  {
  }

  lemma OverflowWraps()
    ensures Wrap32(0) == 0 && Wrap32(1) == 1 && Wrap32(0x7FFF_FFFF) == 0x7FFF_FFFF && Wrap32(16) == 16
    ensures Wrap32(0x8000_0000) == -0x8000_0000 && Wrap32(-0x1_0000_0000) == 0
  {
  }

  lemma Pow2IsPositive()
    ensures Pow2(31) >= 1 && Pow2(16) >= 1
  {
  }

  /** All samples from state s on, and the position where decoding stops. */
  function Decode(buf: seq<byte>, s: State, size: nat, cap: nat, p: Params): (r: Result<(seq<int32>, int)>)
    ensures r.Success? ==> size <= s.count + |r.value.0|
    ensures r.Success? && s.count <= cap ==> s.count + |r.value.0| <= cap
    decreases size - s.count
  {
    if s.count >= size then Success(([], s.pos)) else
    var (next, samples) :- Iteration(buf, s, size, cap, p);
    var (rest, pos) :- Decode(buf, next, size, cap, p);
    Success((samples + rest, pos))
  }

  /** Samples already stored in front of a decoding of the rest. */
  function Prepend(done: seq<int32>, r: Result<(seq<int32>, int)>): Result<(seq<int32>, int)> {
    if r.Failure? then r else Success((done + r.value.0, r.value.1))
  }

  lemma PrependTwice(a: seq<int32>, b: seq<int32>, r: Result<(seq<int32>, int)>)
    ensures Prepend(a, Prepend(b, r)) == Prepend(a + b, r)
    ensures Prepend([], r) == r
  {
    if r.Success? {
      assert a + (b + r.value.0) == (a + b) + r.value.0;
      assert [] + r.value.0 == r.value.0;
    }
  }

  lemma DecodeStep(buf: seq<byte>, s: State, size: nat, cap: nat, p: Params)
    requires s.count < size
    ensures var r := Iteration(buf, s, size, cap, p);
      && (r.Failure? ==> Decode(buf, s, size, cap, p) == Failure(r.error))
      && (r.Success? ==> Decode(buf, s, size, cap, p) == Prepend(r.value.1, Decode(buf, r.value.0, size, cap, p)))
  {
    hide Iteration;
  }

  lemma DecodeEnd(buf: seq<byte>, s: State, size: nat, cap: nat, p: Params)
    requires s.count >= size
    ensures Decode(buf, s, size, cap, p) == Success(([], s.pos))
  {
  }

  function Start(pos: int, initialHistory: int): State {
    State(pos, 0, initialHistory, 0)
  }

  // ----- the mirror encoder -----

  function ZeroRun(residuals: seq<int32>): (n: nat)
    ensures n <= |residuals|
    ensures forall i :: 0 <= i < n ==> residuals[i] == 0
    ensures n < |residuals| ==> residuals[n] != 0
  {
    if residuals == [] || residuals[0] != 0 then 0 else
      var n := ZeroRun(residuals[1..]);
      assert forall i :: 1 <= i < n + 1 ==> residuals[i] == residuals[1..][i - 1];
      n + 1
  }

  function SampleBits(v: nat, history: int, p: Params): seq<Bit>
    requires p.Valid()
  {
    Code(v, p.readSampleSize, SampleK(history, p.kmodifier), 0xFFFF_FFFF)
  }

  /** `(1 << rice_kmodifier) - 1` as a uint32. */
  function RiceMask(kmodifier: nat): (mask: uint32) {
    if kmodifier >= 32 then 0xFFFF_FFFF else
    Pow2Values();
    Pow2Monotone(kmodifier, 32);
    Pow2(kmodifier) - 1
  }

  /** Residuals a channel can carry: each zig-zag value fits the raw escape and is folded back. */
  ghost predicate Fits(residuals: seq<int32>, readSampleSize: nat) {
    forall i :: 0 <= i < |residuals| ==>
      ZigZag(residuals[i]) < Pow2(readSampleSize) && ZigZag(residuals[i]) < 0x7FFF_FFFF
  }

  ghost predicate Encodable(residuals: seq<int32>, history: int, signModifier: int, p: Params) {
    && p.Valid()
    && HistoryBounded(history) && 0 <= signModifier <= 1
    && |residuals| <= 0x1_0000 && Fits(residuals, p.readSampleSize)
    && (signModifier == 1 && residuals != [] ==> residuals[0] != 0)
  }

  function RunBits(n: nat, history: int, p: Params): seq<Bit> {
    Code(n, 16, ZeroRunK(history), p.mask)
  }

  lemma SampleFits(residuals: seq<int32>, history: int, signModifier: int, p: Params)
    requires Encodable(residuals, history, signModifier, p) && residuals != []
    ensures var zz := ZigZag(residuals[0]);
      && signModifier <= zz < Pow2(p.readSampleSize) && zz < 0x7FFF_FFFF
      && HistoryBounded(NextHistory(history, zz, p.historymult))
  {
    NextHistoryBounded(history, ZigZag(residuals[0]), p.historymult);
  }

  lemma SuffixEncodable(residuals: seq<int32>, n: nat, history: int, signModifier: int, p: Params)
    requires n <= |residuals| && p.Valid()
    requires HistoryBounded(history) && 0 <= signModifier <= 1
    requires |residuals| <= 0x1_0000 && Fits(residuals, p.readSampleSize)
    requires signModifier == 1 && n < |residuals| ==> residuals[n] != 0
    ensures Encodable(residuals[n..], history, signModifier, p)
  {
  }

  /** The mirror encoder. It keeps the decoder's mean, sends each run of zeros as its length,
      and after a run sends the next value less one, since that value is known not to be zero. */
  ghost function Encode(residuals: seq<int32>, history: int, signModifier: int, p: Params): seq<Bit>
    requires Encodable(residuals, history, signModifier, p)
    decreases |residuals|
  {
    if residuals == [] then [] else
      SampleFits(residuals, history, signModifier, p);
      var zz := ZigZag(residuals[0]);
      var mean := NextHistory(history, zz, p.historymult);
      var sample := SampleBits(zz - signModifier, history, p);
      if mean < 128 && |residuals| > 1 then
        var n := ZeroRun(residuals[1..]);
        SuffixEncodable(residuals, 1 + n, 0, 1, p);
        sample + RunBits(n, mean, p) + Encode(residuals[1 + n..], 0, 1, p)
      else
        SuffixEncodable(residuals, 1, mean, 0, p);
        sample + Encode(residuals[1..], mean, 0, p)
  }

  /** The decoder's first iteration reads what the encoder's first step wrote. */
  lemma FirstIteration(buf: seq<byte>, s: State, residuals: seq<int32>, cap: nat, p: Params)
    returns (next: State, m: nat)
    requires Encodable(residuals, s.history, s.signModifier, p) && residuals != []
    requires s.count + |residuals| <= cap
    requires Has(buf, s.pos, Encode(residuals, s.history, s.signModifier, p))
    ensures 1 <= m <= |residuals| && next.count == s.count + m
    ensures Iteration(buf, s, s.count + |residuals|, cap, p) == Success((next, residuals[..m]))
    ensures Encodable(residuals[m..], next.history, next.signModifier, p)
    ensures Has(buf, next.pos, Encode(residuals[m..], next.history, next.signModifier, p))
    ensures next.pos + |Encode(residuals[m..], next.history, next.signModifier, p)|
         == s.pos + |Encode(residuals, s.history, s.signModifier, p)|
  {
    hide NextHistory, Encode, Iteration, Has, Encodable, ZigZag;
    SampleFits(residuals, s.history, s.signModifier, p);
    var mean := NextHistory(s.history, ZigZag(residuals[0]), p.historymult);
    if mean < 128 && |residuals| > 1 {
      next, m := FirstWithRun(buf, s, residuals, cap, p, mean);
    } else {
      next := FirstAlone(buf, s, residuals, cap, p, mean);
      m := 1;
    }
  }

  lemma FirstWithRun(buf: seq<byte>, s: State, residuals: seq<int32>, cap: nat, p: Params, mean: int)
    returns (next: State, m: nat)
    requires Encodable(residuals, s.history, s.signModifier, p) && |residuals| > 1
    requires s.count + |residuals| <= cap && ZigZag(residuals[0]) < 0x7FFF_FFFF
    requires mean == NextHistory(s.history, ZigZag(residuals[0]), p.historymult) < 128 && HistoryBounded(mean)
    requires Has(buf, s.pos, Encode(residuals, s.history, s.signModifier, p))
    ensures 1 <= m <= |residuals| && next.count == s.count + m
    ensures Iteration(buf, s, s.count + |residuals|, cap, p) == Success((next, residuals[..m]))
    ensures Encodable(residuals[m..], next.history, next.signModifier, p)
    ensures Has(buf, next.pos, Encode(residuals[m..], next.history, next.signModifier, p))
    ensures next.pos + |Encode(residuals[m..], next.history, next.signModifier, p)|
         == s.pos + |Encode(residuals, s.history, s.signModifier, p)|
  {
    hide NextHistory, ZeroRunK, SampleK, DecodeValue, Code, Has, Fits, ZigZag, FinalValue, RunBits, SampleBits, Pow2,
         Wrap32, RiceMask;
    WrapIdentity(ZigZag(residuals[0]));
    SampleFits(residuals, s.history, s.signModifier, p);
    var sample := SampleBits(ZigZag(residuals[0]) - s.signModifier, s.history, p);
    FinalValueOfZigZag(residuals[0]);
    var n := ZeroRun(residuals[1..]);
    SuffixEncodable(residuals, 1 + n, 0, 1, p);
    var run := RunBits(n, mean, p);
    HasConcat(buf, s.pos, sample + run, Encode(residuals[1 + n..], 0, 1, p));
    HasConcat(buf, s.pos, sample, run);
    SampleReads(buf, s, residuals, p);
    RunReads(buf, s.pos + |sample|, n, mean, p);
    m, next := 1 + n, State(s.pos + |sample + run|, s.count + 1 + n, 0, 1);
    RunOfResiduals(residuals, n);
  }

  lemma RunOfResiduals(residuals: seq<int32>, n: nat)
    requires residuals != [] && n == ZeroRun(residuals[1..])
    ensures residuals[..1 + n] == [residuals[0]] + ZeroSamples(n)
  {
    assert forall i :: 1 <= i < 1 + n ==> residuals[i] == residuals[1..][i - 1];
  }

  lemma FirstAlone(buf: seq<byte>, s: State, residuals: seq<int32>, cap: nat, p: Params, mean: int)
    returns (next: State)
    requires Encodable(residuals, s.history, s.signModifier, p) && residuals != []
    requires s.count + |residuals| <= cap && ZigZag(residuals[0]) < 0x7FFF_FFFF
    requires mean == NextHistory(s.history, ZigZag(residuals[0]), p.historymult) && HistoryBounded(mean)
    requires mean >= 128 || |residuals| == 1
    requires Has(buf, s.pos, Encode(residuals, s.history, s.signModifier, p))
    ensures next.count == s.count + 1
    ensures Iteration(buf, s, s.count + |residuals|, cap, p) == Success((next, residuals[..1]))
    ensures Encodable(residuals[1..], next.history, next.signModifier, p)
    ensures Has(buf, next.pos, Encode(residuals[1..], next.history, next.signModifier, p))
    ensures next.pos + |Encode(residuals[1..], next.history, next.signModifier, p)|
         == s.pos + |Encode(residuals, s.history, s.signModifier, p)|
  {
    hide NextHistory, ZeroRunK, SampleK, DecodeValue, Code, Has, Fits, ZigZag, FinalValue, RunBits, SampleBits, Pow2,
         Wrap32, RiceMask;
    WrapIdentity(ZigZag(residuals[0]));
    SampleFits(residuals, s.history, s.signModifier, p);
    var sample := SampleBits(ZigZag(residuals[0]) - s.signModifier, s.history, p);
    FinalValueOfZigZag(residuals[0]);
    SuffixEncodable(residuals, 1, mean, 0, p);
    HasConcat(buf, s.pos, sample, Encode(residuals[1..], mean, 0, p));
    SampleReads(buf, s, residuals, p);
    next := State(s.pos + |sample|, s.count + 1, mean, 0);
    assert residuals[..1] == [residuals[0]];
  }

  /** Rice channel round trip: the decoder returns the residuals and stops at the last bit. */
  lemma {:induction false} RiceRoundTrip(buf: seq<byte>, s: State, residuals: seq<int32>, cap: nat, p: Params)
    requires Encodable(residuals, s.history, s.signModifier, p)
    requires s.count + |residuals| <= cap
    requires Has(buf, s.pos, Encode(residuals, s.history, s.signModifier, p))
    ensures Decode(buf, s, s.count + |residuals|, cap, p)
         == Success((residuals, s.pos + |Encode(residuals, s.history, s.signModifier, p)|))
    decreases |residuals|
  {
    hide Iteration, Encode, Has, Encodable;
    if residuals == [] {
      EncodeNothing(s.history, s.signModifier, p);
    } else {
      var next, m := FirstIteration(buf, s, residuals, cap, p);
      RiceRoundTrip(buf, next, residuals[m..], cap, p);
      assert residuals == residuals[..m] + residuals[m..];
    }
  }

  /** From the start of a channel: packing the encoding and decoding it gives the residuals. */
  lemma EncodeDecode(residuals: seq<int32>, initialHistory: int, cap: nat, p: Params)
    requires Encodable(residuals, initialHistory, 0, p) && |residuals| <= cap
    ensures var bits := Encode(residuals, initialHistory, 0, p);
      Decode(Pack(bits), Start(0, initialHistory), |residuals|, cap, p) == Success((residuals, |bits|))
  {
    hide Encodable, Encode, Has, Pack, Decode;
    PackHas(Encode(residuals, initialHistory, 0, p));
    RiceRoundTrip(Pack(Encode(residuals, initialHistory, 0, p)), Start(0, initialHistory), residuals, cap, p);
  }

  lemma EncodeNothing(history: int, signModifier: int, p: Params)
    requires Encodable([], history, signModifier, p)
    ensures Encode([], history, signModifier, p) == []
  {
  }

  lemma SampleReads(buf: seq<byte>, s: State, residuals: seq<int32>, p: Params)
    requires Encodable(residuals, s.history, s.signModifier, p) && residuals != []
    requires ZigZag(residuals[0]) >= s.signModifier
    requires Has(buf, s.pos, SampleBits(ZigZag(residuals[0]) - s.signModifier, s.history, p))
    ensures DecodeValue(buf, s.pos, p.readSampleSize, SampleK(s.history, p.kmodifier), 0xFFFF_FFFF)
         == Success((ZigZag(residuals[0]) - s.signModifier,
                     s.pos + |SampleBits(ZigZag(residuals[0]) - s.signModifier, s.history, p)|))
  {
    hide SampleK, DecodeValue, Code, Has, HasPrefix, Wrap32, Pow2;
    SampleKIsLog(s.history, p.kmodifier);
    CodewordRoundTrip(buf, s.pos, ZigZag(residuals[0]) - s.signModifier, p.readSampleSize,
                      SampleK(s.history, p.kmodifier), 0xFFFF_FFFF);
    WrapIdentity(ZigZag(residuals[0]) - s.signModifier);
  }

  lemma RunReads(buf: seq<byte>, pos: int, n: nat, history: int, p: Params)
    requires 0 <= history < 128 && p.Valid() && n < 0x1_0000
    requires Has(buf, pos, RunBits(n, history, p))
    ensures DecodeValue(buf, pos, 16, ZeroRunK(history), p.mask) == Success((n, pos + |RunBits(n, history, p)|))
  {
    hide ZeroRunK, DecodeValue, Code, Has, HasPrefix, Wrap32;
    ZeroRunKRange(history);
    Pow2Values();
    CodewordRoundTrip(buf, pos, n, 16, ZeroRunK(history), p.mask);
    WrapIdentity(n);
  }
}
