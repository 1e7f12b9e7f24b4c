/** What a packet means as a stream of bits: bytes hold their bits most significant first,
    and the stream continues with zeros past the last byte. */
module BitStream {
  import opened MachineInt

  type Bit = b: int | 0 <= b <= 1

  /** Bit j of a byte, counted from the most significant one. */
  function BitOfByte(b: nat, j: nat): Bit
    requires j < 8
    decreases 8 - j
  {
    if j == 7 then b % 2 else BitOfByte(b / 2, j + 1)
  }

  function BitAt(buf: seq<byte>, pos: int): Bit {
    if 0 <= pos / 8 < |buf| then BitOfByte(buf[pos / 8], pos % 8) else 0
  }

  /** The big-endian value of the n bits from pos on. */
  function Value(buf: seq<byte>, pos: int, n: nat): nat {
    if n == 0 then 0 else 2 * Value(buf, pos, n - 1) + BitAt(buf, pos + n - 1)
  }

  lemma {:induction false} ValueBound(buf: seq<byte>, pos: int, n: nat)
    ensures Value(buf, pos, n) < Pow2(n)
  {
    if n > 0 {
      ValueBound(buf, pos, n - 1);
    }
  }

  /** Reading a bits and then b bits is reading a + b bits and splitting the result. */
  lemma {:induction false} ValueSplit(buf: seq<byte>, pos: int, a: nat, b: nat)
    ensures Value(buf, pos, a + b) == Value(buf, pos, a) * Pow2(b) + Value(buf, pos + a, b)
  {
    if b > 0 {
      ValueSplit(buf, pos, a, b - 1);
      Double(Value(buf, pos, a), Pow2(b - 1));
      assert pos + (a + b) - 1 == pos + a + b - 1;
    }
  }

  lemma Double(x: int, y: int)
    ensures x * (2 * y) == 2 * (x * y)
  {
  }

  lemma {:induction false} BitOfByteIsQuotient(b: nat, j: nat)
    requires j < 8
    ensures BitOfByte(b, j) == (b / Pow2(7 - j)) % 2
    decreases 8 - j
  {
    if j < 7 {
      BitOfByteIsQuotient(b / 2, j + 1);
      QuotientOfHalf(b, Pow2(6 - j));
    }
  }

  /** The first m bits of a byte are its m high bits. */
  lemma {:induction false} ValueInByte(buf: seq<byte>, i: int, m: nat)
    requires m <= 8
    ensures Value(buf, 8 * i, m) == if 0 <= i < |buf| then buf[i] / Pow2(8 - m) else 0
  {
    Pow2Values();
    if m > 0 {
      ValueInByte(buf, i, m - 1);
      assert (8 * i + m - 1) / 8 == i && (8 * i + m - 1) % 8 == m - 1;
      if 0 <= i < |buf| {
        HalveQuotient(buf[i], Pow2(8 - m));
        BitOfByteIsQuotient(buf[i], m - 1);
      }
    }
  }

  lemma HalveQuotient(x: int, p: int)
    requires p > 0
    ensures x / (2 * p) == (x / p) / 2
  {
    var q := x / p;
    DivMod(x, p);
    assert (q / 2) * (2 * p) == (2 * (q / 2)) * p;
    MulMono(0, q % 2, p);
    MulMono(q % 2, 1, p);
    assert (2 * (q / 2) + q % 2) * p == (2 * (q / 2)) * p + (q % 2) * p;
    DivUnique(x, 2 * p, q / 2, (q % 2) * p + x % p);
  }

  // ----- writing -----

  /** The n low bits of v, most significant first. */
  function Bits(v: nat, n: nat): (w: seq<Bit>)
    ensures |w| == n
  {
    if n == 0 then [] else Bits(v / 2, n - 1) + [v % 2]
  }

  /** The packet carries the bits w at position pos. Nothing is said of what follows them. */
  ghost predicate Has(buf: seq<byte>, pos: int, w: seq<Bit>) {
    0 <= pos && pos + |w| <= 8 * |buf|
    && forall i :: 0 <= i < |w| ==> BitAt(buf, pos + i) == w[i]
  }

  lemma HasConcat(buf: seq<byte>, pos: int, a: seq<Bit>, b: seq<Bit>)
    ensures Has(buf, pos, a + b) <==> Has(buf, pos, a) && Has(buf, pos + |a|, b)
  {
    if Has(buf, pos, a + b) {
      forall i | 0 <= i < |a| ensures BitAt(buf, pos + i) == a[i] {
        assert (a + b)[i] == a[i];
      }
      forall i | 0 <= i < |b| ensures BitAt(buf, pos + |a| + i) == b[i] {
        assert (a + b)[|a| + i] == b[i];
      }
    }
    if Has(buf, pos, a) && Has(buf, pos + |a|, b) {
      forall i | 0 <= i < |a + b| ensures BitAt(buf, pos + i) == (a + b)[i] {
        if i >= |a| {
          assert BitAt(buf, pos + |a| + (i - |a|)) == b[i - |a|];
        }
      }
    }
  }

  lemma {:induction false} ValueOfBits(buf: seq<byte>, pos: int, v: nat, n: nat)
    requires v < Pow2(n) && Has(buf, pos, Bits(v, n))
    ensures Value(buf, pos, n) == v
  {
    if n > 0 {
      HasConcat(buf, pos, Bits(v / 2, n - 1), [v % 2]);
      ValueOfBits(buf, pos, v / 2, n - 1);
      assert BitAt(buf, pos + (n - 1) + 0) == [v % 2][0];
    }
  }

  function NatOf(w: seq<Bit>): (v: nat)
    ensures v < Pow2(|w|)
  {
    if w == [] then 0 else 2 * NatOf(w[..|w| - 1]) + w[|w| - 1]
  }

  /** The bits of an eight-bit number are the bits it was made of. */
  lemma {:induction false} NatOfBit(w: seq<Bit>, j: nat)
    requires j < |w| <= 8
    ensures BitOfByte(NatOf(w), 8 - |w| + j) == w[j]
  {
    var init := w[..|w| - 1];
    assert NatOf(w) / 2 == NatOf(init) && NatOf(w) % 2 == w[|w| - 1];
    if j < |w| - 1 {
      NatOfBit(init, j);
    }
  }

  lemma QuotientOfHalf(x: int, p: int)
    requires p > 0
    ensures x / (2 * p) == (x / 2) / p
  {
    var y := x / 2;
    DivMod(y, p);
    assert (y / p) * (2 * p) == 2 * ((y / p) * p);
    DivUnique(x, 2 * p, y / p, 2 * (y % p) + x % 2);
  }

  function PadTo8(w: seq<Bit>): (r: seq<Bit>)
    ensures |r| == 8
  {
    if |w| >= 8 then w[..8] else w + seq(8 - |w|, _ => 0)
  }

  /** Bits into bytes, the last byte filled up with zeros. */
  function Pack(w: seq<Bit>): seq<byte>
    decreases |w|
  {
    Pow2Values();
    if w == [] then []
    else if |w| <= 8 then [NatOf(PadTo8(w))]
    else [NatOf(PadTo8(w))] + Pack(w[8..])
  }

  lemma {:induction false} PackBit(w: seq<Bit>, p: nat)
    requires p < |w|
    ensures p / 8 < |Pack(w)| && BitAt(Pack(w), p) == w[p]
    decreases |w|
  {
    if p < 8 {
      NatOfBit(PadTo8(w), p);
    } else {
      PackBit(w[8..], p - 8);
      assert (p - 8) / 8 == p / 8 - 1 && (p - 8) % 8 == p % 8;
    }
  }

  /** Packed bits read back. */
  lemma PackHas(w: seq<Bit>)
    ensures Has(Pack(w), 0, w)
  {
    forall i | 0 <= i < |w| ensures i / 8 < |Pack(w)| && BitAt(Pack(w), 0 + i) == w[i] {
      PackBit(w, i);
    }
    if w != [] {
      assert (|w| - 1) / 8 < |Pack(w)|;
    }
  }

  // ----- reading with Go's bounds checks -----

  predicate InRange(buf: seq<byte>, pos: int) {
    0 <= pos < 8 * |buf|
  }

  /** What `readbits_16(n)` takes out of its three-byte window at pos. Counts outside 1..16 are
      followed as well, a shift by a negative count being one by a huge count. */
  function Part(buf: seq<byte>, pos: int, n: int): nat {
    if 0 <= n <= 16 then Value(buf, pos, n)
    else if 16 < n <= 24 then ((Value(buf, pos - pos % 8, 24) * Pow2(pos % 8)) % 0x100_0000) / Pow2(24 - n)
    else 0
  }

  function ReadPart(buf: seq<byte>, pos: int, n: int): Result<nat> {
    if InRange(buf, pos) then Success(Part(buf, pos, n)) else Failure(IndexOutOfRange)
  }

  /** The result of `readbits(n)` at pos. A read of more than 16 bits is done in two halves and
      each half must start inside the packet; bits past its end read as zero. Only counts of more
      than 32 bits, which the source does not support, mix the halves up. */
  function Read(buf: seq<byte>, pos: int, n: int): (r: Result<nat>)
    ensures r.Success? && 0 <= n <= 32 ==> r.value < Pow2(n)
    ensures r.Failure? ==> r.error == IndexOutOfRange
  {
    if n <= 16 then
      if n >= 0 then ValueBound(buf, pos, n); ReadPart(buf, pos, n) else ReadPart(buf, pos, n)
    else
      ValueBound(buf, pos, n);
      var high :- ReadPart(buf, pos, 16);
      var low :- ReadPart(buf, pos + 16, n - 16);
      if n <= 32 then Success(Value(buf, pos, n))
      else Success(ToUint32(OrSigned(Wrap32(Shl32(ToUint32(high), n - 16)), Wrap32(low))))
  }

  lemma ReadBits(buf: seq<byte>, pos: int, v: nat, n: nat)
    requires 1 <= n <= 32 && v < Pow2(n) && Has(buf, pos, Bits(v, n))
    ensures Read(buf, pos, n) == Success(v)
  {
    ValueOfBits(buf, pos, v, n);
  }
}
