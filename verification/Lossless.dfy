/** The mirror encoder of a whole stereo frame, and the theorem that `decodeFrame` undoes it. */
module Lossless {
  import opened MachineInt
  import opened BitStream
  import opened Frame
  import Rice
  import Fir
  import Interlace

  // ----- what an encoder chooses -----

  /** Settings of one channel; the coefficients beyond the given ones are zero. */
  datatype ChannelPlan = ChannelPlan(quantization: nat, riceModifier: nat, coefs: seq<int16>) {
    predicate Valid() {
      quantization < 16 && riceModifier < 8 && |coefs| <= Fir.MAX_COEF_NUM
    }

    function Table(): Fir.Table
      requires Valid()
    {
      coefs + seq(Fir.TABLE_SIZE - |coefs|, _ => 0)
    }

    function Header(): Channel
      requires Valid()
    {
      Channel(0, quantization, riceModifier, |coefs|, Table())
    }

    /** The last buffer cell that predicting the first samples touches. */
    function Reach(): nat {
      if |coefs| == 31 then 0 else |coefs|
    }

    function Predictor(readSampleSize: int): Fir.Params {
      Fir.Params(readSampleSize, |coefs|, quantization)
    }
  }

  /** Settings of a frame. `unknown4` and `unknown12` are the header fields the decoder skips. */
  datatype Plan = Plan(explicitSize: bool, unknown4: nat, unknown12: nat, uncompressedBytes: nat,
                       shift: byte, weight: byte, a: ChannelPlan, b: ChannelPlan)

  type Pair = p: (int32, int32) | true witness (0, 0)

  /** The bits of a sample that are compressed, and one for the sign of a difference. */
  function ReadSize(cfg: Config, uncompressedBytes: nat): int {
    cfg.sampleSize - 8 * uncompressedBytes + 1
  }

  /** How residuals are coded under a configuration and a channel's rice modifier. */
  function Coding(cfg: Config, readSampleSize: int, riceModifier: nat): Rice.Params {
    Rice.Params(readSampleSize, cfg.riceKmodifier, riceModifier * cfg.riceHistorymult / 4,
                Rice.RiceMask(cfg.riceKmodifier))
  }

  /** A frame this configuration has room for, with at least one bit of each sample compressed. */
  ghost predicate Fits(pcm: seq<Pair>, plan: Plan, cfg: Config) {
    && cfg.InScope() && plan.a.Valid() && plan.b.Valid()
    && plan.unknown4 < 16 && plan.unknown12 < 0x1000
    && plan.uncompressedBytes <= (if cfg.sampleSize == 16 then 2 else 3)
    && |pcm| <= 0x1_0000 && |pcm| <= cfg.BufferLength()
    && plan.a.Reach() < cfg.BufferLength() && plan.b.Reach() < cfg.BufferLength()
    && (plan.explicitSize || |pcm| == cfg.maxSamplesPerFrame)
    && forall i :: 0 <= i < |pcm| ==> Fir.InRange(pcm[i].0, cfg.sampleSize) && Fir.InRange(pcm[i].1, cfg.sampleSize)
  }

  /** A frame whose mixed channels also fit the read size. */
  ghost predicate Encodable(pcm: seq<Pair>, plan: Plan, cfg: Config) {
    && Fits(pcm, plan, cfg)
    && Fir.SamplesInRange(ChannelA(pcm, plan), ReadSize(cfg, plan.uncompressedBytes))
    && Fir.SamplesInRange(ChannelB(pcm, plan), ReadSize(cfg, plan.uncompressedBytes))
  }

  function High(x: int32, bytes: nat): int32 {
    ShrShrinks(x, 8 * bytes);
    Shr(x, 8 * bytes)
  }

  function Low(x: int32, bytes: nat): (low: nat)
    ensures low < Pow2(8 * bytes)
  {
    x % Pow2(8 * bytes)
  }

  function MixedPair(p: Pair, plan: Plan): Pair {
    Interlace.Mix(High(p.0, plan.uncompressedBytes), High(p.1, plan.uncompressedBytes), plan.shift, plan.weight)
  }

  function ChannelA(pcm: seq<Pair>, plan: Plan): (r: seq<int32>)
    ensures |r| == |pcm|
  {
    seq(|pcm|, i requires 0 <= i < |pcm| => MixedPair(pcm[i], plan).0)
  }

  function ChannelB(pcm: seq<Pair>, plan: Plan): (r: seq<int32>)
    ensures |r| == |pcm|
  {
    seq(|pcm|, i requires 0 <= i < |pcm| => MixedPair(pcm[i], plan).1)
  }

  // ----- its bits -----

  function CoefBits(coefs: seq<int16>): seq<Bit> {
    if coefs == [] then [] else Bits(ToUint16(coefs[0]), 16) + CoefBits(coefs[1..])
  }

  function ChannelBits(plan: ChannelPlan, rest: seq<Bit>): seq<Bit> {
    Bits(0, 4) + (Bits(plan.quantization, 4) + (Bits(plan.riceModifier, 3) + (Bits(|plan.coefs|, 5)
    + (CoefBits(plan.coefs) + rest))))
  }

  function LowBits(pcm: seq<Pair>, bytes: nat): (w: seq<Bit>)
    ensures |w| == 2 * (8 * bytes) * |pcm|
  {
    if pcm == [] then [] else
    Bits(Low(pcm[0].0, bytes), 8 * bytes) + (Bits(Low(pcm[0].1, bytes), 8 * bytes) + LowBits(pcm[1..], bytes))
  }

  function HeaderBits(n: nat, plan: Plan, rest: seq<Bit>): seq<Bit> {
    Bits(1, 3) + (Bits(plan.unknown4, 4) + (Bits(plan.unknown12, 12)
    + (Bits(if plan.explicitSize then 1 else 0, 1) + (Bits(plan.uncompressedBytes, 2) + (Bits(0, 1)
    + ((if plan.explicitSize then Bits(n, 32) else []) + rest))))))
  }

  /** A channel's residuals in the rice code. */
  ghost function ResidualBits(samples: seq<int32>, plan: ChannelPlan, cfg: Config, readSampleSize: int): seq<Bit>
    requires plan.Valid() && cfg.InScope() && 1 <= readSampleSize <= 30 && |samples| <= 0x1_0000
    requires Fir.SamplesInRange(samples, readSampleSize)
  {
    ResidualsEncodable(samples, plan, cfg, readSampleSize);
    Rice.Encode(Fir.Encode(samples, |samples|, plan.Table(), plan.Predictor(readSampleSize)).0,
                cfg.riceInitialhistory, 0, Coding(cfg, readSampleSize, plan.riceModifier))
  }

  lemma ResidualsEncodable(samples: seq<int32>, plan: ChannelPlan, cfg: Config, readSampleSize: int)
    requires plan.Valid() && cfg.InScope() && 1 <= readSampleSize <= 30 && |samples| <= 0x1_0000
    requires Fir.SamplesInRange(samples, readSampleSize)
    ensures Rice.Encodable(Fir.Encode(samples, |samples|, plan.Table(), plan.Predictor(readSampleSize)).0,
                           cfg.riceInitialhistory, 0, Coding(cfg, readSampleSize, plan.riceModifier))
  {
    hide Fir.Encode, Rice.RiceMask;
    var p := plan.Predictor(readSampleSize);
    Fir.EncodeIsResidual(samples, |samples|, plan.Table(), p);
    RiceParamsValid(cfg, readSampleSize, plan.riceModifier);
    var errors := Fir.Encode(samples, |samples|, plan.Table(), p).0;
    Rice.Pow2Bounds(1, readSampleSize);
    forall i | 0 <= i < |errors| ensures Rice.ZigZag(errors[i]) < Pow2(readSampleSize) {
      assert Fir.InRange(errors[i], readSampleSize);
    }
  }

  lemma RiceParamsValid(cfg: Config, readSampleSize: int, riceModifier: nat)
    requires cfg.InScope() && 1 <= readSampleSize <= 30 && riceModifier < 8
    ensures Coding(cfg, readSampleSize, riceModifier).Valid()
  {
    hide Rice.RiceMask;
    MulMono(riceModifier, 7, cfg.riceHistorymult);
    MulMono(0, riceModifier, cfg.riceHistorymult);
  }

  ghost function FrameBits(pcm: seq<Pair>, plan: Plan, cfg: Config): seq<Bit>
    requires Encodable(pcm, plan, cfg)
  {
    var readSampleSize := ReadSize(cfg, plan.uncompressedBytes);
    HeaderBits(|pcm|, plan, Bits(plan.shift, 8) + (Bits(plan.weight, 8)
      + ChannelBits(plan.a, ChannelBits(plan.b, LowBits(pcm, plan.uncompressedBytes)
      + (ResidualBits(ChannelA(pcm, plan), plan.a, cfg, readSampleSize)
      + ResidualBits(ChannelB(pcm, plan), plan.b, cfg, readSampleSize))))))
  }

  /** Any frame that fits is encodable without mixing, and with any weight up to 2^shift if a bit
      is left for the sign of a difference and no product of a difference and the weight
      overflows, which takes more than 23 significant bits. */
  lemma WeightSuffices(pcm: seq<Pair>, plan: Plan, cfg: Config)
    requires Fits(pcm, plan, cfg)
    requires plan.weight == 0 || (plan.weight <= Pow2(plan.shift) && 8 * plan.uncompressedBytes < cfg.sampleSize)
    requires cfg.sampleSize == 24 && plan.uncompressedBytes == 0 ==>
      forall i :: 0 <= i < |pcm| ==> -0x8000_0000 <= (pcm[i].0 - pcm[i].1) * plan.weight < 0x8000_0000
    ensures Encodable(pcm, plan, cfg)
  {
    forall i | 0 <= i < |pcm|
      ensures var (a, b) := MixedPair(pcm[i], plan); var bits := ReadSize(cfg, plan.uncompressedBytes);
        Fir.InRange(a, bits) && Fir.InRange(b, bits)
    {
      MixedPairInRange(pcm[i], plan, cfg.sampleSize);
    }
  }

  lemma MixedPairInRange(p: Pair, plan: Plan, size: int)
    requires size == 16 || size == 24
    requires plan.uncompressedBytes <= (if size == 16 then 2 else 3)
    requires plan.weight == 0 || (plan.weight <= Pow2(plan.shift) && 8 * plan.uncompressedBytes < size)
    requires Fir.InRange(p.0, size) && Fir.InRange(p.1, size)
    requires size == 24 && plan.uncompressedBytes == 0 ==> -0x8000_0000 <= (p.0 - p.1) * plan.weight < 0x8000_0000
    ensures var bits := size - 8 * plan.uncompressedBytes + 1;
      Fir.InRange(MixedPair(p, plan).0, bits) && Fir.InRange(MixedPair(p, plan).1, bits)
  {
    var bytes := plan.uncompressedBytes;
    var bits := size - 8 * bytes;
    var left, right := High(p.0, bytes), High(p.1, bytes);
    hide High, Interlace.Mix, Fir.InRange, Pow2;
    HighInRange(p.0, bytes, size);
    HighInRange(p.1, bytes, size);
    if bytes == 0 { HighOfWhole(p.0); HighOfWhole(p.1); }
    if plan.weight == 0 {
      Interlace.MixPlain(left, right, plan.shift);
      WiderRange(left, bits);
      WiderRange(right, bits);
    } else {
      assert bits == 24 ==> left == p.0 && right == p.1;
      WeightedPairInRange(left, right, plan, bits);
    }
  }

  lemma WiderRange(x: int, bits: nat)
    requires if bits == 0 then -1 <= x <= 0 else Fir.InRange(x, bits)
    ensures Fir.InRange(x, bits + 1)
  {
    if bits > 0 { assert Pow2(bits) == 2 * Pow2(bits - 1); }
  }

  lemma WeightedPairInRange(left: int32, right: int32, plan: Plan, bits: nat)
    requires bits == 8 || bits == 16 || bits == 24
    requires 0 < plan.weight <= Pow2(plan.shift)
    requires Fir.InRange(left, bits) && Fir.InRange(right, bits)
    requires bits == 24 ==> -0x8000_0000 <= (left - right) * plan.weight < 0x8000_0000
    ensures var (a, b) := Interlace.Mix(left, right, plan.shift, plan.weight);
      Fir.InRange(a, bits + 1) && Fir.InRange(b, bits + 1)
  {
    Pow2Values();
    assert Pow2(bits) == 2 * Pow2(bits - 1);
    hide Pow2, Interlace.Mix;
    if bits <= 16 { ProductFits(left - right, plan.weight); }
    Interlace.MidBetween(left, right, plan.shift, plan.weight);
  }

  lemma HighOfWhole(x: int32)
    ensures High(x, 0) == x
  {
  }

  lemma ProductFits(d: int, weight: byte)
    requires -0x1_0000 < d < 0x1_0000
    ensures -0x8000_0000 <= d * weight < 0x8000_0000
  {
    MulMono(d, 0xFFFF, weight);
    MulMono(-0xFFFF, d, weight);
  }

  lemma HighInRange(x: int32, bytes: nat, size: int)
    requires (size == 16 && bytes <= 2) || (size == 24 && bytes <= 3)
    requires Fir.InRange(x, size)
    ensures var bits := size - 8 * bytes;
      if bits == 0 then -1 <= High(x, bytes) <= 0 else Fir.InRange(High(x, bytes), bits)
  {
    hide Pow2;
    var n, bits := 8 * bytes, size - 8 * bytes;
    if bits == 0 {
      HighOfAll(x, n);
    } else {
      Pow2Add(bits - 1, n);
      QuotientInRange(x, Pow2(bits - 1), Pow2(n));
    }
  }

  lemma HighOfAll(x: int32, n: nat)
    requires n >= 1 && Fir.InRange(x, n)
    ensures -1 <= x / Pow2(n) <= 0
  {
    assert Pow2(n) == 2 * Pow2(n - 1);
    if x >= 0 { DivUnique(x, Pow2(n), 0, x); } else { DivUnique(x, Pow2(n), -1, x + Pow2(n)); }
  }

  lemma QuotientInRange(x: int, h: int, m: int)
    requires m > 0 && -(h * m) <= x < h * m
    ensures -h <= x / m < h
  {
    DivMod(x, m);
    var q := x / m;
    if q < -h { MulMono(q + 1, -h, m); }
    if q >= h { MulMono(h, q, m); }
  }

  // ----- decoding them -----

  /** Reading the first field of what is left of the packet. */
  lemma Take(buf: seq<byte>, pos: int, v: nat, n: nat, rest: seq<Bit>)
    requires 1 <= n <= 32 && v < Pow2(n) && Has(buf, pos, Bits(v, n) + rest)
    ensures Read(buf, pos, n) == Success(v) && Has(buf, pos + n, rest)
  {
    hide Has, Read, Bits, Pow2;
    HasConcat(buf, pos, Bits(v, n), rest);
    ReadBits(buf, pos, v, n);
  }

  lemma {:induction false} TableReads(buf: seq<byte>, pos: int, i: nat, coefs: seq<int16>,
                                      table: Fir.Table, rest: seq<Bit>)
    requires i <= |coefs| <= Fir.MAX_COEF_NUM && table[..i] == coefs[..i]
    requires forall j :: |coefs| <= j < Fir.TABLE_SIZE ==> table[j] == 0
    requires Has(buf, pos, CoefBits(coefs[i..]) + rest)
    ensures ReadTable(buf, pos, i, |coefs|, table) == Success(coefs + seq(Fir.TABLE_SIZE - |coefs|, _ => 0))
    ensures Has(buf, pos + 16 * (|coefs| - i), rest)
    decreases |coefs| - i
  {
    hide Has, Read, Bits, Pow2;
    if i == |coefs| {
      assert CoefBits(coefs[i..]) + rest == rest;
      assert table == coefs + seq(Fir.TABLE_SIZE - |coefs|, _ => 0) by {
        assert forall j :: 0 <= j < i ==> table[j] == table[..i][j] == coefs[j];
      }
    } else {
      Pow2Values();
      var c := ToUint16(coefs[i]);
      assert CoefBits(coefs[i..]) + rest == Bits(c, 16) + (CoefBits(coefs[i + 1..]) + rest) by {
        assert coefs[i..][1..] == coefs[i + 1..];
      }
      Take(buf, pos, c, 16, CoefBits(coefs[i + 1..]) + rest);
      Wrap16OfUint16(coefs[i]);
      var next := table[i := coefs[i]];
      assert next[..i + 1] == table[..i] + [coefs[i]];
      assert coefs[..i + 1] == coefs[..i] + [coefs[i]];
      TableReads(buf, pos + 16, i + 1, coefs, next, rest);
    }
  }

  lemma Wrap16OfUint16(x: int16)
    ensures Wrap16(ToUint16(x)) == x
  {
  }

  lemma ChannelReads(buf: seq<byte>, pos: int, plan: ChannelPlan, rest: seq<Bit>)
    requires plan.Valid() && Has(buf, pos, ChannelBits(plan, rest))
    ensures ReadChannel(buf, pos) == Success((plan.Header(), pos + 16 + 16 * |plan.coefs|))
    ensures Has(buf, pos + 16 + 16 * |plan.coefs|, rest)
  {
    hide Has, Read, Bits, Pow2, CoefBits, ReadTable;
    Pow2Values();
    var coefs := CoefBits(plan.coefs) + rest;
    var num := Bits(|plan.coefs|, 5) + coefs;
    var modifier := Bits(plan.riceModifier, 3) + num;
    Take(buf, pos, 0, 4, Bits(plan.quantization, 4) + modifier);
    Take(buf, pos + 4, plan.quantization, 4, modifier);
    Take(buf, pos + 8, plan.riceModifier, 3, num);
    Take(buf, pos + 11, |plan.coefs|, 5, coefs);
    assert plan.coefs[0..] == plan.coefs;
    TableReads(buf, pos + 16, 0, plan.coefs, ZeroTable(), rest);
  }

  lemma HeaderReads(buf: seq<byte>, n: nat, plan: Plan, cfg: Config, rest: seq<Bit>)
    requires plan.unknown4 < 16 && plan.unknown12 < 0x1000 && plan.uncompressedBytes <= 3 && n < 0x1_0000_0000
    requires plan.explicitSize || n == cfg.maxSamplesPerFrame
    requires Has(buf, 0, HeaderBits(n, plan, rest))
    ensures Read(buf, 0, 3) == Success(1)
    ensures ReadHeader(buf, cfg)
         == Success(Header(n, plan.uncompressedBytes, true, if plan.explicitSize then 55 else 23))
    ensures Has(buf, if plan.explicitSize then 55 else 23, rest)
  {
    hide Has, Read, Bits, Pow2;
    Pow2Values();
    Pow2Add(8, 4);
    var size := (if plan.explicitSize then Bits(n, 32) else []) + rest;
    var compressed := Bits(0, 1) + size;
    var bytes := Bits(plan.uncompressedBytes, 2) + compressed;
    var hasSize := Bits(if plan.explicitSize then 1 else 0, 1) + bytes;
    var skipped := Bits(plan.unknown12, 12) + hasSize;
    Take(buf, 0, 1, 3, Bits(plan.unknown4, 4) + skipped);
    Take(buf, 3, plan.unknown4, 4, skipped);
    Take(buf, 7, plan.unknown12, 12, hasSize);
    Take(buf, 19, if plan.explicitSize then 1 else 0, 1, bytes);
    Take(buf, 20, plan.uncompressedBytes, 2, compressed);
    Take(buf, 22, 0, 1, size);
    if plan.explicitSize {
      Take(buf, 23, n, 32, rest);
    } else {
      assert [] + rest == rest;
    }
  }

  /** The low part as the buffers hold it; nothing is looked at when there are no low bytes. */
  function LowValue(x: int32, bytes: nat): (low: int32)
    requires bytes <= 3
    ensures low == if bytes > 0 then Low(x, bytes) else 0
  {
    Interlace.LowMaskFits(bytes);
    if bytes > 0 then Low(x, bytes) else 0
  }

  function LowA(pcm: seq<Pair>, bytes: nat): (r: seq<int32>)
    requires bytes <= 3
    ensures |r| == |pcm|
  {
    Interlace.LowMaskFits(bytes);
    seq(|pcm|, i requires 0 <= i < |pcm| => Low(pcm[i].0, bytes) as int32)
  }

  function LowB(pcm: seq<Pair>, bytes: nat): (r: seq<int32>)
    requires bytes <= 3
    ensures |r| == |pcm|
  {
    Interlace.LowMaskFits(bytes);
    seq(|pcm|, i requires 0 <= i < |pcm| => Low(pcm[i].1, bytes) as int32)
  }

  lemma {:induction false} LowReads(buf: seq<byte>, pos: int, i: nat, n: nat, cap: nat, pcm: seq<Pair>,
                                    bytes: nat, rest: seq<Bit>)
    requires 1 <= bytes <= 3 && n == i + |pcm| <= cap
    requires Has(buf, pos, LowBits(pcm, bytes) + rest)
    ensures ReadLow(buf, pos, i, n, cap, 8 * bytes) == Success((LowA(pcm, bytes), LowB(pcm, bytes)))
    ensures Has(buf, pos + 2 * (8 * bytes) * |pcm|, rest)
    decreases |pcm|
  {
    hide Has, Read, Bits, Low, Pow2;
    if pcm == [] {
      assert LowBits(pcm, bytes) + rest == rest;
    } else {
      var bits := 8 * bytes;
      Interlace.LowMaskFits(bytes);
      Pow2Values();
      var tail := LowBits(pcm[1..], bytes) + rest;
      var a, b := Low(pcm[0].0, bytes), Low(pcm[0].1, bytes);
      assert LowBits(pcm, bytes) + rest == Bits(a, bits) + (Bits(b, bits) + tail);
      Take(buf, pos, a, bits, Bits(b, bits) + tail);
      Take(buf, pos + bits, b, bits, tail);
      LowReads(buf, pos + 2 * bits, i + 1, n, cap, pcm[1..], bytes, rest);
      assert LowA(pcm, bytes) == [a] + LowA(pcm[1..], bytes) && LowB(pcm, bytes) == [b] + LowB(pcm[1..], bytes);
      assert 2 * bits * |pcm| == 2 * bits + 2 * bits * |pcm[1..]|;
    }
  }

  /** One channel, through the rice code and the predictor. */
  lemma ChannelDecodes(buf: seq<byte>, pos: int, samples: seq<int32>, plan: ChannelPlan, cfg: Config,
                       readSampleSize: int)
    requires plan.Valid() && cfg.InScope() && 1 <= readSampleSize <= 30
    requires |samples| <= 0x1_0000 && |samples| <= cfg.BufferLength() && plan.Reach() < cfg.BufferLength()
    requires Fir.SamplesInRange(samples, readSampleSize)
    requires Has(buf, pos, ResidualBits(samples, plan, cfg, readSampleSize))
    ensures DecodeChannel(buf, pos, |samples|, cfg, plan.Header(), readSampleSize)
         == Success((samples, pos + |ResidualBits(samples, plan, cfg, readSampleSize)|))
  {
    hide Fir.Encode, Fir.Run, Rice.Encode, Rice.Decode, Rice.RiceMask, Rice.Encodable, Has, Fir.ResidualAt, Fir.InRange;
    var p := plan.Predictor(readSampleSize);
    var errors := Fir.Encode(samples, |samples|, plan.Table(), p).0;
    ResidualsEncodable(samples, plan, cfg, readSampleSize);
    Rice.RiceRoundTrip(buf, Rice.Start(pos, cfg.riceInitialhistory), errors, cfg.BufferLength(),
                       Coding(cfg, readSampleSize, plan.riceModifier));
    Fir.EncodeIsResidual(samples, |samples|, plan.Table(), p);
    Fir.FirLossless(samples, errors, |samples|, plan.Table(), p);
    assert errors[..|samples|] == errors && samples[..|samples|] == samples;
  }

  // ----- the whole frame -----

  /** Interleaved little-endian PCM. */
  function PcmBytes(pcm: seq<Pair>, bytes: nat): seq<byte> {
    if pcm == [] then [] else
    PcmBytes(pcm[..|pcm| - 1], bytes)
    + (Interlace.LittleEndian(pcm[|pcm| - 1].0, bytes) + Interlace.LittleEndian(pcm[|pcm| - 1].1, bytes))
  }

  /** Where each byte is: sample pair i starts at byte 2 * bytes * i, left before right, and byte k of
      a sample is its bits from 8 * k on. */
  lemma {:induction false} PcmLayout(pcm: seq<Pair>, bytes: nat, i: nat, k: nat)
    requires (bytes == 2 || bytes == 3) && i < |pcm| && k < bytes
    ensures |PcmBytes(pcm, bytes)| == 2 * bytes * |pcm| && 2 * bytes * (i + 1) <= 2 * bytes * |pcm|
    ensures PcmBytes(pcm, bytes)[2 * bytes * i + k] == (pcm[i].0 / Pow2(8 * k)) % 256
    ensures PcmBytes(pcm, bytes)[2 * bytes * i + bytes + k] == (pcm[i].1 / Pow2(8 * k)) % 256
    decreases |pcm|
  {
    hide Interlace.LittleEndian, Pow2;
    var n := |pcm| - 1;
    var front := PcmBytes(pcm[..n], bytes);
    assert |front| == 2 * bytes * n by {
      if n > 0 { PcmLayout(pcm[..n], bytes, 0, 0); } else { assert pcm[..n] == []; }
    }
    if i < n {
      PcmLayout(pcm[..n], bytes, i, k);
    } else {
      Interlace.LittleEndianByte(pcm[n].0, bytes, k);
      Interlace.LittleEndianByte(pcm[n].1, bytes, k);
    }
  }

  /** What `decodeFrame` can give back of a sample: `deinterlace_16` drops the uncompressed bytes. */
  function KeptSample(x: int32, plan: Plan, cfg: Config): int32 {
    if cfg.sampleSize == 16 then High(x, plan.uncompressedBytes) else x
  }

  function Kept(pcm: seq<Pair>, plan: Plan, cfg: Config): (r: seq<Pair>)
    ensures |r| == |pcm|
  {
    seq(|pcm|, i requires 0 <= i < |pcm| => (KeptSample(pcm[i].0, plan, cfg), KeptSample(pcm[i].1, plan, cfg)))
  }

  lemma {:induction false} OutputIsPcm16(pcm: seq<Pair>, plan: Plan, cfg: Config, n: nat)
    requires Fits(pcm, plan, cfg) && cfg.sampleSize == 16 && n <= |pcm|
    ensures PcmBytes(Kept(pcm, plan, cfg)[..n], 2)
         == Interlace.Pcm16(ChannelA(pcm, plan), ChannelB(pcm, plan), n, plan.shift, plan.weight)
  {
    hide Interlace.Frame16, Interlace.LittleEndian, MixedPair, Fir.InRange, Pow2, High;
    if n > 0 {
      OutputIsPcm16(pcm, plan, cfg, n - 1);
      assert Kept(pcm, plan, cfg)[..n][..n - 1] == Kept(pcm, plan, cfg)[..n - 1];
      PairIsFrame16(pcm[n - 1], plan);
    }
  }

  lemma {:induction false} OutputIsPcm24(pcm: seq<Pair>, plan: Plan, cfg: Config, lowA: seq<int32>,
                                         lowB: seq<int32>, n: nat)
    requires Fits(pcm, plan, cfg) && cfg.sampleSize == 24 && n <= |pcm|
    requires plan.uncompressedBytes > 0 ==> lowA == LowA(pcm, plan.uncompressedBytes)
    requires plan.uncompressedBytes > 0 ==> lowB == LowB(pcm, plan.uncompressedBytes)
    ensures PcmBytes(pcm[..n], 3)
         == Interlace.Pcm24(ChannelA(pcm, plan), ChannelB(pcm, plan), plan.uncompressedBytes, lowA, lowB, n,
                            plan.shift, plan.weight)
  {
    hide Interlace.Frame24, Interlace.LittleEndian, MixedPair, Low, Fir.InRange, Pow2;
    if n > 0 {
      OutputIsPcm24(pcm, plan, cfg, lowA, lowB, n - 1);
      assert pcm[..n][..n - 1] == pcm[..n - 1];
      PairIsFrame24(pcm[n - 1], plan);
    }
  }

  lemma PairIsFrame16(p: Pair, plan: Plan)
    requires plan.uncompressedBytes <= 2 && Fir.InRange(p.0, 16) && Fir.InRange(p.1, 16)
    ensures var (a, b) := MixedPair(p, plan);
      Interlace.Frame16(a, b, plan.shift, plan.weight)
      == Interlace.LittleEndian(High(p.0, plan.uncompressedBytes), 2)
         + Interlace.LittleEndian(High(p.1, plan.uncompressedBytes), 2)
  {
    hide Interlace.Mix, Interlace.Unmix16, Interlace.LittleEndian, Pow2, High;
    var bytes := plan.uncompressedBytes;
    HighFits16(p.0, bytes);
    HighFits16(p.1, bytes);
    Interlace.MidSideInversion16(High(p.0, bytes), High(p.1, bytes), plan.shift, plan.weight);
  }

  lemma HighFits16(x: int32, bytes: nat)
    requires bytes <= 2 && Fir.InRange(x, 16)
    ensures -0x8000 <= x < 0x8000 && -0x8000 <= High(x, bytes) < 0x8000
  {
    assert Pow2(15) == 0x8000 by { Pow2Values(); Pow2Add(8, 7); }
    ShrShrinks(x, 8 * bytes);
  }

  lemma PairIsFrame24(p: Pair, plan: Plan)
    requires plan.uncompressedBytes <= 3 && Fir.InRange(p.0, 24) && Fir.InRange(p.1, 24)
    ensures var (a, b) := MixedPair(p, plan); var bytes := plan.uncompressedBytes;
      Interlace.Frame24(a, b, bytes, LowValue(p.0, bytes), LowValue(p.1, bytes), plan.shift, plan.weight)
      == Interlace.LittleEndian(p.0, 3) + Interlace.LittleEndian(p.1, 3)
  {
    hide Interlace.Mix, Interlace.Unmix32, Interlace.LittleEndian, Pow2, High, Low, Interlace.Reattach, LowValue;
    var bytes := plan.uncompressedBytes;
    Interlace.MidSideInversion32(High(p.0, bytes), High(p.1, bytes), plan.shift, plan.weight);
    Reattached(p.0, bytes);
    Reattached(p.1, bytes);
  }

  lemma Reattached(x: int32, bytes: nat)
    requires bytes <= 3
    ensures Interlace.Reattach(High(x, bytes), LowValue(x, bytes), bytes) == x
  {
    hide Pow2, Interlace.Reattach;
    Pow2Values();
    DivMod(x, Pow2(8 * bytes));
    Interlace.ReattachIsSum(High(x, bytes), LowValue(x, bytes), bytes);
    if bytes == 0 { HighOfWhole(x); }
    WrapIdentity(x);
  }

  /** Whole-frame round trip: `decodeFrame` on a packet that starts with the mirror encoding of a
      frame, whatever follows it, returns exactly the PCM bytes of what it keeps of each sample:
      everything in 24-bit streams, the compressed part in 16-bit streams. */
  lemma FrameLossless(packet: seq<byte>, pcm: seq<Pair>, plan: Plan, cfg: Config)
    requires Encodable(pcm, plan, cfg) && Has(packet, 0, FrameBits(pcm, plan, cfg))
    ensures DecodeFrame(packet, cfg) == Success(PcmBytes(Kept(pcm, plan, cfg), cfg.sampleSize / 8))
  {
    hide Has, Read, ReadHeader, ReadChannel, DecodeChannel, HeaderBits, ChannelBits, LowBits, ResidualBits, Bits,
         ReadLow, Interlace.Pcm16, Interlace.Pcm24, LowA, LowB, PcmBytes, KeptSample, ChannelA, ChannelB,
         Fir.SamplesInRange, Fir.InRange, Pow2;
    var size := ReadSize(cfg, plan.uncompressedBytes);
    var bytes := plan.uncompressedBytes;
    var n := |pcm|;
    var a, b := ChannelA(pcm, plan), ChannelB(pcm, plan);
    var residualA, residualB := ResidualBits(a, plan.a, cfg, size), ResidualBits(b, plan.b, cfg, size);
    var low := LowBits(pcm, bytes) + (residualA + residualB);
    var channels := ChannelBits(plan.a, ChannelBits(plan.b, low));
    Pow2Values();
    HeaderReads(packet, n, plan, cfg, Bits(plan.shift, 8) + (Bits(plan.weight, 8) + channels));
    var pos := if plan.explicitSize then 55 else 23;
    Take(packet, pos, plan.shift, 8, Bits(plan.weight, 8) + channels);
    Take(packet, pos + 8, plan.weight, 8, channels);
    ChannelReads(packet, pos + 16, plan.a, ChannelBits(plan.b, low));
    var pos1 := pos + 16 + 16 + 16 * |plan.a.coefs|;
    ChannelReads(packet, pos1, plan.b, low);
    var pos2 := pos1 + 16 + 16 * |plan.b.coefs|;
    if bytes > 0 {
      LowReads(packet, pos2, 0, n, cfg.BufferLength(), pcm, bytes, residualA + residualB);
    } else {
      assert |LowBits(pcm, 0)| == 0;
      assert low == residualA + residualB;
    }
    var pos3 := if bytes > 0 then pos2 + 2 * (8 * bytes) * n else pos2;
    HasConcat(packet, pos3, residualA, residualB);
    ChannelDecodes(packet, pos3, a, plan.a, cfg, size);
    ChannelDecodes(packet, pos3 + |residualA|, b, plan.b, cfg, size);
    if cfg.sampleSize == 16 {
      OutputIsPcm16(pcm, plan, cfg, n);
    } else {
      KeepsAll(pcm, plan, cfg);
      OutputIsPcm24(pcm, plan, cfg, if bytes > 0 then LowA(pcm, bytes) else [],
                    if bytes > 0 then LowB(pcm, bytes) else [], n);
    }
    assert pcm[..n] == pcm && Kept(pcm, plan, cfg)[..n] == Kept(pcm, plan, cfg);
  }

  lemma KeepsAll(pcm: seq<Pair>, plan: Plan, cfg: Config)
    requires cfg.sampleSize == 24
    ensures Kept(pcm, plan, cfg) == pcm
  {
  }

  // ----- when nothing is lost -----

  /** A sample without significant bits. */
  predicate Flat(x: int) {
    x == 0 || x == -1
  }

  predicate AllFlat(pcm: seq<Pair>) {
    forall i :: 0 <= i < |pcm| ==> Flat(pcm[i].0) && Flat(pcm[i].1)
  }

  /** The frame comes back unchanged if and only if the stream has 24 bits, or no byte was left
      uncompressed, or no sample has a significant bit. */
  lemma LosslessExactly(packet: seq<byte>, pcm: seq<Pair>, plan: Plan, cfg: Config)
    requires Encodable(pcm, plan, cfg) && Has(packet, 0, FrameBits(pcm, plan, cfg))
    ensures DecodeFrame(packet, cfg) == Success(PcmBytes(pcm, cfg.sampleSize / 8))
       <==> cfg.sampleSize == 24 || plan.uncompressedBytes == 0 || AllFlat(pcm)
  {
    hide Has, FrameBits, PcmBytes, DecodeFrame, Encodable, High, Fir.InRange;
    FrameLossless(packet, pcm, plan, cfg);
    FitsOfEncodable(pcm, plan, cfg);
    var kept := Kept(pcm, plan, cfg);
    if cfg.sampleSize == 16 {
      forall i | 0 <= i < |pcm|
        ensures kept[i] == pcm[i] <==> plan.uncompressedBytes == 0 || (Flat(pcm[i].0) && Flat(pcm[i].1))
        ensures IsInt16(kept[i]) && IsInt16(pcm[i])
      {
        HighKeepsFlat(pcm[i].0, plan.uncompressedBytes);
        HighKeepsFlat(pcm[i].1, plan.uncompressedBytes);
        HighFits16(pcm[i].0, plan.uncompressedBytes);
        HighFits16(pcm[i].1, plan.uncompressedBytes);
      }
      if PcmBytes(kept, 2) == PcmBytes(pcm, 2) { PcmInjective(kept, pcm); }
      assert kept == pcm <==> forall i :: 0 <= i < |pcm| ==> kept[i] == pcm[i];
    } else {
      KeepsAll(pcm, plan, cfg);
    }
  }

  lemma FitsOfEncodable(pcm: seq<Pair>, plan: Plan, cfg: Config)
    requires Encodable(pcm, plan, cfg)
    ensures Fits(pcm, plan, cfg)
  {
  }

  predicate IsInt16(p: Pair) {
    -0x8000 <= p.0 < 0x8000 && -0x8000 <= p.1 < 0x8000
  }

  lemma HighKeepsFlat(x: int32, bytes: nat)
    requires bytes <= 2 && Fir.InRange(x, 16)
    ensures High(x, bytes) == x <==> bytes == 0 || Flat(x)
  {
    Pow2Values();
    HighFits16(x, bytes);
    if bytes == 0 { HighOfWhole(x); }
  }

  lemma {:induction false} PcmInjective(a: seq<Pair>, b: seq<Pair>)
    requires |a| == |b| && PcmBytes(a, 2) == PcmBytes(b, 2)
    requires forall i :: 0 <= i < |a| ==> IsInt16(a[i]) && IsInt16(b[i])
    ensures a == b
  {
    hide Interlace.LittleEndian;
    if a != [] {
      var n := |a| - 1;
      var x, y := PcmBytes(a[..n], 2), PcmBytes(b[..n], 2);
      PcmLength(a[..n]);
      PcmLength(b[..n]);
      var left, left' := Interlace.LittleEndian(a[n].0, 2), Interlace.LittleEndian(b[n].0, 2);
      var right, right' := Interlace.LittleEndian(a[n].1, 2), Interlace.LittleEndian(b[n].1, 2);
      assert PcmBytes(a, 2)[..|x|] == x && PcmBytes(b, 2)[..|x|] == y;
      assert PcmBytes(a, 2)[|x|..|x| + 2] == left && PcmBytes(b, 2)[|x|..|x| + 2] == left';
      assert PcmBytes(a, 2)[|x| + 2..] == right && PcmBytes(b, 2)[|x| + 2..] == right';
      PcmInjective(a[..n], b[..n]);
      BytesInjective(a[n].0, b[n].0);
      BytesInjective(a[n].1, b[n].1);
      assert a == a[..n] + [a[n]] && b == b[..n] + [b[n]];
    }
  }

  lemma {:induction false} PcmLength(pcm: seq<Pair>)
    ensures |PcmBytes(pcm, 2)| == 4 * |pcm|
  {
    hide Interlace.LittleEndian;
    if pcm != [] {
      PcmLength(pcm[..|pcm| - 1]);
    }
  }

  lemma BytesInjective(x: int, y: int)
    requires -0x8000 <= x < 0x8000 && -0x8000 <= y < 0x8000
    requires Interlace.LittleEndian(x, 2) == Interlace.LittleEndian(y, 2)
    ensures x == y
  {
    Interlace.LittleEndian2(x);
    Interlace.LittleEndian2(y);
    assert [x % 256, Interlace.Shr8(x) % 256][0] == [y % 256, Interlace.Shr8(y) % 256][0];
    assert [x % 256, Interlace.Shr8(x) % 256][1] == [y % 256, Interlace.Shr8(y) % 256][1];
  }

  /** A frame that is lost: one sample pair (1, 0) in a 16-bit stream with one uncompressed byte. */
  lemma LossyFrame(cfg: Config)
    requires cfg.sampleSize == 16 && cfg.InScope() && cfg.BufferLength() >= 1
    ensures var plan := LossyPlan(); var pcm: seq<Pair> := [(1, 0)];
      && Encodable(pcm, plan, cfg)
      && DecodeFrame(Pack(FrameBits(pcm, plan, cfg)), cfg) == Success([0, 0, 0, 0])
      && PcmBytes(pcm, 2) == [1, 0, 0, 0]
  {
    hide FrameBits, DecodeFrame, PcmBytes, High, Fits, Encodable;
    var plan, pcm: seq<Pair> := LossyPlan(), [(1, 0)];
    LossyFits(cfg);
    WeightSuffices(pcm, plan, cfg);
    EncodeDecode(pcm, plan, cfg);
    var zero: seq<Pair> := [(0, 0)];
    assert High(1, 1) == 0 && High(0, 1) == 0 by { LowBytesOnly(); }
    assert Kept(pcm, plan, cfg) == zero;
    BytesOfPair(0);
    BytesOfPair(1);
  }

  lemma LowBytesOnly()
    ensures High(1, 1) == 0 && High(0, 1) == 0
  {
    Pow2Values();
  }

  lemma LossyFits(cfg: Config)
    requires cfg.sampleSize == 16 && cfg.InScope() && cfg.BufferLength() >= 1
    ensures Fits([(1, 0)], LossyPlan(), cfg)
  {
    hide Pow2;
    assert Fir.InRange(1, 16) && Fir.InRange(0, 16) by { Pow2Monotone(1, 15); Pow2Values(); Pow2Add(1, 0); }
  }

  lemma BytesOfPair(x: int32)
    requires 0 <= x < 256
    ensures var pcm: seq<Pair> := [(x, 0)];
      PcmBytes(pcm, 2) == [x, 0, 0, 0]
  {
    var pcm: seq<Pair> := [(x, 0)];
    assert pcm[..0] == [];
    Interlace.LittleEndian2(x);
    Interlace.LittleEndian2(0);
    assert PcmBytes(pcm, 2) == [] + (Interlace.LittleEndian(x, 2) + Interlace.LittleEndian(0, 2));
  }

  function LossyPlan(): Plan {
    Plan(true, 0, 0, 1, 0, 0, ChannelPlan(0, 0, []), ChannelPlan(0, 0, []))
  }

  // ----- packing -----

  /** Packing an encodable frame's bits and decoding the packet gives what the decoder keeps. */
  lemma EncodeDecode(pcm: seq<Pair>, plan: Plan, cfg: Config)
    requires Encodable(pcm, plan, cfg)
    ensures DecodeFrame(Pack(FrameBits(pcm, plan, cfg)), cfg)
         == Success(PcmBytes(Kept(pcm, plan, cfg), cfg.sampleSize / 8))
  {
    hide *;
    PackHas(FrameBits(pcm, plan, cfg));
    FrameLossless(Pack(FrameBits(pcm, plan, cfg)), pcm, plan, cfg);
  }

  /** For 16-bit streams with all bytes compressed and a weight of at most 2^shift, nothing more is
      asked of the samples and nothing is lost. */
  lemma EncodeDecode16(pcm: seq<Pair>, plan: Plan, cfg: Config)
    requires cfg.sampleSize == 16 && Fits(pcm, plan, cfg)
    requires plan.uncompressedBytes == 0 && plan.weight <= Pow2(plan.shift)
    ensures Encodable(pcm, plan, cfg)
    ensures DecodeFrame(Pack(FrameBits(pcm, plan, cfg)), cfg) == Success(PcmBytes(pcm, 2))
  {
    hide *;
    WeightSuffices(pcm, plan, cfg);
    PackHas(FrameBits(pcm, plan, cfg));
    LosslessExactly(Pack(FrameBits(pcm, plan, cfg)), pcm, plan, cfg);
  }

  /** For 24-bit streams with one or two bytes uncompressed likewise. */
  lemma EncodeDecode24(pcm: seq<Pair>, plan: Plan, cfg: Config)
    requires cfg.sampleSize == 24 && Fits(pcm, plan, cfg)
    requires 1 <= plan.uncompressedBytes <= 2 && plan.weight <= Pow2(plan.shift)
    ensures Encodable(pcm, plan, cfg)
    ensures DecodeFrame(Pack(FrameBits(pcm, plan, cfg)), cfg) == Success(PcmBytes(pcm, 3))
  {
    hide *;
    WeightSuffices(pcm, plan, cfg);
    PackHas(FrameBits(pcm, plan, cfg));
    LosslessExactly(Pack(FrameBits(pcm, plan, cfg)), pcm, plan, cfg);
  }

  /** What a stream's own settings promise: frames of up to maxSamplesPerFrame samples, four times
      which does not exceed uint32, with predictors shorter than that. */
  ghost predicate WithinSettings(pcm: seq<Pair>, plan: Plan, cfg: Config) {
    && cfg.InScope() && plan.a.Valid() && plan.b.Valid()
    && plan.unknown4 < 16 && plan.unknown12 < 0x1000
    && |pcm| <= 0x1_0000 && |pcm| <= cfg.maxSamplesPerFrame && 1 <= cfg.maxSamplesPerFrame < 0x4000_0000
    && |plan.a.coefs| < 4 * cfg.maxSamplesPerFrame && |plan.b.coefs| < 4 * cfg.maxSamplesPerFrame
    && (plan.explicitSize || |pcm| == cfg.maxSamplesPerFrame)
    && forall i :: 0 <= i < |pcm| ==> Fir.InRange(pcm[i].0, cfg.sampleSize) && Fir.InRange(pcm[i].1, cfg.sampleSize)
  }

  /** The buffers have room for four times maxSamplesPerFrame, so every such frame fits and comes back
      as its PCM bytes: at 16 bits with all bytes compressed, at 24 with one or two uncompressed. */
  lemma FramesWithinSettings(pcm: seq<Pair>, plan: Plan, cfg: Config)
    requires WithinSettings(pcm, plan, cfg) && plan.weight <= Pow2(plan.shift)
    requires if cfg.sampleSize == 16 then plan.uncompressedBytes == 0 else 1 <= plan.uncompressedBytes <= 2
    ensures cfg.BufferLength() == 4 * cfg.maxSamplesPerFrame
    ensures Encodable(pcm, plan, cfg)
    ensures DecodeFrame(Pack(FrameBits(pcm, plan, cfg)), cfg) == Success(PcmBytes(pcm, cfg.sampleSize / 8))
  {
    hide Encodable, FrameBits, DecodeFrame, PcmBytes, Pack, Pow2, Fir.InRange;
    assert Fits(pcm, plan, cfg);
    if cfg.sampleSize == 16 {
      EncodeDecode16(pcm, plan, cfg);
    } else {
      EncodeDecode24(pcm, plan, cfg);
    }
  }
}
