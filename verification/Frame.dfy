/** What `decodeFrame` makes of a packet: a function of the packet and the configuration only. */
module Frame {
  import opened MachineInt
  import opened BitStream
  import Rice
  import Fir
  import Interlace

  /** The decoder's configuration, as `New` takes it from the magic cookie. */
  datatype Config = Config(maxSamplesPerFrame: uint32, sampleSize: byte, numChannels: byte,
                           riceHistorymult: byte, riceInitialhistory: byte, riceKmodifier: byte) {
    /** The configurations modelled here: 16- or 24-bit stereo. */
    predicate InScope() {
      (sampleSize == 16 || sampleSize == 24) && numChannels == 2
    }

    /** `make([]int32, max*4)` with a uint32 product. */
    function BufferLength(): nat {
      ToUint32(maxSamplesPerFrame * 4)
    }

    /** Negative for 16-bit streams with three uncompressed bytes. */
    function ReadSampleSize(uncompressedBytes: nat): int {
      sampleSize - uncompressedBytes * 8 + 1
    }

    function RiceParams(readSampleSize: int, riceModifier: nat): Rice.Params {
      Rice.Params(readSampleSize, riceKmodifier, riceModifier * riceHistorymult / 4, Rice.RiceMask(riceKmodifier))
    }
  }

  datatype Header = Header(samples: nat, uncompressedBytes: nat, compressed: bool, pos: int)

  function ReadHeader(buf: seq<byte>, cfg: Config): (r: Result<Header>)
    ensures r.Success? ==> r.value.uncompressedBytes <= 3 && r.value.samples < 0x1_0000_0000
    ensures r.Failure? ==> r.error == IndexOutOfRange
  {
    Pow2Values();
    var _ :- Read(buf, 3, 4);
    var _ :- Read(buf, 7, 12);
    var hasSize :- Read(buf, 19, 1);
    var uncompressedBytes :- Read(buf, 20, 2);
    var isNotCompressed :- Read(buf, 22, 1);
    if hasSize != 0 then
      var samples :- Read(buf, 23, 32);
      Success(Header(samples, uncompressedBytes, isNotCompressed == 0, 55))
    else
      Success(Header(cfg.maxSamplesPerFrame, uncompressedBytes, isNotCompressed == 0, 23))
  }

  datatype Channel = Channel(predictionType: nat, quantization: nat, riceModifier: nat, coefNum: nat, table: Fir.Table)

  /** Coefficients i.. of the predictor table, 16 bits each. */
  function ReadTable(buf: seq<byte>, pos: int, i: nat, num: nat, table: Fir.Table): Result<Fir.Table>
    requires i <= num <= Fir.MAX_COEF_NUM
    decreases num - i
  {
    if i == num then Success(table) else
    var v :- Read(buf, pos, 16);
    ReadTable(buf, pos + 16, i + 1, num, table[i := Wrap16(v)])
  }

  function ZeroTable(): Fir.Table {
    seq(Fir.TABLE_SIZE, _ => 0)
  }

  function ReadChannel(buf: seq<byte>, pos: int): (r: Result<(Channel, int)>)
    ensures r.Success? ==> r.value.0.coefNum <= Fir.MAX_COEF_NUM && r.value.0.riceModifier <= 7
  {
    Pow2Values();
    var predictionType :- Read(buf, pos, 4);
    var quantization :- Read(buf, pos + 4, 4);
    var riceModifier :- Read(buf, pos + 8, 3);
    var coefNum :- Read(buf, pos + 11, 5);
    var table :- ReadTable(buf, pos + 16, 0, coefNum, ZeroTable());
    Success((Channel(predictionType, quantization, riceModifier, coefNum, table), pos + 16 + 16 * coefNum))
  }

  /** Uncompressed low bytes, one value for each channel in turn, from sample i on. */
  function ReadLow(buf: seq<byte>, pos: int, i: nat, n: nat, cap: nat, bits: nat): (r: Result<(seq<int32>, seq<int32>)>)
    requires bits <= 24
    ensures r.Success? && i <= n ==> |r.value.0| == |r.value.1| == n - i
    ensures r.Failure? ==> r.error == IndexOutOfRange
    decreases n - i
  {
    if i >= n then Success(([], [])) else
    Pow2Values();
    Pow2Monotone(bits, 24);
    var a :- Read(buf, pos, bits);
    if i >= cap then Failure(IndexOutOfRange) else
    var b :- Read(buf, pos + bits, bits);
    PrependPair([a], [b], ReadLow(buf, pos + 2 * bits, i + 1, n, cap, bits))
  }

  /** Values already stored in front of a reading of the rest. */
  function PrependPair(a: seq<int32>, b: seq<int32>, r: Result<(seq<int32>, seq<int32>)>)
    : Result<(seq<int32>, seq<int32>)>
  {
    if r.Failure? then r else Success((a + r.value.0, b + r.value.1))
  }

  lemma PrependPairTwice(a: seq<int32>, b: seq<int32>, x: int32, y: int32, r: Result<(seq<int32>, seq<int32>)>)
    ensures PrependPair(a, b, PrependPair([x], [y], r)) == PrependPair(a + [x], b + [y], r)
    ensures PrependPair([], [], r) == r
    ensures PrependPair(a, b, Success(([], []))) == Success((a, b))
  {
    if r.Success? {
      assert a + ([x] + r.value.0) == (a + [x]) + r.value.0;
      assert b + ([y] + r.value.1) == (b + [y]) + r.value.1;
      assert [] + r.value.0 == r.value.0 && [] + r.value.1 == r.value.1;
    }
    assert a + [] == a && b + [] == b;
  }

  /** How far the predictor's warm-up reaches into the output buffer. */
  function WarmUp(coefNum: nat): nat {
    if coefNum == Fir.MAX_COEF_NUM then 0 else coefNum
  }

  function DecodeChannel(buf: seq<byte>, pos: int, n: nat, cfg: Config, channel: Channel, readSampleSize: int)
    : (r: Result<(seq<int32>, int)>)
    requires channel.coefNum <= Fir.MAX_COEF_NUM
    ensures r.Success? ==> |r.value.0| == n <= cfg.BufferLength()
  {
    var cap := cfg.BufferLength();
    var (errors, next) :- Rice.Decode(buf, Rice.Start(pos, cfg.riceInitialhistory), n, cap,
                                      cfg.RiceParams(readSampleSize, channel.riceModifier));
    if cap <= WarmUp(channel.coefNum) || cap < n then Failure(IndexOutOfRange) else
    var (samples, _) := Fir.Run(errors[..n], n, channel.table,
                                Fir.Params(readSampleSize, channel.coefNum, channel.quantization));
    Success((samples, next))
  }

  function Output(cfg: Config, a: seq<int32>, b: seq<int32>, bytes: nat, lowA: seq<int32>, lowB: seq<int32>,
                  n: nat, shift: nat, weight: nat): seq<byte>
    requires |a| == |b| == n && bytes <= 3 && (bytes > 0 ==> |lowA| == |lowB| == n)
  {
    if cfg.sampleSize == 16 then Interlace.Pcm16(a, b, n, shift, weight)
    else Interlace.Pcm24(a, b, bytes, lowA, lowB, n, shift, weight)
  }

  function DecodeCompressed(buf: seq<byte>, cfg: Config, h: Header): Result<seq<byte>>
    requires cfg.InScope() && h.uncompressedBytes <= 3
  {
    var readSampleSize := cfg.ReadSampleSize(h.uncompressedBytes);
    var shift :- Read(buf, h.pos, 8);
    var weight :- Read(buf, h.pos + 8, 8);
    var (channelA, pos1) :- ReadChannel(buf, h.pos + 16);
    var (channelB, pos2) :- ReadChannel(buf, pos1);
    if channelA.predictionType != 0 || channelB.predictionType != 0 then Failure(Unmodelled) else
    var bits := 8 * h.uncompressedBytes;
    var (lowA, lowB) :- if h.uncompressedBytes != 0
                        then ReadLow(buf, pos2, 0, h.samples, cfg.BufferLength(), bits) else Success(([], []));
    var pos3 := if h.uncompressedBytes != 0 then pos2 + 2 * bits * h.samples else pos2;
    var (a, pos4) :- DecodeChannel(buf, pos3, h.samples, cfg, channelA, readSampleSize);
    var (b, pos5) :- DecodeChannel(buf, pos4, h.samples, cfg, channelB, readSampleSize);
    Success(Output(cfg, a, b, h.uncompressedBytes, lowA, lowB, h.samples, shift, weight))
  }

  /** `signExtend24`. */
  function SignExtend24(v: int32): int32 {
    ShrShrinks(ShlSigned(v, 8), 8);
    Shr(ShlSigned(v, 8), 8)
  }

  /** One verbatim sample: 16 bits at once, or 16 and then 8 or-ed together. */
  function ReadSample(buf: seq<byte>, pos: int, size: int): Result<int32> {
    if size == 16 then
      var v :- Read(buf, pos, 16);
      Success(SignExtended32(Wrap32(v), 16))
    else
      var high :- Read(buf, pos, 16);
      var low :- Read(buf, pos + 16, 8);
      Success(SignExtend24(OrSigned(ShlSigned(Wrap32(high), 8), Wrap32(low))))
  }

  function ReadSamples(buf: seq<byte>, pos: int, i: nat, n: nat, cap: nat, size: int)
    : (r: Result<(seq<int32>, seq<int32>)>)
    ensures r.Success? && i <= n ==> |r.value.0| == |r.value.1| == n - i
    decreases n - i
  {
    if i >= n then Success(([], [])) else
    var a :- ReadSample(buf, pos, size);
    var b :- ReadSample(buf, pos + size, size);
    if i >= cap then Failure(IndexOutOfRange) else
    PrependPair([a], [b], ReadSamples(buf, pos + 2 * size, i + 1, n, cap, size))
  }

  function DecodeVerbatim(buf: seq<byte>, cfg: Config, h: Header): Result<seq<byte>>
    requires cfg.InScope()
  {
    var (a, b) :- ReadSamples(buf, h.pos, 0, h.samples, cfg.BufferLength(), cfg.sampleSize);
    Success(Output(cfg, a, b, 0, [], [], h.samples, 0, 0))
  }

  /** The whole of `decodeFrame`; other channel counts are reported and decode to nothing. */
  function DecodeFrame(buf: seq<byte>, cfg: Config): Result<seq<byte>> {
    if !cfg.InScope() then Failure(Unmodelled) else
    var channels :- Read(buf, 0, 3);
    if channels == 0 then Failure(Unmodelled)
    else if channels != 1 then Success([])
    else
      var h :- ReadHeader(buf, cfg);
      if h.compressed then DecodeCompressed(buf, cfg, h) else DecodeVerbatim(buf, cfg, h)
  }

  /** Where a frame header's fields are: after four and twelve skipped bits a size flag, two bits of
      uncompressed bytes and the not-compressed flag, and the size itself if flagged. */
  lemma HeaderLayout(buf: seq<byte>, cfg: Config)
    ensures var r := ReadHeader(buf, cfg);
      r.Success? ==> var sized := Value(buf, 19, 1) == 1;
        && r.value.uncompressedBytes == Value(buf, 20, 2) && (r.value.compressed <==> Value(buf, 22, 1) == 0)
        && r.value.samples == (if sized then Value(buf, 23, 32) else cfg.maxSamplesPerFrame)
        && r.value.pos == if sized then 55 else 23
  {
    hide Value;
    Pow2Values();
    ValueBound(buf, 19, 1);
  }

  /** Where a channel's settings are: four bits of prediction type, four of quantization, three of rice
      modifier, five of order, and then 16 bits a coefficient, two's complement, the rest zero. */
  lemma ChannelLayout(buf: seq<byte>, pos: int, i: nat)
    requires i < Fir.TABLE_SIZE
    ensures var r := ReadChannel(buf, pos);
      r.Success? ==> var (channel, next) := r.value;
        && channel.predictionType == Value(buf, pos, 4) && channel.quantization == Value(buf, pos + 4, 4)
        && channel.riceModifier == Value(buf, pos + 8, 3) && channel.coefNum == Value(buf, pos + 11, 5)
        && next == pos + 16 + 16 * channel.coefNum
        && channel.table[i] == if i < channel.coefNum then Wrap16(Value(buf, pos + 16 + 16 * i, 16)) else 0
  {
    hide Value, Pow2, ReadTable;
    Pow2Values();
    var num := Read(buf, pos + 11, 5);
    if num.Success? {
      TableLayout(buf, pos + 16, 0, num.value, ZeroTable(), i);
    }
  }

  lemma {:induction false} TableLayout(buf: seq<byte>, pos: int, i: nat, num: nat, table: Fir.Table, k: nat)
    requires i <= num <= Fir.MAX_COEF_NUM && k < Fir.TABLE_SIZE
    ensures var r := ReadTable(buf, pos, i, num, table);
      r.Success? ==> r.value[k] == if i <= k < num then Wrap16(Value(buf, pos + 16 * (k - i), 16)) else table[k]
    decreases num - i
  {
    hide Value, Pow2, Wrap16;
    if i < num {
      var v := Read(buf, pos, 16);
      if v.Success? {
        TableLayout(buf, pos + 16, i + 1, num, table[i := Wrap16(v.value)], k);
      }
    }
  }

  /** Where the uncompressed bytes are: sample by sample, the first channel's before the second's. */
  lemma {:induction false} LowLayout(buf: seq<byte>, pos: int, i: nat, n: nat, cap: nat, bits: nat, k: nat)
    requires bits <= 24 && i <= k < n
    ensures var r := ReadLow(buf, pos, i, n, cap, bits);
      r.Success? ==>
        && r.value.0[k - i] == Value(buf, pos + 2 * bits * (k - i), bits)
        && r.value.1[k - i] == Value(buf, pos + 2 * bits * (k - i) + bits, bits)
    decreases n - i
  {
    hide Value, Pow2;
    if k > i {
      LowLayout(buf, pos + 2 * bits, i + 1, n, cap, bits, k);
      assert 2 * bits * (k - i) == 2 * bits + 2 * bits * (k - (i + 1));
    }
  }

  /** A packet for more than two channels decodes to nothing, and an empty one panics. */
  lemma OtherChannels(buf: seq<byte>, cfg: Config)
    requires cfg.InScope()
    ensures |buf| > 0 && Value(buf, 0, 3) >= 2 ==> DecodeFrame(buf, cfg) == Success([])
    ensures |buf| == 0 ==> DecodeFrame(buf, cfg) == Failure(IndexOutOfRange)
  {
    hide Value;
  }
}
