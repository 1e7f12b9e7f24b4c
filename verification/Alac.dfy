/** The decoder object of decode.go: a bit reader that can step back, the entropy decoder, and
    `decodeFrame`, each proved against the functions of a packet in BitStream, Rice and Frame. */
module Alac {
  import opened MachineInt
  import opened BitStream
  import opened Frame
  import Rice
  import Fir
  import Interlace

  class Alac {
    var inputBuffer: seq<byte>
    var inputBufferIndex: int
    var inputBufferBitaccumulator: int

    const bytesPerSample: int
    const cfg: Config

    const predicterrorBufferA: array<int32>
    const predicterrorBufferB: array<int32>
    const outputsamplesBufferA: array<int32>
    const outputsamplesBufferB: array<int32>
    const uncompressedBytesBufferA: array<int32>
    const uncompressedBytesBufferB: array<int32>

    /** What allocation establishes. Nothing is said of what the scratch buffers hold. */
    ghost predicate Valid() {
      && predicterrorBufferA.Length == predicterrorBufferB.Length == cfg.BufferLength()
      && outputsamplesBufferA.Length == outputsamplesBufferB.Length == cfg.BufferLength()
      && uncompressedBytesBufferA.Length == uncompressedBytesBufferB.Length == cfg.BufferLength()
      && predicterrorBufferA != predicterrorBufferB && outputsamplesBufferA != outputsamplesBufferB
      && uncompressedBytesBufferA != uncompressedBytesBufferB
      && {predicterrorBufferA, predicterrorBufferB} !! {outputsamplesBufferA, outputsamplesBufferB}
         !! {uncompressedBytesBufferA, uncompressedBytesBufferB}
      && bytesPerSample == (cfg.sampleSize / 8) * cfg.numChannels
    }

    constructor (config: Config)
      ensures Valid() && cfg == config
    {
      cfg := config;
      bytesPerSample := (config.sampleSize / 8) * config.numChannels;
      inputBuffer, inputBufferIndex, inputBufferBitaccumulator := [], 0, 0;
      predicterrorBufferA := new int32[config.BufferLength()](_ => 0);
      predicterrorBufferB := new int32[config.BufferLength()](_ => 0);
      outputsamplesBufferA := new int32[config.BufferLength()](_ => 0);
      outputsamplesBufferB := new int32[config.BufferLength()](_ => 0);
      uncompressedBytesBufferA := new int32[config.BufferLength()](_ => 0);
      uncompressedBytesBufferB := new int32[config.BufferLength()](_ => 0);
    }

    // ----- the bit reader -----

    /** The position in the bit stream. */
    function Pos(): int
      reads this
    {
      8 * inputBufferIndex + inputBufferBitaccumulator
    }

    ghost predicate Aligned()
      reads this
    {
      0 <= inputBufferBitaccumulator < 8
    }

    /** `readbits_16`: three bytes are put together, those past the end being zero, and the
        wanted bits shifted out of them. It is meant for 1 to 16 bits; a shift by a negative
        count is one by a huge count and leaves zero. */
    method ReadBits16(bits: int) returns (r: Result<nat>)
      requires Aligned()
      modifies this`inputBufferIndex, this`inputBufferBitaccumulator
      ensures Aligned()
      ensures r == ReadPart(inputBuffer, old(Pos()), bits)
      ensures Pos() == old(Pos()) + if r.Success? then bits else 0
    {
      hide Part, Pow2, BitAnd, BitOr, Shl32, Shr;
      if !(0 <= inputBufferIndex < |inputBuffer|) {
        return Failure(IndexOutOfRange);
      }
      ghost var b0, b1, b2 := ByteAt(inputBuffer, inputBufferIndex), ByteAt(inputBuffer, inputBufferIndex + 1),
        ByteAt(inputBuffer, inputBufferIndex + 2);
      JoinBytes(b0, b1, b2);
      JoinBytes(b0, 0, 0);
      JoinBytes(b0, b1, 0);
      var result := Shl32(inputBuffer[inputBufferIndex], 16);
      if |inputBuffer| - inputBufferIndex > 1 {
        result := BitOr(result, Shl32(inputBuffer[inputBufferIndex + 1], 8));
      }
      if |inputBuffer| - inputBufferIndex > 2 {
        result := BitOr(result, inputBuffer[inputBufferIndex + 2]);
      }
      assert result == Joined(b0, b1, b2);
      ExtractPart(inputBuffer, inputBufferIndex, inputBufferBitaccumulator, bits, result);
      result := Shl32(result, inputBufferBitaccumulator);
      result := BitAnd(result, 0x00FF_FFFF);
      r := Success(if bits > 24 then 0 else Shr(result, 24 - bits));
      var newAccumulator := inputBufferBitaccumulator + bits;
      inputBufferIndex := inputBufferIndex + newAccumulator / 8;
      inputBufferBitaccumulator := newAccumulator % 8;
    }

    /** `readbits`: up to 32 bits, in two halves when there are more than 16. */
    method ReadBits(bits: int) returns (r: Result<nat>)
      requires Aligned()
      modifies this`inputBufferIndex, this`inputBufferBitaccumulator
      ensures Aligned()
      ensures r == Read(inputBuffer, old(Pos()), bits)
      ensures r.Success? ==> Pos() == old(Pos()) + bits
    {
      hide Value, Pow2, OrSigned, Shl32, Wrap32, Part;
      PartBounds(inputBuffer, Pos());
      PartBounds(inputBuffer, Pos() + 16);
      var n := bits;
      var result: int32 := 0;
      ghost var high := 0;
      Pow2Values();
      if n > 16 {
        n := n - 16;
        var top :- ReadBits16(16);
        result := Wrap32(Shl32(top, n));
        high := top;
      }
      var low :- ReadBits16(n);
      if 0 <= bits <= 32 {
        JoinHalves(inputBuffer, old(Pos()), bits, n, high, low);
      }
      if bits < 0 {
        OrOfZeros();
      }
      result := OrSigned(result, Wrap32(low));
      return Success(ToUint32(result));
    }

    /** `readbit`. */
    method ReadBit() returns (r: Result<Bit>)
      requires Aligned()
      modifies this`inputBufferIndex, this`inputBufferBitaccumulator
      ensures Aligned()
      ensures if InRange(inputBuffer, old(Pos()))
        then r == Success(BitAt(inputBuffer, old(Pos()))) && Pos() == old(Pos()) + 1
        else r == Failure(IndexOutOfRange)
    {
      if !(0 <= inputBufferIndex < |inputBuffer|) {
        return Failure(IndexOutOfRange);
      }
      var result: int := inputBuffer[inputBufferIndex];
      ShiftedBit(result, inputBufferBitaccumulator);
      result := result * Pow2(inputBufferBitaccumulator);
      result := (result / 128) % 2;
      var newAccumulator := inputBufferBitaccumulator + 1;
      inputBufferIndex := inputBufferIndex + newAccumulator / 8;
      inputBufferBitaccumulator := newAccumulator % 8;
      return Success(result);
    }

    /** `unreadbits`. Go's `& 7` never gives a negative number, so the sign correction that
        follows it in the source is dead code. */
    method UnreadBits(bits: nat)
      requires Aligned()
      modifies this`inputBufferIndex, this`inputBufferBitaccumulator
      ensures Aligned() && Pos() == old(Pos()) - bits
      ensures inputBufferIndex == (old(Pos()) - bits) / 8 && inputBufferBitaccumulator == (old(Pos()) - bits) % 8
    {
      var newAccumulator := inputBufferBitaccumulator - bits;
      inputBufferIndex := inputBufferIndex + newAccumulator / 8;
      inputBufferBitaccumulator := newAccumulator % 8;
    }

    // ----- the entropy decoder -----

    /** `entropyDecodeValue`. */
    method EntropyDecodeValue(readSampleSize: int, k: int, riceKmodifierMask: uint32) returns (r: Result<int32>)
      requires Aligned()
      modifies this`inputBufferIndex, this`inputBufferBitaccumulator
      ensures Aligned()
      ensures match Rice.DecodeValue(inputBuffer, old(Pos()), readSampleSize, k, riceKmodifierMask)
        case Failure(e) => r == Failure(e)
        case Success((value, pos)) => r == Success(value) && Pos() == pos
    {
      hide Read, Pow2, BitAnd, BitAt, AndSigned, Wrap32, Shr, Mul32, Add32, Rice.Factor;
      var x: int := 0;
      while x <= Rice.RICE_THRESHOLD
        invariant Aligned() && 0 <= x <= Rice.RICE_THRESHOLD + 1 && Pos() == old(Pos()) + x
        invariant Rice.OnesPrefix(inputBuffer, old(Pos()), 0) == Rice.OnesPrefix(inputBuffer, Pos(), x)
        decreases Rice.RICE_THRESHOLD - x
      {
        var bit :- ReadBit();
        if bit == 0 {
          break;
        }
        x := x + 1;
      }
      assert Rice.OnesPrefix(inputBuffer, old(Pos()), 0) == Success(x);
      if x > Rice.RICE_THRESHOLD {
        var raw :- ReadBits(readSampleSize);
        var mask := if readSampleSize > 32 then 0 else Wrap32(Shr(0xFFFF_FFFF, 32 - readSampleSize));
        MaskKeepsRaw(raw, readSampleSize);
        return Success(AndSigned(Wrap32(raw), mask));
      }
      if k != 1 {
        var extraBits :- ReadBits(k);
        x := Mul32(x, Wrap32(Rice.Factor(k, riceKmodifierMask)));
        if extraBits > 1 {
          x := Add32(x, Wrap32(extraBits - 1));
        } else {
          UnreadBits(1);
        }
      }
      return Success(x);
    }

    /** `entropyRiceDecode`: one iteration of the outer loop for each value outside a zero run. */
    method EntropyRiceDecode(outputBuffer: array<int32>, outputSize: nat, readSampleSize: int, riceInitialhistory: int,
                             riceKmodifier: nat, riceHistorymult: int, riceKmodifierMask: uint32)
      returns (r: Result<()>)
      requires Aligned()
      modifies this`inputBufferIndex, this`inputBufferBitaccumulator, outputBuffer
      ensures Aligned()
      ensures match Rice.Decode(inputBuffer, Rice.Start(old(Pos()), riceInitialhistory), outputSize,
                                outputBuffer.Length,
                                Rice.Params(readSampleSize, riceKmodifier, riceHistorymult, riceKmodifierMask))
        case Failure(e) => r == Failure(e)
        case Success((samples, pos)) =>
          && r == Success(()) && Pos() == pos
          && |samples| <= outputBuffer.Length && outputBuffer[..|samples|] == samples
    {
      hide Rice.Iteration, Rice.Decode;
      var p := Rice.Params(readSampleSize, riceKmodifier, riceHistorymult, riceKmodifierMask);
      var history, signModifier, outputCount: nat := riceInitialhistory, 0, 0;
      ghost var cap := outputBuffer.Length;
      ghost var buf := inputBuffer;
      ghost var whole := Rice.Decode(buf, Rice.Start(Pos(), history), outputSize, cap, p);
      Rice.PrependTwice([], [], whole);
      assert outputBuffer[..0] == [];
      while outputCount < outputSize
        invariant Aligned() && inputBuffer == buf && outputCount <= cap
        invariant whole == Rice.Prepend(outputBuffer[..outputCount],
                     Rice.Decode(buf, Rice.State(Pos(), outputCount, history, signModifier), outputSize, cap, p))
      {
        ghost var s := Rice.State(Pos(), outputCount, history, signModifier);
        ghost var done := outputBuffer[..outputCount];
        Rice.DecodeStep(buf, s, outputSize, cap, p);
        var next :- RiceIteration(outputBuffer, outputCount, outputSize, history, signModifier, p);
        Rice.PrependTwice(done, outputBuffer[outputCount..next.count], Rice.Decode(buf, next, outputSize, cap, p));
        outputCount, history, signModifier := next.count, next.history, next.signModifier;
      }
      Rice.DecodeEnd(buf, Rice.State(Pos(), outputCount, history, signModifier), outputSize, cap, p);
      return Success(());
    }

    /** The body of that loop. `outputCount` is advanced past the sample and its zero run. */
    method RiceIteration(outputBuffer: array<int32>, outputCount: nat, outputSize: nat, priorHistory: int,
                         priorSignModifier: int, p: Rice.Params) returns (r: Result<Rice.State>)
      requires Aligned() && outputCount <= outputBuffer.Length
      modifies this`inputBufferIndex, this`inputBufferBitaccumulator, outputBuffer
      ensures Aligned()
      ensures match Rice.Iteration(inputBuffer, Rice.State(old(Pos()), outputCount, priorHistory, priorSignModifier),
                                   outputSize, outputBuffer.Length, p)
        case Failure(e) => r == Failure(e)
        case Success((next, samples)) =>
          r == Success(next) && Pos() == next.pos
          && outputBuffer[..next.count] == old(outputBuffer[..outputCount]) + samples
    {
      hide Rice.DecodeValue, Rice.SampleK, Rice.ZeroRunK, Rice.NextHistory, Rice.FinalValue, Rice.AfterSample, Wrap32,
           Rice.CountLeadingZeros, Shr;
      var k := SampleParameter(priorHistory, p.kmodifier);
      var value :- EntropyDecodeValue(p.readSampleSize, k, 0xFFFF_FFFF);
      var decodedValue := Add32(value, priorSignModifier);
      var finalValue := SignedValue(decodedValue);
      if outputCount >= outputBuffer.Length {
        return Failure(IndexOutOfRange);
      }
      outputBuffer[outputCount] := finalValue;
      var history := UpdateHistory(priorHistory, decodedValue, p.historymult);
      r := RunOfZeros(outputBuffer, outputCount, outputSize, decodedValue, history, p);
    }

    method SampleParameter(history: int, kmodifier: nat) returns (k: int)
      ensures k == Rice.SampleK(history, kmodifier)
    {
      k := 31 - kmodifier - Rice.CountLeadingZeros(Shr(history, 9) + 3);
      if k < 0 {
        k := k + kmodifier;
      } else {
        k := kmodifier;
      }
    }

    method UpdateHistory(priorHistory: int, decodedValue: int32, historymult: int) returns (history: int)
      ensures history == Rice.NextHistory(priorHistory, decodedValue, historymult)
    {
      history := priorHistory + decodedValue * historymult - Shr(priorHistory * historymult, 9);
      if decodedValue > 0xFFFF {
        history := 0xFFFF;
      }
    }

    method SignedValue(decodedValue: int32) returns (finalValue: int32)
      ensures finalValue == Rice.FinalValue(decodedValue)
    {
      finalValue := Quo(Add32(decodedValue, 1), 2);
      if decodedValue % 2 != 0 {
        finalValue := Mul32(finalValue, -1);
      }
    }

    /** The end of the iteration: below a mean of 128 a run length follows and that many zeros are stored. */
    method RunOfZeros(outputBuffer: array<int32>, outputCount: nat, outputSize: nat, ghost decodedValue: int32,
                      history: int, p: Rice.Params) returns (r: Result<Rice.State>)
      requires Aligned() && outputCount < outputBuffer.Length
      requires outputBuffer[outputCount] == Rice.FinalValue(decodedValue)
      modifies this`inputBufferIndex, this`inputBufferBitaccumulator, outputBuffer
      ensures Aligned()
      ensures match Rice.AfterSample(inputBuffer, old(Pos()), outputCount, decodedValue, history, outputSize,
                                     outputBuffer.Length, p)
        case Failure(e) => r == Failure(e)
        case Success((next, samples)) =>
          r == Success(next) && Pos() == next.pos
          && outputBuffer[..next.count] == old(outputBuffer[..outputCount]) + samples
    {
      hide Rice.DecodeValue, Rice.FinalValue, Rice.CountLeadingZeros, Wrap32;
      if history < 128 && outputCount + 1 < outputSize {
        var k := Rice.CountLeadingZeros(history) + Quo(Add32(Wrap32(history), 16), 64) - 24;
        var signModifier := 1;
        var blockSize :- EntropyDecodeValue(16, k, p.mask);
        ghost var zeros := if blockSize > 0 then blockSize else 0;
        if blockSize > 0 {
          var i := outputCount + 1;
          while i < outputCount + 1 + blockSize
            invariant outputCount + 1 <= i <= outputCount + 1 + blockSize && i <= outputBuffer.Length
            invariant outputBuffer[..outputCount + 1] == old(outputBuffer[..outputCount + 1])
            invariant forall j :: outputCount + 1 <= j < i ==> outputBuffer[j] == 0
            modifies outputBuffer
          {
            if i >= outputBuffer.Length {
              return Failure(IndexOutOfRange);
            }
            outputBuffer[i] := 0;
            i := i + 1;
          }
        }
        if blockSize > 0xFFFF {
          signModifier := 0;
        }
        assert outputBuffer[..outputCount + 1 + zeros]
            == old(outputBuffer[..outputCount]) + ([Rice.FinalValue(decodedValue)] + Rice.ZeroSamples(zeros));
        var advance := if blockSize > 0 then blockSize else 0;
        return Success(Rice.State(Pos(), outputCount + 1 + advance, 0, signModifier));
      }
      assert outputBuffer[..outputCount + 1] == old(outputBuffer[..outputCount]) + [Rice.FinalValue(decodedValue)];
      return Success(Rice.State(Pos(), outputCount + 1, history, 0));
    }

    // ----- decodeFrame -----

    /** `decodeFrame`. The result is the value Frame.DecodeFrame gives for the packet, whatever
        earlier packets left in the scratch buffers and whatever the reader's state was. */
    method DecodeFrame(inbuffer: seq<byte>) returns (r: Result<seq<byte>>)
      requires Valid()
      modifies this, predicterrorBufferA, predicterrorBufferB, outputsamplesBufferA, outputsamplesBufferB,
               uncompressedBytesBufferA, uncompressedBytesBufferB
      ensures r == Frame.DecodeFrame(inbuffer, cfg)
    {
      hide Frame.DecodeCompressed, Frame.DecodeVerbatim, Frame.ReadHeader, Read;
      if !cfg.InScope() {
        return Failure(Unmodelled);
      }
      inputBuffer := inbuffer;
      inputBufferIndex := 0;
      inputBufferBitaccumulator := 0;
      var channels :- ReadBits(3);
      if channels == 0 {
        return Failure(Unmodelled);
      } else if channels == 1 {
        var h :- ReadFrameHeader();
        if h.compressed {
          r := DecodeCompressedStereo(h);
        } else {
          r := DecodeVerbatimStereo(h);
        }
      } else {
        return Success([]);
      }
    }

    /** The fields up to the sample count. */
    method ReadFrameHeader() returns (r: Result<Header>)
      requires Aligned() && Pos() == 3
      modifies this`inputBufferIndex, this`inputBufferBitaccumulator
      ensures Aligned() && r == Frame.ReadHeader(inputBuffer, cfg)
      ensures r.Success? ==> Pos() == r.value.pos
    {
      hide Read, Pow2;
      Pow2Values();
      var outputSamples := cfg.maxSamplesPerFrame;
      var _ :- ReadBits(4);
      var _ :- ReadBits(12);
      var hasSize :- ReadBits(1);
      var uncompressedBytes :- ReadBits(2);
      var isNotCompressed :- ReadBits(1);
      if hasSize != 0 {
        outputSamples :- ReadBits(32);
      }
      return Success(Header(outputSamples, uncompressedBytes, isNotCompressed == 0, Pos()));
    }

    /** One channel's predictor and rice settings and its coefficient table. */
    method ReadChannelHeader() returns (r: Result<Channel>)
      requires Aligned()
      modifies this`inputBufferIndex, this`inputBufferBitaccumulator
      ensures Aligned()
      ensures var spec := Frame.ReadChannel(inputBuffer, old(Pos()));
        if spec.Failure? then r == Failure(spec.error) else r == Success(spec.value.0) && Pos() == spec.value.1
    {
      hide Read, Pow2, Wrap16;
      Pow2Values();
      var predictionType :- ReadBits(4);
      var quantization :- ReadBits(4);
      var riceModifier :- ReadBits(3);
      var coefNum :- ReadBits(5);
      var table := Frame.ZeroTable();
      var i := 0;
      while i < coefNum
        invariant 0 <= i <= coefNum && Aligned() && Pos() == old(Pos()) + 16 + 16 * i
        invariant ReadTable(inputBuffer, old(Pos()) + 16, 0, coefNum, Frame.ZeroTable())
               == ReadTable(inputBuffer, Pos(), i, coefNum, table)
      {
        var v :- ReadBits(16);
        table := table[i := Wrap16(v)];
        i := i + 1;
      }
      return Success(Channel(predictionType, quantization, riceModifier, coefNum, table));
    }

    /** The uncompressed low bytes of all samples, channel by channel. */
    method ReadLowBytes(n: nat, uncompressedBytes: nat) returns (r: Result<()>)
      requires Valid() && Aligned() && 1 <= uncompressedBytes <= 3
      modifies this`inputBufferIndex, this`inputBufferBitaccumulator, uncompressedBytesBufferA, uncompressedBytesBufferB
      ensures Aligned()
      ensures var spec := ReadLow(inputBuffer, old(Pos()), 0, n, cfg.BufferLength(), 8 * uncompressedBytes);
        if spec.Failure? then r == Failure(spec.error)
        else && r == Success(()) && Pos() == old(Pos()) + 2 * (8 * uncompressedBytes) * n && n <= cfg.BufferLength()
             && uncompressedBytesBufferA[..n] == spec.value.0 && uncompressedBytesBufferB[..n] == spec.value.1
    {
      hide Read, Pow2;
      var bits, i := 8 * uncompressedBytes, 0;
      var cap := cfg.BufferLength();
      Pow2Values();
      Pow2Monotone(bits, 24);
      ghost var whole := ReadLow(inputBuffer, Pos(), 0, n, cap, bits);
      PrependPairTwice([], [], 0, 0, whole);
      assert uncompressedBytesBufferA[..0] == [] && uncompressedBytesBufferB[..0] == [];
      while i < n
        invariant 0 <= i <= n && i <= cap && Aligned() && Pos() == old(Pos()) + 2 * bits * i
        invariant whole == PrependPair(uncompressedBytesBufferA[..i], uncompressedBytesBufferB[..i],
                                       ReadLow(inputBuffer, Pos(), i, n, cap, bits))
      {
        ghost var doneA, doneB, next := uncompressedBytesBufferA[..i], uncompressedBytesBufferB[..i], Pos() + 2 * bits;
        var a :- ReadBits(bits);
        if i >= uncompressedBytesBufferA.Length {
          return Failure(IndexOutOfRange);
        }
        uncompressedBytesBufferA[i] := a;
        var b :- ReadBits(bits);
        uncompressedBytesBufferB[i] := b;
        PrependPairTwice(doneA, doneB, a, b, ReadLow(inputBuffer, next, i + 1, n, cap, bits));
        assert uncompressedBytesBufferA[..i + 1] == doneA + [a] && uncompressedBytesBufferB[..i + 1] == doneB + [b];
        NextMultiple(2 * bits, i);
        i := i + 1;
      }
      PrependPairTwice(uncompressedBytesBufferA[..n], uncompressedBytesBufferB[..n], 0, 0, whole);
      return Success(());
    }

    /** Entropy decoding and prediction of one channel. */
    method DecodeChannelInto(errorBuffer: array<int32>, outputBuffer: array<int32>, n: nat, channel: Channel,
                             readSampleSize: int) returns (r: Result<()>)
      requires Aligned() && cfg.InScope() && errorBuffer != outputBuffer
      requires errorBuffer.Length == outputBuffer.Length == cfg.BufferLength()
      requires channel.coefNum <= Fir.MAX_COEF_NUM && channel.riceModifier <= 7
      modifies this`inputBufferIndex, this`inputBufferBitaccumulator, errorBuffer, outputBuffer
      ensures Aligned()
      ensures var spec := Frame.DecodeChannel(inputBuffer, old(Pos()), n, cfg, channel, readSampleSize);
        if spec.Failure? then r == Failure(spec.error)
        else r == Success(()) && Pos() == spec.value.1 && outputBuffer[..n] == spec.value.0
    {
      hide Rice.Decode, Rice.RiceMask, Fir.Run;
      var historymult := channel.riceModifier * cfg.riceHistorymult / 4;
      ghost var p := cfg.RiceParams(readSampleSize, channel.riceModifier);
      var _ :- EntropyRiceDecode(errorBuffer, n, readSampleSize, cfg.riceInitialhistory, cfg.riceKmodifier,
                                 historymult, Rice.RiceMask(cfg.riceKmodifier));
      if outputBuffer.Length <= WarmUp(channel.coefNum) {
        return Failure(IndexOutOfRange);
      }
      ghost var start := Rice.Start(old(Pos()), cfg.riceInitialhistory);
      ghost var errors := Rice.Decode(inputBuffer, start, n, cfg.BufferLength(), p).value.0;
      assert errorBuffer[..n] == errors[..n] by {
        assert errorBuffer[..n] == errorBuffer[..|errors|][..n];
      }
      Fir.PredictorDecompressFirAdapt(errorBuffer, outputBuffer, n, readSampleSize, channel.table, channel.coefNum,
                                      channel.quantization);
      return Success(());
    }

    method DecodeCompressedStereo(h: Header) returns (r: Result<seq<byte>>)
      requires Valid() && Aligned() && cfg.InScope() && Pos() == h.pos && h.uncompressedBytes <= 3
      modifies this`inputBufferIndex, this`inputBufferBitaccumulator, predicterrorBufferA, predicterrorBufferB,
               outputsamplesBufferA, outputsamplesBufferB, uncompressedBytesBufferA, uncompressedBytesBufferB
      ensures r == Frame.DecodeCompressed(inputBuffer, cfg, h)
    {
      hide Read, Frame.ReadChannel, ReadLow, Frame.DecodeChannel, Output;
      var readSampleSize := cfg.sampleSize - h.uncompressedBytes * 8 + 1;
      var interlacingShift :- ReadBits(8);
      var interlacingLeftweight :- ReadBits(8);
      var channelA :- ReadChannelHeader();
      var channelB :- ReadChannelHeader();
      if channelA.predictionType != 0 || channelB.predictionType != 0 {
        return Failure(Unmodelled);
      }
      if h.uncompressedBytes != 0 {
        var _ :- ReadLowBytes(h.samples, h.uncompressedBytes);
      }
      var _ :- DecodeChannelInto(predicterrorBufferA, outputsamplesBufferA, h.samples, channelA, readSampleSize);
      var _ :- DecodeChannelInto(predicterrorBufferB, outputsamplesBufferB, h.samples, channelB, readSampleSize);
      var out := WriteOutput(h.samples, h.uncompressedBytes, interlacingShift, interlacingLeftweight);
      return Success(out);
    }

    method DecodeVerbatimStereo(h: Header) returns (r: Result<seq<byte>>)
      requires Valid() && Aligned() && cfg.InScope() && Pos() == h.pos
      modifies this`inputBufferIndex, this`inputBufferBitaccumulator, outputsamplesBufferA, outputsamplesBufferB
      ensures r == Frame.DecodeVerbatim(inputBuffer, cfg, h)
    {
      hide ReadSample, Output;
      var n, cap, i, size := h.samples, cfg.BufferLength(), 0, cfg.sampleSize;
      ghost var whole := ReadSamples(inputBuffer, Pos(), 0, n, cap, size);
      PrependPairTwice([], [], 0, 0, whole);
      assert outputsamplesBufferA[..0] == [] && outputsamplesBufferB[..0] == [];
      while i < n
        invariant 0 <= i <= n && i <= cap && Aligned()
        invariant whole == PrependPair(outputsamplesBufferA[..i], outputsamplesBufferB[..i],
                                       ReadSamples(inputBuffer, Pos(), i, n, cap, size))
      {
        ghost var doneA, doneB, next := outputsamplesBufferA[..i], outputsamplesBufferB[..i], Pos() + 2 * size;
        var audiobitsA :- ReadAudiobits();
        var audiobitsB :- ReadAudiobits();
        if i >= outputsamplesBufferA.Length {
          return Failure(IndexOutOfRange);
        }
        outputsamplesBufferA[i] := audiobitsA;
        outputsamplesBufferB[i] := audiobitsB;
        PrependPairTwice(doneA, doneB, audiobitsA, audiobitsB, ReadSamples(inputBuffer, next, i + 1, n, cap, size));
        assert outputsamplesBufferA[..i + 1] == doneA + [audiobitsA];
        assert outputsamplesBufferB[..i + 1] == doneB + [audiobitsB];
        i := i + 1;
      }
      PrependPairTwice(outputsamplesBufferA[..n], outputsamplesBufferB[..n], 0, 0, whole);
      var out := WriteOutput(n, 0, 0, 0);
      return Success(out);
    }

    /** One verbatim sample of either size. */
    method ReadAudiobits() returns (r: Result<int32>)
      requires Aligned() && cfg.InScope()
      modifies this`inputBufferIndex, this`inputBufferBitaccumulator
      ensures Aligned() && r == ReadSample(inputBuffer, old(Pos()), cfg.sampleSize)
      ensures r.Success? ==> Pos() == old(Pos()) + cfg.sampleSize
    {
      hide Read, Wrap32, OrSigned, ShlSigned, SignExtended32, SignExtend24;
      if cfg.sampleSize <= 16 {
        var bits :- ReadBits(cfg.sampleSize);
        return Success(SignExtended32(Wrap32(bits), cfg.sampleSize));
      }
      var high :- ReadBits(16);
      var audiobits := ShlSigned(Wrap32(high), cfg.sampleSize - 16);
      var low :- ReadBits(cfg.sampleSize - 16);
      audiobits := OrSigned(audiobits, Wrap32(low));
      return Success(SignExtend24(audiobits));
    }

    /** The output buffer and the deinterlacer for the sample size. */
    method WriteOutput(n: nat, uncompressedBytes: nat, interlacingShift: nat, interlacingLeftweight: nat)
      returns (out: seq<byte>)
      requires Valid() && cfg.InScope() && n <= cfg.BufferLength() && uncompressedBytes <= 3
      ensures out == Output(cfg, outputsamplesBufferA[..n], outputsamplesBufferB[..n], uncompressedBytes,
                            if uncompressedBytes > 0 then uncompressedBytesBufferA[..n] else [],
                            if uncompressedBytes > 0 then uncompressedBytesBufferB[..n] else [],
                            n, interlacingShift, interlacingLeftweight)
    {
      hide Interlace.Pcm16, Interlace.Pcm24, Interlace.Pcm16Into, Interlace.Pcm24Into;
      var outbuffer := new byte[n * bytesPerSample](_ => 0);
      ghost var zeros := outbuffer[..];
      if cfg.sampleSize == 16 {
        Interlace.Deinterlace16(outputsamplesBufferA, outputsamplesBufferB, outbuffer, cfg.numChannels, n,
                                interlacingShift, interlacingLeftweight);
        Interlace.Pcm16Packed(zeros, outputsamplesBufferA[..], outputsamplesBufferB[..], n, interlacingShift,
                              interlacingLeftweight);
        Interlace.Pcm16Prefix(outputsamplesBufferA[..], outputsamplesBufferB[..], n, n, interlacingShift,
                              interlacingLeftweight);
      } else {
        Interlace.Deinterlace24(outputsamplesBufferA, outputsamplesBufferB, uncompressedBytes, uncompressedBytesBufferA,
                                uncompressedBytesBufferB, outbuffer, cfg.numChannels, n, interlacingShift,
                                interlacingLeftweight);
        Interlace.Pcm24Packed(zeros, outputsamplesBufferA[..], outputsamplesBufferB[..], uncompressedBytes,
                              uncompressedBytesBufferA[..], uncompressedBytesBufferB[..], n, interlacingShift,
                              interlacingLeftweight);
        Interlace.Pcm24Prefix(outputsamplesBufferA[..], outputsamplesBufferB[..], uncompressedBytes,
                              uncompressedBytesBufferA[..], uncompressedBytesBufferB[..],
                              if uncompressedBytes > 0 then uncompressedBytesBufferA[..n] else [],
                              if uncompressedBytes > 0 then uncompressedBytesBufferB[..n] else [],
                              n, n, interlacingShift, interlacingLeftweight);
      }
      out := outbuffer[..];
    }
  }

  lemma NextMultiple(step: int, i: int)
    ensures step * (i + 1) == step * i + step
  {
  }

  function ByteAt(buf: seq<byte>, i: int): byte {
    if 0 <= i < |buf| then buf[i] else 0
  }

  function Joined(b0: int, b1: int, b2: int): int {
    0x1_0000 * b0 + 0x100 * b1 + b2
  }

  lemma JoinBytes(b0: byte, b1: byte, b2: byte)
    ensures Shl32(b0, 16) == Joined(b0, 0, 0)
    ensures BitOr(Shl32(b0, 16), Shl32(b1, 8)) == Joined(b0, b1, 0)
    ensures BitOr(Joined(b0, b1, 0), b2) == Joined(b0, b1, b2)
  {
    hide BitOr, BitAnd, Pow2, Shl32, ToUint32;
    Pow2Values();
    ShlByte(b0, 16, 0x1_0000);
    ShlByte(b1, 8, 0x100);
    assert Shl32(b0, 16) == Joined(b0, 0, 0) && Shl32(b1, 8) == Joined(0, b1, 0);
    OrInto(Joined(b0, 0, 0), b0, Joined(0, b1, 0), 16, 0x1_0000);
    OrInto(Joined(b0, b1, 0), Joined(0, b0, b1), b2, 8, 0x100);
  }

  lemma ShlByte(b: byte, n: nat, m: int)
    requires m == Pow2(n) && m <= 0x1_0000
    ensures Shl32(b, n) == b * m
  {
    hide Pow2;
    MulMono(b, 0xFF, m);
    MulMono(0, b, m);
    DivUnique(b * m, 0x1_0000_0000, 0, b * m);
  }

  lemma OrInto(z: nat, x: nat, y: nat, n: nat, m: int)
    requires m == Pow2(n) && z == x * m && y < m
    ensures BitOr(z, y) == z + y
  {
    BitOrDisjoint(x, y, n);
  }

  lemma WindowIsValue(buf: seq<byte>, i: int)
    ensures Value(buf, 8 * i, 24) == Joined(ByteAt(buf, i), ByteAt(buf, i + 1), ByteAt(buf, i + 2))
  {
    hide Value, Pow2;
    Pow2Values();
    ValueInByte(buf, i, 8);
    ValueInByte(buf, i + 1, 8);
    ValueInByte(buf, i + 2, 8);
    ValueSplit(buf, 8 * i, 8, 8);
    ValueSplit(buf, 8 * i, 16, 8);
  }

  /** Shifting the 24-bit window left past the bits already read, and right again. */
  lemma ExtractBits(buf: seq<byte>, i: int, acc: nat, bits: nat, w: uint32)
    requires acc < 8 && bits <= 16
    requires w == Joined(ByteAt(buf, i), ByteAt(buf, i + 1), ByteAt(buf, i + 2))
    ensures Shl32(w, acc) == w * Pow2(acc)
    ensures BitAnd(Shl32(w, acc), 0x00FF_FFFF) < 0x100_0000
    ensures Shr(BitAnd(Shl32(w, acc), 0x00FF_FFFF), 24 - bits) == Value(buf, 8 * i + acc, bits)
  {
    hide Value, Pow2, BitAnd, Joined, ByteAt, Shl32, Shr, ToUint32;
    var p := 8 * i;
    var rest := 24 - acc - bits;
    WindowIsValue(buf, i);
    ValueSplit(buf, p, acc, 24 - acc);
    ValueSplit(buf, p + acc, bits, rest);
    ValueBound(buf, p, 24);
    ValueBound(buf, p + acc, 24 - acc);
    ValueBound(buf, p + acc + bits, rest);
    Pow2Values();
    Pow2Monotone(acc, 8);
    Pow2Add(24 - acc, acc);
    Pow2Add(rest, acc);
    var high, want, low := Value(buf, p, acc), Value(buf, p + acc, bits), Value(buf, p + acc + bits, rest);
    ExtractArith(w, high, want, low, Pow2(acc), Pow2(24 - acc), Pow2(rest), Pow2(24 - bits));
    ShlFits(w, acc);
    BitAndMask(w * Pow2(acc), 24);
    ShrIsQuotient((w * Pow2(acc)) % 0x100_0000, 24 - bits);
  }

  /** The same for any number of bits. */
  lemma ExtractPart(buf: seq<byte>, i: int, acc: nat, bits: int, w: uint32)
    requires acc < 8
    requires w == Joined(ByteAt(buf, i), ByteAt(buf, i + 1), ByteAt(buf, i + 2))
    ensures BitAnd(Shl32(w, acc), 0x00FF_FFFF) < 0x100_0000
    ensures (if bits > 24 then 0 else Shr(BitAnd(Shl32(w, acc), 0x00FF_FFFF), 24 - bits))
         == Part(buf, 8 * i + acc, bits)
  {
    hide Value, Pow2, BitAnd, Joined, ByteAt, Shl32, Shr, ToUint32;
    ExtractBits(buf, i, acc, if 0 <= bits <= 16 then bits else 0, w);
    Pow2Values();
    BitAndMask(Shl32(w, acc), 24);
    WindowIsValue(buf, i);
    if bits < 0 {
      Pow2Monotone(24, 24 - bits);
      ShrIsQuotient(BitAnd(Shl32(w, acc), 0x00FF_FFFF), 24 - bits);
      DivUnique(BitAnd(Shl32(w, acc), 0x00FF_FFFF), Pow2(24 - bits), 0, BitAnd(Shl32(w, acc), 0x00FF_FFFF));
    } else if 16 < bits <= 24 {
      ShrIsQuotient(BitAnd(Shl32(w, acc), 0x00FF_FFFF), 24 - bits);
    }
  }

  lemma ShlFits(w: uint32, n: nat)
    requires w * Pow2(n) < 0x1_0000_0000
    ensures Shl32(w, n) == w * Pow2(n)
  {
    MulMono(0, w, Pow2(n));
  }

  lemma ShrIsQuotient(x: int, n: nat)
    ensures Shr(x, n) == x / Pow2(n)
  {
  }

  lemma ExtractArith(w: nat, high: nat, want: nat, low: nat, a: nat, c: nat, d: nat, e: nat)
    requires a > 0 && d > 0 && c * a == 0x100_0000 && d * a == e && low < d && a <= 0x100
    requires w == high * c + (want * d + low) && want * d + low < c && w < 0x100_0000
    ensures w * a < 0x1_0000_0000
    ensures ((w * a) % 0x100_0000) / e == want
  {
    var x := want * d + low;
    MulMono(w, 0xFF_FFFF, a);
    MulMono(a, 0x100, 0xFF_FFFF);
    MulMono(0, x, a);
    MulMono(x, c - 1, a);
    assert (c - 1) * a == 0x100_0000 - a;
    assert w * a == high * 0x100_0000 + x * a by { assert (high * c) * a == high * (c * a); }
    DivUnique(w * a, 0x100_0000, high, x * a);
    MulMono(0, low, a);
    MulMono(low, d - 1, a);
    assert (d - 1) * a == e - a;
    assert x * a == want * e + low * a by { assert (want * d) * a == want * (d * a); }
    DivUnique(x * a, e, want, low * a);
  }

  lemma PartBounds(buf: seq<byte>, pos: int)
    ensures Part(buf, pos, 16) == Value(buf, pos, 16) < 0x1_0000
    ensures forall n :: 0 <= n <= 16 ==> Part(buf, pos, n) == Value(buf, pos, n)
    ensures forall n :: n < 0 ==> Part(buf, pos, n) == 0
  {
    Pow2Values();
    ValueBound(buf, pos, 16);
  }

  lemma OrOfZeros()
    ensures ToUint32(OrSigned(0, Wrap32(0))) == 0
  {
    hide BitOr;
    BitOrZero(0);
  }

  /** The two halves of a long read, or a short read or-ed into zero. */
  lemma JoinHalves(buf: seq<byte>, pos: int, bits: nat, n: nat, high: nat, low: nat)
    requires bits <= 32 && n == (if bits > 16 then bits - 16 else bits)
    requires high < 0x1_0000 && high == (if bits > 16 then Value(buf, pos, 16) else 0)
    requires low == Value(buf, pos + (bits - n), n)
    ensures var result := if bits > 16 then Wrap32(Shl32(high, n)) else 0;
      ToUint32(OrSigned(result, Wrap32(low))) == Value(buf, pos, bits)
  {
    hide Value, Pow2, BitOr;
    Pow2Values();
    Pow2Monotone(n, 16);
    ValueBound(buf, pos, 16);
    ValueBound(buf, pos + (bits - n), n);
    if bits > 16 {
      ValueSplit(buf, pos, 16, n);
    }
    MulMono(high, 0xFFFF, Pow2(n));
    MulMono(Pow2(n), 0x1_0000, 0xFFFF);
    MulMono(0, high, Pow2(n));
    BitOrDisjoint(high, low, n);
    JoinedWord(high * Pow2(n), low);
  }

  lemma JoinedWord(top: nat, low: nat)
    requires top + low < 0x1_0000_0000 && BitOr(top, low) == top + low
    ensures ToUint32(top) == top && ToUint32(OrSigned(Wrap32(top), Wrap32(low))) == top + low
  {
    hide BitOr, Wrap32;
    Interlace.WrapToUint(top);
    Interlace.WrapToUint(low);
    Interlace.WrapToUint(top + low);
    SmallWord(top);
    SmallWord(low);
    SmallWord(top + low);
  }

  lemma SmallWord(x: nat)
    requires x < 0x1_0000_0000
    ensures x % 0x1_0000_0000 == x
  {
  }

  lemma ShiftedBit(b: nat, acc: nat)
    requires acc < 8
    ensures ((b * Pow2(acc)) / 128) % 2 == BitOfByte(b, acc)
  {
    hide Pow2, BitOfByte;
    Pow2Values();
    BitOfByteIsQuotient(b, acc);
    Pow2Add(7 - acc, acc);
    ShiftedQuotient(b, Pow2(acc), Pow2(7 - acc));
  }

  lemma ShiftedQuotient(b: nat, p: nat, c: nat)
    requires p > 0 && c > 0 && c * p == 128
    ensures (b * p) / 128 == b / c
  {
    var q, r := b / c, b % c;
    DivMod(b, c);
    assert b * p == q * 128 + r * p by {
      assert (q * c + r) * p == q * (c * p) + r * p;
    }
    MulMono(0, r, p);
    MulMono(r, c - 1, p);
    assert (c - 1) * p == 128 - p;
    DivUnique(b * p, 128, q, r * p);
  }

  /** The mask after a raw value: it keeps the value, or clears it for a width outside 1..32. */
  lemma MaskKeepsRaw(raw: nat, bits: int)
    requires 1 <= bits <= 32 ==> raw < Pow2(bits)
    ensures AndSigned(Wrap32(raw), if bits > 32 then 0 else Wrap32(Shr(0xFFFF_FFFF, 32 - bits)))
         == if 1 <= bits <= 32 then Wrap32(raw) else 0
  {
    hide Pow2, BitAnd, Wrap32;
    if 1 <= bits <= 32 {
      MaskOfWidth(raw, bits);
    } else {
      if bits <= 0 {
        Pow2Values();
        Pow2Monotone(32, 32 - bits);
        DivUnique(0xFFFF_FFFF, Pow2(32 - bits), 0, 0xFFFF_FFFF);
      }
      ClearingMask(Wrap32(raw));
    }
  }

  lemma ClearingMask(x: int32)
    ensures Wrap32(0) == 0 && AndSigned(x, 0) == 0
  {
    BitAndMask(ToUint32(x), 0);
  }

  lemma MaskOfWidth(raw: nat, bits: int)
    requires 1 <= bits <= 32 && raw < Pow2(bits)
    ensures AndSigned(Wrap32(raw), Wrap32(Shr(0xFFFF_FFFF, 32 - bits))) == Wrap32(raw)
  {
    hide Pow2, BitAnd, Wrap32;
    Pow2Values();
    var c, m := Pow2(32 - bits), Pow2(bits);
    assert Shr(0xFFFF_FFFF, 32 - bits) == m - 1 by {
      Pow2Add(32 - bits, bits);
      assert 0xFFFF_FFFF == (m - 1) * c + (c - 1);
      DivUnique(0xFFFF_FFFF, c, m - 1, c - 1);
    }
    Pow2Monotone(bits, 32);
    BitAndMask(raw, bits);
    DivUnique(raw, m, 0, raw);
    Interlace.WrapToUint(raw);
    Interlace.WrapToUint(m - 1);
    SmallWord(raw);
    SmallWord(m - 1);
  }
}
