/** Frames that are not compressed: which bits of the packet the output bytes are. */
module Verbatim {
  import opened MachineInt
  import opened BitStream
  import opened Frame
  import Interlace

  /** A non-compressed stereo frame whose header can be read: the position of its samples is 23,
      or 55 when their number is given. */
  ghost predicate IsVerbatim(packet: seq<byte>, cfg: Config, at: int, n: nat) {
    && cfg.InScope() && |packet| >= 3 && Value(packet, 0, 3) == 1 && Value(packet, 22, 1) == 1
    && if Value(packet, 19, 1) == 1
       then at == 55 && |packet| >= 5 && n == Value(packet, 23, 32)
       else at == 23 && n == cfg.maxSamplesPerFrame
  }

  /** The stream's raw samples in little-endian order. */
  function RawPcm(packet: seq<byte>, at: int, n: nat, size: nat): seq<byte> {
    if n == 0 then [] else
    RawPcm(packet, at, n - 1, size)
    + (Interlace.LittleEndian(Value(packet, at + 2 * size * (n - 1), size), size / 8)
       + Interlace.LittleEndian(Value(packet, at + 2 * size * (n - 1) + size, size), size / 8))
  }

  /** Every read of n sample pairs starts inside the packet. The last read is of the low 8 bits of
      a 24-bit sample, or of a whole 16-bit one. */
  predicate LongEnough(packet: seq<byte>, at: int, n: nat, size: nat) {
    n == 0 || at + 2 * size * (n - 1) + size + (if size == 24 then 16 else 0) < 8 * |packet|
  }

  /** Which bits each output byte is: byte k of sample i of channel c is the eight bits that end 8 * k
      bits before the end of that sample in the stream. */
  lemma {:induction false} RawLayout(packet: seq<byte>, at: int, n: nat, size: nat, i: nat, c: nat, k: nat)
    requires (size == 16 || size == 24) && i < n && c < 2 && k < size / 8
    ensures |RawPcm(packet, at, n, size)| == 2 * (size / 8) * n && 2 * (size / 8) * (i + 1) <= 2 * (size / 8) * n
    ensures RawPcm(packet, at, n, size)[2 * (size / 8) * i + c * (size / 8) + k]
         == Value(packet, at + 2 * size * i + c * size + size - 8 * (k + 1), 8)
    decreases n
  {
    hide Value, Interlace.LittleEndian, RawPcm;
    var bytes := size / 8;
    var pos := at + 2 * size * (n - 1);
    var front := RawPcm(packet, at, n - 1, size);
    var left, right := RawSample(packet, pos, size), RawSample(packet, pos + size, size);
    RawFront(packet, at, n, size);
    assert |front| == 2 * bytes * (n - 1) by {
      if n > 1 { RawLayout(packet, at, n - 1, size, 0, 0, 0); } else { RawNothing(packet, at, size); }
    }
    if i < n - 1 {
      RawLayout(packet, at, n - 1, size, i, c, k);
      assert (front + (left + right))[2 * bytes * i + c * bytes + k] == front[2 * bytes * i + c * bytes + k];
    } else {
      RawByte(packet, pos, bytes, k);
      RawByte(packet, pos + size, bytes, k);
      InLastPair(front, left, right, c, k);
    }
  }

  function RawSample(packet: seq<byte>, pos: int, size: nat): (s: seq<byte>)
    ensures |s| == size / 8
  {
    Interlace.LittleEndian(Value(packet, pos, size), size / 8)
  }

  lemma RawNothing(packet: seq<byte>, at: int, size: nat)
    ensures RawPcm(packet, at, 0, size) == []
  {
  }

  lemma RawFront(packet: seq<byte>, at: int, n: nat, size: nat)
    requires n > 0
    ensures var pos := at + 2 * size * (n - 1);
      RawPcm(packet, at, n, size)
      == RawPcm(packet, at, n - 1, size) + (RawSample(packet, pos, size) + RawSample(packet, pos + size, size))
  {
    hide Value, Interlace.LittleEndian;
  }

  lemma InLastPair(front: seq<byte>, left: seq<byte>, right: seq<byte>, c: nat, k: nat)
    requires |left| == |right| && k < |left| && c < 2
    ensures c * |left| + k < 2 * |left|
    ensures (front + (left + right))[|front| + c * |left| + k] == if c == 0 then left[k] else right[k]
  {
  }

  lemma RawByte(packet: seq<byte>, pos: int, bytes: nat, k: nat)
    requires k < bytes
    ensures Interlace.LittleEndian(Value(packet, pos, 8 * bytes), bytes)[k]
         == Value(packet, pos + 8 * bytes - 8 * (k + 1), 8)
  {
    hide Value, Pow2;
    Pow2Values();
    var low, high := 8 * k, 8 * (bytes - 1 - k);
    Interlace.LittleEndianByte(Value(packet, pos, 8 * bytes), bytes, k);
    ValueSplit(packet, pos, high + 8, low);
    ValueSplit(packet, pos, high, 8);
    ValueBound(packet, pos + (high + 8), low);
    ValueBound(packet, pos + high, 8);
    DivUnique(Value(packet, pos, 8 * bytes), Pow2(low), Value(packet, pos, high + 8),
              Value(packet, pos + (high + 8), low));
    DivUnique(Value(packet, pos, high + 8), 256, Value(packet, pos, high), Value(packet, pos + high, 8));
  }

  /** A raw sample as a signed number. */
  function SampleAt(packet: seq<byte>, at: int, size: nat): (x: int32)
    requires 1 <= size <= 32
  {
    Pow2Values();
    Pow2Monotone(size - 1, 31);
    Pow2Add(24, 7);
    WrapBits(Value(packet, at, size), size)
  }

  /** The first n samples of both channels are the raw ones from `at` on. */
  ghost predicate AreSamples(a: seq<int32>, b: seq<int32>, packet: seq<byte>, at: int, n: nat, size: nat)
    requires 1 <= size <= 32 && n <= |a| && n <= |b|
  {
    forall j :: 0 <= j < n ==>
      (a[j] == SampleAt(packet, at + 2 * size * j, size) && b[j] == SampleAt(packet, at + 2 * size * j + size, size))
  }

  lemma SampleReads(packet: seq<byte>, pos: int, size: nat)
    requires (size == 16 || size == 24) && pos >= 0
    ensures ReadSample(packet, pos, size)
         == if pos + (if size == 24 then 16 else 0) < 8 * |packet| then Success(SampleAt(packet, pos, size))
            else Failure(IndexOutOfRange)
  {
    hide Pow2, Value, BitOr, Wrap32, WrapBits, SignExtended32;
    Pow2Values();
    ValueBound(packet, pos, 16);
    ValueBound(packet, pos + 16, 8);
    ValueBound(packet, pos, 24);
    ValueSplit(packet, pos, 16, 8);
    WrapIdentity(Value(packet, pos, 16));
    WrapIdentity(Value(packet, pos + 16, 8));
    WrapIdentity(Value(packet, pos, 24));
    if size == 24 {
      WrapIdentity(Value(packet, pos, 16) * 0x100);
      BitOrDisjoint(Value(packet, pos, 16), Value(packet, pos + 16, 8), 8);
      SignExtendedIsWrap(Value(packet, pos, 24), 24);
    }
  }

  /** Some i-th read of the remaining pairs fails, or all of them give the raw samples. */
  lemma {:induction false} SamplesRead(packet: seq<byte>, pos: int, i: nat, n: nat, cap: nat, size: nat)
    requires (size == 16 || size == 24) && pos >= 0 && i <= n
    ensures var r := ReadSamples(packet, pos, i, n, cap, size);
      if (i == n || n <= cap) && LongEnough(packet, pos, n - i, size)
      then r.Success? && |r.value.0| == |r.value.1| == n - i
           && AreSamples(r.value.0, r.value.1, packet, pos, n - i, size)
      else r == Failure(IndexOutOfRange)
    decreases n - i
  {
    hide ReadSample, SampleAt, AreSamples;
    if i == n {
      NoSamples(packet, pos, size);
    } else {
      SampleReads(packet, pos, size);
      SampleReads(packet, pos + size, size);
      SamplesRead(packet, pos + 2 * size, i + 1, n, cap, size);
      assert LongEnough(packet, pos, n - i, size) ==> LongEnough(packet, pos + 2 * size, n - (i + 1), size);
      var r := ReadSamples(packet, pos, i, n, cap, size);
      var tail := ReadSamples(packet, pos + 2 * size, i + 1, n, cap, size);
      if r.Success? {
        ShiftSamples(tail.value.0, tail.value.1, packet, pos, n - i, size);
      }
    }
  }

  lemma NoSamples(packet: seq<byte>, pos: int, size: nat)
    requires 1 <= size <= 32
    ensures AreSamples([], [], packet, pos, 0, size)
  {
  }

  lemma ShiftSamples(a: seq<int32>, b: seq<int32>, packet: seq<byte>, pos: int, n: nat, size: nat)
    requires 1 <= size <= 32 && n >= 1 && |a| == |b| == n - 1
    requires AreSamples(a, b, packet, pos + 2 * size, n - 1, size)
    ensures AreSamples([SampleAt(packet, pos, size)] + a, [SampleAt(packet, pos + size, size)] + b, packet, pos, n,
                       size)
  {
    hide SampleAt;
    forall j | 1 <= j < n
      ensures a[j - 1] == SampleAt(packet, pos + 2 * size * j, size)
      ensures b[j - 1] == SampleAt(packet, pos + 2 * size * j + size, size)
    {
      assert pos + 2 * size * j == (pos + 2 * size) + 2 * size * (j - 1);
    }
  }

  /** Bytes do not see multiples of their own range. */
  lemma {:induction false} LittleEndianShift(x: int, k: int, bytes: nat)
    ensures Interlace.LittleEndian(x + k * Pow2(8 * bytes), bytes) == Interlace.LittleEndian(x, bytes)
    decreases bytes
  {
    hide Pow2;
    if bytes > 0 {
      var p := Pow2(8 * (bytes - 1));
      Pow2Values();
      Pow2Add(8, 8 * (bytes - 1));
      Regrouped(k, p);
      ByteStep(x, k * p);
      LittleEndianShift(x / 256, k, bytes - 1);
    }
  }

  lemma Regrouped(k: int, p: int)
    ensures k * (0x100 * p) == 0x100 * (k * p)
  {
  }

  lemma ByteStep(x: int, m: int)
    ensures (x + 0x100 * m) % 256 == x % 256 && (x + 0x100 * m) / 256 == x / 256 + m
  {
  }

  lemma SampleBytes(packet: seq<byte>, at: int, bytes: nat)
    requires bytes == 2 || bytes == 3
    ensures Interlace.LittleEndian(SampleAt(packet, at, 8 * bytes), bytes)
         == Interlace.LittleEndian(Value(packet, at, 8 * bytes), bytes)
  {
    hide Interlace.LittleEndian, Value;
    var v, m := Value(packet, at, 8 * bytes), Pow2(8 * bytes);
    WrapBitsResidue(v, 8 * bytes);
    var d := SampleAt(packet, at, 8 * bytes) - v;
    DivMod(d, m);
    LittleEndianShift(v, d / m, bytes);
  }

  lemma {:induction false} OutputIsRaw16(packet: seq<byte>, at: int, a: seq<int32>, b: seq<int32>, n: nat)
    requires n <= |a| && n <= |b| && AreSamples(a, b, packet, at, n, 16)
    ensures RawPcm(packet, at, n, 16) == Interlace.Pcm16(a, b, n, 0, 0)
  {
    hide Value, Interlace.LittleEndian, SampleAt, Wrap16;
    if n > 0 {
      OutputIsRaw16(packet, at, a, b, n - 1);
      var pos := at + 32 * (n - 1);
      assert a[n - 1] == SampleAt(packet, pos, 16) && b[n - 1] == SampleAt(packet, pos + 16, 16);
      SampleBytes(packet, pos, 2);
      SampleBytes(packet, pos + 16, 2);
      Wrap16OfSample(packet, pos);
      Wrap16OfSample(packet, pos + 16);
    }
  }

  lemma {:induction false} OutputIsRaw24(packet: seq<byte>, at: int, a: seq<int32>, b: seq<int32>, n: nat)
    requires n <= |a| && n <= |b| && AreSamples(a, b, packet, at, n, 24)
    ensures RawPcm(packet, at, n, 24) == Interlace.Pcm24(a, b, 0, [], [], n, 0, 0)
  {
    hide Value, Interlace.LittleEndian, SampleAt;
    if n > 0 {
      OutputIsRaw24(packet, at, a, b, n - 1);
      var pos := at + 48 * (n - 1);
      assert a[n - 1] == SampleAt(packet, pos, 24) && b[n - 1] == SampleAt(packet, pos + 24, 24);
      SampleBytes(packet, pos, 3);
      SampleBytes(packet, pos + 24, 3);
    }
  }

  lemma OutputIsRaw(packet: seq<byte>, at: int, a: seq<int32>, b: seq<int32>, n: nat, cfg: Config)
    requires cfg.InScope() && n <= |a| && n <= |b|
    requires AreSamples(a, b, packet, at, n, cfg.sampleSize)
    ensures RawPcm(packet, at, n, cfg.sampleSize)
         == if cfg.sampleSize == 16 then Interlace.Pcm16(a, b, n, 0, 0) else Interlace.Pcm24(a, b, 0, [], [], n, 0, 0)
  {
    hide AreSamples, RawPcm, Interlace.Pcm16, Interlace.Pcm24;
    if cfg.sampleSize == 16 {
      OutputIsRaw16(packet, at, a, b, n);
    } else {
      OutputIsRaw24(packet, at, a, b, n);
    }
  }

  lemma Wrap16OfSample(packet: seq<byte>, at: int)
    ensures Wrap16(SampleAt(packet, at, 16)) == SampleAt(packet, at, 16)
  {
    hide Value;
    Pow2Values();
    assert Pow2(16) == 2 * Pow2(15);
  }

  /** Verbatim frames: output sample i is exactly the stream's raw sample at 23 (or 55) plus i
      times the frame width. The decoder panics exactly when the packet or a buffer is too short. */
  lemma VerbatimFrame(packet: seq<byte>, cfg: Config, at: int, n: nat)
    requires IsVerbatim(packet, cfg, at, n)
    ensures DecodeFrame(packet, cfg)
         == if (n == 0 || n <= cfg.BufferLength()) && LongEnough(packet, at, n, cfg.sampleSize)
            then Success(RawPcm(packet, at, n, cfg.sampleSize)) else Failure(IndexOutOfRange)
  {
    hide Value, ReadSamples, Interlace.Pcm16, Interlace.Pcm24, RawPcm, SampleAt, LongEnough, Pow2, AreSamples;
    SamplesRead(packet, at, 0, n, cfg.BufferLength(), cfg.sampleSize);
    var r := ReadSamples(packet, at, 0, n, cfg.BufferLength(), cfg.sampleSize);
    if r.Success? {
      OutputIsRaw(packet, at, r.value.0, r.value.1, n, cfg);
    }
    HeaderBit(packet, 19);
  }

  lemma HeaderBit(packet: seq<byte>, pos: int)
    ensures Value(packet, pos, 1) <= 1
  {
    ValueBound(packet, pos, 1);
  }
}
