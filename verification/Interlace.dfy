/** Weighted mid/side stereo and little-endian PCM: `deinterlace_16` and `deinterlace_24`. */
module Interlace {
  import opened MachineInt

  // ----- what one sample pair becomes -----

  /** The weighted pair of `deinterlace_16`; weight 0 means the channels were sent as they are. */
  function Unmix16(a: int32, b: int32, shift: nat, weight: nat): (int16, int16) {
    if weight == 0 then (Wrap16(a), Wrap16(b)) else
    var right := Wrap16(Sub32(a, Shr(Mul32(b, weight), shift)));
    (Wrap16(right + Wrap16(b)), right)
  }

  function Unmix32(a: int32, b: int32, shift: nat, weight: nat): (int32, int32) {
    if weight == 0 then (a, b) else
    var right := Sub32(a, Shr(Mul32(b, weight), shift));
    (Add32(right, b), right)
  }

  /** The low bytes that were sent uncompressed, or-ed under the decoded high part. */
  function Reattach(high: int32, low: int32, bytes: nat): int32
    requires bytes <= 3
  {
    LowMaskFits(bytes);
    if bytes == 0 then high
    else OrSigned(ShlSigned(high, 8 * bytes), AndSigned(low, Pow2(8 * bytes) - 1))
  }

  lemma LowMaskFits(bytes: nat)
    requires bytes <= 3
    ensures Pow2(8 * bytes) <= 0x100_0000
  {
    Pow2Values();
    Pow2Monotone(8 * bytes, 24);
  }

  function LittleEndian(x: int, bytes: nat): (s: seq<byte>)
    ensures |s| == bytes
    decreases bytes
  {
    if bytes == 0 then [] else [x % 256] + LittleEndian(x / 256, bytes - 1)
  }

  /** Byte k holds the bits from 8 * k on. */
  lemma {:induction false} LittleEndianByte(x: int, bytes: nat, k: nat)
    requires k < bytes
    ensures LittleEndian(x, bytes)[k] == (x / Pow2(8 * k)) % 256
    decreases bytes
  {
    hide Pow2;
    Pow2Values();
    if k > 0 {
      LittleEndianByte(x / 256, bytes - 1, k - 1);
      Pow2Add(8, 8 * (k - 1));
      QuotientOfQuotient(x, Pow2(8 * (k - 1)));
    }
  }

  lemma QuotientOfQuotient(x: int, p: int)
    requires p > 0
    ensures (x / 256) / p == x / (256 * p)
  {
    var q, r := x / 256, x % 256;
    var t, u := q / p, q % p;
    DivMod(q, p);
    assert t * (256 * p) == 256 * (t * p);
    DivUnique(x, 256 * p, t, 256 * u + r);
  }

  function Frame16(a: int32, b: int32, shift: nat, weight: nat): (s: seq<byte>)
    ensures |s| == 4
  {
    var (left, right) := Unmix16(a, b, shift, weight);
    LittleEndian(left, 2) + LittleEndian(right, 2)
  }

  function Frame24(a: int32, b: int32, bytes: nat, lowA: int32, lowB: int32, shift: nat, weight: nat): (s: seq<byte>)
    requires bytes <= 3
    ensures |s| == 6
  {
    var (left, right) := Unmix32(a, b, shift, weight);
    LittleEndian(Reattach(left, lowA, bytes), 3) + LittleEndian(Reattach(right, lowB, bytes), 3)
  }

  function Pcm16(a: seq<int32>, b: seq<int32>, n: nat, shift: nat, weight: nat): (s: seq<byte>)
    requires n <= |a| && n <= |b|
    ensures |s| == 4 * n
  {
    if n == 0 then [] else Pcm16(a, b, n - 1, shift, weight) + Frame16(a[n - 1], b[n - 1], shift, weight)
  }

  /** Low bytes are looked at only when there are some. */
  function LowAt(low: seq<int32>, i: nat, bytes: nat): int32
    requires bytes > 0 ==> i < |low|
  {
    if bytes > 0 then low[i] else 0
  }

  function Pcm24(a: seq<int32>, b: seq<int32>, bytes: nat, lowA: seq<int32>, lowB: seq<int32>, n: nat,
                 shift: nat, weight: nat): (s: seq<byte>)
    requires n <= |a| && n <= |b| && bytes <= 3
    requires bytes > 0 ==> n <= |lowA| && n <= |lowB|
    ensures |s| == 6 * n
  {
    if n == 0 then [] else
    Pcm24(a, b, bytes, lowA, lowB, n - 1, shift, weight)
    + Frame24(a[n - 1], b[n - 1], bytes, LowAt(lowA, n - 1, bytes), LowAt(lowB, n - 1, bytes), shift, weight)
  }

  /** Only the first n samples of each channel are used. */
  lemma {:induction false} Pcm16Prefix(a: seq<int32>, b: seq<int32>, n: nat, m: nat, shift: nat, weight: nat)
    requires n <= m <= |a| && m <= |b|
    ensures Pcm16(a, b, n, shift, weight) == Pcm16(a[..m], b[..m], n, shift, weight)
  {
    hide Frame16;
    if n > 0 {
      Pcm16Prefix(a, b, n - 1, m, shift, weight);
    }
  }

  lemma {:induction false} Pcm24Prefix(a: seq<int32>, b: seq<int32>, bytes: nat, lowA: seq<int32>, lowB: seq<int32>,
                                       lowA': seq<int32>, lowB': seq<int32>, n: nat, m: nat, shift: nat, weight: nat)
    requires n <= m <= |a| && m <= |b| && bytes <= 3
    requires bytes > 0 ==> m <= |lowA| && m <= |lowB| && lowA' == lowA[..m] && lowB' == lowB[..m]
    ensures Pcm24(a, b, bytes, lowA, lowB, n, shift, weight)
         == Pcm24(a[..m], b[..m], bytes, lowA', lowB', n, shift, weight)
  {
    hide Frame24;
    if n > 0 {
      Pcm24Prefix(a, b, bytes, lowA, lowB, lowA', lowB', n - 1, m, shift, weight);
    }
  }

  // ----- the methods -----

  function Put(out: seq<byte>, at: nat, frame: seq<byte>): (r: seq<byte>)
    requires at + |frame| <= |out|
    ensures |r| == |out|
  {
    out[..at] + frame + out[at + |frame|..]
  }

  /** All n frames of `size` bytes, `stride` bytes apart, have room. */
  predicate HasRoom(length: nat, n: int, stride: nat, size: nat) {
    n > 0 ==> stride * (n - 1) + size <= length
  }

  lemma RoomAt(length: nat, n: nat, i: nat, stride: nat, size: nat)
    requires HasRoom(length, n, stride, size) && i < n
    ensures 0 <= stride * i && stride * i + size <= length
    ensures HasRoom(length, i, stride, size) && HasRoom(length, i + 1, stride, size)
  {
    MulMono(0, i, stride);
    MulMono(i, n - 1, stride);
    MulMono(i - 1, i, stride);
  }

  /** `out` after the first n frames have been written into it, one every `stride` bytes. */
  function Pcm16Into(out: seq<byte>, a: seq<int32>, b: seq<int32>, n: nat, shift: nat, weight: nat,
                     stride: nat): (s: seq<byte>)
    requires n <= |a| && n <= |b| && HasRoom(|out|, n, stride, 4)
    ensures |s| == |out|
  {
    if n == 0 then out else
    RoomAt(|out|, n, n - 1, stride, 4);
    Put(Pcm16Into(out, a, b, n - 1, shift, weight, stride), stride * (n - 1),
        Frame16(a[n - 1], b[n - 1], shift, weight))
  }

  function Pcm24Into(out: seq<byte>, a: seq<int32>, b: seq<int32>, bytes: nat, lowA: seq<int32>, lowB: seq<int32>,
                     n: nat, shift: nat, weight: nat, stride: nat): (s: seq<byte>)
    requires n <= |a| && n <= |b| && bytes <= 3 && HasRoom(|out|, n, stride, 6)
    requires bytes > 0 ==> n <= |lowA| && n <= |lowB|
    ensures |s| == |out|
  {
    if n == 0 then out else
    RoomAt(|out|, n, n - 1, stride, 6);
    Put(Pcm24Into(out, a, b, bytes, lowA, lowB, n - 1, shift, weight, stride), stride * (n - 1),
        Frame24(a[n - 1], b[n - 1], bytes, LowAt(lowA, n - 1, bytes), LowAt(lowB, n - 1, bytes), shift, weight))
  }

  /** With two channels the frames follow one another. */
  lemma {:induction false} Pcm16Packed(out: seq<byte>, a: seq<int32>, b: seq<int32>, n: nat, shift: nat, weight: nat)
    requires n <= |a| && n <= |b| && 4 * n <= |out|
    ensures Pcm16Into(out, a, b, n, shift, weight, 4)[..4 * n] == Pcm16(a, b, n, shift, weight)
  {
    hide Frame16;
    if n > 0 {
      Pcm16Packed(out, a, b, n - 1, shift, weight);
    }
  }

  lemma {:induction false} Pcm24Packed(out: seq<byte>, a: seq<int32>, b: seq<int32>, bytes: nat, lowA: seq<int32>,
                                       lowB: seq<int32>, n: nat, shift: nat, weight: nat)
    requires n <= |a| && n <= |b| && bytes <= 3 && 6 * n <= |out|
    requires bytes > 0 ==> n <= |lowA| && n <= |lowB|
    ensures Pcm24Into(out, a, b, bytes, lowA, lowB, n, shift, weight, 6)[..6 * n]
         == Pcm24(a, b, bytes, lowA, lowB, n, shift, weight)
  {
    hide Frame24;
    if n > 0 {
      Pcm24Packed(out, a, b, bytes, lowA, lowB, n - 1, shift, weight);
    }
  }

  /** `deinterlace_16`, for any channel count the output has room for. */
  method Deinterlace16(bufferA: array<int32>, bufferB: array<int32>, bufferOut: array<byte>,
                       numChannels: nat, numSamples: int, interlacingShift: nat, interlacingLeftweight: nat)
    requires numSamples <= bufferA.Length && numSamples <= bufferB.Length
    requires HasRoom(bufferOut.Length, numSamples, 2 * numChannels, 4)
    modifies bufferOut
    ensures bufferOut[..] == Pcm16Into(old(bufferOut[..]), bufferA[..], bufferB[..],
                                       if numSamples > 0 then numSamples else 0,
                                       interlacingShift, interlacingLeftweight, 2 * numChannels)
  {
    hide Wrap32, Wrap16, Shr, LittleEndian, Put, HasRoom;
    if numSamples <= 0 {
      return;
    }
    ghost var out, stride := bufferOut[..], 2 * numChannels;
    RoomAt(bufferOut.Length, numSamples, 0, stride, 4);
    if interlacingLeftweight != 0 {
      var i := 0;
      while i < numSamples
        invariant 0 <= i <= numSamples && HasRoom(bufferOut.Length, i, stride, 4)
        invariant bufferOut[..]
               == Pcm16Into(out, bufferA[..], bufferB[..], i, interlacingShift, interlacingLeftweight, stride)
      {
        var midright, difference := bufferA[i], bufferB[i];
        var right := Wrap16(Sub32(midright, Shr(Mul32(difference, interlacingLeftweight), interlacingShift)));
        var left := Wrap16(right + Wrap16(difference));
        RoomAt(bufferOut.Length, numSamples, i, stride, 4);
        StrideIndex(2, i, numChannels);
        WriteFrame16(bufferOut, 2 * i * numChannels, left, right);
        assert Frame16(bufferA[i], bufferB[i], interlacingShift, interlacingLeftweight)
            == LittleEndian(left, 2) + LittleEndian(right, 2);
        i := i + 1;
      }
      return;
    }
    var i := 0;
    while i < numSamples
      invariant 0 <= i <= numSamples && HasRoom(bufferOut.Length, i, stride, 4)
      invariant bufferOut[..]
             == Pcm16Into(out, bufferA[..], bufferB[..], i, interlacingShift, interlacingLeftweight, stride)
    {
      var left, right := Wrap16(bufferA[i]), Wrap16(bufferB[i]);
      RoomAt(bufferOut.Length, numSamples, i, stride, 4);
      StrideIndex(2, i, numChannels);
      WriteFrame16(bufferOut, 2 * i * numChannels, left, right);
      assert Frame16(bufferA[i], bufferB[i], interlacingShift, interlacingLeftweight)
          == LittleEndian(left, 2) + LittleEndian(right, 2);
      i := i + 1;
    }
  }

  lemma StrideIndex(width: nat, i: nat, numChannels: nat)
    ensures width * i * numChannels == width * numChannels * i == i * numChannels * width >= 0
  {
    MulMono(0, i, numChannels);
    assert width * i * numChannels == width * (i * numChannels);
    assert width * numChannels * i == width * (i * numChannels);
  }

  /** The four byte stores of both loops. */
  method WriteFrame16(bufferOut: array<byte>, at: nat, left: int16, right: int16)
    requires at + 4 <= bufferOut.Length
    modifies bufferOut
    ensures bufferOut[..] == Put(old(bufferOut[..]), at, LittleEndian(left, 2) + LittleEndian(right, 2))
  {
    bufferOut[at] := left % 256;
    bufferOut[at + 1] := Shr8(left) % 256;
    bufferOut[at + 2] := right % 256;
    bufferOut[at + 3] := Shr8(right) % 256;
    LittleEndian2(left);
    LittleEndian2(right);
  }

  function Shr8(x: int): (r: int)
    ensures r == Shr(x, 8)
  {
    Pow2Values();
    x / 256
  }

  lemma LittleEndian2(x: int)
    ensures LittleEndian(x, 2) == [x % 256, Shr8(x) % 256]
  {
    assert LittleEndian(x / 256, 1) == [(x / 256) % 256];
  }

  lemma LittleEndian3(x: int)
    ensures LittleEndian(x, 3) == [x % 256, Shr8(x) % 256, Shr8(Shr8(x)) % 256]
  {
    LittleEndian2(x / 256);
  }

  /** `deinterlace_24`, for any channel count the output has room for. */
  method Deinterlace24(bufferA: array<int32>, bufferB: array<int32>, uncompressedBytes: nat,
                       uncompressedBytesA: array<int32>, uncompressedBytesB: array<int32>,
                       bufferOut: array<byte>, numChannels: nat, numSamples: int,
                       interlacingShift: nat, interlacingLeftweight: nat)
    requires uncompressedBytes <= 3
    requires numSamples <= bufferA.Length && numSamples <= bufferB.Length
    requires HasRoom(bufferOut.Length, numSamples, 3 * numChannels, 6)
    requires uncompressedBytes > 0 ==>
      numSamples <= uncompressedBytesA.Length && numSamples <= uncompressedBytesB.Length
    modifies bufferOut
    ensures bufferOut[..] == Pcm24Into(old(bufferOut[..]), bufferA[..], bufferB[..], uncompressedBytes,
                                       uncompressedBytesA[..], uncompressedBytesB[..],
                                       if numSamples > 0 then numSamples else 0,
                                       interlacingShift, interlacingLeftweight, 3 * numChannels)
  {
    hide Wrap32, Shr, LittleEndian, OrSigned, AndSigned, ShlSigned, Mul32, Sub32, Add32, Put, HasRoom;
    if numSamples <= 0 {
      return;
    }
    ghost var out, stride := bufferOut[..], 3 * numChannels;
    RoomAt(bufferOut.Length, numSamples, 0, stride, 6);
    ghost var a, b := bufferA[..], bufferB[..];
    ghost var la, lb := uncompressedBytesA[..], uncompressedBytesB[..];
    LowMaskFits(uncompressedBytes);
    var i := 0;
    while i < numSamples
      invariant 0 <= i <= numSamples && HasRoom(bufferOut.Length, i, stride, 6)
      invariant bufferOut[..]
             == Pcm24Into(out, a, b, uncompressedBytes, la, lb, i, interlacingShift, interlacingLeftweight, stride)
    {
      var left, right := bufferA[i], bufferB[i];
      if interlacingLeftweight > 0 {
        var midright, difference := bufferA[i], bufferB[i];
        right := Sub32(midright, Shr(Mul32(difference, interlacingLeftweight), interlacingShift));
        left := Add32(right, difference);
      }
      if uncompressedBytes > 0 {
        var mask := Pow2(8 * uncompressedBytes) - 1;
        left := ShlSigned(left, 8 * uncompressedBytes);
        right := ShlSigned(right, 8 * uncompressedBytes);
        left := OrSigned(left, AndSigned(uncompressedBytesA[i], mask));
        right := OrSigned(right, AndSigned(uncompressedBytesB[i], mask));
      }
      RoomAt(bufferOut.Length, numSamples, i, stride, 6);
      StrideIndex(3, i, numChannels);
      WriteFrame24(bufferOut, i * numChannels * 3, left, right);
      assert Frame24(a[i], b[i], uncompressedBytes, LowAt(la, i, uncompressedBytes), LowAt(lb, i, uncompressedBytes),
                     interlacingShift, interlacingLeftweight)
          == LittleEndian(left, 3) + LittleEndian(right, 3);
      i := i + 1;
    }
  }

  /** The six byte stores. */
  method WriteFrame24(bufferOut: array<byte>, at: nat, left: int32, right: int32)
    requires at + 6 <= bufferOut.Length
    modifies bufferOut
    ensures bufferOut[..] == Put(old(bufferOut[..]), at, LittleEndian(left, 3) + LittleEndian(right, 3))
  {
    bufferOut[at] := left % 256;
    bufferOut[at + 1] := Shr8(left) % 256;
    bufferOut[at + 2] := Shr8(Shr8(left)) % 256;
    bufferOut[at + 3] := right % 256;
    bufferOut[at + 4] := Shr8(right) % 256;
    bufferOut[at + 5] := Shr8(Shr8(right)) % 256;
    LittleEndian3(left);
    LittleEndian3(right);
  }

  // ----- inversion -----

  /** The encoder's side: the pair itself, or a point between the channels and their difference. */
  function Mix(left: int32, right: int32, shift: nat, weight: nat): (int32, int32) {
    if weight == 0 then (left, right) else
    var difference := Sub32(left, right);
    (Add32(right, Shr(Mul32(difference, weight), shift)), difference)
  }

  lemma MixPlain(left: int32, right: int32, shift: nat)
    ensures Mix(left, right, shift, 0) == (left, right)
  {
  }

  lemma WrapAddSub(x: int32, y: int)
    ensures Sub32(Add32(x, y), y) == x
    ensures Add32(x, Sub32(y, x)) == Wrap32(y)
  {
    hide Wrap32;
    WrapTwice(x + y, -y);
    WrapTwice(y - x, x);
    WrapIdentity(x);
  }

  /** Mid/side inversion: for all pairs, weights and shifts, under wrapping arithmetic. */
  lemma MidSideInversion32(left: int32, right: int32, shift: nat, weight: nat)
    ensures var (a, b) := Mix(left, right, shift, weight);
      Unmix32(a, b, shift, weight) == (left, right)
  {
    hide Shr, Mul32, Wrap32;
    if weight != 0 {
      WrapAddSub(right, Shr(Mul32(Sub32(left, right), weight), shift));
      WrapAddSub(right, left);
      WrapIdentity(left);
    }
  }

  lemma MidSideInversion16(left: int16, right: int16, shift: nat, weight: nat)
    ensures var (a, b) := Mix(left, right, shift, weight);
      Unmix16(a, b, shift, weight) == (left, right)
  {
    hide Shr, Mul32, Wrap32, Wrap16;
    if weight != 0 {
      WrapAddSub(right, Shr(Mul32(Sub32(left, right), weight), shift));
    }
    Wrap16Difference(left, right);
  }

  lemma Wrap16Difference(left: int16, right: int16)
    ensures Wrap16(left) == left && Wrap16(right) == right
    ensures Wrap16(right + Wrap16(Sub32(left, right))) == left
  {
    assert Sub32(left, right) == left - right;
  }

  /** Unmixing in plain terms: the right channel is mid less the weighted side, divided by 2^shift
      rounding down, and the left channel is the right one plus side, both modulo 2^16 (2^32);
      weight 0 leaves the channels as they are. */
  lemma UnmixMeaning16(mid: int32, side: int32, shift: nat, weight: nat)
    requires -0x8000_0000 <= side * weight < 0x8000_0000
    ensures var (left, right) := Unmix16(mid, side, shift, weight);
      if weight == 0 then (left - mid) % 0x1_0000 == 0 && (right - side) % 0x1_0000 == 0
      else && (right - (mid - (side * weight) / Pow2(shift))) % 0x1_0000 == 0
           && (left - (right + side)) % 0x1_0000 == 0
  {
    hide Wrap32, Wrap16, Pow2;
    Wrap16Residue(mid);
    Wrap16Residue(side);
    if weight != 0 {
      WrapIdentity(side * weight);
      var x := mid - (side * weight) / Pow2(shift);
      var right := Wrap16(Wrap32(x));
      Wrap16Residue(Wrap32(x));
      Wrap32Residue(x);
      AddResidues(right - Wrap32(x), Wrap32(x) - x, 0x1_0000);
      Wrap16Residue(right + Wrap16(side));
      AddResidues(Wrap16(right + Wrap16(side)) - (right + Wrap16(side)), Wrap16(side) - side, 0x1_0000);
    }
  }

  lemma UnmixMeaning32(mid: int32, side: int32, shift: nat, weight: nat)
    requires -0x8000_0000 <= side * weight < 0x8000_0000
    ensures var (left, right) := Unmix32(mid, side, shift, weight);
      if weight == 0 then left == mid && right == side
      else && (right - (mid - (side * weight) / Pow2(shift))) % 0x1_0000_0000 == 0
           && (left - (right + side)) % 0x1_0000_0000 == 0
  {
    hide Wrap32, Pow2;
    if weight != 0 {
      WrapIdentity(side * weight);
      var x := mid - (side * weight) / Pow2(shift);
      Wrap32Residue(x);
      Wrap32Residue(Wrap32(x) + side);
    }
  }

  lemma Wrap16Residue(x: int)
    ensures (Wrap16(x) - x) % 0x1_0000 == 0
  {
    ModResidue(x + 0x8000, 0x1_0000);
  }

  lemma Wrap32Residue(x: int)
    ensures (Wrap32(x) - x) % 0x1_0000_0000 == 0 && (Wrap32(x) - x) % 0x1_0000 == 0
  {
    ModResidue(x + 0x8000_0000, 0x1_0000_0000);
  }

  lemma AddResidues(a: int, b: int, m: int)
    requires m > 0 && a % m == 0 && b % m == 0
    ensures (a + b) % m == 0
  {
    var s, t := a / m, b / m;
    DivMod(a, m);
    DivMod(b, m);
    assert (s + t) * m == s * m + t * m;
    DivUnique(a + b, m, s + t, 0);
  }

  /** With weight at most 2^shift the mid channel lies between left and right, so it needs no
      more bits than they do. */
  lemma MidBetween(left: int32, right: int32, shift: nat, weight: nat)
    requires weight <= Pow2(shift)
    requires -0x8000_0000 <= (left - right) * weight < 0x8000_0000
    requires -0x8000_0000 <= left - right < 0x8000_0000
    requires weight != 0
    ensures var (mid, side) := Mix(left, right, shift, weight);
      side == left - right && (left <= mid <= right || right <= mid <= left)
  {
    hide Wrap32, Pow2;
    var d, p := left - right, Pow2(shift);
    WrapIdentity(d);
    WrapIdentity(d * weight);
    ScaledBetween(d, weight, p);
    WrapIdentity(right + (d * weight) / p);
  }

  lemma ScaledBetween(d: int, weight: nat, p: int)
    requires weight <= p && p > 0
    ensures d >= 0 ==> 0 <= (d * weight) / p <= d
    ensures d <= 0 ==> d <= (d * weight) / p <= 0
  {
    var x := d * weight;
    DivMod(x, p);
    if d >= 0 {
      MulMono(0, d, weight);
      MulMono(weight, p, d);
      DivRange(x, p, 0, d);
    } else {
      MulMono(d, 0, weight);
      MulMono(weight, p, -d);
      assert x >= d * p;
      DivRange(x, p, d, 0);
    }
  }

  lemma DivRange(x: int, p: int, lo: int, hi: int)
    requires p > 0 && lo * p <= x <= hi * p
    ensures lo <= x / p <= hi
  {
    DivMod(x, p);
    if x / p < lo { MulMono(x / p + 1, lo, p); }
    if x / p > hi { MulMono(hi + 1, x / p, p); }
  }

  /** Or-ing masked low bytes under a shifted value puts the two parts side by side. */
  lemma ReattachIsSum(high: int32, low: int32, bytes: nat)
    requires bytes <= 3 && 0 <= low < Pow2(8 * bytes)
    ensures Reattach(high, low, bytes) == Wrap32(high * Pow2(8 * bytes) + low)
  {
    hide BitOr, BitAnd, Wrap32, Pow2;
    var n := 8 * bytes;
    var m, c := Pow2(n), Pow2(32 - n);
    LowMaskFits(bytes);
    Pow2Values();
    if bytes == 0 {
      WrapIdentity(high);
    } else {
      Pow2Add(32 - n, n);
      MaskKeeps(low, n);
      ShiftedWord(high, m, c);
      BitOrDisjoint(high % c, low, n);
      SumOfParts(high, low, m, c);
    }
  }

  lemma MaskKeeps(low: int32, n: nat)
    requires 0 <= low < Pow2(n) <= 0x100_0000
    ensures AndSigned(low, Pow2(n) - 1) == low && ToUint32(low) == low
  {
    hide BitAnd, Pow2;
    BitAndMask(low, n);
    DivUnique(low, Pow2(n), 0, low);
  }

  lemma ShiftedWord(high: int, m: int, c: int)
    requires m > 0 && c > 0 && c * m == 0x1_0000_0000
    ensures ToUint32(Wrap32(high * m)) == (high % c) * m
  {
    DivMod(high, c);
    var t, r := high / c, high % c;
    MulMono(0, r, m);
    MulMono(r, c - 1, m);
    assert high * m == t * 0x1_0000_0000 + r * m by { assert (t * c) * m == t * (c * m); }
    DivUnique(high * m, 0x1_0000_0000, t, r * m);
    WrapToUint(high * m);
  }

  lemma WrapToUint(x: int)
    ensures ToUint32(Wrap32(x)) == x % 0x1_0000_0000
    ensures Wrap32(x % 0x1_0000_0000) == Wrap32(x)
  {
  }

  lemma SumOfParts(high: int, low: int, m: int, c: int)
    requires m > 0 && c > 0 && c * m == 0x1_0000_0000 && 0 <= low < m
    ensures Wrap32((high % c) * m + low) == Wrap32(high * m + low)
  {
    DivMod(high, c);
    var t, r := high / c, high % c;
    assert high * m == t * 0x1_0000_0000 + r * m by { assert (t * c) * m == t * (c * m); }
    ModAddMultiple(r * m + low + 0x8000_0000, 0x1_0000_0000, t);
  }
}
