# Verified model of the MiAir core

Four parts of the program are modelled here, each where its state is hardest to follow.

**The ALAC decoder** (`core/pkg_alac/decode.go`). `Alac.dfy` holds the decoder object: a bit reader
that can step back, the adaptive rice decoder, the predictor call, the deinterlacer call and
`decodeFrame`, as methods that update the object's fields and scratch arrays. Each method is proved
equal to a function of the packet (`BitStream.dfy`, `Rice.dfy`, `Fir.dfy`, `Interlace.dfy`,
`Frame.dfy`). About those functions the following is proved.

- The repository has no encoder, so `Rice`, `Fir` and `Lossless` define one that mirrors the decoder,
  and decoding is shown to undo it layer by layer (codeword, channel of residuals, adaptive
  predictor, mid/side pair) and for a whole frame, for every choice of settings an encoder has.
- The adaptive mean stays in bounds on every stream at every read size these formats have, so that no
  shift count leaves its range.
- What encoder and decoder share is stated in plain terms: which bits a codeword is worth what
  (`Rice.CodewordMeaning`), how the mean follows the samples (`Rice.MeanFollowsSamples`), what each
  predicted output is and how the coefficients adapt (`Fir.OutputMeaning`, `Fir.TableMeaning`).
- A frame that is not compressed decodes to exactly the stream's raw bits (`Verbatim.dfy`).
- What a packet decodes to depends on the packet and the configuration only, although the scratch
  arrays keep what earlier packets left there.

A Go panic is a `Failure(IndexOutOfRange)` result, and wrapping int16, int32 and uint32 arithmetic is
written out (`MachineInt.dfy`). Go's `int` is taken to be 64 bits wide, which nothing computed from
the arguments `decodeFrame` passes exceeds.

**The ownership protocol.** `Manager.dfy` is the session manager of `core/source/manager.go` as an
object over the functions of `Ownership.dfy`; `OwnershipRuns.dfy` has its properties over all runs.
`Coordinator.dfy` is `core/playback/coordinator.go` as a transition system whose steps are the
sections under the manager's mutex, the channel operations, and the worker's checks and speaker
calls, so that every interleaving of callers and worker is a run.

**The DLNA renderer** (`core/dlna`). `Renderer.dfy` has the sections under the renderer's mutex, as
functions and as methods of an object; `Dlna.dfy` composes them with the manager into a transition
system in which Cancel callbacks of preempted sessions, and other protocols, come in between.

**The audio stream hub** (`core/airplay/server.go`). `Hub.dfy` is the hub as an object with Go
channels, proved against the values of `HubState.dfy`; `HubRuns.dfy` relates whole runs to the plain
list of broadcast frames.

`EndToEnd.dfy` puts renderer, coordinator and manager together: what the DLNA transport reports is
what the speaker was last told.

Where the code does not meet a bound, the exact condition is stated. With a read size of 31 bits
all means, those inside an iteration included, are bounded if and only if no iteration reads the
largest value right after a run of zeros (`Rice.MeanBoundedExactly`; `Rice.MeanEscapes` has such a
stream). Zig-zag values are folded back if and only if they are below the largest int32
(`Rice.FinalValueOfZigZag`). A 16-bit frame with uncompressed bytes comes back unchanged if and only
if its samples are 0 or -1 (`Lossless.LosslessExactly`; `Lossless.LossyFrame` has one that does not).
Overlapping DLNA actions keep PLAYING and the active session together if and only if none of them
stores its state over an active session (`Dlna.OverlapTruthfulExactly`; `Dlna.OverlapBreaksPlaying`
has a run in which one does).

## Model

| member | source | states |
|---|---|---|
| `Lossless.FrameLossless` | `core/pkg_alac/decode.go:824-1014` | Whole-frame round trip: on any packet that starts with the mirror encoding of a 16- or 24-bit stereo frame, for any coefficient tables, orders, quantisations, rice settings, shift and weight, and any number of uncompressed bytes that leaves a positive read size (0 to 2 for 16 bits, 0 to 3 for 24), `decodeFrame` returns exactly the PCM bytes of what it keeps of each sample: all of it at 24 bits, the compressed part at 16 bits |
| `Lossless.LosslessExactly` | `core/pkg_alac/decode.go:824-1014` | The frame comes back unchanged if and only if the stream has 24 bits, or no byte was left uncompressed, or every sample is 0 or -1 |
| `Lossless.LossyFrame` | `core/pkg_alac/decode.go:533-600` | A 16-bit frame with one uncompressed byte, holding the pair (1, 0), that decodes to zeros |
| `Lossless.EncodeDecode` | `core/pkg_alac/decode.go:824-1014` | Packing any encodable frame and decoding the packet gives what the decoder keeps of it, also where the decoder looks at the zero padding |
| `Lossless.EncodeDecode16` | `core/pkg_alac/decode.go:824-1014` | For 16-bit frames with all bytes compressed and weight at most 2^shift every block of at most 65536 samples that fits the buffers is encodable, and packing and decoding it gives its PCM bytes |
| `Lossless.EncodeDecode24` | `core/pkg_alac/decode.go:824-1014` | The same for 24-bit frames with one or two bytes uncompressed |
| `Lossless.FramesWithinSettings` | `core/pkg_alac/decode.go:98-107` | The buffers have room for four times maxSamplesPerFrame, so every frame of at most that many samples, with shorter predictors, fits, and packing and decoding it gives its PCM bytes |
| `Lossless.PcmLayout` | `core/pkg_alac/decode.go:569-572` | Sample pair i starts at byte 2 * bytes * i, left before right, and byte k of a sample is its bits from 8 * k on |
| `Lossless.WeightSuffices` | `core/pkg_alac/decode.go:545-557` | Without mixing every frame that fits is encodable; so it is with weight at most 2^shift when a bit is left for the sign of a difference and, in wide 24-bit frames, the weighted difference does not overflow int32 |
| `Lossless.HeaderReads` | `core/pkg_alac/decode.go:837-855` | The frame header written by the encoder is read back, with the explicit size or the configured one, at position 23 or 55 |
| `Lossless.ChannelReads` | `core/pkg_alac/decode.go:868-893` | A channel's predictor settings and its signed 16-bit coefficient table are read back and the reader stops after them |
| `Lossless.LowReads` | `core/pkg_alac/decode.go:895-902` | The uncompressed low bytes of both channels are read back in order |
| `Lossless.ChannelDecodes` | `core/pkg_alac/decode.go:904-948` | Entropy decoding followed by prediction returns the channel's samples and stops at the channel's last bit |
| `Frame.ReadChannel` | `core/pkg_alac/decode.go:868-893` | A channel header that can be read has at most 31 coefficients and a 3-bit rice modifier |
| `Frame.HeaderLayout` | `core/pkg_alac/decode.go:837-855` | Flags, uncompressed bytes and sample count are the packet bits at their positions, the count falling back to the configured one |
| `Frame.ChannelLayout` | `core/pkg_alac/decode.go:868-893` | Prediction type, quantization, rice modifier, order and each two's complement coefficient are the packet bits at their positions, the other coefficients zero |
| `Frame.LowLayout` | `core/pkg_alac/decode.go:895-902` | The low bytes are the stream bits at their positions, sample by sample, the first channel before the second |
| `Frame.OtherChannels` | `core/pkg_alac/decode.go:681-685` | A packet for more than two channels decodes to nothing, and an empty one panics |
| `Alac.Alac.DecodeFrame` | `core/pkg_alac/decode.go:673-1019` | Packet independence: whatever the scratch arrays and the reader held, the result (PCM bytes, nothing, or a panic) is the value of one function of the packet and the configuration |
| `Alac.Alac.DecodeCompressedStereo` | `core/pkg_alac/decode.go:857-1014` | The compressed branch gives the frame function's bytes, each scratch cell it uses being written first |
| `Alac.Alac.DecodeVerbatimStereo` | `core/pkg_alac/decode.go:949-1014` | The non-compressed branch gives the frame function's bytes |
| `Alac.Alac.ReadChannelHeader` | `core/pkg_alac/decode.go:868-893` | Reads one channel's settings; fails exactly when the packet ends first |
| `Alac.Alac.ReadLowBytes` | `core/pkg_alac/decode.go:895-902` | Fills the first n cells of the low-byte arrays with the stream's values and moves by their width |
| `Alac.Alac.DecodeChannelInto` | `core/pkg_alac/decode.go:904-948` | Leaves the channel's decoded samples in the first n cells of the output array, or panics where the channel function does |
| `Alac.Alac.constructor` | `core/pkg_alac/decode.go:98-107` | Allocation gives six distinct arrays of one length and the sample width |
| `Alac.Alac.ReadBits16` | `core/pkg_alac/decode.go:160-193` | Yields the big-endian value of the next n bits, zero beyond the packet, for n up to 16 (and what the shifts leave for any other n), moves by n and keeps the accumulator in 0..7; panics exactly when it starts outside the packet, moving nothing |
| `Alac.Alac.ReadBits` | `core/pkg_alac/decode.go:196-207` | The same up to 32 bits, although read in two halves through an int32, each of which must start inside the packet |
| `Alac.Alac.ReadBit` | `core/pkg_alac/decode.go:210-220` | Yields the bit at the position and moves by one |
| `Alac.Alac.UnreadBits` | `core/pkg_alac/decode.go:222-231` | Moves back by n: index and accumulator become exactly those of position - n, with the accumulator in 0..7, so it undoes a read of n bits |
| `BitStream.ValueSplit` | `core/pkg_alac/decode.go:196-207` | Reading a + b bits is reading a bits and then b bits |
| `BitStream.BitOfByteIsQuotient` | `core/pkg_alac/decode.go:210-220` | Bit j of a byte, most significant first, is b / 2^(7 - j) modulo 2 |
| `Alac.ExtractBits` | `core/pkg_alac/decode.go:160-183` | Shifting the three-byte window left past the bits read, masking it and shifting right leaves the wanted bits |
| `Alac.ExtractPart` | `core/pkg_alac/decode.go:160-183` | The same for every bit count: 17 to 24 give what is left of the window, and counts outside 1..24 give zero |
| `Alac.JoinHalves` | `core/pkg_alac/decode.go:196-207` | Or-ing the halves of a long read through int32 gives the value of all its bits |
| `BitStream.HasConcat` | `core/pkg_alac/decode.go:160-207` | A packet carries one bit string after another exactly when it carries each at its place |
| `BitStream.ReadBits` | `core/pkg_alac/decode.go:196-207` | Reading n bits where v was written in n bits returns v |
| `BitStream.PackHas` | `core/pkg_alac/decode.go:160-171` | Packing bits into bytes, zero-padded, puts them into a packet |
| `Rice.LeadingZerosIsCount` | `core/pkg_alac/decode.go:233-285` | `count_leading_zeros` is the leading-zero count of every 32-bit word |
| `Alac.Alac.EntropyDecodeValue` | `core/pkg_alac/decode.go:289-325` | For every read size, parameter and mask: returns the int32 the codeword function gives, at the position it gives, with the one-bit step back |
| `Rice.CodewordRoundTrip` | `core/pkg_alac/decode.go:289-325` | For every value that fits the read size (1..32), every parameter k and every mask: decoding its codeword returns int32 of it and stops at the codeword's end, whatever follows and also when the over-read bit is past the packet; the one exception, a zero remainder of a 17-bit k at the very end of the packet, panics |
| `Rice.CodewordMeaning` | `core/pkg_alac/decode.go:289-325` | In the packet's own bits: q ones and a zero count q * (2^min(k, b) - 1) under a mask of b ones, the k bits after them add their value less one (0 and 1 add nothing and take one bit less), and nine ones are followed by the value itself; decoding stops right there |
| `Rice.RiceMaskIsOnes` | `core/pkg_alac/decode.go:905-912` | The run-length mask is as many ones as the modifier, at most 32 |
| `Rice.StepsUnique` | `core/pkg_alac/decode.go:311-316` | Every value is steps of m and a rest below m in exactly one way, with at most eight steps exactly up to 9 * m - 1 |
| `Rice.CodeIsStepsOrEscape` | `core/pkg_alac/decode.go:289-325` | With m = 2^min(k, b) - 1 under a mask of b ones, a value of at most eight steps of m and a rest is sent as ones, a zero and the rest, and any other as an escape |
| `Rice.DecodeValueRange` | `core/pkg_alac/decode.go:289-325` | With parameters up to 16 and read sizes up to 31 no arithmetic wraps: the value is not negative |
| `Alac.Alac.EntropyRiceDecode` | `core/pkg_alac/decode.go:327-405` | For every read size, initial history, modifier, multiplier and mask: the loop fills the array with the samples of the channel function and stops where it does, or panics where it does |
| `Alac.Alac.RunOfZeros` | `core/pkg_alac/decode.go:377-403` | Below a mean of 128, in bounds or not, a run length is read with the parameter computed from int32 of the mean, that many zeros are stored, and the mean and the sign modifier are reset |
| `Rice.RiceRoundTrip` | `core/pkg_alac/decode.go:327-405` | For every array of at most 65536 residuals whose zig-zag values fit the read size and are below the largest int32, for every modifier, mask, mean and sign modifier: decoding the mirror encoding, with zero runs, sign modifier and escapes, returns the residuals and stops at exactly the last bit |
| `Rice.EncodeDecode` | `core/pkg_alac/decode.go:327-405` | From the start of a channel: packing the encoding and decoding it gives the residuals and the number of bits written |
| `Rice.FirstIteration` | `core/pkg_alac/decode.go:344-404` | One iteration reads what one encoder step wrote, and what is left is again an encoding for the state it reaches |
| `Rice.FinalValueOfZigZag` | `core/pkg_alac/decode.go:359-363` | Folding the sign back undoes zig-zag for an int32 if and only if its zig-zag value is below the largest int32 |
| `Rice.SampleKIsLog` | `core/pkg_alac/decode.go:348-354` | k is the floor of log2((history >> 9) + 3) capped by the modifier, and lies in 1..16 unless the modifier is 0 |
| `Rice.ZeroRunKRange` | `core/pkg_alac/decode.go:383` | The run-length parameter lies in 2..8 for every mean below 128 |
| `Rice.MeanBoundedOnRuns` | `core/pkg_alac/decode.go:344-404` | On every stream, in every iteration, the mean it starts with and the mean it computes lie in 0..512*65535 and both parameters stay in range, unless an iteration overflowed, which read sizes up to 30 exclude |
| `Rice.MeanFollowsSamples` | `core/pkg_alac/decode.go:344-404` | In every run, with d the zig-zag value of the sample an iteration wrote: above 0xFFFF the new mean is 0xFFFF, else it is pulled towards 512 * d by m parts in 512; the next iteration starts with it, or with zero after a run of zeros, which follows exactly if it is below 128 and samples are left |
| `Rice.MeanIsPulled` | `core/pkg_alac/decode.go:369-375` | The mean moves to ((512 - m) * mean + 512 * m * d) / 512 rounded up, between the old mean and its fixed point 512 * d |
| `Rice.MeanBoundedExactly` | `core/pkg_alac/decode.go:344-404` | For read sizes up to 31: all means of a run, at the head of an iteration and inside it before a run of zeros resets them, are in bounds if and only if no iteration adds the sign modifier to the largest value under a positive multiplier |
| `Rice.UpdatedMeanBoundedExactly` | `core/pkg_alac/decode.go:369-375` | The mean one iteration computes is in bounds if and only if the iteration does not overflow |
| `Rice.IterationMean` | `core/pkg_alac/decode.go:369-403` | The next iteration starts with that mean or with zero |
| `Rice.MeanEscapes` | `core/pkg_alac/decode.go:344-404` | A complete run at a 31-bit read size, with the mask its modifier gives, in which the mean reaches -2^32 inside an iteration and the decoder goes on, every iteration starting with a mean in bounds |
| `Rice.NextHistoryBoundedExactly` | `core/pkg_alac/decode.go:369-374` | One update of the mean stays in bounds if and only if it is not that overflow |
| `Fir.PredictorDecompressFirAdapt` | `core/pkg_alac/decode.go:421-531` | The first n outputs are those of the predictor function on the first n errors, although the output slice moves on in every step, and also when the order exceeds n; `Fir.OutputMeaning` and `Fir.TableMeaning` say what they are |
| `Fir.GeneralCase` | `core/pkg_alac/decode.go:473-529` | One step of the moving window: the rebuilt value and the adapted coefficient table |
| `Fir.OutputMeaning` | `core/pkg_alac/decode.go:421-531` | What each output is, truncated to the read size: the error, or the output before it plus the error, or the output n + 1 before it plus the error plus the sum of coefficient j times (output j + 1 back less that one), divided by 2^q to the nearest, when no product overflows |
| `Fir.SingleTap` | `core/pkg_alac/decode.go:480-488` | A single coefficient of 2^q at index j predicts exactly the output j + 1 back |
| `Fir.TableMeaning` | `core/pkg_alac/decode.go:492-526` | What adaptation does: starting with coefficient n - 1, each one reached moves by the sign of the error times the sign of the difference it weighs, and the moves end when the error left has lost its sign; all others stay |
| `Fir.FirLossless` | `core/pkg_alac/decode.go:421-531` | For every order, table, quantisation and sample sequence in range: if the errors are the samples minus the evolving prediction modulo 2^size, every sample is rebuilt and the table equals the encoder's after each step |
| `Fir.EncodeIsResidual` | `core/pkg_alac/decode.go:421-531` | The mirror encoder's errors are such errors, fit the signed read size, and its table is the one it adapts |
| `Fir.RunDependsOnPrefix` | `core/pkg_alac/decode.go:461-469` | Output i depends on no error after i: stale error cells reached by the warm-up never show |
| `Interlace.Deinterlace16` | `core/pkg_alac/decode.go:533-600` | For every channel count the output has room for: writes each pair's unmixed left and right as little-endian 16-bit samples, 2 * numchannels bytes apart, and leaves all other bytes alone |
| `Interlace.Pcm16Packed` | `core/pkg_alac/decode.go:569-572` | With two channels the frames follow one another without gaps |
| `Interlace.Deinterlace24` | `core/pkg_alac/decode.go:603-671` | The same for 24-bit samples, 3 * numchannels bytes apart, unmixed and with their low bytes re-attached |
| `Interlace.MidSideInversion16` | `core/pkg_alac/decode.go:545-599` | For all int16 pairs, weights and shifts the unmixed pair is the original, under wrapping arithmetic |
| `Interlace.MidSideInversion32` | `core/pkg_alac/decode.go:616-669` | The same for all int32 pairs |
| `Interlace.LittleEndianByte` | `core/pkg_alac/decode.go:635-641` | Byte k of a little-endian number holds its bits from 8 * k on |
| `Interlace.UnmixMeaning16` | `core/pkg_alac/decode.go:545-583` | The same modulo 2^16 for 16-bit output |
| `Interlace.UnmixMeaning32` | `core/pkg_alac/decode.go:616-651` | In plain terms: right is mid less (side * weight) / 2^shift and left is right plus side, modulo 2^32; weight 0 leaves the channels alone |
| `Interlace.MidBetween` | `core/pkg_alac/decode.go:545-557` | With weight at most 2^shift and no overflow the mid channel lies between left and right |
| `Interlace.ReattachIsSum` | `core/pkg_alac/decode.go:626-633` | Or-ing masked low bytes under the shifted sample puts the two parts side by side |
| `MachineInt.SignExtendedIsWrap` | `core/pkg_alac/decode.go:407-409` | The two shifts of `sign_extended32` give the representative modulo 2^bits in the signed range |
| `Verbatim.VerbatimFrame` | `core/pkg_alac/decode.go:837-1009` | A non-compressed stereo frame decodes to exactly the stream's raw samples from bit 23 (or 55) on in little-endian order, if and only if the packet and the buffers are long enough; otherwise it panics |
| `Verbatim.RawLayout` | `core/pkg_alac/decode.go:949-1009` | Byte k of output sample i of channel c is the eight stream bits that end 8 * k bits before the end of that sample |
| `Verbatim.SampleReads` | `core/pkg_alac/decode.go:952-974` | A verbatim sample, of either size, is the signed value of its bits; reading it fails exactly when one of its reads starts past the packet |
| `Manager.SessionManager.constructor` | `core/source/manager.go:85-98` | A new manager is idle at generation 0 with the timeout and preference defaults |
| `OwnershipRuns.NewManager` | `core/source/manager.go:85-98` | A positive timeout and a known preference are kept, otherwise ten seconds and AirPlay; the manager is idle at generation 0 |
| `Manager.SessionManager.CanReplaceLocked` | `core/source/manager.go:148-163` | Decides replacement as the policy function does |
| `Manager.SessionManager.Acquire` | `core/source/manager.go:100-146` | Takes the manager to the state, and returns the decision, of the acquire function |
| `Manager.SessionManager.Touch` | `core/source/manager.go:165-173` | Records activity of the owner only |
| `Manager.SessionManager.Release` | `core/source/manager.go:175-184` | Only the owner's release ends its period; the generation it opens is returned |
| `Manager.SessionManager.IsOwner` | `core/source/manager.go:186-190` | True exactly for the active session's id and generation |
| `Manager.SessionManager.IsIdleGeneration` | `core/source/manager.go:192-196` | True exactly for the current generation while nobody is active |
| `OwnershipRuns.RunInvariant` | `core/source/manager.go:100-184` | In every run an active session carries the manager's generation, has an id, and the policy settings never change |
| `OwnershipRuns.OneOwnerPerGeneration` | `core/source/manager.go:100-184` | Generations never decrease, and one generation belongs to one session or to one idle period |
| `OwnershipRuns.TokensNeverReturn` | `core/source/manager.go:186-196` | A token that is false for a generation already reached stays false for ever |
| `OwnershipRuns.GrantIsToken` | `core/source/manager.go:100-146` | A request is granted exactly when the generation it is given is its owner token afterwards; a refusal changes nothing and names the owner; a new owner's generation is the next one, never in use before; the replaced session and the session without URL and callback are returned |
| `OwnershipRuns.ReleaseIsToken` | `core/source/manager.go:175-184` | A release does something exactly for the owner, and then opens an idle period under a generation never in use before |
| `OwnershipRuns.SessionIsRecorded` | `core/source/manager.go:100-173` | Everything the active session records comes from the operations: its last activity from the latest Acquire or Touch naming it, URL and callback from the latest Acquire naming it, the rest from the Acquire that opened its generation |
| `OwnershipRuns.GrantedExactly` | `core/source/manager.go:100-163` | In every run a request with an id is granted if and only if nobody else is active, or the policy is latest or unknown, or idle and the owner's latest Acquire or Touch among the operations is at least idleTimeout ago, or priority and the requester is preferred or the owner is not |
| `OwnershipRuns.LockedOwnerStays` | `core/source/manager.go:109-121` | Under policy lock the owner changes only after its own release |
| `OwnershipRuns.ActivityRecorded` | `core/source/manager.go:165-173` | The owner's last activity is at least as late as any Touch or Acquire it made in this generation |
| `OwnershipRuns.IdleReplacementWaits` | `core/source/manager.go:148-163` | Under policy idle a replaced owner had no Touch and no Acquire for at least idleTimeout |
| `OwnershipRuns.PreferredOwnersStay` | `core/source/manager.go:148-163` | Under policy priority, from a preferred owner until a release, every owner uses the preferred protocol |
| `Coordinator.OrderStep` | `core/playback/coordinator.go:112-146` | Each step of callers, queue or worker keeps the order invariant, which ties every command and action to the one owner of its generation |
| `Coordinator.IssueOrder` | `core/playback/coordinator.go:256-295` | In every interleaving the generations of the speaker actions never decrease, and actions of one generation are all plays of one session or all pauses |
| `Coordinator.AskedBeforeCall` | `core/playback/coordinator.go:256-295` | Before every speaker call, retries included, the manager was asked since the call before, and its generation and owner were the command's |
| `Coordinator.FirstInFirstOut` | `core/playback/coordinator.go:189-205` | The worker starts on every command once, in the order they were enqueued, and at most 32 wait |
| `Coordinator.CallsPerCommand` | `core/playback/coordinator.go:256-295` | No command leads to more than three speaker calls, a pause to no more than one, and without a speaker there are none |
| `Coordinator.Converges` | `core/playback/coordinator.go:196-205` | At quiescence before Close the last action is, at the current generation, Play of the active session's URL, or Pause when idle; it succeeded, or is a pause, or is the third failure in a row of that play |
| `Coordinator.SpeakerConverges` | `core/playback/coordinator.go:256-295` | Once an action of the current generation succeeded, the latest successful action is that of the active session, or a pause when idle |
| `Coordinator.EffectiveIsLatest` | `core/playback/coordinator.go:256-295` | What the speaker does is the latest success, no older than any other success |
| `Coordinator.WorkDecreases` | `core/playback/coordinator.go:189-205` | Every enqueue, receive, check and speaker call uses up part of a bounded amount of work, retries included |
| `Coordinator.Drains` | `core/playback/coordinator.go:189-205` | When callers stop, quiescence is reached: as long as it is not, some internal step is enabled, and only a bounded number of them can be taken |
| `Renderer.MediaIdInjective` | `core/dlna/server.go:178-186` | No two media sessions share an id |
| `Renderer.Server.NewMediaSession` | `core/dlna/server.go:178-186` | Registers the URL under the next id |
| `Renderer.Server.CancelMediaLocked` | `core/dlna/server.go:188-204` | Forgets the session; if it was the active one, nothing is active and the transport is stopped |
| `Renderer.Server.CommitPlay` | `core/dlna/soap.go:144-158` | The session becomes active and PLAYING only if granted and still registered |
| `Renderer.Server.SetURI` | `core/dlna/soap.go:117-122` | Stores the URI and stops |
| `Renderer.Server.SetHalted` | `core/dlna/soap.go:159-182` | Stores the paused or stopped state |
| `Dlna.StepKeepsInv` | `core/dlna/soap.go:104-182` | Every section of a transport action, of a Cancel callback or of another protocol keeps the invariant between renderer and manager |
| `Dlna.PlayingMeansActive` | `core/dlna/soap.go:104-182` | At every moment of every run the transport is PLAYING exactly while a session is active |
| `Dlna.Agreement` | `core/main.go:205-215` | At quiescence, for every DLNA session d, the renderer's active session is d exactly when the manager's is, and `media` holds exactly that session or nothing |
| `Dlna.PlayedURI` | `core/dlna/soap.go:117-132` | At every moment of every run each registered session, the active one included, has the URI of the latest SetAVTransportURI before the Play that created it |
| `Dlna.URIStays` | `core/dlna/server.go:178-204` | While a session is registered its URI never changes, and an id does not come back |
| `Dlna.ReportedState` | `core/dlna/soap.go:104-182` | Between actions the transport says PAUSED_PLAYBACK after a Pause, STOPPED after a Stop or SetAVTransportURI, NO_MEDIA_PRESENT before any action, with no session active |
| `Dlna.PlayTouches` | `core/dlna/soap.go:155-158` | A Play that became active counts as activity of its session |
| `Dlna.WorkDecreases` | `core/dlna/soap.go:104-182` | Every section of a transport action or of a Cancel callback under way uses up part of a bounded amount of work |
| `Dlna.Drains` | `core/dlna/soap.go:104-182` | Quiescence of the renderer is reached: until then a section of what is under way is enabled, and only a bounded number of them can follow |
| `Dlna.OverlapInvOnRuns` | `core/dlna/soap.go:104-182` | However many actions overlap, in every state of every run PLAYING implies an active session |
| `Dlna.OverlapTruthfulExactly` | `core/dlna/soap.go:104-182` | For every run of any number of overlapping actions: the transport is PLAYING exactly while a session is active, at every moment, if and only if no SetAVTransportURI, Pause or Stop stores its state while a session is active |
| `Dlna.OverlapBreaksPlaying` | `core/dlna/soap.go:124-182` | An instance: a Stop stores its state after an overlapping Play, and, everything over, a session is active and owns the speaker while the transport says STOPPED |
| `EndToEnd.SameManager` | `core/playback/coordinator.go:112-150` | A renderer section and the coordinator call it makes change the manager in the same way |
| `EndToEnd.InvStep` | `core/main.go:205-217` | Every section of the renderer or of another protocol, and every step of queue and worker in between, keeps the invariants of both systems together |
| `EndToEnd.PlayingIsHeard` | `core/main.go:205-217` | When renderer, callbacks, callers, queue and worker are at rest and an action of the current generation succeeded, the transport is PLAYING exactly when the speaker's effective action is a DLNA session's play, and then it is that of the active session, with its /media/<id> URL, behind which is the URI the control point had set before that Play |
| `EndToEnd.ProxyPath` | `core/dlna/server.go:206-210` | Taking "/media/" off the proxy path gives the session id back |
| `EndToEnd.PlayingIsIssued` | `core/main.go:205-217` | The same of the last action issued before Close, which succeeded, or is a pause, or was tried three times |
| `EndToEnd.WorkDecreases` | `core/playback/coordinator.go:112-205` | Each such step uses up part of a bounded amount of work, although a section may hand the queue a new command |
| `EndToEnd.Drains` | `core/playback/coordinator.go:112-205` | That rest is reached: when nobody starts anything new, a step of renderer, callbacks, callers, queue or worker is enabled until all are at rest or Close is called, and only a bounded number of them can follow |
| `Hub.AudioStreamHub.constructor` | `core/airplay/server.go:47-55` | An empty open hub with the byte limit of the buffer time |
| `Hub.AudioStreamHub.Subscribe` | `core/airplay/server.go:57-73` | Registers a channel holding the whole history, none of its sends blocking; on a closed hub returns a closed channel |
| `Hub.AudioStreamHub.Unsubscribe` | `core/airplay/server.go:75-82` | Closes a registered channel once and leaves any other alone |
| `Hub.AudioStreamHub.Broadcast` | `core/airplay/server.go:84-106` | Appends to the bounded history and to every registered queue with room; never sends on a closed channel |
| `Hub.AudioStreamHub.Reset` | `core/airplay/server.go:108-113` | Empties the history and nothing else |
| `Hub.AudioStreamHub.Close` | `core/airplay/server.go:115-128` | Closes every registered channel exactly once and keeps what is queued |
| `HubRuns.TrimIsLongestSuffix` | `core/airplay/server.go:94-98` | The trimming loop leaves the longest suffix that fits |
| `HubRuns.HistoryWindow` | `core/airplay/server.go:84-113` | In every run with a positive limit the history is the longest suffix of the frames broadcast since the last Reset that fits the limit, also for empty and oversized frames; without a limit, or once closed, it is empty |
| `HubRuns.LongestSuffixUnique` | `core/airplay/server.go:94-98` | That suffix is unique |
| `HubRuns.ClosedForGood` | `core/airplay/server.go:115-128` | The hub is closed exactly when Close was called |
| `HubRuns.SubscriberStream` | `core/airplay/server.go:57-106` | In every run, what a subscriber took out plus what is queued is the history it joined at followed by a subsequence of the later broadcasts, in order and without repetition; it is all of them if and only if each broadcast found it registered with a backlog below history + 128 |
| `HubRuns.NextBroadcast` | `core/airplay/server.go:57-106` | In every run a subscriber hears a broadcast if and only if it is registered with a backlog below the history it joined at plus 128 frames |
| `HubRuns.StreamEnds` | `core/airplay/server.go:75-128` | After Unsubscribe or Close, in any run, a listener hears nothing more, and what was queued stays readable |
| `HubRuns.ListenerStep` | `core/airplay/server.go:75-128` | Only a broadcast with room adds a frame and none is reordered; a read takes exactly the oldest queued frame |

## Left out

- Mono frames, configurations with other than two channels, sample sizes other than 16 and 24, and prediction types other than 0: `Unmodelled` results; for several of these the code itself prints FIXME or panics.
- Lossless.FrameLossless: three uncompressed bytes in a 16-bit stream make the read size -7; `Frame.DecodeFrame` follows the code there, but the encoder makes no such frame. `Lossless.WeightSuffices` says when the mixed channels of a frame fit the read size.
- Alac.Alac.UnreadBits: the sign correction after `& 7` is dropped, since that expression is never negative in Go.
- `decodeFrame` is split into one method a section; the stereo and the coefficient reads that the source repeats for both channels are one method called twice.
- 32-bit `int` targets: `int` is unbounded here, standing for 64 bits.
- Wrap-around of the uint64 generation and of the uint64 session counter.
- Concurrency is modelled on values, as interleaved steps, not as goroutines over shared objects; the objects of `Manager` and `Renderer` are proved equal to the same step functions. `nextID.Add` and the insertion into `media` count as one step.
- Concurrent SOAP actions: `Dlna.OverlapTruthfulExactly` covers the transport state; the agreement with the manager and everything in `EndToEnd` is about actions that run one at a time.
- The DLNA server's Close, its media proxy, SSDP, XML and event handling; URI validation, whose failure leaves the state alone.
- AirPlay sessions are environment clients only; the RTSP, SDP, UDP, RSA and mDNS code is not part of this model.
- The volume path (workers, delayed synchronisation, curve) and the status files.
- Real time beyond an abstract clock, and the saturation of `time.Sub`; the pauses between retries take no time.
- Frames of the hub are values: the reuse of the UDP buffer a frame may alias (core/airplay/server.go:937) is not modelled.
