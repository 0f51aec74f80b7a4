# silk_decoder: decode_silk_file and swap_endian in Dafny

This project models `decode_silk_file` and `swap_endian` from `src/silk_decoder.c`. The
function turns a SILK v3 bit-stream file into a raw 16-bit PCM file:

1. It recognises one of four header variants in the first ten bytes. A stream shorter
   than "!SILK_V3" ends the process with `exit(-1)`; a stream with no variant returns -1.
2. It sizes and initialises a SILK decoder. Either step failing returns -1.
3. It reads length-prefixed frames until the stream ends, a length is negative or a
   payload is cut short.
4. For each frame it calls the decoder in a do-while until the decoder reports no more
   internal frames. It writes the packet's samples little-endian on either host.

The Dafny modules follow those parts:

- `Endian`: int16 and byte representations, a host's memory byte order, `swap_endian`
  (`SwapEndian`, an in-place loop over an `array<int16>`), and the byte images that
  `fwrite` stores.
- `Header`: the ten-byte read into the zero-filled eleven-byte buffer, `strncmp`, and
  the if-chain over the four variants (`RecogniseHeader`). They are proved equal to a
  rule stated on the stream alone (`HeaderRule`).
- `Framing`: one turn of the frame loop's reading (`NextFrame`) and the frames of a
  stream (`Frames`).
- `Sdk`: the SILK SDK as a scripted stub, the class `SilkSdk`. Its setup calls return
  fixed statuses. Each decode call gives the next scripted answer: a status, the samples
  written, and the values it writes to `moreInternalDecoderFrames` and `framesPerPacket`. A script that has run out answers with no
  samples and no further frames. The stub keeps a ghost log of the calls it received
  and a ghost flag for the decoder instance being allocated.
- `SilkDecoder`: the specification of a whole run (`DecodeSpec`) and the imperative
  model proved against it:
  - `DecodeSilkFile` does the setup and the returns.
  - `FrameLoop` is the `while (1)` loop. `ReadFrame` reads and swaps the length field and
    takes the payload.
  - `DecodeOnePacket` is the do-while. `WritePacket` does the swap and the write.

Inputs and outputs:

- The input file is a byte sequence read through a cursor.
- The output file is the byte sequence that `DecodeSilkFile` returns.
- The host's byte order is a parameter (`HostOrder`) instead of the compile-time
  `_SYSTEM_IS_BIG_ENDIAN` switch.
- `DecodeSpec` has no host parameter, so the output does not depend on the host.

## Model

| member | source | states |
|---|---|---|
| Endian.FromBytesLE | src/silk_decoder.c:134-137 | the int16 read from two little-endian bytes has their unsigned value as its bit pattern and is negative exactly when the high byte's top bit is set |
| Endian.ToBytesLE | src/silk_decoder.c:163 | an int16's two little-endian bytes spell its bit pattern and read back as the same int16 |
| Endian.BytesRoundTrip | src/silk_decoder.c:134-137 | reading two bytes as an int16 and writing it again gives the same two bytes |
| Endian.MemBytes | src/silk_decoder.c:28-29 | an int16's memory image is two bytes whose value, read low byte first on a little-endian host and high byte first on a big-endian host, is the int16's bit pattern |
| Endian.MemValue | src/silk_decoder.c:28-29 | the int16 a host sees in two memory bytes is the one whose memory image is exactly those bytes |
| Endian.ByteSwap | src/silk_decoder.c:27-29 | the swapped value's little-endian bytes are the original's in the other order |
| Endian.ByteSwapInvolutive | src/silk_decoder.c:27-29 | swapping an int16's bytes twice gives it back |
| Endian.SwapInMemory | src/silk_decoder.c:27-29 | exchanging the two memory bytes through byte pointers byte-swaps the value on either host order |
| Endian.SwappedImageIsLittleEndianImage | src/silk_decoder.c:17-31 | the memory image of a swapped array on a big-endian host is the memory image of the unswapped array on a little-endian host, byte for byte |
| Endian.SwapAllInvolutive | src/silk_decoder.c:17-31 | swapping a whole sequence twice restores it |
| Endian.SwapEndian | src/silk_decoder.c:17-31 | the array's first `len` elements (none when `len` is negative) become their byte-swapped values and the rest are unchanged |
| Endian.LengthFieldIsLittleEndian | src/silk_decoder.c:134-137 | the length field read into memory, then swapped on a big-endian host, is the little-endian int16 of the two file bytes on either host |
| Endian.HostBytes | src/silk_decoder.c:163 | `fwrite` of n int16s stores 2n bytes |
| Endian.EncodeLE | src/silk_decoder.c:163 | the little-endian stream of n int16s is 2n bytes long |
| Endian.DecodeLE | src/silk_decoder.c:163 | reading 2n bytes back gives n int16s |
| Endian.EncodeDecodeRoundTrip | src/silk_decoder.c:163 | reading the little-endian stream back gives the original samples |
| Endian.WrittenBytesAreLittleEndian | src/silk_decoder.c:160-163 | the bytes written for a packet, swapped first on a big-endian host, are its little-endian encoding on either host |
| Header.BytesRead | src/silk_decoder.c:76 | `fread` of ten bytes reports ten bytes, or every byte of a shorter stream |
| Header.HeaderBuffer | src/silk_decoder.c:68-76 | the eleven-byte buffer holds the bytes read followed by zeros |
| Header.StrnEqIsPrefixEquality | src/silk_decoder.c:82-93 | against a pattern with no NUL byte, `strncmp(a, b, n) == 0` holds exactly when the first n bytes are equal |
| Header.RecogniseHeader | src/silk_decoder.c:76-80 | the check reports a stream too short (the `exit(-1)` path) exactly when it has fewer than 8 bytes |
| Header.BufferMatch | src/silk_decoder.c:82-93 | a `strncmp` on the zero-padded buffer at offset 0 or 1 matches exactly when the pattern occurs there in the stream |
| Header.HeaderCharacterised | src/silk_decoder.c:76-96 | the check as written, with its buffer, padding and byte-count guards, equals the rule on the stream: too short, then `#!SILK_V3` at 0 gives 9, `!SILK_V3` at 0 gives 8, `#!SILK_V3` at 1 gives 10, `!SILK_V3` at 1 gives 9, otherwise not found |
| Header.HeaderOffset | src/silk_decoder.c:82-100 | an accepted header ends exactly at the returned offset, which lies within the stream; a stream opening with `#!SILK_V3` always gets offset 9 |
| Header.HeaderReadsTenBytes | src/silk_decoder.c:76 | cutting the stream anywhere after its tenth byte does not change the header check |
| Framing.NextFrame | src/silk_decoder.c:134-145 | a frame is read exactly when two length bytes remain, the little-endian length is not negative and that many payload bytes follow; the frame is then the length field's payload and ends just after it |
| Framing.FramesTile | src/silk_decoder.c:133-145 | each frame's length field sits where the previous frame ended, each frame ends at least two bytes on, and the loop stops exactly where no further frame can be read |
| Framing.CutStream | src/silk_decoder.c:142-145 | the frames of a stream cut short are a prefix of the whole stream's frames and include every frame that ends before the cut |
| Sdk.DecodePacket | src/silk_decoder.c:150-158 | a packet makes at least one decode call, consumes exactly as many answers as it makes calls unless the script runs out, and makes one call with no samples when the script is empty |
| Sdk.PacketLeavesSuffix | src/silk_decoder.c:150-158 | the answers a packet leaves are a suffix of the script |
| Sdk.PacketOfSubFrames | src/silk_decoder.c:150-158 | when k-1 answers ask for more and the k-th does not, the packet makes exactly k calls and its samples are those k answers' samples in order |
| Sdk.SilkSdk.constructor | src/silk_decoder.c:115-151 | a new stub has the given setup statuses and script, no decoder instance and no calls |
| Sdk.SilkSdk.GetDecoderSize | src/silk_decoder.c:115 | returns the stub's size status and records that the size was queried |
| Sdk.SilkSdk.Allocate | src/silk_decoder.c:122 | allocates the decoder instance, which must not already be live |
| Sdk.SilkSdk.InitDecoder | src/silk_decoder.c:124 | returns the stub's init status on a live instance |
| Sdk.SilkSdk.Release | src/silk_decoder.c:166 | frees a live instance, so it is never freed twice |
| Sdk.SilkSdk.Decode | src/silk_decoder.c:151 | writes the next answer's samples at `outPtr` and leaves the rest of `out` alone; returns its status and sample count; sets the two output fields `framesPerPacket` and `moreInternalDecoderFrames` from the answer and keeps the requested sample rate; consumes the answer and logs the call with its sample rate and payload |
| SilkDecoder.DecodeFrames | src/silk_decoder.c:133-158 | one packet per frame |
| SilkDecoder.EveryPacketCalls | src/silk_decoder.c:150-158 | every frame's packet makes at least one decode call |
| SilkDecoder.EveryFrameReachesDecoder | src/silk_decoder.c:147-158 | there are at least as many decode calls as frames, and every frame's payload, an empty one included, is passed to the decoder with the configured sample rate |
| SilkDecoder.DecodeSpec | src/silk_decoder.c:42-172 | the run ends in `exit(-1)` exactly when the stream has fewer than 8 bytes; it returns 0 exactly when a header is found and both setup calls succeed; otherwise it returns -1 with no output and no decode calls; the output is a whole number of int16s |
| SilkDecoder.PacketBytesInPlace | src/silk_decoder.c:160-163 | in the output, each packet's samples sit little-endian right after the bytes of the packets before it |
| SilkDecoder.OutputReadsBack | src/silk_decoder.c:163 | the output file read back as little-endian int16s is the packets' samples in frame order |
| SilkDecoder.PacketIgnoresStatus | src/silk_decoder.c:151-154 | a packet's samples and call count do not depend on the statuses the decoder returns |
| SilkDecoder.FramesIgnoreStatus | src/silk_decoder.c:151-154 | the packets of a run of frames do not depend on the statuses the decoder returns |
| SilkDecoder.StatusOnlyLogged | src/silk_decoder.c:151-171 | whatever statuses the decode calls return, the run has the same outcome, output and calls |
| SilkDecoder.DecodedPrefix | src/silk_decoder.c:133-164 | decoding the first m frames gives a prefix of the output and of the calls of decoding them all |
| SilkDecoder.TruncatedStreamKeepsEarlierOutput | src/silk_decoder.c:142-145 | a stream cut after its tenth byte has the same outcome; its output and decode calls are a prefix of the whole stream's, so the frame cut short adds nothing; and the output of every frame that ends by the cut, together with all frames before it, is present in the cut stream's output |
| SilkDecoder.AppendFrame | src/silk_decoder.c:147-163 | one more frame appends its packet's little-endian samples to the output and its calls to the log |
| SilkDecoder.DecodeOnePacket | src/silk_decoder.c:147-158 | `tot_len` is the packet's sample count and `out[..tot_len]` holds its samples in call order; the script and the call log advance by the packet's calls, each given the same payload |
| SilkDecoder.WritePacket | src/silk_decoder.c:147-163 | the bytes written for a packet are its samples' little-endian encoding on either host |
| SilkDecoder.ReadFrame | src/silk_decoder.c:134-145 | reading the length (swapped on a big-endian host) and then the payload gives the frame at the cursor, or stops where the stream ends, the length is negative or the payload is cut short |
| SilkDecoder.FrameLoop | src/silk_decoder.c:133-164 | the output, the script left and the calls made are those of decoding every frame of the stream in order, on either host |
| SilkDecoder.DecodeSilkFile | src/silk_decoder.c:42-172 | outcome, output and decode calls are those of `DecodeSpec`, whatever the host's byte order; the decoder instance is freed on every path that allocated it; without a header the SDK is not touched |

## Left out

- File plumbing is left out: `fopen`, `fclose`, `fseek` and `fread`/`fwrite` on real files. The two `fopen` failures (each returns -1) are not modelled. The input is a byte sequence and the output the returned byte sequence.
- The `stderr` messages are left out. A non-zero decode status is only reported there, so the model ignores it.
- The `exit(-1)` path leaves both files open. The model has no files, so it only records the outcome `ProcessExit(-1)`.
- The SILK SDK is foreign code and is replaced by a scripted stub. The stub ignores the payload's content and the sample rate, and `decSizeBytes` is not modelled. A script answer fixes the status, the samples, `moreInternalDecoderFrames` and `framesPerPacket` of one call. When its script runs out it answers with no samples and no further frames; the real decoder's behaviour on an exhausted decoder state is not captured.
- `malloc` returning NULL is not checked by the source and is not modelled. Allocation is a ghost flag on the stub.
- The payload buffer holds 15360 bytes (`PAYLOAD_CAPACITY`, declared as the product at line 46), but a length field can announce up to 32767. The source has no guard, so a longer payload would overflow the buffer. The model takes each payload as a slice of the stream and does not model that overflow.
- SilkDecoder.FrameLoop: requires that every packet the decoder produces fits the 9600-sample out buffer (`PacketsFit`). This is the SDK's promise not to write past `out`; the source does not check it, and the model does not cover a decoder that breaks it.
- SilkDecoder.DecodeSilkFile: carries the same out-buffer requirement as `FrameLoop`.
- `framesPerPacket` is set to 1 once before the loop and then rewritten by every decode call, as the SDK's control struct does. The stub writes a scripted value there, and the call log records only the sample rate and the payload, not the `framesPerPacket` value each call finds in the struct.
- The `FFI_PLUGIN_EXPORT` wrapper is left out. The `#ifdef _SYSTEM_IS_BIG_ENDIAN` switch becomes the `HostOrder` parameter.
- `MAX_FRAME_LENGTH` is declared but never used in the source, so it has no counterpart here.
