/**
  decode_silk_file: header check, decoder setup, the frame loop with its
  do-while over the decoder's internal frames, and the little-endian output.

  The input file is a byte sequence read through a cursor and the output file a
  byte sequence that grows; the host's byte order is a parameter.
 */
module SilkDecoder {
  import opened Endian
  import opened Header
  import opened Framing
  import opened Sdk

  const MAX_BYTES_PER_FRAME := 1024
  const MAX_INPUT_FRAMES := 5
  const FRAME_LENGTH_MS := 20
  const MAX_API_FS_KHZ := 48
  const MAX_LBRR_DELAY := 2

  /** Bytes in the payload buffer (15360); payloads are taken from the stream here instead. */
  const PAYLOAD_CAPACITY := MAX_BYTES_PER_FRAME * MAX_INPUT_FRAMES * (MAX_LBRR_DELAY + 1)
  /** Samples in the out buffer: ((FRAME_LENGTH_MS * MAX_API_FS_KHZ) << 1) * MAX_INPUT_FRAMES, i.e. 9600. */
  const OUT_CAPACITY := FRAME_LENGTH_MS * MAX_API_FS_KHZ * 2 * MAX_INPUT_FRAMES

  /** How decode_silk_file ends: exit() of the whole process, or a return value. */
  datatype Outcome = ProcessExit(code: int) | Returned(code: int)

  /** Everything a run produces: its outcome, the output file's bytes and the decode calls made. */
  datatype Run = Run(outcome: Outcome, output: seq<byte>, calls: seq<Call>)

  /** What one frame's do-while produced: the samples written (tot_len of them) and the calls made. */
  datatype Packet = Packet(samples: seq<int16>, calls: nat)

  /** The packets decoded for a run of frames, and the decoder script left afterwards. */
  datatype Decoded = Decoded(packets: seq<Packet>, rest: seq<SubFrame>)

  /** One packet per frame, in order, the decoder's script carried from one to the next. */
  function DecodeFrames(frames: seq<Frame>, script: seq<SubFrame>): (d: Decoded)
    ensures |d.packets| == |frames|
  {
    if frames == [] then Decoded([], script)
    else
      var p := DecodePacket(script);
      var d := DecodeFrames(frames[1..], p.rest);
      Decoded([Packet(p.samples, p.calls)] + d.packets, d.rest)
  }

  /** Each frame's packet makes at least one decode call. */
  lemma {:induction false} EveryPacketCalls(frames: seq<Frame>, script: seq<SubFrame>)
    ensures forall i :: 0 <= i < |frames| ==> DecodeFrames(frames, script).packets[i].calls >= 1
  {
    if frames != [] {
      var p := DecodePacket(script);
      EveryPacketCalls(frames[1..], p.rest);
      var tail := DecodeFrames(frames[1..], p.rest).packets;
      var packets := DecodeFrames(frames, script).packets;
      assert packets == [Packet(p.samples, p.calls)] + tail;
      forall i | 0 < i < |packets|
        ensures packets[i].calls >= 1
      {
        assert packets[i] == tail[i - 1];
        assert 0 <= i - 1 < |tail|;
        assert tail[i - 1].calls >= 1;
      }
      assert packets[0].calls >= 1;
    }
  }

  /** The samples of all packets, packet after packet. */
  function Samples(packets: seq<Packet>): seq<int16> {
    if packets == [] then [] else packets[0].samples + Samples(packets[1..])
  }

  function Repeat<T>(x: T, n: nat): (r: seq<T>)
    ensures |r| == n && forall i :: 0 <= i < n ==> r[i] == x
  {
    seq(n, _ => x)
  }

  /** The decode calls of a run of frames: each packet's calls all get that frame's payload. */
  function CallLog(sampleRate: int, frames: seq<Frame>, packets: seq<Packet>): seq<Call>
    requires |frames| == |packets|
  {
    if frames == [] then []
    else Repeat(Call(sampleRate, frames[0].payload), packets[0].calls) + CallLog(sampleRate, frames[1..], packets[1..])
  }

  /**
    What decode_silk_file does with `input`, given the SDK's setup statuses and
    its decode answers. The host's byte order does not appear.
   */
  function DecodeSpec(input: seq<byte>, sampleRate: int, sizeStatus: int16, initStatus: int16,
                      responses: seq<SubFrame>): (run: Run)
    ensures run.outcome == ProcessExit(-1) <==> |input| < |SILK_HEADER|
    ensures run.outcome == Returned(0) <==>
              RecogniseHeader(input).Found? && sizeStatus == 0 && initStatus == 0
    ensures run.outcome in {ProcessExit(-1), Returned(-1), Returned(0)}
    ensures run.outcome != Returned(0) ==> run.output == [] && run.calls == []
    ensures |run.output| % 2 == 0
  {
    match RecogniseHeader(input)
    case TooShort => Run(ProcessExit(-1), [], [])
    case NotFound => Run(Returned(-1), [], [])
    case Found(off) =>
      if sizeStatus != 0 || initStatus != 0 then Run(Returned(-1), [], [])
      else
        HeaderOffset(input);
        var frames := Frames(input, off);
        var d := DecodeFrames(frames, responses);
        Run(Returned(0), EncodeLE(Samples(d.packets)), CallLog(sampleRate, frames, d.packets))
  }

  lemma {:induction false} DecodeFramesAppend(fs: seq<Frame>, gs: seq<Frame>, script: seq<SubFrame>)
    ensures var d1 := DecodeFrames(fs, script);
            var d2 := DecodeFrames(gs, d1.rest);
            DecodeFrames(fs + gs, script).packets == d1.packets + d2.packets &&
            DecodeFrames(fs + gs, script).rest == d2.rest
  {
    if fs == [] {
      assert fs + gs == gs;
    } else {
      var p := DecodePacket(script);
      assert (fs + gs)[1..] == fs[1..] + gs;
      DecodeFramesAppend(fs[1..], gs, p.rest);
    }
  }

  lemma {:induction false} SamplesAppend(a: seq<Packet>, b: seq<Packet>)
    ensures Samples(a + b) == Samples(a) + Samples(b)
  {
    if a == [] {
      assert a + b == b;
    } else {
      assert (a + b)[1..] == a[1..] + b;
      SamplesAppend(a[1..], b);
    }
  }

  lemma {:induction false} CallLogAppend(rate: int, fs: seq<Frame>, ps: seq<Packet>, gs: seq<Frame>, qs: seq<Packet>)
    requires |fs| == |ps| && |gs| == |qs|
    ensures CallLog(rate, fs + gs, ps + qs) == CallLog(rate, fs, ps) + CallLog(rate, gs, qs)
  {
    if fs == [] {
      assert fs + gs == gs && ps + qs == qs;
    } else {
      assert (fs + gs)[1..] == fs[1..] + gs;
      assert (ps + qs)[1..] == ps[1..] + qs;
      CallLogAppend(rate, fs[1..], ps[1..], gs, qs);
    }
  }

  /**
    Every complete frame, an empty one included, reaches the decoder: there are
    at least as many calls as frames, and each frame's payload is passed with
    the configured sample rate.
   */
  lemma {:induction false} EveryFrameReachesDecoder(rate: int, frames: seq<Frame>, packets: seq<Packet>)
    requires |frames| == |packets|
    requires forall i :: 0 <= i < |packets| ==> packets[i].calls >= 1
    ensures |CallLog(rate, frames, packets)| >= |frames|
    ensures forall i :: 0 <= i < |frames| ==> Call(rate, frames[i].payload) in CallLog(rate, frames, packets)
  {
    if frames != [] {
      EveryFrameReachesDecoder(rate, frames[1..], packets[1..]);
      var log := CallLog(rate, frames, packets);
      var head := Repeat(Call(rate, frames[0].payload), packets[0].calls);
      assert log == head + CallLog(rate, frames[1..], packets[1..]);
      assert log[0] == head[0];
      forall i | 0 <= i < |frames|
        ensures Call(rate, frames[i].payload) in log
      {
        if i > 0 {
          assert frames[i] == frames[1..][i - 1];
        }
      }
    }
  }

  /**
    In the output, packet i's samples sit, little-endian, right after the bytes
    of the packets before it.
   */
  lemma PacketBytesInPlace(packets: seq<Packet>, i: nat)
    requires i < |packets|
    ensures var at := 2 * |Samples(packets[..i])|;
            var out := EncodeLE(Samples(packets));
            at + 2 * |packets[i].samples| <= |out| &&
            out[at..at + 2 * |packets[i].samples|] == EncodeLE(packets[i].samples)
  {
    SamplesAround(packets, i);
    var rest := Samples(packets[i + 1..]);
    EncodeLEAppend(Samples(packets[..i]), packets[i].samples + rest);
    EncodeLEAppend(packets[i].samples, rest);
    Middle(EncodeLE(Samples(packets[..i])), EncodeLE(packets[i].samples), EncodeLE(rest));
  }

  lemma Middle<T>(x: seq<T>, y: seq<T>, z: seq<T>)
    ensures (x + (y + z))[|x|..|x| + |y|] == y
  {
  }

  /** The samples of all packets are those before packet i, then packet i's, then those after. */
  lemma SamplesAround(packets: seq<Packet>, i: nat)
    requires i < |packets|
    ensures Samples(packets) == Samples(packets[..i]) + (packets[i].samples + Samples(packets[i + 1..]))
  {
    var tail := packets[i..];
    assert packets[..i] + tail == packets;
    SamplesAppend(packets[..i], tail);
    assert tail[0] == packets[i] && tail[1..] == packets[i + 1..];
  }

  /** The output file, read back as little-endian int16s, is the packets' samples. */
  lemma OutputReadsBack(packets: seq<Packet>)
    ensures DecodeLE(EncodeLE(Samples(packets))) == Samples(packets)
  {
    EncodeDecodeRoundTrip(Samples(packets));
  }

  /**
    Two scripts whose answers write the same samples and the same "more" flag;
    their statuses (and the framesPerPacket values they report) may differ.
   */
  predicate SameButStatus(a: seq<SubFrame>, b: seq<SubFrame>) {
    |a| == |b| && forall i :: 0 <= i < |a| ==> a[i].samples == b[i].samples && a[i].more == b[i].more
  }

  lemma {:induction false} PacketIgnoresStatus(a: seq<SubFrame>, b: seq<SubFrame>)
    requires SameButStatus(a, b)
    ensures DecodePacket(a).samples == DecodePacket(b).samples
    ensures DecodePacket(a).calls == DecodePacket(b).calls
    ensures SameButStatus(DecodePacket(a).rest, DecodePacket(b).rest)
    decreases |a|
  {
    if a != [] && a[0].more {
      PacketIgnoresStatus(a[1..], b[1..]);
    }
  }

  lemma {:induction false} FramesIgnoreStatus(frames: seq<Frame>, a: seq<SubFrame>, b: seq<SubFrame>)
    requires SameButStatus(a, b)
    ensures DecodeFrames(frames, a).packets == DecodeFrames(frames, b).packets
  {
    if frames != [] {
      PacketIgnoresStatus(a, b);
      var pa, pb := DecodePacket(a), DecodePacket(b);
      FramesIgnoreStatus(frames[1..], pa.rest, pb.rest);
      assert DecodeFrames(frames, a).packets == [Packet(pa.samples, pa.calls)] + DecodeFrames(frames[1..], pa.rest).packets;
      assert DecodeFrames(frames, b).packets == [Packet(pb.samples, pb.calls)] + DecodeFrames(frames[1..], pb.rest).packets;
    }
  }

  /**
    A decode call's status is only reported: whatever statuses the decoder
    returns, the run has the same outcome, the same output and the same calls.
   */
  lemma StatusOnlyLogged(input: seq<byte>, sampleRate: int, sizeStatus: int16, initStatus: int16,
                         a: seq<SubFrame>, b: seq<SubFrame>)
    requires SameButStatus(a, b)
    ensures DecodeSpec(input, sampleRate, sizeStatus, initStatus, a) ==
            DecodeSpec(input, sampleRate, sizeStatus, initStatus, b)
  {
    if RecogniseHeader(input).Found? {
      HeaderOffset(input);
      FramesIgnoreStatus(Frames(input, RecogniseHeader(input).offset), a, b);
    }
  }

  /** Decoding the first m frames gives a prefix of the output and of the calls of decoding them all. */
  lemma DecodedPrefix(rate: int, fs: seq<Frame>, m: nat, script: seq<SubFrame>)
    requires m <= |fs|
    ensures var a, b := DecodeFrames(fs[..m], script), DecodeFrames(fs, script);
            var outA, outB := EncodeLE(Samples(a.packets)), EncodeLE(Samples(b.packets));
            var logA, logB := CallLog(rate, fs[..m], a.packets), CallLog(rate, fs, b.packets);
            |outA| <= |outB| && outA == outB[..|outA|] && |logA| <= |logB| && logA == logB[..|logA|]
  {
    var head, tail := fs[..m], fs[m..];
    assert fs == head + tail;
    DecodeFramesAppend(head, tail, script);
    var a := DecodeFrames(head, script);
    var b2 := DecodeFrames(tail, a.rest);
    SamplesAppend(a.packets, b2.packets);
    EncodeLEAppend(Samples(a.packets), Samples(b2.packets));
    CallLogAppend(rate, head, a.packets, tail, b2.packets);
  }

  /**
    A stream cut anywhere after its first ten bytes decodes to the same outcome,
    and its output and decode calls are a prefix of those of the whole stream:
    a frame cut short adds nothing, and earlier frames are unaffected.
   */
  lemma TruncatedStreamKeepsEarlierOutput(input: seq<byte>, sampleRate: int, sizeStatus: int16,
                                          initStatus: int16, responses: seq<SubFrame>, c: nat)
    requires HEADER_READ <= c <= |input|
    ensures var cut := DecodeSpec(input[..c], sampleRate, sizeStatus, initStatus, responses);
            var whole := DecodeSpec(input, sampleRate, sizeStatus, initStatus, responses);
            cut.outcome == whole.outcome &&
            |cut.output| <= |whole.output| && cut.output == whole.output[..|cut.output|] &&
            |cut.calls| <= |whole.calls| && cut.calls == whole.calls[..|cut.calls|]
    ensures RecogniseHeader(input).Found? && sizeStatus == 0 && initStatus == 0 ==>
              var off := RecogniseHeader(input).offset;
              var cutOutput := DecodeSpec(input[..c], sampleRate, sizeStatus, initStatus, responses).output;
              off <= |input| &&
              forall i :: 0 <= i < |Frames(input, off)| && Frames(input, off)[i].end <= c ==>
                EncodeLE(Samples(DecodeFrames(Frames(input, off)[..i + 1], responses).packets)) <= cutOutput
  {
    HeaderReadsTenBytes(input, c);
    var h := RecogniseHeader(input);
    if h.Found? && sizeStatus == 0 && initStatus == 0 {
      HeaderOffset(input);
      var off := h.offset;
      var fa, fb := Frames(input[..c], off), Frames(input, off);
      CutStream(input, off, c);
      DecodedPrefix(sampleRate, fb, |fa|, responses);
      var cutOutput := EncodeLE(Samples(DecodeFrames(fa, responses).packets));
      assert DecodeSpec(input[..c], sampleRate, sizeStatus, initStatus, responses).output == cutOutput;
      forall i | 0 <= i < |fb| && fb[i].end <= c
        ensures EncodeLE(Samples(DecodeFrames(fb[..i + 1], responses).packets)) <= cutOutput
      {
        KeptFrameOutput(fa, fb, i, responses);
      }
    }
  }

  /** When `fa` is a prefix of `fb` holding frame i, the output up to frame i is part of `fa`'s output. */
  lemma KeptFrameOutput(fa: seq<Frame>, fb: seq<Frame>, i: nat, script: seq<SubFrame>)
    requires i < |fa| <= |fb| && fa == fb[..|fa|]
    ensures EncodeLE(Samples(DecodeFrames(fb[..i + 1], script).packets)) <=
            EncodeLE(Samples(DecodeFrames(fa, script).packets))
  {
    DecodedPrefix(0, fa, i + 1, script);
    assert fa[..i + 1] == fb[..i + 1];
  }

  /** One more frame appends its packet's bytes to the output and its calls to the log. */
  lemma AppendFrame(rate: int, frames: seq<Frame>, k: nat, script: seq<SubFrame>)
    requires k < |frames|
    ensures var before := DecodeFrames(frames[..k], script);
            var p := DecodePacket(before.rest);
            var after := DecodeFrames(frames[..k + 1], script);
            after.rest == p.rest &&
            EncodeLE(Samples(after.packets)) == EncodeLE(Samples(before.packets)) + EncodeLE(p.samples) &&
            CallLog(rate, frames[..k + 1], after.packets) ==
              CallLog(rate, frames[..k], before.packets) + Repeat(Call(rate, frames[k].payload), p.calls)
  {
    var before := DecodeFrames(frames[..k], script);
    var p := DecodePacket(before.rest);
    var f := frames[k];
    assert frames[..k + 1] == frames[..k] + [f];
    DecodeFramesAppend(frames[..k], [f], script);
    var last := DecodeFrames([f], before.rest);
    assert [f][1..] == [];
    assert last == Decoded([Packet(p.samples, p.calls)], p.rest);
    SamplesAppend(before.packets, last.packets);
    assert Samples(last.packets) == p.samples;
    EncodeLEAppend(Samples(before.packets), p.samples);
    CallLogAppend(rate, frames[..k], before.packets, [f], last.packets);
    assert CallLog(rate, [f], last.packets) == Repeat(Call(rate, f.payload), p.calls);
  }

  /**
    The do-while after n calls that wrote `done`: while more frames are
    expected, `done` followed by the rest of the packet is the whole packet;
    once none is, `done` is the packet.
   */
  predicate PacketState(p0: PacketRun, done: seq<int16>, responses: seq<SubFrame>, n: nat, more: bool) {
    var p := DecodePacket(responses);
    if more then done + p.samples == p0.samples && p.rest == p0.rest && n + p.calls == p0.calls
    else done == p0.samples && responses == p0.rest && n == p0.calls
  }

  /** One more decode call keeps the do-while's state, and its samples fit in what the packet has left. */
  lemma PacketStateStep(p0: PacketRun, done: seq<int16>, responses: seq<SubFrame>, n: nat)
    requires PacketState(p0, done, responses, n, true)
    ensures var r := Respond(responses);
            |done| + |r.samples| <= |p0.samples| &&
            PacketState(p0, done + r.samples, Advance(responses), n + 1, r.more)
  {
    var r := Respond(responses);
    PacketStep(responses);
    if r.more {
      var q := DecodePacket(Advance(responses));
      assert done + r.samples + q.samples == done + (r.samples + q.samples);
    }
  }

  /**
    The do-while on one payload: calls the decoder until it reports no more
    internal frames, each call writing its samples right after the previous
    ones; a non-zero status is only reported. Leaves the packet's samples in
    `out[..totLen]`.
   */
  method DecodeOnePacket(sdk: SilkSdk, control: DecControl, payload: seq<byte>, out: array<int16>)
    returns (totLen: int16, control': DecControl)
    requires sdk.live
    requires |DecodePacket(sdk.responses).samples| <= out.Length < 0x8000
    modifies sdk`responses, sdk`calls, out
    ensures totLen == |DecodePacket(old(sdk.responses)).samples|
    ensures var p := DecodePacket(old(sdk.responses));
            out[..totLen] == p.samples && sdk.responses == p.rest &&
            sdk.calls == old(sdk.calls) + Repeat(Call(control.apiSampleRate, payload), p.calls)
    ensures control'.apiSampleRate == control.apiSampleRate
  {
    ghost var p0 := DecodePacket(sdk.responses);
    ghost var call := Call(control.apiSampleRate, payload);
    var outPtr: nat := 0;
    totLen := 0;
    control' := control;
    var more := true;
    ghost var done: seq<int16> := [];
    ghost var n := 0;
    while more
      invariant PacketState(p0, done, sdk.responses, n, more)
      invariant totLen == outPtr == |done| <= |p0.samples|
      invariant out[..totLen] == done
      invariant sdk.calls == old(sdk.calls) + Repeat(call, n)
      invariant control'.apiSampleRate == control.apiSampleRate
      decreases |sdk.responses|, more
    {
      ghost var answer := Respond(sdk.responses);
      PacketStateStep(p0, done, sdk.responses, n);
      var ret, len;
      ret, len, control' := sdk.Decode(control', payload, out, outPtr);
      if ret != 0 {
        // SKP_Silk_SDK_Decode's status is only reported on stderr
      }
      assert out[..totLen + len] == done + answer.samples;
      outPtr := outPtr + len;
      totLen := totLen + len;
      more := control'.moreInternalDecoderFrames;
      done := done + answer.samples;
      n := n + 1;
      assert Repeat(call, n) == Repeat(call, n - 1) + [call];
    }
  }

  /**
    The state of the frame loop after its first k frames, which ended at `pos`:
    the frames still ahead are the rest of the stream's, and the output, the
    script left and the decode calls made are those of decoding the first k.
   */
  ghost predicate LoopState(input: seq<byte>, start: nat, script: seq<SubFrame>, rate: int, k: nat,
                            pos: nat, output: seq<byte>, responses: seq<SubFrame>, log: seq<Call>)
    requires start <= |input|
  {
    var frames := Frames(input, start);
    pos <= |input| && k <= |frames| && Frames(input, pos) == frames[k..] &&
    var d := DecodeFrames(frames[..k], script);
    output == EncodeLE(Samples(d.packets)) && responses == d.rest && log == CallLog(rate, frames[..k], d.packets)
  }

  /** The loop state after reading one more frame and decoding its packet. */
  lemma LoopStep(input: seq<byte>, start: nat, script: seq<SubFrame>, rate: int, k: nat,
                 pos: nat, output: seq<byte>, responses: seq<SubFrame>, log: seq<Call>)
    requires start <= |input|
    requires LoopState(input, start, script, rate, k, pos, output, responses, log)
    requires NextFrame(input, pos).Next?
    ensures var f, p := NextFrame(input, pos).frame, DecodePacket(responses);
            LoopState(input, start, script, rate, k + 1, f.end, output + EncodeLE(p.samples), p.rest,
                      log + Repeat(Call(rate, f.payload), p.calls))
  {
    var frames := Frames(input, start);
    var f := NextFrame(input, pos).frame;
    FramesStep(input, pos);
    assert frames[k] == f && Frames(input, f.end) == frames[k + 1..];
    AppendFrame(rate, frames, k, script);
  }

  /** Where no frame follows, the loop has decoded them all. */
  lemma LoopExit(input: seq<byte>, start: nat, script: seq<SubFrame>, rate: int, k: nat,
                 pos: nat, output: seq<byte>, responses: seq<SubFrame>, log: seq<Call>)
    requires start <= |input|
    requires LoopState(input, start, script, rate, k, pos, output, responses, log)
    requires NextFrame(input, pos).Stop?
    ensures var frames := Frames(input, start);
            var d := DecodeFrames(frames, script);
            output == EncodeLE(Samples(d.packets)) && responses == d.rest && log == CallLog(rate, frames, d.packets)
  {
    var frames := Frames(input, start);
    assert frames[..k] == frames;
  }

  /**
    One packet of the frame loop: decode it into `out`, swap the samples on a
    big-endian host and hand back the bytes fwrite stores, which are the
    samples' little-endian encoding on either host.
   */
  method WritePacket(sdk: SilkSdk, control: DecControl, payload: seq<byte>, out: array<int16>, host: HostOrder)
    returns (bytes: seq<byte>, control': DecControl)
    requires sdk.live
    requires |DecodePacket(sdk.responses).samples| <= out.Length < 0x8000
    modifies sdk`responses, sdk`calls, out
    ensures var p := DecodePacket(old(sdk.responses));
            bytes == EncodeLE(p.samples) && sdk.responses == p.rest &&
            sdk.calls == old(sdk.calls) + Repeat(Call(control.apiSampleRate, payload), p.calls)
    ensures control'.apiSampleRate == control.apiSampleRate
  {
    ghost var p := DecodePacket(sdk.responses);
    var totLen;
    totLen, control' := DecodeOnePacket(sdk, control, payload, out);
    if host == BigEndianHost {
      SwapEndian(out, totLen);
    }
    WrittenBytesAreLittleEndian(host, p.samples);
    bytes := HostBytes(host, out[..totLen]);
  }

  /**
    One read of the frame loop: the two-byte length into `nBytesCell` (swapped
    on a big-endian host), then the payload. Stops at end of stream, at a
    negative length and at a payload cut short.
   */
  method ReadFrame(input: seq<byte>, pos: nat, host: HostOrder, nBytesCell: array<int16>)
    returns (step: Step)
    requires pos <= |input| && nBytesCell.Length == 1
    modifies nBytesCell
    ensures step == NextFrame(input, pos)
  {
    // fread of the length field; nothing (or a lone byte) left ends the loop
    if |input| - pos < 2 {
      return Stop;
    }
    nBytesCell[0] := MemValue(host, input[pos], input[pos + 1]);
    if host == BigEndianHost {
      SwapEndian(nBytesCell, 1);
    }
    var nBytes := nBytesCell[0];
    LengthFieldIsLittleEndian(host, input[pos], input[pos + 1]);
    assert nBytes == LengthAt(input, pos);
    if nBytes < 0 {
      return Stop;
    }
    // fread of the payload; fewer bytes than announced ends the loop
    if |input| - (pos + 2) < nBytes {
      return Stop;
    }
    step := Next(Frame(input[pos + 2..pos + 2 + nBytes], pos + 2 + nBytes));
  }

  /**
    The frame loop from byte `start` on: read a length, read the payload, decode
    the packet, swap to little-endian on a big-endian host and append it to the
    output; stop quietly at the first missing, negative or cut-short frame.
   */
  method FrameLoop(input: seq<byte>, start: nat, sampleRate: int, host: HostOrder, sdk: SilkSdk)
    returns (output: seq<byte>)
    requires start <= |input|
    requires sdk.live
    requires PacketsFit(sdk.responses, OUT_CAPACITY)
    modifies sdk`responses, sdk`calls
    ensures var frames := Frames(input, start);
            var d := DecodeFrames(frames, old(sdk.responses));
            output == EncodeLE(Samples(d.packets)) && sdk.responses == d.rest &&
            sdk.calls == old(sdk.calls) + CallLog(sampleRate, frames, d.packets)
  {
    // API_sampleRate and framesPerPacket as set before the loop; each decode call rewrites the latter
    var control := DecControl(sampleRate, 1, false);
    var out := new int16[OUT_CAPACITY];
    var nBytesCell := new int16[1];
    var pos := start;
    output := [];
    ghost var script := sdk.responses;
    ghost var k := 0;
    ghost var log: seq<Call> := [];
    while true
      invariant LoopState(input, start, script, sampleRate, k, pos, output, sdk.responses, log)
      invariant sdk.calls == old(sdk.calls) + log
      invariant PacketsFit(sdk.responses, OUT_CAPACITY)
      invariant control.apiSampleRate == sampleRate
      decreases |input| - pos
    {
      var step := ReadFrame(input, pos, host, nBytesCell);
      if step.Stop? {
        LoopExit(input, start, script, sampleRate, k, pos, output, sdk.responses, log);
        break;
      }
      var frame := step.frame;
      ghost var p := DecodePacket(sdk.responses);
      ghost var calls0 := sdk.calls;
      ghost var call := Call(sampleRate, frame.payload);
      LoopStep(input, start, script, sampleRate, k, pos, output, sdk.responses, log);
      PacketsFitStep(sdk.responses, OUT_CAPACITY);
      var bytes;
      bytes, control := WritePacket(sdk, control, frame.payload, out, host);
      output := output + bytes;
      assert sdk.calls == calls0 + Repeat(call, p.calls) == old(sdk.calls) + (log + Repeat(call, p.calls));
      pos := frame.end;
      log := log + Repeat(call, p.calls);
      k := k + 1;
    }
  }

  /**
    decode_silk_file on an input stream, a host of either byte order and a
    freshly created SDK stub whose packets fit the out buffer.
   */
  method DecodeSilkFile(input: seq<byte>, sampleRate: int, host: HostOrder, sdk: SilkSdk)
    returns (outcome: Outcome, output: seq<byte>)
    requires !sdk.live
    requires PacketsFit(sdk.responses, OUT_CAPACITY)
    modifies sdk
    ensures var run := DecodeSpec(input, sampleRate, sdk.sizeStatus, sdk.initStatus, old(sdk.responses));
            outcome == run.outcome && output == run.output && sdk.calls == old(sdk.calls) + run.calls
    ensures !sdk.live
    ensures !RecogniseHeader(input).Found? ==> unchanged(sdk)
  {
    var header := RecogniseHeader(input);
    if header.TooShort? {
      return ProcessExit(-1), [];
    }
    if header.NotFound? {
      return Returned(-1), [];
    }
    HeaderOffset(input);

    var ret := sdk.GetDecoderSize();
    if ret != 0 {
      return Returned(-1), [];
    }
    sdk.Allocate();
    ret := sdk.InitDecoder();
    if ret != 0 {
      sdk.Release();
      return Returned(-1), [];
    }

    output := FrameLoop(input, header.offset, sampleRate, host, sdk);
    sdk.Release();
    return Returned(0), output;
  }
}
