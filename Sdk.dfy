/**
  The SILK SDK as the decode loop sees it. SKP_Silk_SDK_Get_Decoder_Size,
  SKP_Silk_SDK_InitDecoder and SKP_Silk_SDK_Decode are foreign code; here they
  are a scripted stub: fixed setup statuses and, for the decode calls, a finite
  script of answers (status, samples written, moreInternalDecoderFrames). A
  script that has run out answers with no samples and no further frames.
 */
module Sdk {
  import opened Endian

  /**
    One answer of the decode call: its status, the samples it writes, and the
    two output fields it sets in the control struct.
   */
  datatype SubFrame = SubFrame(status: int16, samples: seq<int16>, more: bool, framesPerPacket: int)

  /**
    The fields of SKP_SILK_SDK_DecControlStruct that the decoder uses: the
    requested sample rate is an input; framesPerPacket and
    moreInternalDecoderFrames are written by every decode call.
   */
  datatype DecControl = DecControl(apiSampleRate: int, framesPerPacket: int, moreInternalDecoderFrames: bool)

  /** What one decode call was given: the requested output sample rate and the payload. */
  datatype Call = Call(apiSampleRate: int, payload: seq<byte>)

  /** The answer of a script that has run out: no samples, no further frames, one frame per packet. */
  const EXHAUSTED := SubFrame(0, [], false, 1)

  /** The answer to the next decode call. */
  function Respond(script: seq<SubFrame>): SubFrame {
    if script == [] then EXHAUSTED else script[0]
  }

  /** The script left after one decode call. */
  function Advance(script: seq<SubFrame>): seq<SubFrame> {
    if script == [] then [] else script[1..]
  }

  /** The samples of a run of answers, one after the other. */
  function Concat(answers: seq<SubFrame>): seq<int16> {
    if answers == [] then [] else answers[0].samples + Concat(answers[1..])
  }

  /** One packet of the do-while: its samples (tot_len of them), how many calls it took, and the script left. */
  datatype PacketRun = PacketRun(samples: seq<int16>, calls: nat, rest: seq<SubFrame>)

  /**
    The do-while loop on one payload: call the decoder at least once, and again
    while it reports more internal frames, each call's samples following the
    previous ones.
   */
  function DecodePacket(script: seq<SubFrame>): (p: PacketRun)
    decreases |script|
    ensures p.calls >= 1
    ensures |p.rest| <= |script|
    ensures p.calls == |script| - |p.rest| || (p.rest == [] && p.calls == |script| + 1)
    ensures script != [] ==> |p.rest| < |script|
    ensures script == [] ==> p == PacketRun([], 1, [])
  {
    var r := Respond(script);
    if !r.more then PacketRun(r.samples, 1, Advance(script))
    else
      var p := DecodePacket(script[1..]);
      PacketRun(r.samples + p.samples, 1 + p.calls, p.rest)
  }

  /** One turn of the do-while: the first answer's samples, then (if it asks for more) the rest of the packet. */
  lemma PacketStep(script: seq<SubFrame>)
    ensures var p, r := DecodePacket(script), Respond(script);
            var q := DecodePacket(Advance(script));
            (r.more ==> p.samples == r.samples + q.samples && p.rest == q.rest && p.calls == 1 + q.calls) &&
            (!r.more ==> p.samples == r.samples && p.rest == Advance(script) && p.calls == 1)
  {
  }

  /** A packet consumes answers from the front of the script: what is left is a suffix. */
  lemma {:induction false} PacketLeavesSuffix(script: seq<SubFrame>)
    ensures var rest := DecodePacket(script).rest;
            rest == script[|script| - |rest|..]
    decreases |script|
  {
    if script != [] && script[0].more {
      PacketLeavesSuffix(script[1..]);
      var rest := DecodePacket(script).rest;
      assert script[1..][|script| - 1 - |rest|..] == script[|script| - |rest|..];
    }
  }

  /**
    A packet whose first k - 1 answers ask for more and whose k-th does not takes
    exactly k calls, and its samples are those k answers' samples in order.
   */
  lemma {:induction false} PacketOfSubFrames(script: seq<SubFrame>, k: nat)
    requires 1 <= k <= |script|
    requires forall i :: 0 <= i < k - 1 ==> script[i].more
    requires !script[k - 1].more
    ensures DecodePacket(script) == PacketRun(Concat(script[..k]), k, script[k..])
  {
    if k == 1 {
      assert Concat(script[..1]) == script[0].samples + Concat([]);
    } else {
      PacketOfSubFrames(script[1..], k - 1);
      assert script[..k][1..] == script[1..][..k - 1];
      assert script[1..][k - 1..] == script[k..];
    }
  }

  /**
    Every packet the script will produce fits in `capacity` samples: the SDK's
    promise not to write past the output buffer.
   */
  predicate PacketsFit(script: seq<SubFrame>, capacity: nat)
    decreases |script|
  {
    script == [] ||
    (|DecodePacket(script).samples| <= capacity && PacketsFit(DecodePacket(script).rest, capacity))
  }

  /** The first packet of a script that fits fits, and so do the packets after it. */
  lemma PacketsFitStep(script: seq<SubFrame>, capacity: nat)
    requires PacketsFit(script, capacity)
    ensures |DecodePacket(script).samples| <= capacity && PacketsFit(DecodePacket(script).rest, capacity)
  {
  }

  /** The stub standing for the SDK and for the decoder instance psDec. */
  class SilkSdk {
    /** What SKP_Silk_SDK_Get_Decoder_Size returns. */
    const sizeStatus: int16
    /** What SKP_Silk_SDK_InitDecoder returns. */
    const initStatus: int16
    /** The answers still to be given by SKP_Silk_SDK_Decode. */
    var responses: seq<SubFrame>
    /** The decoder size was asked for. */
    ghost var sizeQueried: bool
    /** The decoder instance is allocated and not yet freed. */
    ghost var live: bool
    /** Every decode call so far, in order. */
    ghost var calls: seq<Call>

    constructor (sizeStatus: int16, initStatus: int16, responses: seq<SubFrame>)
      ensures this.sizeStatus == sizeStatus && this.initStatus == initStatus
      ensures this.responses == responses
      ensures !sizeQueried && !live && calls == []
    {
      this.sizeStatus := sizeStatus;
      this.initStatus := initStatus;
      this.responses := responses;
      sizeQueried := false;
      live := false;
      calls := [];
    }

    /** SKP_Silk_SDK_Get_Decoder_Size. */
    method GetDecoderSize() returns (ret: int16)
      modifies this`sizeQueried
      ensures sizeQueried
      ensures ret == sizeStatus
    {
      sizeQueried := true;
      ret := sizeStatus;
    }

    /** malloc of the decoder instance. */
    ghost method Allocate()
      requires !live
      modifies this`live
      ensures live
    {
      live := true;
    }

    /** SKP_Silk_SDK_InitDecoder. */
    method InitDecoder() returns (ret: int16)
      requires live
      ensures ret == initStatus
    {
      ret := initStatus;
    }

    /** free of the decoder instance; it must be live, so it is freed at most once. */
    ghost method Release()
      requires live
      modifies this`live
      ensures !live
    {
      live := false;
    }

    /**
      SKP_Silk_SDK_Decode: writes the next answer's samples at `out[outPtr..]`,
      reports their number in `len` and sets moreInternalDecoderFrames.
     */
    method Decode(control: DecControl, payload: seq<byte>, out: array<int16>, outPtr: nat)
      returns (ret: int16, len: int16, control': DecControl)
      requires live
      requires outPtr + |Respond(responses).samples| <= out.Length < 0x8000
      modifies this`responses, this`calls, out
      ensures var r := Respond(old(responses));
              ret == r.status && len == |r.samples| &&
              control' == control.(framesPerPacket := r.framesPerPacket, moreInternalDecoderFrames := r.more) &&
              out[..] == old(out[..outPtr]) + r.samples + old(out[outPtr + len..])
      ensures responses == Advance(old(responses))
      ensures calls == old(calls) + [Call(control.apiSampleRate, payload)]
    {
      var r := Respond(responses);
      forall i | 0 <= i < |r.samples| {
        out[outPtr + i] := r.samples[i];
      }
      assert out[..] == old(out[..outPtr]) + r.samples + old(out[outPtr + |r.samples|..]);
      responses := Advance(responses);
      calls := calls + [Call(control.apiSampleRate, payload)];
      ret, len := r.status, |r.samples|;
      control' := control.(framesPerPacket := r.framesPerPacket, moreInternalDecoderFrames := r.more);
    }
  }
}
