/**
  The frame splitter of the decode loop: after the header the stream is a run of
  frames, each a little-endian int16 length followed by that many payload bytes.
  The loop stops quietly at end of stream, at a negative length and at a
  payload cut short.
 */
module Framing {
  import opened Endian

  /** A complete frame: its payload and the stream position just past it. */
  datatype Frame = Frame(payload: seq<byte>, end: nat)

  datatype Step = Stop | Next(frame: Frame)

  /** The little-endian length field at `pos`, when two bytes remain. */
  function LengthAt(input: seq<byte>, pos: nat): int16
    requires pos + 2 <= |input|
  {
    FromBytesLE(input[pos], input[pos + 1])
  }

  /** `f` is the frame whose length field sits at `pos`. */
  predicate FrameAt(input: seq<byte>, pos: nat, f: Frame) {
    pos + 2 <= f.end <= |input| &&
    LengthAt(input, pos) == |f.payload| &&
    f.end == pos + 2 + |f.payload| &&
    f.payload == input[pos + 2..f.end]
  }

  /** One turn of the frame loop: the frame at `pos`, or the reason to stop. */
  function NextFrame(input: seq<byte>, pos: nat): (s: Step)
    requires pos <= |input|
    ensures s.Next? <==>
              pos + 2 <= |input| && 0 <= LengthAt(input, pos) && pos + 2 + LengthAt(input, pos) <= |input|
    ensures s.Next? ==> FrameAt(input, pos, s.frame)
  {
    if |input| - pos < 2 then Stop
    else
      var nBytes := LengthAt(input, pos);
      if nBytes < 0 then Stop
      else if |input| - (pos + 2) < nBytes then Stop
      else Next(Frame(input[pos + 2..pos + 2 + nBytes], pos + 2 + nBytes))
  }

  /** Where the frame after `fs` would start, when `fs` starts at `pos`. */
  function EndOf(pos: nat, fs: seq<Frame>): nat {
    if fs == [] then pos else fs[|fs| - 1].end
  }

  /** The frames the loop reads from `pos` on, in order. */
  function Frames(input: seq<byte>, pos: nat): seq<Frame>
    requires pos <= |input|
    decreases |input| - pos
  {
    match NextFrame(input, pos)
    case Stop => []
    case Next(f) => [f] + Frames(input, f.end)
  }

  /** A frame found at `pos` heads the frames from `pos` on. */
  lemma FramesStep(input: seq<byte>, pos: nat)
    requires pos <= |input|
    ensures NextFrame(input, pos).Next? ==>
              Frames(input, pos) == [NextFrame(input, pos).frame] + Frames(input, NextFrame(input, pos).frame.end)
  {
  }

  /**
    Each frame's length field sits right where the previous frame ended (the
    first one's at `pos`), and the loop stops exactly where the next frame is
    missing, has a negative length or is cut short.
   */
  lemma {:induction false} FramesTile(input: seq<byte>, pos: nat)
    requires pos <= |input|
    ensures var fs := Frames(input, pos);
            (forall i :: 0 <= i < |fs| ==> fs[i].end >= pos + 2) &&
            (forall i :: 0 <= i < |fs| ==> FrameAt(input, if i == 0 then pos else fs[i - 1].end, fs[i])) &&
            EndOf(pos, fs) <= |input| && NextFrame(input, EndOf(pos, fs)) == Stop
    decreases |input| - pos
  {
    match NextFrame(input, pos)
    case Stop =>
    case Next(f) =>
      FramesTile(input, f.end);
      var rest := Frames(input, f.end);
      var fs := [f] + rest;
      assert Frames(input, pos) == fs;
      forall i | 1 <= i < |fs|
        ensures fs[i].end >= pos + 2
        ensures FrameAt(input, fs[i - 1].end, fs[i])
      {
        assert fs[i] == rest[i - 1];
        if i > 1 {
          assert fs[i - 1] == rest[i - 2];
        }
      }
      if rest != [] {
        assert fs[|fs| - 1] == rest[|rest| - 1];
      }
  }

  /**
    Cutting the stream at `c` keeps the frames that end by `c`, in order, and
    adds none: a frame cut short is dropped together with everything after it.
   */
  lemma {:induction false} CutStream(input: seq<byte>, pos: nat, c: nat)
    requires pos <= c <= |input|
    ensures var a, b := Frames(input[..c], pos), Frames(input, pos);
            |a| <= |b| && a == b[..|a|] &&
            forall i :: 0 <= i < |b| && b[i].end <= c ==> i < |a|
    decreases |input| - pos
  {
    var cut := input[..c];
    var b := Frames(input, pos);
    match NextFrame(input, pos)
    case Stop =>
      assert NextFrame(cut, pos) == Stop by {
        if pos + 2 <= c {
          assert LengthAt(cut, pos) == LengthAt(input, pos);
        }
      }
    case Next(f) =>
      if f.end <= c {
        assert LengthAt(cut, pos) == LengthAt(input, pos);
        assert cut[pos + 2..f.end] == input[pos + 2..f.end];
        assert NextFrame(cut, pos) == Next(f);
        CutStream(input, f.end, c);
      } else {
        assert NextFrame(cut, pos) == Stop by {
          if pos + 2 <= c {
            assert LengthAt(cut, pos) == LengthAt(input, pos);
          }
        }
        FramesTile(input, f.end);
        assert b == [f] + Frames(input, f.end);
      }
  }
}
