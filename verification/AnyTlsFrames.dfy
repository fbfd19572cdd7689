/** AnyTLS frames: their encoder and the resumable decoder. */
module AnyTlsFrames {
  import opened Bytes
  import opened Framing

  const CMD_WASTE := 0
  const CMD_PUSH := 2
  const CMD_FIN := 3
  const CMD_ALERT := 5
  const CMD_SYNACK := 7
  const CMD_HEART_REQUEST := 8
  const HEADER_LEN := 7

  datatype Frame = Frame(cmd: Byte, streamId: nat, data: seq<Byte>)

  predicate FrameFits(f: Frame) {
    f.streamId < 0x1_0000_0000 && |f.data| < 0x1_0000
  }

  function EncodeFrame(f: Frame): (r: seq<Byte>)
    ensures |r| == HEADER_LEN + |f.data|
  {
    [f.cmd] + U32(f.streamId) + U16(|f.data|) + f.data
  }

  /** `append_frame`. */
  method AppendFrame(out: seq<Byte>, cmd: Byte, streamId: nat, data: seq<Byte>) returns (r: seq<Byte>, ok: bool)
    ensures ok == (|data| <= 0xFFFF) && r == if ok then out + EncodeFrame(Frame(cmd, streamId, data)) else out
  {
    if |data| > 0xFFFF {
      return out, false;
    }
    r := out + [cmd];
    r := r + U32(streamId);
    r := r + U16(|data|);
    r := r + data;
    hide U16, U32;
    assert r == out + EncodeFrame(Frame(cmd, streamId, data));
    return r, true;
  }

  function EncodeFrames(fs: seq<Frame>): seq<Byte> {
    if fs == [] then [] else EncodeFrame(fs[0]) + EncodeFrames(fs[1..])
  }

  /** `decode_frame`. */
  function FrameStep(s: (), b: seq<Byte>): Step<(), Frame> {
    if |b| < HEADER_LEN then Wait
    else
      var n := HEADER_LEN + GetU16(b, 5);
      if |b| < n then Wait else Take(n, [Frame(b[0], GetU32(b, 1), b[HEADER_LEN..n])], ())
  }

  lemma FrameIncremental()
    ensures Incremental(FrameStep)
  {
    forall s, b, c: seq<Byte> | !FrameStep(s, b).Wait?
      ensures FrameStep(s, b + c) == FrameStep(s, b)
    {
      var n := HEADER_LEN + GetU16(b, 5);
      assert (b + c)[HEADER_LEN..n] == b[HEADER_LEN..n];
    }
  }

  lemma StepFrame(f: Frame, rest: seq<Byte>)
    requires FrameFits(f)
    ensures FrameStep((), EncodeFrame(f) + rest) == Take(|EncodeFrame(f)|, [f], ())
  {
    var b := EncodeFrame(f) + rest;
    assert b[1..5] == U32(f.streamId) && b[5..7] == U16(|f.data|);
    assert GetU32(b, 1) == GetU32(U32(f.streamId), 0);
    assert GetU16(b, 5) == GetU16(U16(|f.data|), 0);
    assert b[HEADER_LEN..HEADER_LEN + |f.data|] == f.data;
  }

  /** Conversely, the bytes taken for a frame are exactly its encoding. */
  lemma TakenFrame(b: seq<Byte>)
    requires FrameStep((), b).Take?
    ensures var t := FrameStep((), b); |t.out| == 1 && FrameFits(t.out[0]) && b[..t.n] == EncodeFrame(t.out[0])
  {
    var n := HEADER_LEN + GetU16(b, 5);
    U32Get(b[1..5]);
    assert GetU32(b, 1) == GetU32(b[1..5], 0);
    assert U16(GetU16(b, 5)) == b[5..7];
    assert b[..n] == [b[0]] + b[1..5] + b[5..7] + b[HEADER_LEN..n];
  }

  ghost predicate AllFit(fs: seq<Frame>) {
    forall i :: 0 <= i < |fs| ==> FrameFits(fs[i])
  }

  lemma {:induction false} DrainFrames(fs: seq<Frame>)
    requires AllFit(fs)
    ensures Drain(FrameStep, (), EncodeFrames(fs)) == Parse((), [], fs, true)
    decreases |fs|
  {
    if fs != [] {
      var rest := EncodeFrames(fs[1..]);
      StepFrame(fs[0], rest);
      DrainFrame(FrameStep, (), EncodeFrame(fs[0]), rest);
      assert AllFit(fs[1..]);
      DrainFrames(fs[1..]);
      assert [fs[0]] + fs[1..] == fs;
    }
  }

  /** Any frames, cut in any way, are decoded in order and without residue. */
  lemma FramesRoundTrip(fs: seq<Frame>, chunks: seq<seq<Byte>>)
    requires AllFit(fs) && Flatten(chunks) == EncodeFrames(fs)
    ensures FeedAll(FrameStep, Fresh(()), chunks) == Parse((), [], fs, true)
  {
    FrameIncremental();
    FreshChunking(FrameStep, (), chunks);
    DrainFrames(fs);
  }

  lemma {:induction false} EncodeAppend(a: seq<Frame>, b: seq<Frame>)
    ensures EncodeFrames(a + b) == EncodeFrames(a) + EncodeFrames(b)
  {
    if a == [] {
      assert a + b == b;
    } else {
      assert (a + b)[1..] == a[1..] + b;
      EncodeAppend(a[1..], b);
      Assoc(EncodeFrame(a[0]), EncodeFrames(a[1..]), EncodeFrames(b));
    }
  }
}
