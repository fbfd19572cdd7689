/** The gRPC tunnel: base-128 varints, hunk messages and the incremental hunk decoder. */
module GrpcHunk {
  import opened Bytes
  import opened Framing

  const U64_LIMIT := 0x1_0000_0000_0000_0000

  function Pow128(i: nat): (r: nat)
    ensures r > 0
  {
    if i == 0 then 1 else 128 * Pow128(i - 1)
  }

  function EncodeVarint(value: nat): (r: seq<Byte>)
    ensures r != []
  {
    if value < 128 then [value] else [value % 128 + 128] + EncodeVarint(value / 128)
  }

  /** The value of a varint whose next byte is number `index`, with `acc` read before it.  The
    * source's shift drops what does not fit 64 bits; its `|=` meets disjoint bits only. */
  function DecodeVarint(data: seq<Byte>, index: nat, acc: nat): (r: Option<(nat, nat)>)
    ensures r.Some? ==> 0 < r.value.1 <= |data|
    decreases |data|
  {
    if data == [] then None
    else
      var acc' := acc + data[0] % 128 * Pow128(index) % U64_LIMIT;
      if data[0] < 128 then Some((acc', 1))
      else if index >= 9 then None
      else Further(1, DecodeVarint(data[1..], index + 1, acc'))
  }

  /** A result found `k` bytes further on. */
  function Further(k: nat, r: Option<(nat, nat)>): Option<(nat, nat)> {
    if r.Some? then Some((r.value.0, k + r.value.1)) else None
  }

  method WriteVarint(value: nat) returns (out: seq<Byte>)
    ensures out == EncodeVarint(value)
  {
    out := [];
    var v := value;
    while true
      invariant EncodeVarint(value) == out + EncodeVarint(v)
      decreases v
    {
      var byte := v % 128;
      v := v / 128;
      if v != 0 {
        byte := byte + 128;
      }
      out := out + [byte];
      if v == 0 {
        return;
      }
    }
  }

  method ReadVarint(data: seq<Byte>) returns (r: Option<(nat, nat)>)
    ensures r == DecodeVarint(data, 0, 0)
  {
    var value: nat, pow: nat := 0, 1;
    assert data[0..] == data;
    for index := 0 to |data|
      invariant pow == Pow128(index) && index <= 9
      invariant DecodeVarint(data, 0, 0) == Further(index, DecodeVarint(data[index..], index, value))
    {
      var byte := data[index];
      assert data[index..][1..] == data[index + 1..];
      value := value + byte % 128 * pow % U64_LIMIT;
      if byte < 128 {
        return Some((value, index + 1));
      }
      if index >= 9 {
        return None;
      }
      pow := 128 * pow;
    }
    return None;
  }

  lemma NinthPower()
    ensures Pow128(9) == 0x8000_0000_0000_0000
  {
  }

  /** A value with a further byte to come is not at the tenth byte yet. */
  lemma Pow128Bound(i: nat, v: nat)
    requires v >= 128 && v * Pow128(i) < U64_LIMIT
    ensures i < 9
  {
    NinthPower();
    assert v * Pow128(i) >= 128 * Pow128(i);
    if i >= 9 {
      Pow128Grows(9, i);
    }
  }

  lemma {:induction false} Pow128Grows(i: nat, j: nat)
    requires i <= j
    ensures Pow128(i) <= Pow128(j)
    decreases j
  {
    if i < j {
      Pow128Grows(i, j - 1);
    }
  }

  /** Splitting off the low seven bits. */
  lemma LowBits(v: nat, p: nat)
    ensures v % 128 * p + v / 128 * (128 * p) == v * p
    ensures v / 128 * (128 * p) <= v * p && v % 128 * p <= v * p
  {
  }

  /** The first byte of a longer varint. */
  lemma VarintHead(v: nat, index: nat, acc: nat, rest: seq<Byte>)
    requires v >= 128 && index < 9 && v % 128 * Pow128(index) < U64_LIMIT
    ensures DecodeVarint(EncodeVarint(v) + rest, index, acc) ==
            Further(1, DecodeVarint(EncodeVarint(v / 128) + rest, index + 1, acc + v % 128 * Pow128(index)))
    ensures |EncodeVarint(v)| == 1 + |EncodeVarint(v / 128)|
  {
    hide Pow128;
    var data := EncodeVarint(v) + rest;
    assert data[1..] == EncodeVarint(v / 128) + rest;
    assert data[0] % 128 == v % 128;
  }

  /** Every u64 is read back, whatever follows it; `acc` and `index` describe the bytes before. */
  lemma {:induction false} VarintRoundTripFrom(v: nat, index: nat, acc: nat, rest: seq<Byte>)
    requires v * Pow128(index) < U64_LIMIT && (v >= 128 || index <= 9)
    ensures DecodeVarint(EncodeVarint(v) + rest, index, acc) ==
            Some((acc + v * Pow128(index), |EncodeVarint(v)|))
    decreases v
  {
    var p := Pow128(index);
    LowBits(v, p);
    if v >= 128 {
      hide DecodeVarint, EncodeVarint;
      Pow128Bound(index, v);
      VarintHead(v, index, acc, rest);
      VarintRoundTripFrom(v / 128, index + 1, acc + v % 128 * p, rest);
    }
  }

  lemma VarintRoundTrip(v: nat, rest: seq<Byte>)
    requires v < U64_LIMIT
    ensures DecodeVarint(EncodeVarint(v) + rest, 0, 0) == Some((v, |EncodeVarint(v)|))
  {
    VarintRoundTripFrom(v, 0, 0, rest);
  }

  function EncodeMessage(payload: seq<Byte>): seq<Byte> {
    [0x0A] + EncodeVarint(|payload|) + payload
  }

  /** `encode_grpc_hunk`; the message length is cast to u32. */
  function EncodeHunk(payload: seq<Byte>): seq<Byte> {
    [0] + U32(|EncodeMessage(payload)|) + EncodeMessage(payload)
  }

  function DecodeMessage(message: seq<Byte>): Option<seq<Byte>> {
    if message == [] || message[0] != 0x0A then None
    else match DecodeVarint(message[1..], 0, 0)
      case None => None
      case Some((len, offset)) =>
        if |message| < 1 + offset + len then None else Some(message[1 + offset..1 + offset + len])
  }

  /** `encode_grpc_hunk` as the code builds it. */
  method BuildHunk(payload: seq<Byte>) returns (frame: seq<Byte>)
    ensures frame == EncodeHunk(payload)
  {
    hide EncodeVarint;
    var message := [0x0A];
    var length := WriteVarint(|payload|);
    message := message + length;
    message := message + payload;
    frame := [0];
    frame := frame + U32(|message|);
    frame := frame + message;
  }

  /** `decode_grpc_hunk_message` as the code reads it. */
  method ReadMessage(message: seq<Byte>) returns (r: Option<seq<Byte>>)
    ensures r == DecodeMessage(message)
  {
    hide DecodeVarint;
    if message == [] || message[0] != 0x0A {
      return None;
    }
    var length := ReadVarint(message[1..]);
    if length == None {
      return None;
    }
    var start := 1 + length.value.1;
    var end := start + length.value.0;
    return if |message| >= end then Some(message[start..end]) else None;
  }

  lemma MessageRoundTrip(payload: seq<Byte>)
    requires |payload| < U64_LIMIT
    ensures DecodeMessage(EncodeMessage(payload)) == Some(payload)
  {
    var v := EncodeVarint(|payload|);
    var m := EncodeMessage(payload);
    assert m[1..] == v + payload;
    VarintRoundTrip(|payload|, payload);
    assert m[1 + |v|..1 + |v| + |payload|] == payload;
  }

  /** One message.  A compressed message makes the decoder wait, whatever arrives. */
  function HunkStep(s: (), b: seq<Byte>): Step<(), seq<Byte>> {
    if |b| < 5 || b[0] != 0 || |b| < 5 + GetU32(b, 1) then Wait
    else
      var n := 5 + GetU32(b, 1);
      match DecodeMessage(b[5..n])
      case None => Take(n, [], ())
      case Some(payload) => Take(n, [payload], ())
  }

  lemma HunkIncremental()
    ensures Incremental(HunkStep)
  {
    forall s, b, c: seq<Byte> | !HunkStep(s, b).Wait?
      ensures HunkStep(s, b + c) == HunkStep(s, b)
    {
      var n := 5 + GetU32(b, 1);
      assert (b + c)[5..n] == b[5..n];
    }
  }

  class HunkDecoder {
    var pending: seq<Byte>

    constructor ()
      ensures pending == []
    {
      pending := [];
    }

    method Push(data: seq<Byte>) returns (out: seq<seq<Byte>>)
      modifies this
      ensures Drain(HunkStep, (), old(pending) + data) == Parse((), pending, out, true)
    {
      pending := pending + data;
      ghost var goal := Drain(HunkStep, (), pending);
      out := [];
      PrependNil(goal);
      while true
        invariant goal == Prepend(out, Drain(HunkStep, (), pending))
        decreases |pending|
      {
        if |pending| < 5 {
          break;
        }
        var compressed, len := pending[0], GetU32(pending, 1);
        if compressed != 0 || |pending| < 5 + len {
          break;
        }
        var message := pending[5..5 + len];
        Unfold(HunkStep, (), pending, out);
        pending := pending[5 + len..];
        var payload := ReadMessage(message);
        assert out + [] == out;
        if payload.Some? {
          out := out + [payload.value];
        }
      }
      DrainWaits(HunkStep, (), pending, out);
    }
  }

  predicate Encodable(payload: seq<Byte>) {
    |EncodeMessage(payload)| < 0x1_0000_0000
  }

  function EncodeHunks(payloads: seq<seq<Byte>>): seq<seq<Byte>> {
    if payloads == [] then [] else [EncodeHunk(payloads[0])] + EncodeHunks(payloads[1..])
  }

  /** A complete hunk, whatever its message. */
  lemma StepAnyHunk(message: seq<Byte>, rest: seq<Byte>)
    requires |message| < 0x1_0000_0000
    ensures var payload := DecodeMessage(message);
            HunkStep((), [0] + U32(|message|) + message + rest) ==
            Take(5 + |message|, if payload.Some? then [payload.value] else [], ())
  {
    hide U32, DecodeMessage;
    var b := [0] + U32(|message|) + message + rest;
    assert b[1..5] == U32(|message|) && GetU32(b, 1) == GetU32(U32(|message|), 0);
    assert b[5..5 + |message|] == message;
  }

  lemma StepHunk(payload: seq<Byte>, rest: seq<Byte>)
    requires Encodable(payload)
    ensures HunkStep((), EncodeHunk(payload) + rest) == Take(|EncodeHunk(payload)|, [payload], ())
  {
    StepAnyHunk(EncodeMessage(payload), rest);
    hide HunkStep, DecodeMessage, EncodeMessage;
    MessageRoundTrip(payload);
  }

  /** A complete hunk whose message is empty or does not open with the payload's field is dropped, and
    * so is one that announces more than it holds. */
  lemma DroppedHunk(message: seq<Byte>, length: nat, rest: seq<Byte>)
    requires |message| < 0x1_0000_0000 && length < U64_LIMIT
    requires message == [] || message[0] != 10 ||
             (|message| >= 1 + |EncodeVarint(length)| && message[1..1 + |EncodeVarint(length)|] == EncodeVarint(length) &&
              |message| < 1 + |EncodeVarint(length)| + length)
    ensures HunkStep((), [0] + U32(|message|) + message + rest) == Take(5 + |message|, [], ())
  {
    StepAnyHunk(message, rest);
    hide HunkStep, EncodeVarint, DecodeVarint;
    var n := |EncodeVarint(length)|;
    if message != [] && message[0] == 10 {
      VarintRoundTrip(length, message[1 + n..]);
      assert EncodeVarint(length) + message[1 + n..] == message[1..];
    }
  }

  /** Payloads a little below 2^32 bytes can be encoded. */
  lemma SmallEncodable(payload: seq<Byte>)
    requires |payload| < 0xFFFF_FFFA
    ensures Encodable(payload)
  {
    VarintLen(|payload|, 5);
  }

  lemma {:induction false} VarintLen(v: nat, k: nat)
    requires k > 0 && v < Pow128(k)
    ensures |EncodeVarint(v)| <= k
    decreases k
  {
    if v >= 128 {
      VarintLen(v / 128, k - 1);
    }
  }

  lemma {:induction false} DrainHunks(payloads: seq<seq<Byte>>)
    requires forall p :: p in payloads ==> Encodable(p)
    ensures Drain(HunkStep, (), Flatten(EncodeHunks(payloads))) == Parse((), [], payloads, true)
    decreases |payloads|
  {
    if payloads != [] {
      var frame, rest := EncodeHunk(payloads[0]), EncodeHunks(payloads[1..]);
      assert ([frame] + rest)[1..] == rest;
      StepHunk(payloads[0], Flatten(rest));
      DrainFrame(HunkStep, (), frame, Flatten(rest));
      DrainHunks(payloads[1..]);
      assert payloads == [payloads[0]] + payloads[1..];
    }
  }

  /** Any payload sequence, cut in any way, comes out of the decoder as it went in. */
  lemma HunkRoundTrip(payloads: seq<seq<Byte>>, chunks: seq<seq<Byte>>)
    requires forall p :: p in payloads ==> Encodable(p)
    requires Flatten(chunks) == Flatten(EncodeHunks(payloads))
    ensures FeedAll(HunkStep, Fresh(()), chunks) == Parse((), [], payloads, true)
  {
    HunkIncremental();
    FreshChunking(HunkStep, (), chunks);
    DrainHunks(payloads);
  }
}
