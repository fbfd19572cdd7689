/** The ShadowsocksR verify_simple codec and its Adler-32 checksum. */
module VerifySimple {
  import opened Bytes
  import opened Framing

  const MOD_ADLER := 65521
  const UNIT_LEN := 4096

  /** The sums of section 2.2 of RFC 1950, before reduction: `S1` is one more than the sum of the
    * bytes and `S2` is the sum of the `S1` values of all non-empty prefixes. */
  function S1(data: seq<Byte>): nat {
    if data == [] then 1 else S1(data[..|data| - 1]) + data[|data| - 1]
  }

  function S2(data: seq<Byte>): nat {
    if data == [] then 0 else S2(data[..|data| - 1]) + S1(data)
  }

  function Checksum(data: seq<Byte>): (r: nat)
    ensures r < 0x1_0000_0000
  {
    S2(data) % 65521 * 0x1_0000 + S1(data) % 65521
  }

  lemma ModStep(x: nat, y: nat)
    ensures (x % MOD_ADLER + y) % MOD_ADLER == (x + y) % MOD_ADLER
  {
  }

  /** The loop that reduces after every byte computes the reduced sums; every intermediate value
    * fits the u32 it is kept in. */
  method Adler32(data: seq<Byte>) returns (r: nat)
    ensures r == Checksum(data)
  {
    var a, b := 1, 0;
    for i := 0 to |data|
      invariant a == S1(data[..i]) % MOD_ADLER && b == S2(data[..i]) % MOD_ADLER
    {
      assert data[..i + 1][..i] == data[..i];
      ModStep(S1(data[..i]), data[i]);
      assert a + data[i] < 0x1_0000_0000;
      a := (a + data[i]) % MOD_ADLER;
      ModStep(S2(data[..i]), a);
      ModStep(S1(data[..i + 1]), S2(data[..i]));
      assert b + a < 0x1_0000_0000;
      b := (b + a) % MOD_ADLER;
    }
    assert data[..|data|] == data;
    r := b * 0x1_0000 + a;
  }

  /** Little-endian u32, low byte first. */
  function U32Le(n: nat): seq<Byte> {
    [n % 0x100, n / 0x100 % 0x100, n / 0x1_0000 % 0x100, n / 0x100_0000 % 0x100]
  }

  function GetU32Le(b: seq<Byte>, at: nat): nat
    requires at + 4 <= |b|
  {
    var b0: int, b1: int, b2: int, b3: int := b[at], b[at + 1], b[at + 2], b[at + 3];
    b3 * 0x100_0000 + b2 * 0x1_0000 + b1 * 0x100 + b0
  }

  /** The four bytes of a u32 and the number they stand for, in both directions. */
  lemma LittleEndian(n: nat, b: seq<Byte>, at: nat)
    requires at + 4 <= |b| && n < 0x1_0000_0000
    ensures GetU32Le(b, at) == n <==> b[at..at + 4] == U32Le(n)
  {
    var b0: int, b1: int, b2: int, b3: int := b[at], b[at + 1], b[at + 2], b[at + 3];
    assert b[at..at + 4] == [b0, b1, b2, b3];
    if GetU32Le(b, at) == n {
      assert n / 0x100 == b3 * 0x1_0000 + b2 * 0x100 + b1 && n / 0x1_0000 == b3 * 0x100 + b2 && n / 0x100_0000 == b3;
    }
  }

  /** One frame of the wire format: length, payload, checksum of both. */
  function Pack(payload: seq<Byte>): seq<Byte> {
    Head(payload) + U32Le(Checksum(Head(payload)))
  }

  function EncodePayload(payload: seq<Byte>): seq<Byte>
    decreases |payload|
  {
    if payload == [] then []
    else if |payload| <= UNIT_LEN then Pack(payload)
    else Pack(payload[..UNIT_LEN]) + EncodePayload(payload[UNIT_LEN..])
  }

  predicate LengthInvalid(b: seq<Byte>) {
    |b| > 2 && !(6 <= GetU16(b, 0) <= 8192)
  }

  /** What the decoder keeps of the bytes it failed on: a frame with a wrong checksum has been
    * removed, a wrong length empties the buffer. */
  function AfterFailure(b: seq<Byte>): seq<Byte> {
    if |b| <= 2 || LengthInvalid(b) || GetU16(b, 0) > |b| then [] else b[GetU16(b, 0)..]
  }

  function VerifyStep(s: (), b: seq<Byte>): Step<(), Byte> {
    if |b| <= 2 then Wait
    else
      var length := GetU16(b, 0);
      if LengthInvalid(b) then Fail
      else if length > |b| then Wait
      else if Checksum(b[..length - 4]) != GetU32Le(b, length - 4) then Fail
      else Take(length, b[2..length - 4], ())
  }

  lemma VerifyIncremental()
    ensures Incremental(VerifyStep)
  {
    forall s, b, c: seq<Byte> | !VerifyStep(s, b).Wait?
      ensures VerifyStep(s, b + c) == VerifyStep(s, b)
    {
      var length := GetU16(b, 0);
      assert GetU16(b + c, 0) == length;
      if 6 <= length <= |b| {
        assert (b + c)[..length - 4] == b[..length - 4];
        assert (b + c)[length - 4..length] == b[length - 4..length];
        assert (b + c)[2..length - 4] == b[2..length - 4];
      }
    }
  }

  function Head(payload: seq<Byte>): seq<Byte> {
    U16(|payload| + 6) + payload
  }

  /** The fields of a frame are where the decoder looks for them. */
  lemma PackFields(payload: seq<Byte>, rest: seq<Byte>)
    requires |payload| + 6 <= 8192
    ensures var b, n := Pack(payload) + rest, |payload| + 6;
            && |Pack(payload)| == n && GetU16(b, 0) == n && b[..n - 4] == Head(payload) && b[2..n - 4] == payload
            && GetU32Le(b, n - 4) == Checksum(Head(payload))
  {
    var b, head := Pack(payload) + rest, Head(payload);
    assert Pack(payload) == head + U32Le(Checksum(head));
    assert GetU16(b, 0) == GetU16(U16(|payload| + 6), 0);
    assert b[|head|..|head| + 4] == U32Le(Checksum(head));
    LittleEndian(Checksum(head), b, |head|);
  }

  lemma StepPack(payload: seq<Byte>, rest: seq<Byte>)
    requires |payload| + 6 <= 8192
    ensures VerifyStep((), Pack(payload) + rest) == Take(|Pack(payload)|, payload, ())
    ensures |Pack(payload)| == |payload| + 6
  {
    PackFields(payload, rest);
  }

  /** Conversely, only what the encoder writes for a payload is accepted as that payload. */
  lemma OnlyPacksAccepted(b: seq<Byte>)
    requires VerifyStep((), b).Take?
    ensures var t := VerifyStep((), b); b[..t.n] == Pack(t.out)
  {
    var t := VerifyStep((), b);
    assert U16(t.n) == b[..2];
    assert b[..t.n - 4] == Head(t.out);
    LittleEndian(Checksum(Head(t.out)), b, t.n - 4);
    assert b[..t.n] == b[..t.n - 4] + b[t.n - 4..t.n];
  }

  class VerifySimpleCodec {
    var recvBuffer: seq<Byte>
    var rawRecv: bool

    constructor ()
      ensures recvBuffer == [] && !rawRecv
    {
      recvBuffer, rawRecv := [], false;
    }

    method PackData(output: seq<Byte>, payload: seq<Byte>) returns (r: seq<Byte>)
      ensures r == output + Pack(payload)
    {
      var start := |output|;
      r := output + U16(|payload| + 6) + payload;
      assert r[start..] == U16(|payload| + 6) + payload;
      var checksum := Adler32(r[start..]);
      r := r + U32Le(checksum);
    }

    method Encode(payload: seq<Byte>) returns (output: seq<Byte>)
      ensures output == EncodePayload(payload)
    {
      output := [];
      var rest := payload;
      while rest != []
        invariant EncodePayload(payload) == output + EncodePayload(rest)
        decreases |rest|
      {
        var n := if |rest| < UNIT_LEN then |rest| else UNIT_LEN;
        ghost var before := output;
        assert rest[..|rest|] == rest && (|rest| <= UNIT_LEN ==> rest[n..] == []);
        output := PackData(output, rest[..n]);
        rest := rest[n..];
      }
    }

    method OpenFrame(frame: seq<Byte>, ghost buffer: seq<Byte>) returns (payload: seq<Byte>, matches: bool)
      requires 6 <= |frame| <= 8192 && |frame| <= |buffer| && |frame| == GetU16(buffer, 0) && frame == buffer[..|frame|]
      ensures VerifyStep((), buffer) == if matches then Take(|frame|, payload, ()) else Fail
    {
      var length := |frame|;
      assert frame[..length - 4] == buffer[..length - 4];
      assert frame[length - 4..length] == buffer[length - 4..length];
      assert frame[2..length - 4] == buffer[2..length - 4];
      var expected := GetU32Le(frame, length - 4);
      var actual := Adler32(frame[..length - 4]);
      payload, matches := frame[2..length - 4], actual == expected;
    }

    /** Decoding a chunk is draining the buffered bytes and the chunk.  A failure is remembered:
      * from then on chunks are passed through as they are. */
    method Decode(payload: seq<Byte>) returns (output: seq<Byte>, ok: bool)
      modifies this
      ensures old(rawRecv) ==> ok && output == payload && rawRecv && recvBuffer == old(recvBuffer)
      ensures !old(rawRecv) ==>
                var r := Drain(VerifyStep, (), old(recvBuffer) + payload);
                && output == r.out && ok == r.ok && rawRecv == !r.ok
                && recvBuffer == if r.ok then r.pending else AfterFailure(r.pending)
    {
      if rawRecv {
        return payload, true;
      }
      recvBuffer := recvBuffer + payload;
      ghost var goal := Drain(VerifyStep, (), recvBuffer);
      output, ok := [], true;
      PrependNil(goal);
      while |recvBuffer| > 2
        invariant !rawRecv && goal == Prepend(output, Drain(VerifyStep, (), recvBuffer))
        decreases |recvBuffer|
      {
        var length := GetU16(recvBuffer, 0);
        if !(6 <= length <= 8192) {
          DrainFails(VerifyStep, (), recvBuffer, output);
          rawRecv, recvBuffer := true, [];
          return output, false;
        }
        if length > |recvBuffer| {
          break;
        }
        var payload, matches := OpenFrame(recvBuffer[..length], recvBuffer);
        if !matches {
          DrainFails(VerifyStep, (), recvBuffer, output);
          rawRecv, recvBuffer := true, recvBuffer[length..];
          return output, false;
        }
        Unfold(VerifyStep, (), recvBuffer, output);
        recvBuffer := recvBuffer[length..];
        output := output + payload;
      }
      DrainWaits(VerifyStep, (), recvBuffer, output);
    }
  }

  /** Six bytes more for every 4096 bytes begun. */
  lemma {:induction false} EncodedLen(payload: seq<Byte>)
    ensures |EncodePayload(payload)| == |payload| + (|payload| + 4095) / 4096 * 6
    decreases |payload|
  {
    hide Pack;
    if |payload| > UNIT_LEN {
      StepPack(payload[..UNIT_LEN], []);
      EncodedLen(payload[UNIT_LEN..]);
    } else if payload != [] {
      StepPack(payload, []);
    }
  }

  function EncodeAll(payloads: seq<seq<Byte>>): seq<seq<Byte>> {
    if payloads == [] then [] else [EncodePayload(payloads[0])] + EncodeAll(payloads[1..])
  }

  lemma {:induction false} DrainPayload(payload: seq<Byte>, rest: seq<Byte>)
    ensures Drain(VerifyStep, (), EncodePayload(payload) + rest) == Prepend(payload, Drain(VerifyStep, (), rest))
    decreases |payload|
  {
    hide Pack, VerifyStep;
    if payload == [] {
      assert EncodePayload(payload) + rest == rest;
      PrependNil(Drain(VerifyStep, (), rest));
    } else if |payload| <= UNIT_LEN {
      StepPack(payload, rest);
      assert Pack(payload) != [];
      DrainFrame(VerifyStep, (), Pack(payload), rest);
    } else {
      var head, tail := payload[..UNIT_LEN], payload[UNIT_LEN..];
      StepPack(head, EncodePayload(tail) + rest);
      assert EncodePayload(payload) + rest == Pack(head) + (EncodePayload(tail) + rest);
      assert Pack(head) != [];
      DrainFrame(VerifyStep, (), Pack(head), EncodePayload(tail) + rest);
      DrainPayload(tail, rest);
      PrependTwice(head, tail, Drain(VerifyStep, (), rest));
      assert head + tail == payload;
    }
  }

  lemma {:induction false} DrainPayloads(payloads: seq<seq<Byte>>)
    ensures Drain(VerifyStep, (), Flatten(EncodeAll(payloads))) == Parse((), [], Flatten(payloads), true)
    decreases |payloads|
  {
    if payloads != [] {
      var rest := EncodeAll(payloads[1..]);
      assert ([EncodePayload(payloads[0])] + rest)[1..] == rest;
      DrainPayload(payloads[0], Flatten(rest));
      DrainPayloads(payloads[1..]);
    }
  }

  /** What was encoded payload by payload and cut in any way decodes to the payloads, with no
    * residue and without ever failing, hence without entering the raw mode. */
  lemma {:induction false} VerifySimpleRoundTrip(payloads: seq<seq<Byte>>, chunks: seq<seq<Byte>>)
    requires Flatten(chunks) == Flatten(EncodeAll(payloads))
    ensures FeedAll(VerifyStep, Fresh(()), chunks) == Parse((), [], Flatten(payloads), true)
  {
    VerifyIncremental();
    FreshChunking(VerifyStep, (), chunks);
    DrainPayloads(payloads);
  }
}
