/** The Vision uplink: which reads are padded and which command each block carries. */
module VisionUplink {
  import opened Bytes
  import opened Framing
  import opened VisionUnpadding
  import opened VisionStream

  const LONG_BLOCK := 900
  const DIRECT_MIN_BYTES := 8 * 1024
  const PACKET_FILTER_LIMIT := 8
  /** What `read_first_payload` reads at most. */
  const FIRST_PAYLOAD_MAX := 16 * 1024

  /** `xtls_padding`.  Both lengths are written with a cast to u16. */
  function XtlsPadding(content: seq<Byte>, command: Byte, uuid: Option<seq<Byte>>, long: bool): seq<Byte> {
    var paddingLen := if long && |content| < LONG_BLOCK then LONG_BLOCK - |content| else 0;
    (if uuid.Some? then uuid.value else []) + BlockBytes(content, command, paddingLen)
  }

  function BlockBytes(content: seq<Byte>, command: Byte, paddingLen: nat): seq<Byte> {
    [command] + U16(|content|) + U16(paddingLen) + content + Zeros(paddingLen)
  }

  lemma BlockFields(content: seq<Byte>, command: Byte, paddingLen: nat)
    ensures var k, n := BlockBytes(content, command, paddingLen), |content|;
            && |k| == 5 + n + paddingLen && k[0] == command
            && GetU16(k, 1) == n % 0x1_0000 && GetU16(k, 3) == paddingLen % 0x1_0000
            && k[5..5 + n] == content && forall j :: 5 + n <= j < |k| ==> k[j] == 0
  {
    hide U16, GetU16;
    var k, n := BlockBytes(content, command, paddingLen), |content|;
    assert k[1..3] == U16(n) && k[3..5] == U16(paddingLen);
    GetU16Slice(k, 1);
    GetU16Slice(k, 3);
  }

  function PaddedLen(len: nat): nat {
    5 + if len < 900 then 900 else len
  }

  /** Every byte of a written block, behind the UUID if there is one.  With `long`, a content of fewer
    * than 900 bytes is filled up with zeros to 900. */
  lemma BlockLayout(content: seq<Byte>, command: Byte, uuid: Option<seq<Byte>>, long: bool)
    ensures var front, n := if uuid.Some? then uuid.value else [], |content|;
            var b := XtlsPadding(content, command, uuid, long);
            && |b| == |front| + (if long then PaddedLen(n) else 5 + n) && b[..|front|] == front
            && var k := b[|front|..];
               && k[0] == command && GetU16(k, 1) == n % 0x1_0000
               && GetU16(k, 3) == (if long && n < 900 then 900 - n else 0)
               && k[5..5 + n] == content && forall j :: 5 + n <= j < |k| ==> k[j] == 0
  {
    hide BlockBytes;
    var front := if uuid.Some? then uuid.value else [];
    var paddingLen := if long && |content| < LONG_BLOCK then LONG_BLOCK - |content| else 0;
    BlockFields(content, command, paddingLen);
    assert (front + BlockBytes(content, command, paddingLen))[|front|..] == BlockBytes(content, command, paddingLen);
  }

  /** `xtls_padding` as the code builds it. */
  method BuildBlock(content: seq<Byte>, command: Byte, uuid: Option<seq<Byte>>, long: bool)
      returns (out: seq<Byte>)
    ensures out == XtlsPadding(content, command, uuid, long)
    ensures |out| == (if uuid.Some? then |uuid.value| else 0) + if long then PaddedLen(|content|) else 5 + |content|
  {
    BlockLayout(content, command, uuid, long);
    hide U16, GetU16;
    out := if uuid.Some? then uuid.value else [];
    ghost var front := out;
    var paddingLen := if long && |content| < LONG_BLOCK then LONG_BLOCK - |content| else 0;
    out := out + [command];
    out := out + U16(|content|);
    out := out + U16(paddingLen);
    out := out + content;
    out := out + Zeros(paddingLen);
    assert out == front + BlockBytes(content, command, paddingLen);
  }

  /** A written block is read back as that block if and only if its length survives the cast. */
  lemma BlockReadsBack(s: VState, content: seq<Byte>, command: Byte, long: bool)
    requires s.mode == Padding && command <= 2
    ensures (forall rest ::
              var b := XtlsPadding(content, command, None, long);
              && VisionStep(s, b + rest).Take? && VisionStep(s, b + rest).n == |b|
              && VisionStep(s, b + rest).out == content) <==> |content| < 0x1_0000
    ensures |content| < 0x1_0000 ==>
              exists k :: FitsBlock(k) && k.command == command && k.content == content &&
                          XtlsPadding(content, command, None, long) == EncodeBlock(k)
  {
    var b := XtlsPadding(content, command, None, long);
    var paddingLen := if long && |content| < LONG_BLOCK then LONG_BLOCK - |content| else 0;
    if |content| < 0x1_0000 {
      var k := Block(command, content, Zeros(paddingLen));
      assert b == EncodeBlock(k);
      forall rest {
        StepBlock(s, k, rest);
      }
    } else {
      assert b + [] == b;
      assert b[1..3] == U16(|content|);
      assert GetU16(b, 1) == GetU16(U16(|content|), 0) == |content| % 0x1_0000;
      assert VisionStep(s, b + []).Take? ==> |VisionStep(s, b + []).out| < 0x1_0000;
    }
  }

  predicate StartsWith(data: seq<Byte>, prefix: seq<Byte>) {
    |prefix| <= |data| && data[..|prefix|] == prefix
  }

  predicate Handshake(data: seq<Byte>) {
    StartsWith(data, [0x16, 0x03])
  }

  lemma PrefixesClash(data: seq<Byte>)
    ensures !(Handshake(data) && StartsWith(data, [0x17, 0x03, 0x03]))
  {
    if Handshake(data) {
      assert data[0] == data[..2][0];
      assert |data| >= 3 ==> data[..3][0] == data[0];
    }
  }

  /** A run of complete application-data records, each with its body length in the header. */
  function EncodeRecords(bodies: seq<seq<Byte>>): seq<Byte> {
    if bodies == [] then []
    else [0x17, 0x03, 0x03] + U16(|bodies[0]|) + bodies[0] + EncodeRecords(bodies[1..])
  }

  ghost predicate IsRecords(data: seq<Byte>, bodies: seq<seq<Byte>>) {
    data == EncodeRecords(bodies) && forall i :: 0 <= i < |bodies| ==> |bodies[i]| < 0x1_0000
  }

  /** What `is_complete_tls_application_data` decides from an offset on. */
  predicate CompleteRecords(data: seq<Byte>)
    decreases |data|
  {
    data == [] ||
    (|data| >= 5 && data[..3] == [0x17, 0x03, 0x03] && 5 + GetU16(data, 3) <= |data| &&
     CompleteRecords(data[5 + GetU16(data, 3)..]))
  }

  /** One record in front of others. */
  lemma RecordsCons(body: seq<Byte>, bodies: seq<seq<Byte>>, rest: seq<Byte>)
    requires |body| < 0x1_0000 && IsRecords(rest, bodies)
    ensures var data := [0x17, 0x03, 0x03] + U16(|body|) + body + rest;
            && IsRecords(data, [body] + bodies)
            && data[..3] == [0x17, 0x03, 0x03] && GetU16(data, 3) == |body| && data[5 + |body|..] == rest
  {
    var data := [0x17, 0x03, 0x03] + U16(|body|) + body + rest;
    assert ([body] + bodies)[1..] == bodies;
    assert data[3..5] == U16(|body|);
    assert GetU16(data, 3) == GetU16(U16(|body|), 0);
  }

  lemma RecordCut(data: seq<Byte>, n: nat)
    requires |data| >= 5 + n && data[..3] == [0x17, 0x03, 0x03] && GetU16(data, 3) == n
    ensures data == [0x17, 0x03, 0x03] + U16(n) + data[5..5 + n] + data[5 + n..]
  {
  }

  lemma {:induction false} RecordsFound(data: seq<Byte>) returns (bodies: seq<seq<Byte>>)
    requires CompleteRecords(data)
    ensures IsRecords(data, bodies)
    decreases |data|
  {
    bodies := [];
    if data != [] {
      var n := GetU16(data, 3);
      bodies := RecordsFound(data[5 + n..]);
      RecordCut(data, n);
      hide IsRecords, CompleteRecords;
      RecordsCons(data[5..5 + n], bodies, data[5 + n..]);
      bodies := [data[5..5 + n]] + bodies;
    }
  }

  lemma {:induction false} RecordsComplete(bodies: seq<seq<Byte>>)
    requires IsRecords(EncodeRecords(bodies), bodies)
    ensures CompleteRecords(EncodeRecords(bodies))
    decreases |bodies|
  {
    if bodies != [] {
      assert IsRecords(EncodeRecords(bodies[1..]), bodies[1..]);
      RecordsComplete(bodies[1..]);
      RecordsCons(bodies[0], bodies[1..], EncodeRecords(bodies[1..]));
    }
  }

  lemma RecordsAreComplete(data: seq<Byte>)
    ensures CompleteRecords(data) <==> exists bodies :: IsRecords(data, bodies)
  {
    forall bodies | IsRecords(data, bodies)
      ensures CompleteRecords(data)
    {
      RecordsComplete(bodies);
    }
    if CompleteRecords(data) {
      var _ := RecordsFound(data);
    }
  }

  /** One record, read by offset. */
  lemma CompleteTurn(data: seq<Byte>, offset: nat)
    requires offset <= |data|
    ensures CompleteRecords(data[offset..]) <==>
            offset == |data| ||
            (|data| - offset >= 5 && data[offset] == 0x17 && data[offset + 1] == 0x03 && data[offset + 2] == 0x03 &&
             GetU16(data, offset + 3) <= |data| - offset - 5 &&
             CompleteRecords(data[offset + 5 + GetU16(data, offset + 3)..]))
  {
  }

  /** The offset loop says yes exactly to concatenations of complete records. */
  method IsCompleteTlsApplicationData(data: seq<Byte>) returns (r: bool)
    ensures r == CompleteRecords(data)
    ensures r <==> exists bodies :: IsRecords(data, bodies)
  {
    RecordsAreComplete(data);
    hide CompleteRecords, IsRecords;
    var offset := 0;
    assert data[0..] == data;
    while offset < |data|
      invariant offset <= |data|
      invariant CompleteRecords(data) == CompleteRecords(data[offset..])
    {
      CompleteTurn(data, offset);
      if |data| - offset < 5 {
        return false;
      }
      if data[offset] != 0x17 || data[offset + 1] != 0x03 || data[offset + 2] != 0x03 {
        return false;
      }
      var recordLen := GetU16(data, offset + 3);
      offset := offset + 5;
      if |data| - offset < recordLen {
        return false;
      }
      offset := offset + recordLen;
    }
    CompleteTurn(data, offset);
    return true;
  }

  /** The part of the traffic state that commands depend on. */
  datatype UplinkView = UplinkView(remaining: int, isTls: bool, padding: bool, directSent: bool)

  const FRESH_UPLINK := UplinkView(PACKET_FILTER_LIMIT, false, true, false)

  predicate SeesTls(u: UplinkView, data: seq<Byte>) {
    u.isTls || (u.remaining > 0 && |data| >= 6 && Handshake(data))
  }

  predicate MayGoDirect(u: UplinkView, data: seq<Byte>, confirmed: bool) {
    SeesTls(u, data) && !u.directSent && StartsWith(data, [0x17, 0x03, 0x03]) &&
    (confirmed || |data| >= DIRECT_MIN_BYTES) && CompleteRecords(data)
  }

  /** The command of the block that carries `data`. */
  function Command(u: UplinkView, data: seq<Byte>, confirmed: bool): (c: Byte)
    ensures c <= 2
  {
    if MayGoDirect(u, data, confirmed) then 2
    else if !SeesTls(u, data) && !Handshake(data) then 1
    else 0
  }

  function After(u: UplinkView, data: seq<Byte>, confirmed: bool): UplinkView {
    var c := Command(u, data, confirmed);
    UplinkView(if u.remaining > 0 then u.remaining - 1 else u.remaining, SeesTls(u, data),
               u.padding && c == 0, u.directSent || c == 2)
  }

  /** The state in front of read `i`: it changes while padding lasts. */
  function ViewAt(inputs: seq<seq<Byte>>, confirmed: seq<bool>, i: nat): UplinkView
    requires i <= |inputs| == |confirmed|
  {
    if i == 0 then FRESH_UPLINK
    else
      var u := ViewAt(inputs, confirmed, i - 1);
      if u.padding then After(u, inputs[i - 1], confirmed[i - 1]) else u
  }

  function CommandAt(inputs: seq<seq<Byte>>, confirmed: seq<bool>, i: nat): Byte
    requires i < |inputs| == |confirmed|
  {
    Command(ViewAt(inputs, confirmed, i), inputs[i], confirmed[i])
  }

  /** What read `i` becomes on the wire. */
  function OnWire(inputs: seq<seq<Byte>>, confirmed: seq<bool>, i: nat): seq<Byte>
    requires i < |inputs| == |confirmed|
  {
    if ViewAt(inputs, confirmed, i).padding then XtlsPadding(inputs[i], CommandAt(inputs, confirmed, i), None, true)
    else inputs[i]
  }

  /** The first payload in a block behind the UUID, then `n` reads. */
  function Wire(uuid: seq<Byte>, first: seq<Byte>, inputs: seq<seq<Byte>>, confirmed: seq<bool>, n: nat): seq<seq<Byte>>
    requires n <= |inputs| == |confirmed|
  {
    if n == 0 then [XtlsPadding(first, 0, Some(uuid), true)]
    else Wire(uuid, first, inputs, confirmed, n - 1) + [OnWire(inputs, confirmed, n - 1)]
  }

  /** `VisionUplinkState`.  The ServerHello arm of `filter_tls` tests a longer prefix after a
    * shorter one has already returned, so the fields it would set never change and are not
    * modelled. */
  class UplinkState {
    var packetFilterRemaining: int
    var isTls: bool
    var padding: bool
    var directSent: bool

    ghost function View(): UplinkView
      reads this
    {
      UplinkView(packetFilterRemaining, isTls, padding, directSent)
    }

    constructor ()
      ensures View() == FRESH_UPLINK
    {
      packetFilterRemaining, isTls, padding, directSent := PACKET_FILTER_LIMIT, false, true, false;
    }

    method FilterTls(data: seq<Byte>)
      modifies this`packetFilterRemaining, this`isTls
      ensures isTls == SeesTls(old(View()), data)
      ensures packetFilterRemaining ==
              if old(packetFilterRemaining) > 0 then old(packetFilterRemaining) - 1 else old(packetFilterRemaining)
    {
      if packetFilterRemaining <= 0 {
        return;
      }
      packetFilterRemaining := packetFilterRemaining - 1;
      if |data| < 6 {
        return;
      }
      if data[0] == 0x16 && data[1] == 0x03 {
        assert data[..2] == [0x16, 0x03];
        isTls := true;
      }
    }

    method CommandFor(data: seq<Byte>, peerDirectConfirmed: bool) returns (command: Byte, direct: bool)
      modifies this
      ensures command == Command(old(View()), data, peerDirectConfirmed) && direct == (command == 2)
      ensures View() == After(old(View()), data, peerDirectConfirmed)
    {
      hide CompleteRecords;
      PrefixesClash(data);
      FilterTls(data);
      if |data| >= 2 && data[..2] == [0x16, 0x03] {
        return 0, false;
      }
      var complete := IsCompleteTlsApplicationData(data);
      if isTls && !directSent && |data| >= 3 && data[..3] == [0x17, 0x03, 0x03]
         && (peerDirectConfirmed || |data| >= DIRECT_MIN_BYTES) && complete {
        padding, directSent := false, true;
        return 2, true;
      }
      if !isTls {
        padding := false;
        return 1, false;
      }
      return 0, false;
    }
  }

  ghost predicate HandshakeBy(inputs: seq<seq<Byte>>, i: nat)
    requires i <= |inputs|
  {
    exists j :: 0 <= j < i && j < 8 && |inputs[j]| >= 6 && Handshake(inputs[j])
  }

  /** While padding lasts no direct command has been sent, and TLS is seen if and only if one of
    * the first eight reads opened with a TLS handshake record. */
  lemma {:induction false} WhilePadding(inputs: seq<seq<Byte>>, confirmed: seq<bool>, i: nat)
    requires i <= |inputs| == |confirmed| && ViewAt(inputs, confirmed, i).padding
    ensures var u := ViewAt(inputs, confirmed, i);
            && !u.directSent && u.remaining == (if i < PACKET_FILTER_LIMIT then PACKET_FILTER_LIMIT - i else 0)
            && (u.isTls <==> HandshakeBy(inputs, i))
  {
    hide Command, Handshake;
    if i > 0 {
      WhilePadding(inputs, confirmed, i - 1);
      var u := ViewAt(inputs, confirmed, i - 1);
      assert SeesTls(u, inputs[i - 1]) ==> HandshakeBy(inputs, i);
    }
  }

  /** What decides the command of a padded read.  It is 2 exactly if the read is a run of complete
    * application-data records, big enough or confirmed by the peer, and a TLS handshake record
    * opened one of the first eight reads; it is 1 exactly if none has up to this read and this one
    * does not look like one either; otherwise it is 0. */
  lemma CommandExactly(inputs: seq<seq<Byte>>, confirmed: seq<bool>, i: nat)
    requires i < |inputs| == |confirmed| && ViewAt(inputs, confirmed, i).padding
    ensures CommandAt(inputs, confirmed, i) == 2 <==>
            && HandshakeBy(inputs, i) && inputs[i] != [] && (exists bodies :: IsRecords(inputs[i], bodies))
            && (confirmed[i] || |inputs[i]| >= 8192)
    ensures CommandAt(inputs, confirmed, i) == 1 <==> !HandshakeBy(inputs, i + 1) && !Handshake(inputs[i])
  {
    hide ViewAt;
    WhilePadding(inputs, confirmed, i);
    assert SeesTls(ViewAt(inputs, confirmed, i), inputs[i]) <==> HandshakeBy(inputs, i + 1);
    PrefixesClash(inputs[i]);
    RecordsAreComplete(inputs[i]);
    if inputs[i] != [] && CompleteRecords(inputs[i]) {
      assert StartsWith(inputs[i], [0x17, 0x03, 0x03]);
    }
  }

  /** A command other than 0 is the last command: every later read goes out as it is. */
  lemma {:induction false} PaddingEndsOnce(inputs: seq<seq<Byte>>, confirmed: seq<bool>, i: nat, j: nat)
    requires i < j < |inputs| == |confirmed|
    requires CommandAt(inputs, confirmed, i) != 0
    ensures OnWire(inputs, confirmed, j) == inputs[j]
  {
    hide Command, XtlsPadding;
    if i < j - 1 {
      PaddingEndsOnce(inputs, confirmed, i, j - 1);
      StaysRaw(inputs, confirmed, i + 1, j);
    }
  }

  /** On the wire no padded block carries fewer than 900 bytes behind its header. */
  lemma {:induction false} WireLengths(
      uuid: seq<Byte>, first: seq<Byte>, inputs: seq<seq<Byte>>, confirmed: seq<bool>, n: nat)
    requires n <= |inputs| == |confirmed|
    ensures var wire := Wire(uuid, first, inputs, confirmed, n);
            && |wire| == n + 1 && |wire[0]| == |uuid| + PaddedLen(|first|)
            && forall i :: 0 <= i < n ==>
                 |wire[i + 1]| == if ViewAt(inputs, confirmed, i).padding then PaddedLen(|inputs[i]|) else |inputs[i]|
  {
    hide XtlsPadding, ViewAt, CommandAt;
    if n == 0 {
      BlockLayout(first, 0, Some(uuid), true);
    } else {
      WireLengths(uuid, first, inputs, confirmed, n - 1);
      BlockLayout(inputs[n - 1], CommandAt(inputs, confirmed, n - 1), None, true);
    }
  }

  lemma {:induction false} StaysRaw(inputs: seq<seq<Byte>>, confirmed: seq<bool>, i: nat, j: nat)
    requires i <= j <= |inputs| == |confirmed| && !ViewAt(inputs, confirmed, i).padding
    ensures !ViewAt(inputs, confirmed, j).padding
  {
    if i < j {
      StaysRaw(inputs, confirmed, i, j - 1);
    }
  }
}
