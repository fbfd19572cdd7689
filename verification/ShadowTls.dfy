/** The ShadowTLS record layer, versions 2 and 3.  The keyed MAC is an arbitrary function of the
  * bytes absorbed so far; a version-3 record carries four bytes of it, chained over records. */
module ShadowTls {
  import opened Bytes
  import opened Framing

  /** The first four bytes of a digest. */
  type Tag = t: seq<Byte> | |t| == 4 witness [0, 0, 0, 0]

  type Mac = seq<Byte> -> Tag

  const MAX_RECORD_PAYLOAD := 16 * 1024
  const AUTH_TAG := 8

  /** The record layer's receiving side.  `absorbed` is the verifier's transcript and `ignore` the
    * transcript of the handshake MAC, while records under it are still being skipped. */
  datatype Receiver = V2 | V3(mac: Mac, absorbed: seq<Byte>, ignore: Option<seq<Byte>>)

  function Header(len: nat): (r: seq<Byte>)
    ensures |r| == 5
  {
    [0x17, 0x03, 0x03] + U16(len)
  }

  /** A plain record, with the authentication tag of the first version-2 record in front. */
  function PlainRecord(tag: Option<seq<Byte>>, payload: seq<Byte>): seq<Byte> {
    var body := (if tag.Some? then tag.value else []) + payload;
    Header(|body|) + body
  }

  /** A version-3 record: the MAC of the transcript including the payload, then the payload. */
  function MacRecord(mac: Mac, absorbed: seq<Byte>, payload: seq<Byte>): seq<Byte> {
    Header(4 + |payload|) + mac(absorbed + payload) + payload
  }

  function Absorb(mac: Mac, absorbed: seq<Byte>, payload: seq<Byte>): seq<Byte> {
    absorbed + payload + mac(absorbed + payload)
  }

  predicate Tagged(frame: seq<Byte>) {
    |frame| >= 9 && frame[..3] == [0x17, 0x03, 0x03]
  }

  /** `shadow_tls_v3_verify_application_data`: absorbs the payload and compares the tag. */
  predicate Verifies(mac: Mac, absorbed: seq<Byte>, frame: seq<Byte>) {
    && Tagged(frame)
    && frame[5..9] == mac(absorbed + frame[9..])
  }

  function RecordStep(s: Receiver, b: seq<Byte>): Step<Receiver, Byte> {
    if |b| < 5 then Wait
    else if b[0] != 0x17 || b[1] != 0x03 then Fail
    else
      var n := 5 + GetU16(b, 3);
      if |b| < n then Wait
      else
        var frame := b[..n];
        match s
        case V2 => Take(n, frame[5..], s)
        case V3(mac, absorbed, ignore) =>
          if ignore.Some? && Verifies(mac, ignore.value, frame)
          then Take(n, [], s.(ignore := Some(ignore.value + frame[9..])))
          else if Verifies(mac, absorbed, frame)
          then Take(n, frame[9..], V3(mac, Absorb(mac, absorbed, frame[9..]), None))
          else Fail
  }

  lemma RecordIncremental()
    ensures Incremental(RecordStep)
  {
    forall s, b, c: seq<Byte> | !RecordStep(s, b).Wait?
      ensures RecordStep(s, b + c) == RecordStep(s, b)
    {
      var n := 5 + GetU16(b, 3);
      assert n <= |b| ==> (b + c)[..n] == b[..n];
    }
  }

  lemma HeaderFields(body: seq<Byte>, rest: seq<Byte>)
    requires |body| < 0x1_0000
    ensures var b := Header(|body|) + body + rest;
            && b[0] == 0x17 && b[1] == 0x03 && 5 + GetU16(b, 3) == |Header(|body|) + body|
            && b[..5 + |body|] == Header(|body|) + body
  {
  }

  /** A record whose tag continues the verifier's transcript is accepted and extends it exactly as
    * the sender's was extended. */
  lemma StepMacRecord(mac: Mac, absorbed: seq<Byte>, payload: seq<Byte>, rest: seq<Byte>)
    requires 4 + |payload| < 0x1_0000
    ensures RecordStep(V3(mac, absorbed, None), MacRecord(mac, absorbed, payload) + rest) ==
            Take(|MacRecord(mac, absorbed, payload)|, payload, V3(mac, Absorb(mac, absorbed, payload), None))
  {
    var body := mac(absorbed + payload) + payload;
    var frame := Header(|body|) + body;
    assert MacRecord(mac, absorbed, payload) == frame;
    HeaderFields(body, rest);
    assert frame[..3] == [0x17, 0x03, 0x03] && frame[5..9] == mac(absorbed + payload);
    assert frame[9..] == payload;
  }

  lemma StepPlainRecord(tag: Option<seq<Byte>>, payload: seq<Byte>, rest: seq<Byte>)
    requires var body := (if tag.Some? then tag.value else []) + payload; |body| < 0x1_0000
    ensures RecordStep(V2, PlainRecord(tag, payload) + rest) ==
            Take(|PlainRecord(tag, payload)|, (if tag.Some? then tag.value else []) + payload, V2)
  {
    var body := (if tag.Some? then tag.value else []) + payload;
    HeaderFields(body, rest);
    assert (Header(|body|) + body)[5..] == body;
  }

  // ---- The sending side. ----

  /** What decides how the next record is written: the tag not yet sent, or the transcript. */
  datatype Sender = SendV2(tag: Option<seq<Byte>>) | SendV3(mac: Mac, absorbed: seq<Byte>)

  predicate ValidSender(s: Sender) {
    s.SendV2? && s.tag.Some? ==> |s.tag.value| == AUTH_TAG
  }

  function PieceLen(s: Sender, payload: seq<Byte>): (n: nat)
    requires payload != [] && ValidSender(s)
    ensures 0 < n <= |payload| && n <= MAX_RECORD_PAYLOAD
  {
    var room := MAX_RECORD_PAYLOAD - if s.SendV2? && s.tag.Some? then AUTH_TAG else 0;
    if room < |payload| then room else |payload|
  }

  function OneRecord(s: Sender, piece: seq<Byte>): seq<Byte> {
    match s
    case SendV2(tag) => PlainRecord(tag, piece)
    case SendV3(mac, absorbed) => MacRecord(mac, absorbed, piece)
  }

  function AfterRecord(s: Sender, piece: seq<Byte>): (r: Sender)
    ensures ValidSender(r)
  {
    match s
    case SendV2(tag) => SendV2(None)
    case SendV3(mac, absorbed) => SendV3(mac, Absorb(mac, absorbed, piece))
  }

  /** What one write becomes, and the sender afterwards.  An empty write becomes one record
    * without a MAC, in either version. */
  function EncodeWrite(s: Sender, payload: seq<Byte>): (r: (seq<Byte>, Sender))
    requires ValidSender(s)
    ensures ValidSender(r.1)
  {
    if payload == [] then (PlainRecord(if s.SendV2? then s.tag else None, []), if s.SendV2? then SendV2(None) else s)
    else EncodePieces(s, payload)
  }

  function EncodePieces(s: Sender, payload: seq<Byte>): (r: (seq<Byte>, Sender))
    requires ValidSender(s)
    ensures ValidSender(r.1)
    decreases |payload|
  {
    if payload == [] then ([], s)
    else
      var n := PieceLen(s, payload);
      var rest := EncodePieces(AfterRecord(s, payload[..n]), payload[n..]);
      (OneRecord(s, payload[..n]) + rest.0, rest.1)
  }

  function WrittenBehind(acc: seq<Byte>, r: (seq<Byte>, Sender)): (seq<Byte>, Sender) {
    (acc + r.0, r.1)
  }

  /** One turn of the encoding loop, with `acc` written before it. */
  lemma PiecesStep(acc: seq<Byte>, s: Sender, payload: seq<Byte>)
    requires ValidSender(s) && payload != []
    ensures var n := PieceLen(s, payload);
            WrittenBehind(acc, EncodePieces(s, payload)) ==
            WrittenBehind(acc + OneRecord(s, payload[..n]), EncodePieces(AfterRecord(s, payload[..n]), payload[n..]))
  {
    var n := PieceLen(s, payload);
    var rest := EncodePieces(AfterRecord(s, payload[..n]), payload[n..]);
    assert acc + (OneRecord(s, payload[..n]) + rest.0) == acc + OneRecord(s, payload[..n]) + rest.0;
  }

  lemma PiecesNone(acc: seq<Byte>, s: Sender)
    requires ValidSender(s)
    ensures WrittenBehind(acc, EncodePieces(s, [])) == (acc, s)
  {
    assert acc + [] == acc;
  }

  lemma BehindNothing(r: (seq<Byte>, Sender))
    ensures WrittenBehind([], r) == r
  {
    assert [] + r.0 == r.0;
  }

  function EncodeWrites(s: Sender, writes: seq<seq<Byte>>): (r: (seq<Byte>, Sender))
    requires ValidSender(s)
    ensures ValidSender(r.1)
    decreases |writes|
  {
    if writes == [] then ([], s)
    else
      var (b, s1) := EncodeWrite(s, writes[0]);
      var (rest, s2) := EncodeWrites(s1, writes[1..]);
      (b + rest, s2)
  }

  /** `ShadowTlsStream`, once the handshake is over, in version 2 or 3. */
  class RecordLayer {
    const v3: bool
    const mac: Mac
    var authTag: Option<seq<Byte>>
    var added: seq<Byte>
    var verified: seq<Byte>
    var ignored: Option<seq<Byte>>
    var raw: seq<Byte>
    var readBuffer: seq<Byte>

    ghost predicate Valid()
      reads this
    {
      ValidSender(Sending())
    }

    ghost function Sending(): Sender
      reads this
    {
      if v3 then SendV3(mac, added) else SendV2(authTag)
    }

    ghost function Receiving(): Receiver
      reads this
    {
      if v3 then V3(mac, verified, ignored) else V2
    }

    constructor NewV2(tag: seq<Byte>, mac: Mac)
      requires |tag| == 8
      ensures Valid() && Sending() == SendV2(Some(tag)) && Receiving() == V2 && raw == [] && readBuffer == []
    {
      v3, this.mac, authTag := false, mac, Some(tag);
      added, verified, ignored, raw, readBuffer := [], [], None, [], [];
    }

    constructor NewV3(mac: Mac, add: seq<Byte>, verify: seq<Byte>, ignore: Option<seq<Byte>>)
      ensures Valid() && Sending() == SendV3(mac, add) && Receiving() == V3(mac, verify, ignore)
      ensures raw == [] && readBuffer == []
    {
      v3, this.mac, authTag := true, mac, None;
      added, verified, ignored, raw, readBuffer := add, verify, ignore, [], [];
    }

    /** `shadow_tls_encode_records`. */
    method EncodeRecords(payload: seq<Byte>) returns (output: seq<Byte>)
      requires Valid()
      modifies this`authTag, this`added
      ensures Valid() && (output, Sending()) == EncodeWrite(old(Sending()), payload)
      ensures v3 && 0 < |payload| <= 16384 ==>
                && |output| == 9 + |payload| && output[..3] == [0x17, 0x03, 0x03] && GetU16(output, 3) == 4 + |payload|
                && output[5..9] == mac(old(added) + payload) && output[9..] == payload
                && added == old(added) + payload + output[5..9]
    {
      if v3 && 0 < |payload| <= 16384 {
        OneRecordWrite(mac, added, payload);
      }
      hide EncodePieces;
      var tag := if v3 then None else authTag;
      authTag := if v3 then authTag else None;
      if payload == [] {
        return PlainRecord(tag, []);
      }
      output := EncodeNonEmpty(tag, payload);
    }

    method EncodeNonEmpty(firstTag: Option<seq<Byte>>, payload: seq<Byte>) returns (output: seq<Byte>)
      requires ValidSender(SendV2(firstTag)) && (v3 ==> firstTag == None) && (!v3 ==> authTag == None)
      requires payload != []
      modifies this`added
      ensures (output, Sending()) == EncodePieces(if v3 then SendV3(mac, old(added)) else SendV2(firstTag), payload)
    {
      hide EncodePieces, WrittenBehind, MacRecord, PlainRecord, Absorb;
      output := [];
      var offset, tag := 0, firstTag;
      ghost var s := if v3 then SendV3(mac, added) else SendV2(tag);
      ghost var goal := EncodePieces(s, payload);
      assert payload[0..] == payload;
      BehindNothing(goal);
      while offset < |payload|
        invariant offset <= |payload| && ValidSender(s)
        invariant s == if v3 then SendV3(mac, added) else SendV2(tag)
        invariant v3 ==> tag == None
        invariant offset == |payload| ==> tag == None
        invariant goal == WrittenBehind(output, EncodePieces(s, payload[offset..]))
      {
        var reserve := if tag.Some? then |tag.value| else 0;
        var take := if MAX_RECORD_PAYLOAD - reserve < |payload| - offset
                    then MAX_RECORD_PAYLOAD - reserve else |payload| - offset;
        var piece := payload[offset..offset + take];
        assert payload[offset..][..take] == piece && payload[offset..][take..] == payload[offset + take..];
        PiecesStep(output, s, payload[offset..]);
        s := AfterRecord(s, piece);
        var record := WriteRecord(tag, piece);
        output, tag, offset := output + record, None, offset + take;
      }
      assert payload[offset..] == [];
      PiecesNone(output, s);
    }

    method WriteRecord(tag: Option<seq<Byte>>, piece: seq<Byte>) returns (record: seq<Byte>)
      modifies this`added
      ensures record == if v3 then MacRecord(mac, old(added), piece) else PlainRecord(tag, piece)
      ensures added == if v3 then Absorb(mac, old(added), piece) else old(added)
    {
      if v3 {
        record := [0x17, 0x03, 0x03] + U16(4 + |piece|);
        added := added + piece;
        var digest := mac(added);
        added := added + digest;
        record := record + digest + piece;
      } else {
        record := [0x17, 0x03, 0x03] + U16((if tag.Some? then |tag.value| else 0) + |piece|);
        if tag.Some? {
          record := record + tag.value;
          Assoc([0x17, 0x03, 0x03] + U16(|tag.value| + |piece|), tag.value, piece);
        }
        record := record + piece;
      }
    }

    /** `shadow_tls_drain_records`: opens every complete record that has arrived. */
    method DrainRecords() returns (ok: bool)
      modifies this`verified, this`ignored, this`raw, this`readBuffer
      ensures var r := Drain(RecordStep, old(Receiving()), old(raw));
              ok == r.ok && readBuffer == old(readBuffer) + r.out && (ok ==> Receiving() == r.state && raw == r.pending)
    {
      hide Drain;
      ghost var goal := Prepend(readBuffer, Drain(RecordStep, Receiving(), raw));
      while true
        invariant goal == Prepend(readBuffer, Drain(RecordStep, Receiving(), raw))
        decreases |raw|
      {
        ghost var s, b, acc := Receiving(), raw, readBuffer;
        if |raw| < 5 {
          DrainWaits(RecordStep, s, b, acc);
          return true;
        }
        if raw[0] != 0x17 || raw[1] != 0x03 {
          DrainFails(RecordStep, s, b, acc);
          return false;
        }
        var len := GetU16(raw, 3);
        if |raw| < 5 + len {
          DrainWaits(RecordStep, s, b, acc);
          return true;
        }
        var frame := raw[..5 + len];
        raw := raw[5 + len..];
        var accepted := OpenRecord(frame, b);
        if !accepted {
          DrainFails(RecordStep, s, b, acc);
          return false;
        }
        Unfold(RecordStep, s, b, acc);
      }
    }

    /** Opens one complete record.  Even a record that is refused is absorbed, if it has room for a
      * tag, and it ends the skipping of handshake records. */
    method OpenRecord(frame: seq<Byte>, ghost b: seq<Byte>) returns (accepted: bool)
      requires |b| >= 5 && b[0] == 0x17 && b[1] == 0x03
      requires |frame| == 5 + GetU16(b, 3) <= |b| && frame == b[..|frame|]
      modifies this`verified, this`ignored, this`readBuffer
      ensures var t := RecordStep(old(Receiving()), b);
              if accepted
              then t.Take? && t == Take(|frame|, t.out, Receiving()) && readBuffer == old(readBuffer) + t.out
              else && t == Fail && readBuffer == old(readBuffer) && ignored == None
                   && verified == if Tagged(frame) then Absorb(mac, old(verified), frame[9..]) else old(verified)
      ensures v3 && old(ignored) == None ==>
                && (accepted <==> |frame| >= 9 && frame[2] == 0x03 && frame[5..9] == mac(old(verified) + frame[9..]))
                && (accepted ==> verified == old(verified) + frame[9..] + frame[5..9] &&
                                 readBuffer == old(readBuffer) + frame[9..])
    {
      if !v3 {
        readBuffer := readBuffer + frame[5..];
        return true;
      }
      assert Tagged(frame) <==> |frame| >= 9 && frame[2] == 0x03;
      if ignored.Some? {
        var skipped, after := VerifyApplicationData(frame, ignored.value, false);
        if skipped {
          ignored := Some(after);
          assert readBuffer + [] == readBuffer;
          return true;
        }
      }
      ignored := None;
      accepted, verified := VerifyApplicationData(frame, verified, true);
      if accepted {
        readBuffer := readBuffer + frame[9..];
      }
    }

    /** `shadow_tls_v3_verify_application_data`: whatever the answer, a record with room for a tag is
      * absorbed, and with `update` the expected tag behind it. */
    method VerifyApplicationData(frame: seq<Byte>, hmac: seq<Byte>, update: bool)
        returns (ok: bool, after: seq<Byte>)
      ensures if |frame| >= 9 && frame[0] == 0x17 && frame[1] == 0x03 && frame[2] == 0x03
              then && ok == (frame[5..9] == mac(hmac + frame[9..]))
                   && after == if update then hmac + frame[9..] + mac(hmac + frame[9..]) else hmac + frame[9..]
              else !ok && after == hmac
    {
      if |frame| < 9 || frame[0] != 0x17 || frame[1] != 0x03 || frame[2] != 0x03 {
        return false, hmac;
      }
      after := hmac + frame[9..];
      var expected := mac(after);
      if update {
        after := after + expected;
      }
      ok := frame[5..9] == expected;
    }
  }

  /** One record of a version-3 write, byte by byte. */
  lemma {:induction false} MacRecordBytes(mac: Mac, absorbed: seq<Byte>, payload: seq<Byte>)
    requires 4 + |payload| < 0x1_0000
    ensures var r := MacRecord(mac, absorbed, payload);
            && |r| == 9 + |payload| && r[..3] == [0x17, 0x03, 0x03] && GetU16(r, 3) == 4 + |payload|
            && r[5..9] == mac(absorbed + payload) && r[9..] == payload
            && Absorb(mac, absorbed, payload) == absorbed + r[9..] + r[5..9]
  {
    var r := MacRecord(mac, absorbed, payload);
    assert r[3..5] == U16(4 + |payload|);
    assert GetU16(r, 3) == GetU16(U16(4 + |payload|), 0);
  }

  lemma {:induction false} OneRecordWrite(mac: Mac, absorbed: seq<Byte>, payload: seq<Byte>)
    requires 0 < |payload| <= 16384
    ensures var (b, s) := EncodePieces(SendV3(mac, absorbed), payload);
            && |b| == 9 + |payload| && b[..3] == [0x17, 0x03, 0x03] && GetU16(b, 3) == 4 + |payload|
            && b[5..9] == mac(absorbed + payload) && b[9..] == payload
            && s == SendV3(mac, absorbed + payload + b[5..9])
  {
    hide MacRecord, Absorb, EncodePieces;
    MacRecordBytes(mac, absorbed, payload);
    OneRecordPieces(mac, absorbed, payload);
  }

  lemma {:induction false} OneRecordPieces(mac: Mac, absorbed: seq<Byte>, payload: seq<Byte>)
    requires 0 < |payload| <= MAX_RECORD_PAYLOAD
    ensures EncodePieces(SendV3(mac, absorbed), payload) ==
            (MacRecord(mac, absorbed, payload), SendV3(mac, Absorb(mac, absorbed, payload)))
  {
    hide MacRecord, Absorb;
    var s := SendV3(mac, absorbed);
    var n := PieceLen(s, payload);
    assert payload[..n] == payload && payload[n..] == [];
    var rest := EncodePieces(AfterRecord(s, payload), []);
    assert OneRecord(s, payload) + rest.0 == MacRecord(mac, absorbed, payload);
  }

  // ---- Version 3: sender and receiver stay on the same transcript. ----

  lemma PiecesCons(s: Sender, payload: seq<Byte>, rest: seq<Byte>)
    requires ValidSender(s) && payload != []
    ensures var n := PieceLen(s, payload); var tail := EncodePieces(AfterRecord(s, payload[..n]), payload[n..]);
            && payload[..n] + payload[n..] == payload && EncodePieces(s, payload).1 == tail.1
            && EncodePieces(s, payload).0 + rest == OneRecord(s, payload[..n]) + (tail.0 + rest)
  {
    hide OneRecord, AfterRecord, PieceLen;
    var n := PieceLen(s, payload);
    Assoc(OneRecord(s, payload[..n]), EncodePieces(AfterRecord(s, payload[..n]), payload[n..]).0, rest);
    assert EncodePieces(s, payload) ==
           (OneRecord(s, payload[..n]) + EncodePieces(AfterRecord(s, payload[..n]), payload[n..]).0,
            EncodePieces(AfterRecord(s, payload[..n]), payload[n..]).1);
  }

  /** A record in front of a stream. */
  lemma DrainRecord(r: Receiver, record: seq<Byte>, out: seq<Byte>, next: Receiver, rest: seq<Byte>)
    requires record != [] && RecordStep(r, record + rest) == Take(|record|, out, next)
    ensures Drain(RecordStep, r, record + rest) == Prepend(out, Drain(RecordStep, next, rest))
  {
  }

  /** One write's records, read by a receiver on the sender's transcript. */
  lemma {:induction false} DrainPieces(mac: Mac, absorbed: seq<Byte>, payload: seq<Byte>, rest: seq<Byte>)
    ensures var (b, s) := EncodePieces(SendV3(mac, absorbed), payload);
            && s.SendV3? && s.mac == mac
            && Drain(RecordStep, V3(mac, absorbed, None), b + rest) ==
               Prepend(payload, Drain(RecordStep, V3(mac, s.absorbed, None), rest))
    decreases |payload|
  {
    var s := SendV3(mac, absorbed);
    if payload == [] {
      assert EncodePieces(s, payload).0 + rest == rest;
      PrependNil(Drain(RecordStep, V3(mac, absorbed, None), rest));
    } else {
      var n := PieceLen(s, payload);
      var piece, more := payload[..n], payload[n..];
      var record, absorbed' := MacRecord(mac, absorbed, piece), Absorb(mac, absorbed, piece);
      var (b, s') := EncodePieces(SendV3(mac, absorbed'), more);
      PiecesCons(s, payload, rest);
      StepMacRecord(mac, absorbed, piece, b + rest);
      DrainRecord(V3(mac, absorbed, None), record, piece, V3(mac, absorbed', None), b + rest);
      DrainPieces(mac, absorbed', more, rest);
      PrependTwice(piece, more, Drain(RecordStep, V3(mac, s'.absorbed, None), rest));
    }
  }

  /** An empty version-3 write is a record no receiver accepts. */
  lemma EmptyWriteRejected(mac: Mac, absorbed: seq<Byte>, rest: seq<Byte>)
    ensures var b := EncodeWrite(SendV3(mac, absorbed), []).0;
            Drain(RecordStep, V3(mac, absorbed, None), b + rest) == Parse(V3(mac, absorbed, None), b + rest, [], false)
  {
    HeaderFields([], rest);
    assert Header(0) + [] == PlainRecord(None, []);
  }

  ghost predicate AllNonEmpty(writes: seq<seq<Byte>>) {
    forall i :: 0 <= i < |writes| ==> writes[i] != []
  }

  /** For every list of writes, the receiver opens every record, outputs exactly what was written
    * and ends on the sender's transcript, if and only if no write was empty. */
  lemma {:induction false} V3Synchronised(mac: Mac, absorbed: seq<Byte>, writes: seq<seq<Byte>>)
    ensures var (wire, s) := EncodeWrites(SendV3(mac, absorbed), writes);
            var r := Drain(RecordStep, V3(mac, absorbed, None), wire);
            && s.SendV3? && (r.ok <==> AllNonEmpty(writes))
            && (r.ok ==> r == Parse(V3(mac, s.absorbed, None), [], Flatten(writes), true))
    decreases |writes|
  {
    hide RecordStep, EncodePieces, AllNonEmpty, PlainRecord;
    var s := SendV3(mac, absorbed);
    if writes == [] {
      NothingWritten(mac, absorbed);
    } else {
      hide Drain;
      NonEmptyNext(writes);
      var (b, s1) := EncodeWrite(s, writes[0]);
      var (rest, s2) := EncodeWrites(s1, writes[1..]);
      assert EncodeWrites(s, writes) == (b + rest, s2);
      if writes[0] == [] {
        EmptyWriteRejected(mac, absorbed, rest);
        V3Synchronised(mac, absorbed, writes[1..]);
      } else {
        DrainPieces(mac, absorbed, writes[0], rest);
        V3Synchronised(mac, s1.absorbed, writes[1..]);
      }
    }
  }

  lemma NothingWritten(mac: Mac, absorbed: seq<Byte>)
    ensures AllNonEmpty([])
    ensures Drain(RecordStep, V3(mac, absorbed, None), []) == Parse(V3(mac, absorbed, None), [], [], true)
  {
  }

  lemma NonEmptyNext(writes: seq<seq<Byte>>)
    requires writes != []
    ensures AllNonEmpty(writes) <==> writes[0] != [] && AllNonEmpty(writes[1..])
  {
    assert forall i :: 0 <= i < |writes| - 1 ==> writes[1..][i] == writes[i + 1];
    assert forall i :: 1 <= i < |writes| ==> writes[i] == writes[1..][i - 1];
  }

  /** ... and the same holds when the wire is cut into chunks in any way. */
  lemma {:induction false} V3RoundTrip(mac: Mac, absorbed: seq<Byte>, writes: seq<seq<Byte>>, chunks: seq<seq<Byte>>)
    requires Flatten(chunks) == EncodeWrites(SendV3(mac, absorbed), writes).0
    ensures var s := EncodeWrites(SendV3(mac, absorbed), writes).1;
            var r := FeedAll(RecordStep, Fresh(V3(mac, absorbed, None)), chunks);
            && s.SendV3? && (r.ok <==> AllNonEmpty(writes))
            && (r.ok ==> r == Parse(V3(mac, s.absorbed, None), [], Flatten(writes), true))
  {
    RecordIncremental();
    FreshChunking(RecordStep, V3(mac, absorbed, None), chunks);
    V3Synchronised(mac, absorbed, writes);
  }

  // ---- Version 3, record by record. ----

  /** The payloads of the records a write becomes. */
  function PiecesOf(payload: seq<Byte>): seq<seq<Byte>>
    decreases |payload|
  {
    if payload == [] then []
    else
      var n := if MAX_RECORD_PAYLOAD < |payload| then MAX_RECORD_PAYLOAD else |payload|;
      [payload[..n]] + PiecesOf(payload[n..])
  }

  function AllPieces(writes: seq<seq<Byte>>): seq<seq<Byte>> {
    if writes == [] then [] else PiecesOf(writes[0]) + AllPieces(writes[1..])
  }

  function AbsorbAll(mac: Mac, absorbed: seq<Byte>, pieces: seq<seq<Byte>>): seq<Byte>
    decreases |pieces|
  {
    if pieces == [] then absorbed else AbsorbAll(mac, Absorb(mac, absorbed, pieces[0]), pieces[1..])
  }

  /** One record for each piece, with the transcript chained over them. */
  function RecordsOf(mac: Mac, absorbed: seq<Byte>, pieces: seq<seq<Byte>>): (r: seq<seq<Byte>>)
    ensures |r| == |pieces|
    decreases |pieces|
  {
    if pieces == [] then []
    else [MacRecord(mac, absorbed, pieces[0])] + RecordsOf(mac, Absorb(mac, absorbed, pieces[0]), pieces[1..])
  }

  lemma {:induction false} RecordsAppend(mac: Mac, absorbed: seq<Byte>, a: seq<seq<Byte>>, b: seq<seq<Byte>>)
    ensures AbsorbAll(mac, absorbed, a + b) == AbsorbAll(mac, AbsorbAll(mac, absorbed, a), b)
    ensures RecordsOf(mac, absorbed, a + b) ==
            RecordsOf(mac, absorbed, a) + RecordsOf(mac, AbsorbAll(mac, absorbed, a), b)
    decreases |a|
  {
    hide MacRecord, Absorb;
    if a == [] {
      assert a + b == b;
    } else {
      assert (a + b)[1..] == a[1..] + b;
      RecordsAppend(mac, Absorb(mac, absorbed, a[0]), a[1..], b);
    }
  }

  lemma {:induction false} PiecesSplit(payload: seq<Byte>)
    ensures Flatten(PiecesOf(payload)) == payload && forall p :: p in PiecesOf(payload) ==> |p| <= MAX_RECORD_PAYLOAD
    decreases |payload|
  {
    if payload != [] {
      var n := if MAX_RECORD_PAYLOAD < |payload| then MAX_RECORD_PAYLOAD else |payload|;
      var rest := PiecesOf(payload[n..]);
      PiecesSplit(payload[n..]);
      hide PiecesOf;
      assert ([payload[..n]] + rest)[1..] == rest && payload[..n] + payload[n..] == payload;
    }
  }

  lemma {:induction false} PiecesRecorded(mac: Mac, absorbed: seq<Byte>, payload: seq<Byte>)
    ensures var ps := PiecesOf(payload);
            EncodePieces(SendV3(mac, absorbed), payload) ==
            (Flatten(RecordsOf(mac, absorbed, ps)), SendV3(mac, AbsorbAll(mac, absorbed, ps)))
    decreases |payload|
  {
    hide MacRecord, Absorb;
    if payload != [] {
      var n := PieceLen(SendV3(mac, absorbed), payload);
      var rest := PiecesOf(payload[n..]);
      PiecesRecorded(mac, Absorb(mac, absorbed, payload[..n]), payload[n..]);
      var first := MacRecord(mac, absorbed, payload[..n]);
      var more := RecordsOf(mac, Absorb(mac, absorbed, payload[..n]), rest);
      assert ([first] + more)[1..] == more;
      assert PiecesOf(payload) == [payload[..n]] + rest;
      hide PiecesOf, EncodeWrite;
      assert ([payload[..n]] + rest)[1..] == rest;
    }
  }

  lemma {:induction false} WritesRecorded(mac: Mac, absorbed: seq<Byte>, writes: seq<seq<Byte>>)
    requires AllNonEmpty(writes)
    ensures var ps := AllPieces(writes);
            && EncodeWrites(SendV3(mac, absorbed), writes) ==
               (Flatten(RecordsOf(mac, absorbed, ps)), SendV3(mac, AbsorbAll(mac, absorbed, ps)))
            && Flatten(ps) == Flatten(writes) && forall p :: p in ps ==> |p| <= MAX_RECORD_PAYLOAD
    decreases |writes|
  {
    if writes != [] {
      hide EncodePieces, PiecesOf, RecordsOf, AbsorbAll;
      var first := PiecesOf(writes[0]);
      PiecesRecorded(mac, absorbed, writes[0]);
      PiecesSplit(writes[0]);
      NonEmptyNext(writes);
      WritesRecorded(mac, AbsorbAll(mac, absorbed, first), writes[1..]);
      RecordsAppend(mac, absorbed, first, AllPieces(writes[1..]));
      FlattenAppend(first, AllPieces(writes[1..]));
      FlattenAppend(RecordsOf(mac, absorbed, first),
                    RecordsOf(mac, AbsorbAll(mac, absorbed, first), AllPieces(writes[1..])));
    }
  }

  // ---- Version 3, read off the wire. ----

  /** What a record adds to the transcript: its payload and its tag. */
  function Absorbs(record: seq<Byte>): seq<Byte> {
    if |record| < 9 then [] else record[9..] + record[5..9]
  }

  function Chain(records: seq<seq<Byte>>): seq<Byte> {
    if records == [] then [] else Absorbs(records[0]) + Chain(records[1..])
  }

  function Payloads(records: seq<seq<Byte>>): seq<Byte> {
    if records == [] then [] else (if |records[0]| < 9 then [] else records[0][9..]) + Payloads(records[1..])
  }

  /** An application-data record whose tag is the MAC of the transcript and its payload. */
  predicate Genuine(mac: Mac, transcript: seq<Byte>, r: seq<Byte>) {
    && |r| >= 9 && r[0] == 0x17 && r[1] == 0x03 && r[2] == 0x03 && GetU16(r, 3) == |r| - 5
    && r[5..9] == mac(transcript + r[9..])
  }

  /** The tag of each record is the MAC of everything the records before it added and its payload. */
  ghost predicate Authentic(mac: Mac, start: seq<Byte>, records: seq<seq<Byte>>) {
    forall i :: 0 <= i < |records| ==> Genuine(mac, start + Chain(records[..i]), records[i])
  }

  lemma AuthenticCons(mac: Mac, start: seq<Byte>, records: seq<seq<Byte>>)
    requires records != []
    ensures Authentic(mac, start, records) <==>
            Genuine(mac, start, records[0]) && Authentic(mac, start + Absorbs(records[0]), records[1..])
  {
    hide Genuine, Absorbs;
    assert start + [] == start;
    forall i | 0 <= i < |records| - 1
      ensures records[1..][i] == records[i + 1]
      ensures start + Chain(records[..i + 1]) == start + Absorbs(records[0]) + Chain(records[1..][..i])
    {
      assert records[..i + 1][1..] == records[1..][..i];
      Assoc(start, Absorbs(records[0]), Chain(records[1..][..i]));
    }
    if Authentic(mac, start, records) {
      forall i | 0 <= i < |records[1..]|
        ensures Genuine(mac, start + Absorbs(records[0]) + Chain(records[1..][..i]), records[1..][i])
      {
        assert Genuine(mac, start + Chain(records[..i + 1]), records[i + 1]);
      }
    }
    if Genuine(mac, start, records[0]) && Authentic(mac, start + Absorbs(records[0]), records[1..]) {
      forall i | 0 <= i < |records|
        ensures Genuine(mac, start + Chain(records[..i]), records[i])
      {
        if i > 0 {
          assert Genuine(mac, start + Absorbs(records[0]) + Chain(records[1..][..i - 1]), records[1..][i - 1]);
        }
      }
    }
  }

  /** A genuine record is taken whole, whatever follows it. */
  lemma StepGenuine(mac: Mac, transcript: seq<Byte>, r: seq<Byte>, rest: seq<Byte>)
    requires Genuine(mac, transcript, r)
    ensures RecordStep(V3(mac, transcript, None), r + rest) ==
            Take(|r|, r[9..], V3(mac, transcript + Absorbs(r), None))
  {
    assert (r + rest)[..|r|] == r && GetU16(r + rest, 3) == GetU16(r, 3);
    Assoc(transcript, r[9..], r[5..9]);
  }

  /** Conversely, the bytes taken are a genuine record. */
  lemma TakenGenuine(mac: Mac, transcript: seq<Byte>, b: seq<Byte>)
    requires RecordStep(V3(mac, transcript, None), b).Take?
    ensures 0 < RecordStep(V3(mac, transcript, None), b).n <= |b|
    ensures var t := RecordStep(V3(mac, transcript, None), b); var r := b[..t.n];
            Genuine(mac, transcript, r) && |r| >= 9 && t == Take(|r|, r[9..], V3(mac, transcript + Absorbs(r), None))
  {
    var r := b[..RecordStep(V3(mac, transcript, None), b).n];
    assert r[..3] == [r[0], r[1], r[2]] && GetU16(r, 3) == GetU16(b, 3);
    Assoc(transcript, r[9..], r[5..9]);
  }

  /** Authentic records in front of anything are read as their payloads, and the transcript grows by
    * what is on the wire. */
  lemma {:induction false} AuthenticRead(mac: Mac, start: seq<Byte>, records: seq<seq<Byte>>, rest: seq<Byte>)
    requires Authentic(mac, start, records)
    ensures Drain(RecordStep, V3(mac, start, None), Flatten(records) + rest) ==
            Prepend(Payloads(records), Drain(RecordStep, V3(mac, start + Chain(records), None), rest))
    decreases |records|
  {
    hide RecordStep, Authentic, Drain;
    if records == [] {
      assert start + [] == start && [] + rest == rest;
      PrependNil(Drain(RecordStep, V3(mac, start, None), rest));
    } else {
      var r, more := records[0], Flatten(records[1..]) + rest;
      AuthenticCons(mac, start, records);
      StepGenuine(mac, start, r, more);
      Assoc(r, Flatten(records[1..]), rest);
      DrainFrame(RecordStep, V3(mac, start, None), r, more);
      AuthenticRead(mac, start + Absorbs(r), records[1..], rest);
      Assoc(start, Absorbs(r), Chain(records[1..]));
      PrependTwice(r[9..], Payloads(records[1..]), Drain(RecordStep, V3(mac, start + Chain(records), None), rest));
    }
  }

  /** Of any bytes a receiver takes authentic records and nothing else. */
  lemma {:induction false} OnlyAuthentic(mac: Mac, start: seq<Byte>, b: seq<Byte>) returns (records: seq<seq<Byte>>)
    ensures var r := Drain(RecordStep, V3(mac, start, None), b);
            && Authentic(mac, start, records) && b == Flatten(records) + r.pending && r.out == Payloads(records)
            && r.state == V3(mac, start + Chain(records), None)
    decreases |b|
  {
    hide RecordStep, Authentic, Genuine, Absorbs, Chain, Payloads, Flatten;
    var t := RecordStep(V3(mac, start, None), b);
    if t.Take? {
      TakenGenuine(mac, start, b);
      var r := b[..t.n];
      var more := OnlyAuthentic(mac, start + Absorbs(r), b[t.n..]);
      records := [r] + more;
      RecordInFront(r, more);
      AuthenticCons(mac, start, records);
      Assoc(start, Absorbs(r), Chain(more));
      Assoc(r, Flatten(more), Drain(RecordStep, t.next, b[t.n..]).pending);
      assert b == r + b[t.n..];
    } else {
      records := [];
      NoneAuthentic(mac, start);
      assert start + [] == start && [] + b == b;
    }
  }

  lemma RecordInFront(r: seq<Byte>, more: seq<seq<Byte>>)
    requires |r| >= 9
    ensures var rs := [r] + more;
            && rs[0] == r && rs[1..] == more && Flatten(rs) == r + Flatten(more)
            && Chain(rs) == Absorbs(r) + Chain(more) && Payloads(rs) == r[9..] + Payloads(more)
  {
    assert ([r] + more)[1..] == more;
  }

  lemma NoneAuthentic(mac: Mac, start: seq<Byte>)
    ensures Authentic(mac, start, []) && Chain([]) == [] && Payloads([]) == [] && Flatten<Byte>([]) == []
  {
  }

  lemma {:induction false} RecordsAuthentic(mac: Mac, absorbed: seq<Byte>, pieces: seq<seq<Byte>>)
    requires forall p :: p in pieces ==> |p| <= MAX_RECORD_PAYLOAD
    ensures var rs := RecordsOf(mac, absorbed, pieces);
            && Authentic(mac, absorbed, rs) && AbsorbAll(mac, absorbed, pieces) == absorbed + Chain(rs)
            && Payloads(rs) == Flatten(pieces)
            && forall i :: 0 <= i < |rs| ==> |rs[i]| == 9 + |pieces[i]| && rs[i][9..] == pieces[i]
    decreases |pieces|
  {
    hide Authentic, MacRecord, Absorb;
    if pieces == [] {
      NoneAuthentic(mac, absorbed);
      assert absorbed + [] == absorbed;
    } else {
      assert pieces[0] in pieces;
      MacRecordBytes(mac, absorbed, pieces[0]);
      var r, next := MacRecord(mac, absorbed, pieces[0]), Absorb(mac, absorbed, pieces[0]);
      var more := RecordsOf(mac, next, pieces[1..]);
      Assoc(absorbed, r[9..], r[5..9]);
      HeaderBytes(r);
      RecordsAuthentic(mac, next, pieces[1..]);
      assert RecordsOf(mac, absorbed, pieces) == [r] + more && ([r] + more)[1..] == more;
      AuthenticCons(mac, absorbed, [r] + more);
      Assoc(absorbed, Absorbs(r), Chain(more));
    }
  }

  lemma HeaderBytes(r: seq<Byte>)
    requires |r| >= 3 && r[..3] == [0x17, 0x03, 0x03]
    ensures r[0] == 0x17 && r[1] == 0x03 && r[2] == 0x03
  {
    assert r[0] == r[..3][0] && r[1] == r[..3][1] && r[2] == r[..3][2];
  }

  /** The MAC is chained over the records of all writes: the tag of record `i`, bytes 5 to 9, is the
    * MAC of the start, the payloads and tags of the records before it, read off the wire, and its
    * own payload. */
  lemma V3TagsChained(mac: Mac, start: seq<Byte>, writes: seq<seq<Byte>>) returns (rs: seq<seq<Byte>>)
    requires AllNonEmpty(writes)
    ensures var ps := AllPieces(writes); var (wire, s) := EncodeWrites(SendV3(mac, start), writes);
            && |rs| == |ps| && wire == Flatten(rs) && s == SendV3(mac, start + Chain(rs))
            && Authentic(mac, start, rs) && Flatten(ps) == Flatten(writes)
            && forall i :: 0 <= i < |rs| ==> |rs[i]| == 9 + |ps[i]| && rs[i][9..] == ps[i]
  {
    hide EncodeWrites, RecordsOf, AbsorbAll, Authentic;
    WritesRecorded(mac, start, writes);
    RecordsAuthentic(mac, start, AllPieces(writes));
    rs := RecordsOf(mac, start, AllPieces(writes));
  }

  /** After every record, also within a write: the receiver has output the payloads of the records
    * so far, holds nothing back and is on the transcript the sender had after that record. */
  lemma V3InStepAfterEachRecord(mac: Mac, absorbed: seq<Byte>, writes: seq<seq<Byte>>, i: nat)
    requires AllNonEmpty(writes) && i <= |AllPieces(writes)|
    ensures var ps := AllPieces(writes); var sofar := AbsorbAll(mac, absorbed, ps[..i]);
            && EncodeWrites(SendV3(mac, absorbed), writes) ==
               (Flatten(RecordsOf(mac, absorbed, ps[..i]) + RecordsOf(mac, sofar, ps[i..])),
                SendV3(mac, AbsorbAll(mac, sofar, ps[i..])))
            && Flatten(ps) == Flatten(writes)
            && Drain(RecordStep, V3(mac, absorbed, None), Flatten(RecordsOf(mac, absorbed, ps[..i]))) ==
               Parse(V3(mac, sofar, None), [], Flatten(ps[..i]), true)
  {
    hide RecordStep, EncodeWrites, RecordsOf, AbsorbAll, Authentic;
    var ps := AllPieces(writes);
    WritesRecorded(mac, absorbed, writes);
    assert ps[..i] + ps[i..] == ps;
    RecordsAppend(mac, absorbed, ps[..i], ps[i..]);
    var rs := RecordsOf(mac, absorbed, ps[..i]);
    RecordsAuthentic(mac, absorbed, ps[..i]);
    AuthenticRead(mac, absorbed, rs, []);
    assert Flatten(rs) + [] == Flatten(rs) && Payloads(rs) + [] == Payloads(rs);
    DrainsToNothing(V3(mac, AbsorbAll(mac, absorbed, ps[..i]), None));
  }

  lemma DrainsToNothing(r: Receiver)
    ensures Drain(RecordStep, r, []) == Parse(r, [], [], true)
  {
  }

  // ---- Version 3 while handshake records may still be skipped. ----

  /** A single record can be read as nothing or as its payload, never as more. */
  lemma StepIsBounded(r: Receiver, mac: Mac, absorbed: seq<Byte>, payload: seq<Byte>, rest: seq<Byte>)
    requires 4 + |payload| < 0x1_0000 && r.V3?
    ensures var t := RecordStep(r, MacRecord(mac, absorbed, payload) + rest);
            t.Take? ==> t.n == |MacRecord(mac, absorbed, payload)| && |t.out| <= |payload| && t.next.V3?
  {
    var body := mac(absorbed + payload) + payload;
    assert MacRecord(mac, absorbed, payload) == Header(|body|) + body;
    HeaderFields(body, rest);
  }

  lemma {:induction false} PiecesAreBounded(
      r: Receiver, mac: Mac, absorbed: seq<Byte>, payload: seq<Byte>, rest: seq<Byte>)
    requires r.V3?
    ensures var b := EncodePieces(SendV3(mac, absorbed), payload).0;
            exists r': Receiver ::
              r'.V3? && |Drain(RecordStep, r, b + rest).out| <= |payload| + |Drain(RecordStep, r', rest).out|
    decreases |payload|
  {
    var s := SendV3(mac, absorbed);
    if payload == [] {
      assert EncodePieces(s, payload).0 + rest == rest;
    } else {
      var n := PieceLen(s, payload);
      var record, absorbed' := MacRecord(mac, absorbed, payload[..n]), Absorb(mac, absorbed, payload[..n]);
      var b := EncodePieces(SendV3(mac, absorbed'), payload[n..]).0;
      PiecesCons(s, payload, rest);
      StepIsBounded(r, mac, absorbed, payload[..n], b + rest);
      var t := RecordStep(r, record + (b + rest));
      if t.Take? {
        DrainRecord(r, record, t.out, t.next, b + rest);
        PiecesAreBounded(t.next, mac, absorbed', payload[n..], rest);
      } else {
        assert |Drain(RecordStep, r, record + (b + rest)).out| == 0;
      }
    }
  }

  lemma {:induction false} WritesAreBounded(r: Receiver, mac: Mac, absorbed: seq<Byte>, writes: seq<seq<Byte>>)
    requires r.V3? && AllNonEmpty(writes)
    ensures |Drain(RecordStep, r, EncodeWrites(SendV3(mac, absorbed), writes).0).out| <= |Flatten(writes)|
    decreases |writes|
  {
    var s := SendV3(mac, absorbed);
    if writes != [] {
      hide RecordStep, EncodePieces;
      var (b, s1) := EncodeWrite(s, writes[0]);
      var rest := EncodeWrites(s1, writes[1..]).0;
      DrainPieces(mac, absorbed, writes[0], rest);
      PiecesAreBounded(r, mac, absorbed, writes[0], rest);
      var r': Receiver :| r'.V3? &&
          |Drain(RecordStep, r, b + rest).out| <= |writes[0]| + |Drain(RecordStep, r', rest).out|;
      assert forall i :: 0 <= i < |writes| - 1 ==> writes[1..][i] == writes[i + 1];
      WritesAreBounded(r', mac, s1.absorbed, writes[1..]);
    }
  }

  /** The payload of the first record written. */
  function FirstPiece(writes: seq<seq<Byte>>): seq<Byte>
    requires writes != [] && writes[0] != []
  {
    if MAX_RECORD_PAYLOAD < |writes[0]| then writes[0][..MAX_RECORD_PAYLOAD] else writes[0]
  }

  /** The rest of a write and the writes after it yield at most their payload. */
  lemma RestIsBounded(r: Receiver, mac: Mac, absorbed: seq<Byte>, payload: seq<Byte>, writes: seq<seq<Byte>>)
    requires r.V3? && AllNonEmpty(writes)
    ensures var (b, s) := EncodePieces(SendV3(mac, absorbed), payload);
            && s.SendV3?
            && |Drain(RecordStep, r, b + EncodeWrites(s, writes).0).out| <= |payload| + |Flatten(writes)|
  {
    var (b, s) := EncodePieces(SendV3(mac, absorbed), payload);
    DrainPieces(mac, absorbed, payload, []);
    var rest := EncodeWrites(s, writes).0;
    PiecesAreBounded(r, mac, absorbed, payload, rest);
    var r': Receiver :| r'.V3? && |Drain(RecordStep, r, b + rest).out| <= |payload| + |Drain(RecordStep, r', rest).out|;
    WritesAreBounded(r', mac, s.absorbed, writes);
  }

  /** The first record, taken apart from everything after it. */
  lemma FirstRecord(mac: Mac, absorbed: seq<Byte>, writes: seq<seq<Byte>>) returns (more: seq<Byte>)
    requires writes != [] && AllNonEmpty(writes)
    ensures EncodeWrites(SendV3(mac, absorbed), writes).0 == MacRecord(mac, absorbed, FirstPiece(writes)) + more
    ensures forall r: Receiver :: r.V3? ==>
              |Drain(RecordStep, r, more).out| <= |Flatten(writes)| - |FirstPiece(writes)|
  {
    var s, p := SendV3(mac, absorbed), FirstPiece(writes);
    var tail := writes[0][|p|..];
    assert writes[0][..|p|] == p && PieceLen(s, writes[0]) == |p|;
    var (b, s1) := EncodePieces(AfterRecord(s, p), tail);
    var rest := EncodeWrites(s1, writes[1..]).0;
    PiecesCons(s, writes[0], rest);
    more := b + rest;
    forall r: Receiver | r.V3?
      ensures |Drain(RecordStep, r, more).out| <= |Flatten(writes)| - |p|
    {
      assert forall i :: 0 <= i < |writes| - 1 ==> writes[1..][i] == writes[i + 1];
      RestIsBounded(r, mac, Absorb(mac, absorbed, p), tail, writes[1..]);
    }
  }

  /** While handshake records may still be skipped, the first data record is told from them by its
    * tag alone: nothing is lost if and only if its tag differs from the handshake MAC's. */
  lemma SkippingLosesNothing(mac: Mac, absorbed: seq<Byte>, ignore: seq<Byte>, writes: seq<seq<Byte>>)
    requires writes != [] && AllNonEmpty(writes)
    ensures var wire := EncodeWrites(SendV3(mac, absorbed), writes).0;
            var r := Drain(RecordStep, V3(mac, absorbed, Some(ignore)), wire);
            (r.ok && r.out == Flatten(writes)) <==>
            mac(ignore + FirstPiece(writes)) != mac(absorbed + FirstPiece(writes))
  {
    var wire := EncodeWrites(SendV3(mac, absorbed), writes).0;
    var p := FirstPiece(writes);
    var record := MacRecord(mac, absorbed, p);
    var more := FirstRecord(mac, absorbed, writes);
    var s := V3(mac, absorbed, Some(ignore));
    SkippingStep(mac, absorbed, ignore, p, more);
    StepMacRecord(mac, absorbed, p, more);
    DrainFrame(RecordStep, s, record, more);
    if mac(ignore + p) != mac(absorbed + p) {
      DrainFrame(RecordStep, V3(mac, absorbed, None), record, more);
      V3Synchronised(mac, absorbed, writes);
    } else {
      assert |Drain(RecordStep, s, wire).out| < |Flatten(writes)|;
    }
  }

  lemma SkippingStep(mac: Mac, absorbed: seq<Byte>, ignore: seq<Byte>, payload: seq<Byte>, rest: seq<Byte>)
    requires 4 + |payload| < 0x1_0000
    ensures RecordStep(V3(mac, absorbed, Some(ignore)), MacRecord(mac, absorbed, payload) + rest) ==
            if mac(ignore + payload) == mac(absorbed + payload)
            then Take(|MacRecord(mac, absorbed, payload)|, [], V3(mac, absorbed, Some(ignore + payload)))
            else RecordStep(V3(mac, absorbed, None), MacRecord(mac, absorbed, payload) + rest)
  {
    var body := mac(absorbed + payload) + payload;
    var frame := Header(|body|) + body;
    assert MacRecord(mac, absorbed, payload) == frame;
    HeaderFields(body, rest);
    assert frame[..3] == [0x17, 0x03, 0x03] && frame[5..9] == mac(absorbed + payload);
    assert frame[9..] == payload;
    StepMacRecord(mac, absorbed, payload, rest);
  }

  // ---- Version 2: the tag once, then the payload. ----

  function Front(tag: Option<seq<Byte>>): seq<Byte> {
    if tag.Some? then tag.value else []
  }

  lemma {:induction false} DrainPlainPieces(tag: Option<seq<Byte>>, payload: seq<Byte>, rest: seq<Byte>)
    requires ValidSender(SendV2(tag)) && payload != []
    ensures var b := EncodePieces(SendV2(tag), payload);
            && b.1 == SendV2(None)
            && Drain(RecordStep, V2, b.0 + rest) == Prepend(Front(tag) + payload, Drain(RecordStep, V2, rest))
    decreases |payload|
  {
    var s := SendV2(tag);
    var n := PieceLen(s, payload);
    var piece, more := payload[..n], payload[n..];
    var b := EncodePieces(SendV2(None), more).0;
    PiecesCons(s, payload, rest);
    StepPlainRecord(tag, piece, b + rest);
    DrainRecord(V2, PlainRecord(tag, piece), Front(tag) + piece, V2, b + rest);
    if more == [] {
      assert b + rest == rest && piece == payload;
    } else {
      DrainPlainPieces(None, more, rest);
      FrontSplit(tag, piece, more);
      PrependTwice(Front(tag) + piece, more, Drain(RecordStep, V2, rest));
    }
  }

  lemma FrontSplit(tag: Option<seq<Byte>>, a: seq<Byte>, b: seq<Byte>)
    ensures Front(None) + b == b && Front(tag) + a + b == Front(tag) + (a + b)
  {
  }

  lemma DrainPlainWrite(tag: Option<seq<Byte>>, payload: seq<Byte>, rest: seq<Byte>)
    requires ValidSender(SendV2(tag))
    ensures var b := EncodeWrite(SendV2(tag), payload);
            && b.1 == SendV2(None)
            && Drain(RecordStep, V2, b.0 + rest) == Prepend(Front(tag) + payload, Drain(RecordStep, V2, rest))
  {
    if payload == [] {
      StepPlainRecord(tag, [], rest);
      DrainRecord(V2, PlainRecord(tag, []), Front(tag) + [], V2, rest);
    } else {
      DrainPlainPieces(tag, payload, rest);
    }
  }

  /** For every list of writes, empty ones included, the receiver outputs the authentication tag
    * once, in front of the first write, and then exactly what was written. */
  lemma {:induction false} V2TagThenPayload(tag: Option<seq<Byte>>, writes: seq<seq<Byte>>)
    requires ValidSender(SendV2(tag))
    ensures Drain(RecordStep, V2, EncodeWrites(SendV2(tag), writes).0) ==
            Parse(V2, [], (if writes != [] then Front(tag) else []) + Flatten(writes), true)
    decreases |writes|
  {
    if writes != [] {
      var (b, s1) := EncodeWrite(SendV2(tag), writes[0]);
      DrainPlainWrite(tag, writes[0], EncodeWrites(s1, writes[1..]).0);
      V2TagThenPayload(None, writes[1..]);
      FrontSplit(tag, writes[0], Flatten(writes[1..]));
    }
  }

  /** Version 2, with the wire cut in any way. */
  lemma V2RoundTrip(tag: Option<seq<Byte>>, writes: seq<seq<Byte>>, chunks: seq<seq<Byte>>)
    requires ValidSender(SendV2(tag)) && Flatten(chunks) == EncodeWrites(SendV2(tag), writes).0
    ensures FeedAll(RecordStep, Fresh(V2), chunks) ==
            Parse(V2, [], (if writes != [] then Front(tag) else []) + Flatten(writes), true)
  {
    RecordIncremental();
    FreshChunking(RecordStep, V2, chunks);
    V2TagThenPayload(tag, writes);
  }
}
