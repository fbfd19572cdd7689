/** The VLESS mux connection: XUDP frames carried in Vision blocks, written at one end and read
  * back by another. */
module VlessMux {
  import opened Bytes
  import opened Framing
  import opened VisionUnpadding
  import opened VisionStream
  import opened VisionUplink
  import opened VisionTransparency
  import opened Xudp

  predicate ValidUuid(uuid: Option<seq<Byte>>) {
    uuid.Some? ==> |uuid.value| == UUID_LEN
  }

  function MuxBlocks(frames: seq<seq<Byte>>): seq<Byte> {
    if frames == [] then [] else XtlsPadding(frames[0], 0, None, true) + MuxBlocks(frames[1..])
  }

  /** The bytes of a list of frames: as they are, or each in a command-0 block behind one UUID. */
  function MuxWire(uuid: Option<seq<Byte>>, frames: seq<seq<Byte>>): seq<Byte> {
    if uuid == None then Flatten(frames)
    else if frames == [] then []
    else uuid.value + MuxBlocks(frames)
  }

  lemma {:induction false} MuxBlocksSnoc(frames: seq<seq<Byte>>, frame: seq<Byte>)
    ensures MuxBlocks(frames + [frame]) == MuxBlocks(frames) + XtlsPadding(frame, 0, None, true)
  {
    hide XtlsPadding;
    if frames == [] {
      assert [frame][1..] == [];
    } else {
      assert (frames + [frame])[1..] == frames[1..] + [frame];
      MuxBlocksSnoc(frames[1..], frame);
    }
  }

  lemma MuxWireSnoc(uuid: Option<seq<Byte>>, frames: seq<seq<Byte>>, frame: seq<Byte>)
    ensures MuxWire(uuid, frames + [frame]) ==
            MuxWire(uuid, frames) +
            if uuid == None then frame else XtlsPadding(frame, 0, if frames == [] then uuid else None, true)
  {
    FlattenSnoc(frames, frame);
    MuxBlocksSnoc(frames, frame);
    if uuid.Some? {
      UuidInFront(uuid.value, frame);
      Assoc(uuid.value, MuxBlocks(frames), XtlsPadding(frame, 0, None, true));
    }
  }

  /** The items that `encode_xudp_packet` accepts. */
  function Accepted(items: seq<Item>): (r: seq<Item>)
    requires forall i :: i in items ==> ValidTarget(i.target)
    ensures forall i :: i in r ==> Encodable(i)
  {
    if items == [] then [] else (if Encodable(items[0]) then [items[0]] else []) + Accepted(items[1..])
  }

  lemma {:induction false} AcceptedSnoc(items: seq<Item>, item: Item)
    requires forall i :: i in items + [item] ==> ValidTarget(i.target)
    ensures Accepted(items + [item]) == Accepted(items) + if Encodable(item) then [item] else []
  {
    if items == [] {
      assert [item][1..] == [];
    } else {
      assert (items + [item])[1..] == items[1..] + [item];
      AcceptedSnoc(items[1..], item);
    }
  }

  lemma {:induction false} EncodeSnoc(items: seq<Item>, item: Item, first: bool)
    requires forall i :: i in items + [item] ==> Encodable(i)
    ensures EncodeItems(items + [item], first) == EncodeItems(items, first) + [EncodeItem(item, first && items == [])]
  {
    if items == [] {
      assert [item][1..] == [];
    } else {
      assert (items + [item])[1..] == items[1..] + [item];
      EncodeSnoc(items[1..], item, false);
    }
  }

  /** `VlessMuxWriter`; `wire` is what its stream has been given. */
  class MuxWriter {
    const visionUuid: Option<seq<Byte>>
    var visionUuidPending: bool
    var firstPacket: bool
    var wire: seq<Byte>
    ghost var accepted: seq<Item>

    ghost predicate Valid()
      reads this
    {
      && ValidUuid(visionUuid)
      && (forall i :: i in accepted ==> Encodable(i))
      && firstPacket == (accepted == [])
      && visionUuidPending == (visionUuid.Some? && accepted == [])
      && wire == MuxWire(visionUuid, EncodeItems(accepted, true))
    }

    constructor (uuid: Option<seq<Byte>>)
      requires ValidUuid(uuid)
      ensures Valid() && visionUuid == uuid && accepted == []
    {
      visionUuid, visionUuidPending, firstPacket, wire, accepted := uuid, uuid.Some?, true, [], [];
    }

    method WriteFrame(frame: seq<Byte>)
      modifies this`wire, this`visionUuidPending
      ensures wire == old(wire) +
              if visionUuid == None then frame
              else XtlsPadding(frame, 0, if old(visionUuidPending) then visionUuid else None, true)
      ensures |wire| == |old(wire)| +
              if visionUuid == None then |frame|
              else (if old(visionUuidPending) then |visionUuid.value| else 0) + PaddedLen(|frame|)
      ensures visionUuidPending == (old(visionUuidPending) && visionUuid == None)
    {
      if visionUuid.Some? {
        var uuid := if visionUuidPending then visionUuid else None;
        visionUuidPending := false;
        var block := BuildBlock(frame, 0, uuid, true);
        wire := wire + block;
      } else {
        wire := wire + frame;
      }
    }

    /** Encoding and writing one request.  A refused packet writes nothing and does not use up the
      * flag that marks the first frame. */
    method Send(item: Item) returns (ok: bool)
      requires Valid() && ValidTarget(item.target)
      modifies this
      ensures Valid() && ok == Encodable(item)
      ensures accepted == old(accepted) + if ok then [item] else []
    {
      hide XtlsPadding;
      var frame := BuildXudp(item.target, item.payload, firstPacket);
      if frame == None {
        return false;
      }
      EncodeSnoc(accepted, item, true);
      MuxWireSnoc(visionUuid, EncodeItems(accepted, true), frame.value);
      firstPacket := false;
      WriteFrame(frame.value);
      accepted := accepted + [item];
      return true;
    }
  }

  /** Everything written for a list of requests. */
  method SendAll(uuid: Option<seq<Byte>>, items: seq<Item>) returns (wire: seq<Byte>)
    requires ValidUuid(uuid) && forall i :: i in items ==> ValidTarget(i.target)
    ensures wire == MuxWire(uuid, EncodeItems(Accepted(items), true))
  {
    hide MuxWire, EncodeItems, Encodable, ValidTarget;
    var writer := new MuxWriter(uuid);
    for i := 0 to |items|
      invariant fresh(writer) && writer.Valid() && writer.visionUuid == uuid
      invariant writer.accepted == Accepted(items[..i])
    {
      assert items[..i + 1] == items[..i] + [items[i]];
      AcceptedSnoc(items[..i], items[i]);
      var _ := writer.Send(items[i]);
    }
    assert items[..|items|] == items;
    return writer.wire;
  }

  // ---- Reading. ----

  /** What the reader's buffer has been given once `b` has arrived. */
  function Plain(uuid: Option<seq<Byte>>, b: seq<Byte>): seq<Byte> {
    if uuid == None then b else Drain(VisionStep, Start(uuid.value), b).out
  }

  /** What arrives later only adds to it. */
  lemma PlainGrows(uuid: Option<seq<Byte>>, b: seq<Byte>, c: seq<Byte>) returns (more: seq<Byte>)
    ensures Plain(uuid, b + c) == Plain(uuid, b) + more
  {
    more := c;
    if uuid.Some? {
      VisionIncremental();
      var r := Drain(VisionStep, Start(uuid.value), b);
      DrainAppend(VisionStep, Start(uuid.value), b, c);
      more := if r.ok then Drain(VisionStep, r.state, r.pending + c).out else [];
    }
  }

  /** `read_packet` over the connection's reads: unpad, append, then take every packet there is.
    * The first malformed frame ends it.  The packets are those that one-shot parsing of the
    * unpadded stream gives. */
  method ReadPackets(uuid: Option<seq<Byte>>, chunks: seq<seq<Byte>>) returns (packets: seq<Packet>, failed: bool)
    requires ValidUuid(uuid)
    ensures var r := Drain(XudpStep, (), Plain(uuid, Flatten(chunks))); packets == r.out && failed == !r.ok
  {
    hide Drain, VisionStep, XudpStep, Flatten;
    var reader := new XudpReader();
    var downlink: Unpadder? := null;
    if uuid.Some? {
      downlink := new Unpadder(uuid.value);
    }
    packets, failed := [], false;
    NothingRead(uuid);
    for i := 0 to |chunks|
      invariant fresh(reader) && (downlink != null ==> fresh(downlink)) && !failed
      invariant Unpads(uuid, chunks[..i], downlink)
      invariant Drain(XudpStep, (), Plain(uuid, Flatten(chunks[..i]))) == Parse((), reader.buffer, packets, true)
    {
      var text := chunks[i];
      OneMore(uuid, chunks, i);
      if downlink != null {
        var pieces, _ := downlink.Push(chunks[i]);
        text := Flatten(pieces);
      }
      assert Plain(uuid, Flatten(chunks[..i + 1])) == Plain(uuid, Flatten(chunks[..i])) + text;
      MoreText(Plain(uuid, Flatten(chunks[..i])), reader.buffer, packets, text);
      reader.buffer := reader.buffer + text;
      var got;
      got, failed := TakeAll(reader);
      PrependTwice(packets, got, Parse((), reader.buffer, [], !failed));
      packets := packets + got;
      if failed {
        FailedEarly(uuid, chunks, i + 1);
        return;
      }
    }
    assert chunks[..|chunks|] == chunks;
  }

  lemma NothingRead(uuid: Option<seq<Byte>>)
    requires ValidUuid(uuid)
    ensures Drain(XudpStep, (), Plain(uuid, Flatten([]))) == Parse((), [], [], true)
    ensures uuid.Some? ==> Drain(VisionStep, Start(uuid.value), Flatten([])) == Parse(Start(uuid.value), [], [], true)
  {
  }

  ghost predicate Unpads(uuid: Option<seq<Byte>>, chunks: seq<seq<Byte>>, downlink: Unpadder?)
    reads downlink
  {
    && (downlink == null <==> uuid == None)
    && (downlink != null ==>
          && downlink.Valid()
          && var r := Drain(VisionStep, Start(uuid.value), Flatten(chunks));
             r.ok && r.state == downlink.State() && r.pending == downlink.pending)
  }

  lemma OneMore(uuid: Option<seq<Byte>>, chunks: seq<seq<Byte>>, i: nat)
    requires i < |chunks|
    ensures uuid == None ==> Flatten(chunks[..i + 1]) == Flatten(chunks[..i]) + chunks[i]
    ensures uuid.Some? ==>
              var r := Drain(VisionStep, Start(uuid.value), Flatten(chunks[..i]));
              && Drain(VisionStep, Start(uuid.value), Flatten(chunks[..i + 1])) ==
                 Prepend(r.out, Drain(VisionStep, r.state, r.pending + chunks[i]))
              && Drain(VisionStep, Start(uuid.value), Flatten(chunks[..i + 1])).ok
  {
    if uuid.Some? {
      OneMoreChunk(uuid.value, chunks, i);
    } else {
      assert chunks[..i + 1] == chunks[..i] + [chunks[i]];
      FlattenSnoc(chunks[..i], chunks[i]);
    }
  }

  lemma {:induction false} MoreText(b: seq<Byte>, pending: seq<Byte>, packets: seq<Packet>, text: seq<Byte>)
    requires Drain(XudpStep, (), b) == Parse((), pending, packets, true)
    ensures Drain(XudpStep, (), b + text) == Prepend(packets, Drain(XudpStep, (), pending + text))
  {
    XudpIncremental();
    DrainAppend(XudpStep, (), b, text);
  }

  /** Bytes behind a malformed frame change nothing. */
  lemma {:induction false} FailedEarly(uuid: Option<seq<Byte>>, chunks: seq<seq<Byte>>, i: nat)
    requires i <= |chunks| && !Drain(XudpStep, (), Plain(uuid, Flatten(chunks[..i]))).ok
    ensures var r := Drain(XudpStep, (), Plain(uuid, Flatten(chunks)));
            !r.ok && r.out == Drain(XudpStep, (), Plain(uuid, Flatten(chunks[..i]))).out
  {
    assert chunks == chunks[..i] + chunks[i..];
    FlattenAppend(chunks[..i], chunks[i..]);
    var more := PlainGrows(uuid, Flatten(chunks[..i]), Flatten(chunks[i..]));
    XudpIncremental();
    DrainAppend(XudpStep, (), Plain(uuid, Flatten(chunks[..i])), more);
  }

  /** Takes packets until none is complete. */
  method TakeAll(reader: XudpReader) returns (got: seq<Packet>, failed: bool)
    modifies reader
    ensures Drain(XudpStep, (), old(reader.buffer)) == Parse((), reader.buffer, got, !failed)
  {
    hide Drain, XudpStep;
    ghost var goal := Drain(XudpStep, (), reader.buffer);
    got, failed := [], false;
    PrependNil(goal);
    while true
      invariant goal == Prepend(got, Drain(XudpStep, (), reader.buffer)) && !failed
      decreases |reader.buffer|
    {
      var r := reader.TakePacket();
      match r {
        case NoPacket =>
          assert got + [] == got;
          return;
        case Malformed =>
          assert got + [] == got;
          return got, true;
        case Got(p) =>
          PrependTwice(got, [p], Drain(XudpStep, (), reader.buffer));
          got := got + [p];
      }
    }
  }
}
