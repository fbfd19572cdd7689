/** From the mux writer to the mux reader: which packets arrive through Vision blocks. */
module MuxTransparency {
  import opened Bytes
  import opened Framing
  import opened VisionUnpadding
  import opened VisionStream
  import opened VisionUplink
  import opened VisionTransparency
  import opened Xudp
  import opened VlessMux

  lemma {:induction false} DrainMuxBlocks(s: VState, frames: seq<seq<Byte>>)
    requires s.mode == Padding && forall f :: f in frames ==> |f| < 0x1_0000
    ensures Drain(VisionStep, s, MuxBlocks(frames)) == Parse(s, [], Flatten(frames), true)
    decreases |frames|
  {
    hide XtlsPadding;
    if frames == [] {
      DrainWaits(VisionStep, s, [], []);
    } else {
      BlockReadsBack(s, frames[0], 0, true);
      var k :| FitsBlock(k) && k.command == 0 && k.content == frames[0] &&
          XtlsPadding(frames[0], 0, None, true) == EncodeBlock(k);
      DrainOneBlock(s, k, MuxBlocks(frames[1..]));
      DrainMuxBlocks(s, frames[1..]);
    }
  }

  /** Padding is transparent to frames that fit a block. */
  lemma {:induction false} PlainMuxWire(uuid: Option<seq<Byte>>, frames: seq<seq<Byte>>)
    requires ValidUuid(uuid) && (uuid.Some? ==> forall f :: f in frames ==> |f| < 0x1_0000)
    ensures Plain(uuid, MuxWire(uuid, frames)) == Flatten(frames)
  {
    if uuid.Some? && frames != [] {
      var s := Start(uuid.value);
      DrainPrefix(uuid.value);
      MoreDrained(Start(uuid.value), uuid.value, s.(mode := Padding), [], MuxBlocks(frames));
      DrainMuxBlocks(s.(mode := Padding), frames);
    }
  }

  function FrameLen(item: Item, first: bool): nat
    requires Encodable(item)
  {
    9 + |EncodeTarget(item.target).value| + (if first then 8 else 0) + |item.payload|
  }

  lemma FrameLenIs(item: Item, first: bool)
    requires Encodable(item)
    ensures |EncodeItem(item, first)| == FrameLen(item, first)
  {
  }

  ghost predicate FramesFit(items: seq<Item>) {
    forall i :: 0 <= i < |items| ==> Encodable(items[i]) && FrameLen(items[i], i == 0) < 0x1_0000
  }

  lemma {:induction false} FrameLens(items: seq<Item>, first: bool)
    requires forall i :: i in items ==> Encodable(i)
    ensures forall i :: 0 <= i < |items| ==> |EncodeItems(items, first)[i]| == FrameLen(items[i], first && i == 0)
  {
    if items != [] {
      FrameLens(items[1..], false);
      FrameLenIs(items[0], first);
      var frames := EncodeItems(items, first);
      forall i | 0 <= i < |items|
        ensures |frames[i]| == FrameLen(items[i], first && i == 0)
      {
        if i > 0 {
          assert frames[i] == EncodeItems(items[1..], false)[i - 1] && items[i] == items[1..][i - 1];
        }
      }
    }
  }

  /** End to end: the accepted requests, written with or without Vision and cut in any way, are
    * read as exactly those packets, in order, with nothing left in the buffer. */
  lemma {:induction false} MuxRoundTrip(uuid: Option<seq<Byte>>, items: seq<Item>, chunks: seq<seq<Byte>>)
    requires ValidUuid(uuid) && (forall i :: i in items ==> Encodable(i)) && (uuid.Some? ==> FramesFit(items))
    requires Flatten(chunks) == MuxWire(uuid, EncodeItems(items, true))
    ensures Drain(XudpStep, (), Plain(uuid, Flatten(chunks))) == Parse((), [], Delivered(items), true)
  {
    FrameLens(items, true);
    PlainMuxWire(uuid, EncodeItems(items, true));
    DrainItems(items, true);
  }

  // ---- Keeping in step. ----

  /** What has been written for the first `i` packets. */
  function Frames(items: seq<Item>, i: nat): seq<seq<Byte>>
    requires i <= |items| && forall x :: x in items ==> Encodable(x)
  {
    EncodeItems(items[..i], true)
  }

  function Padded(uuid: seq<Byte>): VState {
    Start(uuid).(mode := Padding)
  }

  lemma FramesNext(items: seq<Item>, i: nat)
    requires i < |items| && forall x :: x in items ==> Encodable(x)
    ensures Frames(items, i + 1) == Frames(items, i) + [EncodeItem(items[i], i == 0)]
  {
    assert items[..i + 1] == items[..i] + [items[i]];
    EncodeSnoc(items[..i], items[i], true);
  }

  /** After `i` packets the decoder has output their frames, holds nothing back and still pads. */
  ghost predicate InStepAt(uuid: seq<Byte>, items: seq<Item>, i: nat)
    requires i <= |items| && forall x :: x in items ==> Encodable(x)
  {
    Drain(VisionStep, Padded(uuid), MuxBlocks(Frames(items, i))) ==
    Parse(Padded(uuid), [], Flatten(Frames(items, i)), true)
  }

  /** One more packet, behind packets the decoder has kept up with. */
  lemma NextFrame(uuid: seq<Byte>, items: seq<Item>, i: nat)
    requires i < |items| && (forall x :: x in items ==> Encodable(x)) && InStepAt(uuid, items, i)
    ensures var block := XtlsPadding(EncodeItem(items[i], i == 0), 0, None, true);
            && MuxBlocks(Frames(items, i + 1)) == MuxBlocks(Frames(items, i)) + block
            && Drain(VisionStep, Padded(uuid), MuxBlocks(Frames(items, i + 1))) ==
               Prepend(Flatten(Frames(items, i)), Drain(VisionStep, Padded(uuid), block))
    ensures Flatten(Frames(items, i + 1)) == Flatten(Frames(items, i)) + EncodeItem(items[i], i == 0)
  {
    hide XtlsPadding, EncodeItem, VisionStep, Frames;
    var frames, frame := Frames(items, i), EncodeItem(items[i], i == 0);
    FramesNext(items, i);
    MuxBlocksSnoc(frames, frame);
    FlattenSnoc(frames, frame);
    MoreDrained(Padded(uuid), MuxBlocks(frames), Padded(uuid), Flatten(frames), XtlsPadding(frame, 0, None, true));
  }

  lemma InStepNext(uuid: seq<Byte>, items: seq<Item>, i: nat)
    requires i < |items| && (forall x :: x in items ==> Encodable(x)) && InStepAt(uuid, items, i)
    ensures InStepAt(uuid, items, i + 1) <==> FrameLen(items[i], i == 0) < 0x1_0000
  {
    NextFrame(uuid, items, i);
    FrameLenIs(items[i], i == 0);
    hide XtlsPadding, EncodeItem, VisionStep, Frames, MuxBlocks, FrameLen;
    var frame := EncodeItem(items[i], i == 0);
    BlockInSync(Padded(uuid), frame, 0);
    var r := Drain(VisionStep, Padded(uuid), XtlsPadding(frame, 0, None, true));
    SameBehind(Flatten(Frames(items, i)), r, Padded(uuid), frame);
  }

  lemma InStepFirst(uuid: seq<Byte>, items: seq<Item>)
    requires forall x :: x in items ==> Encodable(x)
    ensures InStepAt(uuid, items, 0)
  {
    DrainWaits(VisionStep, Padded(uuid), [], []);
  }

  /** The reader keeps in step after every packet if and only if every frame fits its block. */
  lemma {:induction false} MuxInStepExactly(uuid: seq<Byte>, items: seq<Item>, n: nat)
    requires n <= |items| && forall x :: x in items ==> Encodable(x)
    ensures (forall i :: 0 <= i <= n ==> InStepAt(uuid, items, i)) <==> FramesFit(items[..n])
    decreases n
  {
    hide InStepAt, FrameLen, Encodable;
    if n == 0 {
      InStepFirst(uuid, items);
    } else {
      MuxInStepExactly(uuid, items, n - 1);
      assert items[..n] == items[..n - 1] + [items[n - 1]];
      if FramesFit(items[..n - 1]) {
        InStepNext(uuid, items, n - 1);
      }
    }
  }

  // ---- How many bytes a packet takes. ----

  function TargetLen(t: Target): nat {
    if EncodeTarget(t).Some? then |EncodeTarget(t).value| else 0
  }

  /** A frame that yields a packet holds its target and its payload. */
  lemma StepSize(b: seq<Byte>, t: Target, payload: seq<Byte>)
    requires XudpStep((), b).Take? && XudpStep((), b).out == [Packet(Some(t), payload)]
    ensures var m := GetU16(b, 0);
            && m >= 5 + TargetLen(t) && XudpStep((), b).n == m + 4 + |payload| && |payload| == GetU16(b, 2 + m)
            && b[5] % 2 == 1 && b[6] == 2 && DecodeTarget(b[7..2 + m]).Some? && DecodeTarget(b[7..2 + m]).value.0 == t
  {
    var m := GetU16(b, 0);
    var meta := b[2..2 + m];
    assert meta[5..] == b[7..2 + m];
    DecodedTarget(meta[5..]);
  }

  lemma {:induction false} PacketSize(b: seq<Byte>, t: Target, payload: seq<Byte>)
    requires Packet(Some(t), payload) in Drain(XudpStep, (), b).out
    ensures |b| >= 9 + TargetLen(t) + |payload|
    decreases |b|
  {
    var s := XudpStep((), b);
    if s.out == [Packet(Some(t), payload)] {
      StepSize(b, t, payload);
    } else {
      assert Packet(Some(t), payload) !in s.out;
      PacketSize(b[s.n..], t, payload);
    }
  }

  /** Bytes that yield one packet: either their first frame is its frame, or that one stands behind
    * the first frame. */
  lemma FirstFrame(b: seq<Byte>, t: Target, payload: seq<Byte>)
    requires Drain(XudpStep, (), b).out == [Packet(Some(t), payload)]
    ensures |b| >= 4 && GetU16(b, 0) >= 4 && |b| >= GetU16(b, 0) + 4 + |payload|
    ensures (XudpStep((), b).Take? && XudpStep((), b).out == [Packet(Some(t), payload)]) ||
            |b| >= GetU16(b, 0) + 13 + TargetLen(t) + |payload|
  {
    var s := XudpStep((), b);
    var rest := Drain(XudpStep, (), b[s.n..]).out;
    assert s.out + rest == [Packet(Some(t), payload)];
    if s.out == [] {
      assert Packet(Some(t), payload) in rest;
      PacketSize(b[s.n..], t, payload);
    } else {
      assert s.out[0] == (s.out + rest)[0];
      StepSize(b, t, payload);
    }
  }

  // ---- One packet in one block. ----

  /** Where the fields of a frame stand. */
  lemma FrameLayout(item: Item, first: bool)
    requires Encodable(item)
    ensures var f, n := EncodeItem(item, first), TargetLen(item.target);
            && 4 <= n <= 259 && |f| == 9 + n + (if first then 8 else 0) + |item.payload|
            && GetU16(f, 0) == 5 + n + (if first then 8 else 0)
            && f[2] == 0 && f[3] == 0 && f[4] == (if first then 1 else 2) && f[5] == 1 && f[6] == 2
            && (first ==> forall i :: 7 + n <= i < 15 + n ==> f[i] == 0)
  {
    var n := TargetLen(item.target);
    var meta := Metadata(EncodeTarget(item.target).value, first);
    var f := EncodeItem(item, first);
    assert f == Frame(meta, item.payload);
    assert |meta| == 5 + n + if first then 8 else 0;
    assert f[..2] == U16(|meta|) && GetU16(f, 0) == GetU16(U16(|meta|), 0);
    assert f[2..2 + |meta|] == meta;
    forall i | first && 7 + n <= i < 15 + n
      ensures f[i] == 0
    {
      assert f[i] == meta[i - 2];
    }
    assert f[2] == meta[0] && f[3] == meta[1] && f[4] == meta[2] && f[5] == meta[3] && f[6] == meta[4];
  }

  /** The reader's packets when a block with this frame is all it gets. */
  function Got(s: VState, frame: seq<Byte>): seq<Packet> {
    Drain(XudpStep, (), Drain(VisionStep, s, XtlsPadding(frame, 0, None, true)).out).out
  }

  /** An overlong frame whose first byte behind the cut could be a command does not yield its
    * packet: too few bytes are left of it, whatever they are read as. */
  lemma CutFrame(s: VState, item: Item, first: bool)
    requires s.mode == Padding && Encodable(item) && FrameLen(item, first) >= 0x1_0000
    requires !Passes(EncodeItem(item, first))
    ensures Got(s, EncodeItem(item, first)) != [Packet(Some(item.target), item.payload)]
  {
    hide XtlsPadding, XudpStep, EncodeItem, Frame;
    var f, p := EncodeItem(item, first), [Packet(Some(item.target), item.payload)];
    FrameLayout(item, first);
    var k := |f| - 0x1_0000;
    assert |f| % 0x1_0000 == k;
    OverlongBlock(s, f, 0);
    var x := Drain(VisionStep, s, f[k..]).out;
    HeaderLost(s, f[k..]);
    var r := f[..k] + x;
    assert k >= 2 ==> GetU16(r, 0) == GetU16(f, 0);
    if Drain(XudpStep, (), r).out == p {
      FirstFrame(r, item.target, item.payload);
      assert item.payload != [];
      PacketSize(r, item.target, item.payload);
      if k == 1 {
        CutAtOne(s, f);
        assert false;
      } else if k == 0 {
        assert r == x && f[0..] == f;
        CutAtZero(s, item, x);
        assert false;
      } else {
        assert false;
      }
    }
  }

  /** A frame cut behind its first byte: the second one is read as a command, a flag and the option
    * as 257 bytes of padding. */
  lemma CutAtOne(s: VState, f: seq<Byte>)
    requires s.mode == Padding && |f| == 0x1_0001 && f[1] <= 2
    requires f[2] == 0 && f[3] == 0 && f[4] == 1 && f[5] == 1
    ensures |Drain(VisionStep, s, f[1..]).out| + 262 <= 0x1_0000
  {
    var b := f[1..];
    assert GetU16(b, 1) == 0 && GetU16(b, 3) == 257;
    OutputBounded(VisionStep(s, b).next, b[262..]);
  }

  lemma CutAtZero(s: VState, item: Item, x: seq<Byte>)
    requires s.mode == Padding && Encodable(item)
    requires FrameLen(item, true) == 0x1_0000 && EncodeItem(item, true)[0] <= 2
    requires x == Drain(VisionStep, s, EncodeItem(item, true)).out
    ensures Drain(XudpStep, (), x).out != [Packet(Some(item.target), item.payload)]
  {
    hide XudpStep, EncodeItem;
    var f, n := EncodeItem(item, true), TargetLen(item.target);
    FrameLayout(item, true);
    FrameLenIs(item, true);
    FirstBlockOf(s, f, x);
    assert f[1] == 0 ==> GetU16(x, 0) >= 512;
    if Drain(XudpStep, (), x).out == [Packet(Some(item.target), item.payload)] {
      FirstFrame(x, item.target, item.payload);
      if f[1] == 0 {
        assert false;
      } else {
        ReadAsHeader(f, x);
        LengthMisread(item, f);
        if XudpStep((), x).Take? && XudpStep((), x).out == [Packet(Some(item.target), item.payload)] {
          StepSize(x, item.target, item.payload);
          assert false;
        } else {
          assert false;
        }
      }
    }
  }

  /** Flag, option and address type are read as the length of the metadata. */
  lemma ReadAsHeader(f: seq<Byte>, x: seq<Byte>)
    requires |f| == 0x1_0000 && f[1] > 0 && f[5] == 1 && f[6] == 2
    requires |x| >= Page(f[1]) && forall i :: 0 <= i < Page(f[1]) ==> x[i] == f[5 + i]
    ensures GetU16(x, 0) == 258
    ensures f[1] > 1 ==> GetU16(x, 260) == GetU16(f, 265)
  {
  }

  function Page(x: Byte): nat {
    var n: int := x;
    n * 256
  }

  /** What the decoder makes of a frame of 65536 bytes that is read from its first byte: it drops
    * five bytes and one of padding. */
  lemma FirstBlockOf(s: VState, f: seq<Byte>, x: seq<Byte>)
    requires s.mode == Padding && |f| == 0x1_0000 && f[0] <= 2
    requires f[2] == 0 && f[3] == 0 && f[4] == 1
    requires x == Drain(VisionStep, s, f).out
    ensures |x| + 6 <= |f|
    ensures |x| >= Page(f[1]) && forall i :: 0 <= i < Page(f[1]) ==> x[i] == f[5 + i]
    ensures f[1] == 0 && f[0] != 0 ==> x == f[6..]
  {
    var len := Page(f[1]);
    assert GetU16(f, 1) == len && GetU16(f, 3) == 1;
    var t := VisionStep(s, f);
    OutputBounded(t.next, f[6 + len..]);
    var y := Drain(VisionStep, t.next, f[6 + len..]).out;
    assert x == f[5..5 + len] + y;
    if f[0] != 0 {
      DrainRaw(t.next, f[6 + len..]);
    }
  }

  /** Read five bytes too early, the payload's length is not its length. */
  lemma LengthMisread(item: Item, f: seq<Byte>)
    requires Encodable(item) && f == EncodeItem(item, true) && |f| == 0x1_0000 && TargetLen(item.target) >= 251
    ensures GetU16(f, 265) != |item.payload|
  {
    FrameLayout(item, true);
    hide EncodeItem;
    var n := TargetLen(item.target);
    if n <= 258 {
      assert f[265] == 0;
    } else {
      assert f[266] == 0;
    }
  }

  /** A packet in a block, exactly: it arrives if and only if its frame passes, that is, fits the
    * block or has no command behind the cut. */
  lemma PacketArrives(s: VState, item: Item, first: bool)
    requires s.mode == Padding && Encodable(item)
    ensures Got(s, EncodeItem(item, first)) == Delivered([item]) <==> Passes(EncodeItem(item, first))
  {
    FrameLenIs(item, first);
    hide XtlsPadding, EncodeItem, FrameLen;
    var f := EncodeItem(item, first);
    DeliveredOne(item);
    BlockOutput(s, f, 0);
    if Passes(f) {
      OneFrame(item, first);
    } else {
      FrameLayout(item, first);
      CutFrame(s, item, first);
    }
  }

  /** A frame cut within the five bytes behind its length never passes: they are zero, one or two. */
  lemma CutInHeader(item: Item, first: bool)
    requires Encodable(item) && 0x1_0002 <= FrameLen(item, first) <= 0x1_0006
    ensures !Passes(EncodeItem(item, first))
  {
    FrameLayout(item, first);
    FrameLenIs(item, first);
    hide EncodeItem;
  }

  const LOST := 65517

  /** The limit is needed: 65517 bytes, sent first to an IPv4 address, can be encoded and are not
    * read. */
  lemma PacketIsLost(s: VState, octets: seq<Byte>, port: nat, payload: seq<Byte>)
    requires s.mode == Padding && |octets| == 4 && port < 0x1_0000 && |payload| == LOST
    ensures var item := Item(Target(V4(octets), port), payload);
            Encodable(item) && Got(s, EncodeItem(item, true)) != Delivered([item])
  {
    var item := Item(Target(V4(octets), port), payload);
    assert FrameLen(item, true) == 0x1_0005;
    hide EncodeItem, Drain, Passes;
    CutInHeader(item, true);
    PacketArrives(s, item, true);
  }

  lemma OneFrame(item: Item, first: bool)
    requires Encodable(item)
    ensures Drain(XudpStep, (), EncodeItem(item, first)) == Parse((), [], Delivered([item]), true)
  {
    StepItem(item, first, []);
    hide EncodeItem, XudpStep;
    var f := EncodeItem(item, first);
    assert f + [] == f;
    DrainFrame(XudpStep, (), f, []);
    NothingToDrain();
    assert Delivered([item]) + [] == Delivered([item]);
  }

  lemma NothingToDrain()
    ensures Drain(XudpStep, (), []) == Parse((), [], [], true)
  {
  }

  // ---- Whole lists of packets. ----

  /** After `i` packets the reader has returned exactly those and its buffer is empty. */
  ghost predicate ReadAt(uuid: seq<Byte>, items: seq<Item>, i: nat)
    requires i <= |items| && forall x :: x in items ==> Encodable(x)
  {
    Drain(XudpStep, (), Plain(Some(uuid), MuxWire(Some(uuid), Frames(items, i)))) ==
    Parse((), [], Delivered(items[..i]), true)
  }

  /** The decoder has output the frames but has given up on padding. */
  ghost predicate GaveUpAt(uuid: seq<Byte>, items: seq<Item>, i: nat)
    requires i <= |items| && forall x :: x in items ==> Encodable(x)
  {
    Drain(VisionStep, Padded(uuid), MuxBlocks(Frames(items, i))) ==
    Parse(Padded(uuid).(mode := Raw), [], Flatten(Frames(items, i)), true)
  }

  lemma PlainPadded(uuid: seq<Byte>, frames: seq<seq<Byte>>)
    requires |uuid| == UUID_LEN
    ensures Plain(Some(uuid), MuxWire(Some(uuid), frames)) == Drain(VisionStep, Padded(uuid), MuxBlocks(frames)).out
  {
    if frames != [] {
      hide VisionStep, MuxBlocks;
      DrainPrefix(uuid);
      MoreDrained(Start(uuid), uuid, Padded(uuid), [], MuxBlocks(frames));
      PrependNil(Drain(VisionStep, Padded(uuid), MuxBlocks(frames)));
    }
  }

  lemma {:induction false} DeliveredSnoc(items: seq<Item>, item: Item)
    ensures Delivered(items + [item]) == Delivered(items) + Delivered([item])
  {
    if items == [] {
      assert [] + [item] == [item];
    } else {
      assert (items + [item])[1..] == items[1..] + [item];
      DeliveredSnoc(items[1..], item);
      DeliveredCons(items);
      DeliveredCons(items + [item]);
      Assoc(Delivered([items[0]]), Delivered(items[1..]), Delivered([item]));
    }
  }

  /** What the frames of the first `i` packets, followed by anything, are read as. */
  lemma {:induction false} ReadBehind(items: seq<Item>, i: nat, more: seq<Byte>)
    requires i < |items| && forall x :: x in items ==> Encodable(x)
    ensures Drain(XudpStep, (), Flatten(Frames(items, i)) + more) ==
            Prepend(Delivered(items[..i]), Drain(XudpStep, (), more))
    ensures Delivered(items[..i + 1]) == Delivered(items[..i]) + Delivered([items[i]])
  {
    hide Delivered;
    DrainItems(items[..i], true);
    XudpIncremental();
    DrainAppend(XudpStep, (), Flatten(Frames(items, i)), more);
    assert [] + more == more;
    assert items[..i + 1] == items[..i] + [items[i]];
    DeliveredSnoc(items[..i], items[i]);
  }

  lemma SamePackets(a: seq<Packet>, x: Parse<(), Packet>, more: seq<Packet>)
    ensures Prepend(a, x) == Parse((), [], a + more, true) <==> x == Parse((), [], more, true)
  {
    assert (a + x.out)[|a|..] == x.out && (a + more)[|a|..] == more;
  }

  lemma InStepReads(uuid: seq<Byte>, items: seq<Item>, i: nat)
    requires |uuid| == UUID_LEN && i <= |items| && (forall x :: x in items ==> Encodable(x)) && InStepAt(uuid, items, i)
    ensures ReadAt(uuid, items, i)
  {
    hide VisionStep, XudpStep;
    PlainPadded(uuid, Frames(items, i));
    DrainItems(items[..i], true);
  }

  /** From a moment in step: the next packet is read exactly if its frame passes. */
  lemma ReadNext(uuid: seq<Byte>, items: seq<Item>, i: nat)
    requires |uuid| == UUID_LEN && i < |items| && (forall x :: x in items ==> Encodable(x)) && InStepAt(uuid, items, i)
    ensures ReadAt(uuid, items, i + 1) <==> Passes(EncodeItem(items[i], i == 0))
    ensures FrameLen(items[i], i == 0) >= 0x1_0000 && Passes(EncodeItem(items[i], i == 0)) ==>
              GaveUpAt(uuid, items, i + 1)
  {
    hide XtlsPadding, EncodeItem, VisionStep, XudpStep, Frames, MuxBlocks, MuxWire, Plain, Delivered, FrameLen, Passes;
    var frame := EncodeItem(items[i], i == 0);
    var r := Drain(VisionStep, Padded(uuid), XtlsPadding(frame, 0, None, true));
    NextFrame(uuid, items, i);
    PlainPadded(uuid, Frames(items, i + 1));
    ReadBehind(items, i, r.out);
    SamePackets(Delivered(items[..i]), Drain(XudpStep, (), r.out), Delivered([items[i]]));
    PacketArrives(Padded(uuid), items[i], i == 0);
    BlockOutput(Padded(uuid), frame, 0);
    OneFrame(items[i], i == 0);
    FrameLenIs(items[i], i == 0);
    if |frame| >= 0x1_0000 {
      OverlongOutput(Padded(uuid), frame);
    }
  }

  /** A block that reaches the reader with its header is not read as the packet in it. */
  lemma RawBlock(item: Item)
    requires Encodable(item)
    ensures Drain(XudpStep, (), XtlsPadding(EncodeItem(item, false), 0, None, true)) !=
            Parse((), [], Delivered([item]), true)
  {
    hide EncodeItem, XudpStep;
    var f, n := EncodeItem(item, false), TargetLen(item.target);
    FrameLayout(item, false);
    var b := XtlsPadding(f, 0, None, true);
    BlockAsFrame(f, b);
    hide XtlsPadding;
    DeliveredOne(item);
    if GetU16(b, 0) < 4 {
      TooShort(b);
    } else if Drain(XudpStep, (), b).out == [Packet(Some(item.target), item.payload)] {
      FirstFrame(b, item.target, item.payload);
      if XudpStep((), b).Take? && XudpStep((), b).out == [Packet(Some(item.target), item.payload)] {
        StepSize(b, item.target, item.payload);
        OtherTarget(item.target, b, 2 + GetU16(b, 0));
      }
    }
  }

  lemma TooShort(b: seq<Byte>)
    requires |b| >= 2 && GetU16(b, 0) < 4
    ensures !Drain(XudpStep, (), b).ok
  {
  }

  /** A block read as a frame: the high byte of its length is the length of the metadata. */
  lemma BlockAsFrame(f: seq<Byte>, b: seq<Byte>)
    requires |f| >= 13 && |f| < 0x1_0000 + 0x200 && b == XtlsPadding(f, 0, None, true)
    ensures |b| >= 5 + |f| && forall j :: 0 <= j < |f| ==> b[5 + j] == f[j]
    ensures GetU16(b, 0) == |f| / 256 % 256
    ensures GetU16(b, 0) >= 4 ==> 1024 <= |f| < 0x1_0000 && |b| == 5 + |f|
  {
    assert b[1..3] == U16(|f|);
    assert b[0] == 0 && b[1] == U16(|f|)[0];
  }

  /** Option and length of the frame would have to name another target. */
  lemma OtherTarget(t: Target, b: seq<Byte>, end: nat)
    requires 7 <= end <= |b| && DecodeTarget(b[7..end]).Some?
    requires |b| >= 12 && GetU16(b, 5) == 5 + TargetLen(t) && b[5] % 2 == 1 && b[6] == 2
    requires b[7] == 0 && b[8] == 0 && b[9] == 2 && b[10] == 1
    ensures DecodeTarget(b[7..end]).value.0 != t
  {
  }

  lemma GaveUpNext(uuid: seq<Byte>, items: seq<Item>, i: nat)
    requires |uuid| == UUID_LEN && 0 < i < |items| && forall x :: x in items ==> Encodable(x)
    requires GaveUpAt(uuid, items, i)
    ensures !ReadAt(uuid, items, i + 1)
  {
    hide XtlsPadding, EncodeItem, VisionStep, XudpStep, Frames, MuxBlocks, MuxWire, Plain, Delivered;
    var frame := EncodeItem(items[i], false);
    var b := XtlsPadding(frame, 0, None, true);
    FramesNext(items, i);
    MuxBlocksSnoc(Frames(items, i), frame);
    MoreDrained(Padded(uuid), MuxBlocks(Frames(items, i)), Padded(uuid).(mode := Raw), Flatten(Frames(items, i)), b);
    DrainRaw(Padded(uuid).(mode := Raw), b);
    PlainPadded(uuid, Frames(items, i + 1));
    ReadBehind(items, i, b);
    SamePackets(Delivered(items[..i]), Drain(XudpStep, (), b), Delivered([items[i]]));
    RawBlock(items[i]);
  }

  /** All frames but the last fit their blocks, and the last one passes. */
  ghost predicate ReadsFit(items: seq<Item>, n: nat)
    requires n <= |items| && forall x :: x in items ==> Encodable(x)
  {
    n > 0 ==> FramesFit(items[..n - 1]) && Passes(EncodeItem(items[n - 1], n == 1))
  }

  lemma StepReads(uuid: seq<Byte>, items: seq<Item>, n: nat)
    requires |uuid| == UUID_LEN && n <= |items| && (forall x :: x in items ==> Encodable(x)) && FramesFit(items[..n])
    ensures InStepAt(uuid, items, n) && forall i :: 0 <= i <= n ==> ReadAt(uuid, items, i)
  {
    MuxInStepExactly(uuid, items, n);
    hide InStepAt, ReadAt, FramesFit;
    forall i | 0 <= i <= n
      ensures ReadAt(uuid, items, i)
    {
      InStepReads(uuid, items, i);
    }
  }

  /** Mux transparency under Vision, exactly: at every moment the reader has returned exactly the
    * packets written, with nothing left in its buffer, if and only if every frame but the last fits
    * its block and the last one passes. */
  lemma {:induction false} MuxReadsExactly(uuid: seq<Byte>, items: seq<Item>, n: nat)
    requires |uuid| == UUID_LEN && n <= |items| && forall x :: x in items ==> Encodable(x)
    ensures (forall i :: 0 <= i <= n ==> ReadAt(uuid, items, i)) <==> ReadsFit(items, n)
    decreases n
  {
    hide InStepAt, ReadAt, GaveUpAt, Passes, EncodeItem, Encodable, FrameLen;
    if n == 0 {
      assert FramesFit(items[..0]);
      StepReads(uuid, items, 0);
    } else {
      MuxReadsExactly(uuid, items, n - 1);
      if FramesFit(items[..n - 1]) {
        StepReads(uuid, items, n - 1);
        ReadNext(uuid, items, n - 1);
      } else if ReadsFit(items, n - 1) {
        assert items[..n - 1] == items[..n - 2] + [items[n - 2]];
        StepReads(uuid, items, n - 2);
        ReadNext(uuid, items, n - 2);
        GaveUpNext(uuid, items, n - 1);
      }
    }
  }
}
