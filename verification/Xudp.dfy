/** XUDP frames inside the VLESS mux connection: address codecs, the frame encoder and the
  * buffer-consuming reader. */
module Xudp {
  import opened Bytes
  import opened Framing
  import opened Utf8

  /** A host is an address literal or a name; `Domain` stands for text that is neither kind of
    * literal. */
  datatype Host = V4(octets: seq<Byte>) | V6(octets: seq<Byte>) | Domain(name: seq<Byte>)

  datatype Target = Target(host: Host, port: nat)

  datatype Packet = Packet(target: Option<Target>, payload: seq<Byte>)

  predicate ValidHost(h: Host) {
    match h
    case V4(octets) => |octets| == 4
    case V6(octets) => |octets| == 16
    case Domain(name) => WellFormed(name)
  }

  predicate ValidTarget(t: Target) {
    ValidHost(t.host) && t.port < 0x1_0000
  }

  function EncodeAddress(h: Host): Option<seq<Byte>> {
    match h
    case V4(octets) => Some([1] + octets)
    case V6(octets) => Some([3] + octets)
    case Domain(name) => if |name| > 255 then None else Some([2, |name|] + name)
  }

  function DecodeAddress(b: seq<Byte>): (r: Option<(Host, nat)>)
    ensures r.Some? ==> 0 < r.value.1 <= |b|
  {
    if b == [] then None
    else if b[0] == 1 then
      if |b| < 5 then None else Some((V4(b[1..5]), 5))
    else if b[0] == 2 then
      if |b| < 2 then None
      else
        var n: nat := b[1];
        if |b| < 2 + n || !WellFormed(b[2..2 + n]) then None else Some((Domain(b[2..2 + n]), 2 + n))
    else if b[0] == 3 then
      if |b| < 17 then None else Some((V6(b[1..17]), 17))
    else None
  }

  function EncodeTarget(t: Target): Option<seq<Byte>> {
    match EncodeAddress(t.host)
    case None => None
    case Some(a) => Some(U16(t.port) + a)
  }

  function DecodeTarget(b: seq<Byte>): (r: Option<(Target, nat)>)
    ensures r.Some? ==> r.value.1 <= |b|
  {
    if |b| < 3 then None
    else match DecodeAddress(b[2..])
      case None => None
      case Some((h, n)) => Some((Target(h, GetU16(b, 0)), n + 2))
  }

  /** Decoding an encoded target, whatever follows it. */
  lemma TargetRoundTrip(t: Target, rest: seq<Byte>)
    requires ValidTarget(t) && EncodeTarget(t).Some?
    ensures DecodeTarget(EncodeTarget(t).value + rest) == Some((t, |EncodeTarget(t).value|))
  {
    var a := EncodeAddress(t.host).value;
    var b := EncodeTarget(t).value + rest;
    assert b[2..] == a + rest;
    assert GetU16(b, 0) == GetU16(U16(t.port), 0);
    match t.host
    case V4(octets) => assert (a + rest)[1..5] == octets;
    case V6(octets) => assert (a + rest)[1..17] == octets;
    case Domain(name) => assert (a + rest)[2..2 + |name|] == name;
  }

  /** Conversely, what decodes is valid and is exactly the encoding of what was decoded. */
  lemma DecodedTarget(b: seq<Byte>)
    requires DecodeTarget(b).Some?
    ensures var (t, n) := DecodeTarget(b).value; ValidTarget(t) && EncodeTarget(t) == Some(b[..n])
  {
    var (t, n) := DecodeTarget(b).value;
    var (h, m) := DecodeAddress(b[2..]).value;
    var a := b[2..];
    assert EncodeAddress(h) == Some(a[..m]) by {
      match h
      case V4(octets) => assert [1] + octets == a[..5];
      case V6(octets) => assert [3] + octets == a[..17];
      case Domain(name) => assert [2, |name|] + name == a[..2 + |name|];
    }
    U16Get(b, 0);
    assert b[..2] + a[..m] == b[..n];
  }

  function Metadata(target: seq<Byte>, first: bool): seq<Byte> {
    [0, 0, if first then 1 else 2, 1, 2] + (target + if first then Zeros(8) else [])
  }

  function Frame(meta: seq<Byte>, payload: seq<Byte>): seq<Byte> {
    U16(|meta|) + meta + U16(|payload|) + payload
  }

  /** `encode_xudp_packet`. */
  function EncodeXudp(t: Target, payload: seq<Byte>, first: bool): Option<seq<Byte>> {
    if |payload| > 0xFFFF then None
    else match EncodeTarget(t)
      case None => None
      case Some(target) => Some(Frame(Metadata(target, first), payload))
  }

  /** `encode_xudp_packet` as the code builds it. */
  method BuildXudp(t: Target, payload: seq<Byte>, first: bool) returns (r: Option<seq<Byte>>)
    ensures r == EncodeXudp(t, payload, first)
  {
    if |payload| > 0xFFFF {
      return None;
    }
    var address := BuildAddress(t.host);
    if address == None {
      return None;
    }
    var meta := [0, 0];
    meta := meta + [if first then 1 else 2];
    meta := meta + [1, 2];
    meta := meta + U16(t.port);
    meta := meta + address.value;
    if first {
      meta := meta + Zeros(8);
    }
    hide U16;
    ghost var target := U16(t.port) + address.value;
    assert meta == Metadata(target, first);
    var out := U16(|meta|);
    out := out + meta;
    out := out + U16(|payload|);
    out := out + payload;
    return Some(out);
  }

  method BuildAddress(host: Host) returns (r: Option<seq<Byte>>)
    ensures r == EncodeAddress(host)
  {
    match host {
      case V4(octets) =>
        var out := [1];
        out := out + octets;
        return Some(out);
      case V6(octets) =>
        var out := [3];
        out := out + octets;
        return Some(out);
      case Domain(name) =>
        if |name| > 255 {
          return None;
        }
        var out := [2];
        out := out + [|name|];
        out := out + name;
        assert out == [2, |name|] + name;
        return Some(out);
    }
  }

  /** The target named by a frame's metadata; the outer option is a decoding failure. */
  function MetaTarget(meta: seq<Byte>): Option<Option<Target>> {
    if |meta| > 4 && meta[4] == 2 then
      match DecodeTarget(meta[5..])
      case None => None
      case Some((t, _)) => Some(Some(t))
    else Some(None)
  }

  /** One frame.  Keep-alives, frames without the data option and empty payloads are skipped. */
  function XudpStep(s: (), b: seq<Byte>): Step<(), Packet> {
    if |b| < 2 then Wait
    else
      var metaLen := GetU16(b, 0);
      if metaLen < 4 then Fail
      else if |b| < metaLen + 4 then Wait
      else
        var meta := b[2..2 + metaLen];
        match MetaTarget(meta)
        case None => Fail
        case Some(target) =>
          var payloadLen := GetU16(b, 2 + metaLen);
          var frameLen := metaLen + 4 + payloadLen;
          if |b| < frameLen then Wait
          else if meta[2] == 4 || meta[3] % 2 == 0 || payloadLen == 0 then Take(frameLen, [], ())
          else Take(frameLen, [Packet(target, b[metaLen + 4..frameLen])], ())
  }

  lemma XudpIncremental()
    ensures Incremental(XudpStep)
  {
    forall s, b, c: seq<Byte> | !XudpStep(s, b).Wait?
      ensures XudpStep(s, b + c) == XudpStep(s, b)
    {
      var metaLen := GetU16(b, 0);
      if metaLen >= 4 {
        assert (b + c)[2..2 + metaLen] == b[2..2 + metaLen];
        if XudpStep(s, b).Take? {
          var frameLen := metaLen + 4 + GetU16(b, 2 + metaLen);
          assert (b + c)[metaLen + 4..frameLen] == b[metaLen + 4..frameLen];
        }
      }
    }
  }

  datatype Taken = NoPacket | Got(packet: Packet) | Malformed

  /** The reader's buffer. */
  class XudpReader {
    var buffer: seq<Byte>

    constructor ()
      ensures buffer == []
    {
      buffer := [];
    }

    /** `take_xudp_packet`: the next packet, if a whole frame carrying one has arrived.  What is
      * left in the buffer is what one-shot parsing has left to parse. */
    method TakePacket() returns (r: Taken)
      modifies this
      ensures match r
              case NoPacket => Drain(XudpStep, (), old(buffer)) == Parse((), buffer, [], true)
              case Got(p) => Drain(XudpStep, (), old(buffer)) == Prepend([p], Drain(XudpStep, (), buffer)) &&
                             |buffer| < |old(buffer)|
              case Malformed => Drain(XudpStep, (), old(buffer)) == Parse((), buffer, [], false)
    {
      ghost var goal := Drain(XudpStep, (), buffer);
      PrependNil(goal);
      while true
        invariant goal == Prepend([], Drain(XudpStep, (), buffer)) && |buffer| <= |old(buffer)|
        decreases |buffer|
      {
        ghost var b := buffer;
        var more;
        more, r := TakeTurn();
        if XudpStep((), b).Take? {
          Unfold(XudpStep, (), b, []);
          var out := XudpStep((), b).out;
          assert [] + out == out;
        }
        if !more {
          PrependNil(Drain(XudpStep, (), b));
          return;
        }
      }
    }

    /** One turn of the loop; `more` means that a frame was skipped. */
    method TakeTurn() returns (more: bool, r: Taken)
      modifies this
      ensures more ==> r == NoPacket
      ensures match XudpStep((), old(buffer))
              case Wait => !more && r == NoPacket && buffer == old(buffer)
              case Fail => r == Malformed && buffer == old(buffer)
              case Take(n, out, _) =>
                && 0 < n <= |old(buffer)| && buffer == old(buffer)[n..]
                && more == (out == []) && (out != [] ==> r.Got? && out == [r.packet])
    {
      more, r := false, NoPacket;
      if |buffer| < 2 {
        return;
      }
      var metaLen := GetU16(buffer, 0);
      if metaLen < 4 {
        r := Malformed;
        return;
      }
      if |buffer| < metaLen + 4 {
        return;
      }
      var meta := buffer[2..2 + metaLen];
      var status, option := meta[2], meta[3];
      var target := None;
      if |meta| > 4 && meta[4] == 2 {
        var decoded := DecodeTarget(meta[5..]);
        if decoded == None {
          r := Malformed;
          return;
        }
        target := Some(decoded.value.0);
      }
      var payloadLen := GetU16(buffer, 2 + metaLen);
      var frameLen := metaLen + 4 + payloadLen;
      if |buffer| < frameLen {
        return;
      }
      var payload := buffer[metaLen + 4..frameLen];
      buffer := buffer[frameLen..];
      if status == 4 || option % 2 == 0 || payload == [] {
        more := true;
      } else {
        r := Got(Packet(target, payload));
      }
    }
  }

  datatype Item = Item(target: Target, payload: seq<Byte>)

  predicate Encodable(i: Item) {
    ValidTarget(i.target) && |i.payload| < 0x1_0000 && (i.target.host.Domain? ==> |i.target.host.name| <= 255)
  }

  function EncodeItem(i: Item, first: bool): (r: seq<Byte>)
    requires Encodable(i)
    ensures r != []
  {
    EncodeXudp(i.target, i.payload, first).value
  }

  /** What the writer sends: the first frame is flagged new, the rest keep. */
  function EncodeItems(items: seq<Item>, first: bool): (r: seq<seq<Byte>>)
    requires forall i :: i in items ==> Encodable(i)
    ensures |r| == |items|
  {
    if items == [] then [] else [EncodeItem(items[0], first)] + EncodeItems(items[1..], false)
  }

  /** Packets with an empty payload are not delivered. */
  function Delivered(items: seq<Item>): seq<Packet> {
    if items == [] then []
    else
      (if items[0].payload == [] then [] else [Packet(Some(items[0].target), items[0].payload)]) +
      Delivered(items[1..])
  }

  /** The fields of a frame are where the reader looks for them. */
  lemma FrameFields(meta: seq<Byte>, payload: seq<Byte>, rest: seq<Byte>)
    requires |meta| < 0x1_0000 && |payload| < 0x1_0000
    ensures var b := Frame(meta, payload) + rest;
            && GetU16(b, 0) == |meta| && b[2..2 + |meta|] == meta
            && GetU16(b, 2 + |meta|) == |payload| && b[|meta| + 4..|meta| + 4 + |payload|] == payload
  {
  }

  lemma MetadataTarget(t: Target, first: bool)
    requires ValidTarget(t) && EncodeTarget(t).Some?
    ensures MetaTarget(Metadata(EncodeTarget(t).value, first)) == Some(Some(t))
    ensures var m := Metadata(EncodeTarget(t).value, first); |m| >= 4 && m[2] != 4 && m[3] == 1
  {
    var tail := if first then Zeros(8) else [];
    assert Metadata(EncodeTarget(t).value, first)[5..] == EncodeTarget(t).value + tail;
    TargetRoundTrip(t, tail);
  }

  lemma StepFrame(meta: seq<Byte>, target: Option<Target>, payload: seq<Byte>, rest: seq<Byte>)
    requires 4 <= |meta| < 0x1_0000 && |payload| < 0x1_0000 && MetaTarget(meta) == Some(target)
    ensures XudpStep((), Frame(meta, payload) + rest) ==
            Take(|Frame(meta, payload)|,
                 if meta[2] == 4 || meta[3] % 2 == 0 || payload == [] then [] else [Packet(target, payload)], ())
  {
    FrameFields(meta, payload, rest);
  }

  // ---- What any peer may send. ----

  /** A frame whose metadata names no target: it is skipped if it is a keep-alive, has no data option
    * or carries nothing, and is a packet without a target otherwise. */
  lemma StepUntargeted(meta: seq<Byte>, payload: seq<Byte>, rest: seq<Byte>)
    requires 4 <= |meta| < 0x1_0000 && |payload| < 0x1_0000 && (|meta| == 4 || meta[4] != 2)
    ensures XudpStep((), U16(|meta|) + meta + U16(|payload|) + payload + rest) ==
            Take(4 + |meta| + |payload|,
                 if meta[2] != 4 && meta[3] % 2 == 1 && payload != [] then [Packet(None, payload)] else [], ())
  {
    StepFrame(meta, None, payload, rest);
  }

  /** A frame that names a target: the same with that target, and a failure if it cannot be decoded. */
  lemma StepTargeted(meta: seq<Byte>, payload: seq<Byte>, rest: seq<Byte>)
    requires 5 <= |meta| < 0x1_0000 && |payload| < 0x1_0000 && meta[4] == 2
    ensures XudpStep((), U16(|meta|) + meta + U16(|payload|) + payload + rest) ==
            match DecodeTarget(meta[5..])
            case None => Fail
            case Some((t, _)) =>
              Take(4 + |meta| + |payload|,
                   if meta[2] != 4 && meta[3] % 2 == 1 && payload != [] then [Packet(Some(t), payload)] else [], ())
  {
    if DecodeTarget(meta[5..]).Some? {
      StepFrame(meta, Some(DecodeTarget(meta[5..]).value.0), payload, rest);
    } else {
      FrameFields(meta, payload, rest);
    }
  }

  /** Metadata shorter than four bytes is a failure, whatever follows it. */
  lemma StepShort(n: nat, rest: seq<Byte>)
    requires n < 4
    ensures XudpStep((), U16(n) + rest) == Fail
  {
    assert GetU16(U16(n) + rest, 0) == GetU16(U16(n), 0);
  }

  /** Any frame, as its metadata and payload. */
  datatype PeerFrame = PeerFrame(meta: seq<Byte>, payload: seq<Byte>)

  /** A frame that can be read: long enough, and a target it names can be decoded. */
  predicate Readable(f: PeerFrame) {
    4 <= |f.meta| < 0x1_0000 && |f.payload| < 0x1_0000 &&
    (|f.meta| > 4 && f.meta[4] == 2 ==> DecodeTarget(f.meta[5..]).Some?)
  }

  function PacketsOf(f: PeerFrame): seq<Packet>
    requires Readable(f)
  {
    if f.meta[2] == 4 || f.meta[3] % 2 == 0 || f.payload == [] then []
    else if |f.meta| > 4 && f.meta[4] == 2 then [Packet(Some(DecodeTarget(f.meta[5..]).value.0), f.payload)]
    else [Packet(None, f.payload)]
  }

  function PeerBytes(fs: seq<PeerFrame>): seq<Byte> {
    if fs == [] then [] else Frame(fs[0].meta, fs[0].payload) + PeerBytes(fs[1..])
  }

  function PeerPackets(fs: seq<PeerFrame>): seq<Packet>
    requires forall f :: f in fs ==> Readable(f)
  {
    if fs == [] then [] else PacketsOf(fs[0]) + PeerPackets(fs[1..])
  }

  /** Any readable frames, keep-alives and frames without a target among them, are read in order:
    * exactly the packets they carry come out and nothing is left. */
  lemma {:induction false} DrainPeer(fs: seq<PeerFrame>)
    requires forall f :: f in fs ==> Readable(f)
    ensures Drain(XudpStep, (), PeerBytes(fs)) == Parse((), [], PeerPackets(fs), true)
    decreases |fs|
  {
    if fs != [] {
      var f, rest := fs[0], PeerBytes(fs[1..]);
      assert f in fs;
      if |f.meta| > 4 && f.meta[4] == 2 {
        StepTargeted(f.meta, f.payload, rest);
      } else {
        StepUntargeted(f.meta, f.payload, rest);
      }
      hide XudpStep, DecodeTarget;
      DrainFrame(XudpStep, (), Frame(f.meta, f.payload), rest);
      DrainPeer(fs[1..]);
    }
  }

  /** Conversely, the bytes taken are a readable frame. */
  lemma TakenFrame(b: seq<Byte>) returns (f: PeerFrame)
    requires XudpStep((), b).Take?
    ensures Readable(f) && XudpStep((), b).out == PacketsOf(f) && |b| >= XudpStep((), b).n > 0
    ensures b[..XudpStep((), b).n] == Frame(f.meta, f.payload)
  {
    var m := GetU16(b, 0);
    var n := XudpStep((), b).n;
    f := PeerFrame(b[2..2 + m], b[m + 4..n]);
    hide DecodeTarget;
    U16Get(b, 0);
    U16Get(b, 2 + m);
    hide U16, GetU16;
    assert b[..n] == b[..2] + f.meta + b[2 + m..4 + m] + f.payload;
  }

  /** Of any bytes the reader takes readable frames and nothing else. */
  lemma {:induction false} OnlyReadable(b: seq<Byte>) returns (fs: seq<PeerFrame>)
    ensures forall f :: f in fs ==> Readable(f)
    ensures var r := Drain(XudpStep, (), b); r.out == PeerPackets(fs) && b == PeerBytes(fs) + r.pending
    decreases |b|
  {
    hide XudpStep, Readable, PacketsOf, Frame, PeerBytes, PeerPackets;
    fs := [];
    PeerNothing();
    var t := XudpStep((), b);
    if t.Take? {
      var f := TakenFrame(b);
      var more := OnlyReadable(b[t.n..]);
      fs := [f] + more;
      PeerCons(f, more);
      assert t.next == () && Drain(XudpStep, (), b) == Prepend(t.out, Drain(XudpStep, (), b[t.n..]));
      Assoc(Frame(f.meta, f.payload), PeerBytes(more), Drain(XudpStep, (), b[t.n..]).pending);
      assert b == b[..t.n] + b[t.n..];
    } else {
      assert [] + b == b;
    }
  }

  lemma PeerNothing()
    ensures PeerBytes([]) == [] && PeerPackets([]) == []
  {
  }

  lemma PeerCons(f: PeerFrame, more: seq<PeerFrame>)
    requires forall g :: g in [f] + more ==> Readable(g)
    ensures PeerBytes([f] + more) == Frame(f.meta, f.payload) + PeerBytes(more)
    ensures forall g :: g in more ==> Readable(g)
    ensures Readable(f) && PeerPackets([f] + more) == PacketsOf(f) + PeerPackets(more)
  {
    hide Readable, PacketsOf, Frame;
    assert ([f] + more)[1..] == more && f in [f] + more;
    assert forall g :: g in more ==> g in [f] + more;
  }

  lemma StepItem(i: Item, first: bool, rest: seq<Byte>)
    requires Encodable(i)
    ensures XudpStep((), EncodeItem(i, first) + rest) == Take(|EncodeItem(i, first)|, Delivered([i]), ())
  {
    var meta := Metadata(EncodeTarget(i.target).value, first);
    MetadataTarget(i.target, first);
    StepFrame(meta, Some(i.target), i.payload, rest);
    DeliveredOne(i);
    assert EncodeItem(i, first) == Frame(meta, i.payload);
  }

  lemma DeliveredOne(i: Item)
    ensures Delivered([i]) == if i.payload == [] then [] else [Packet(Some(i.target), i.payload)]
  {
  }

  lemma DeliveredCons(items: seq<Item>)
    requires items != []
    ensures Delivered(items) == Delivered([items[0]]) + Delivered(items[1..])
  {
  }

  lemma {:induction false} DrainItems(items: seq<Item>, first: bool)
    requires forall i :: i in items ==> Encodable(i)
    ensures Drain(XudpStep, (), Flatten(EncodeItems(items, first))) == Parse((), [], Delivered(items), true)
    decreases |items|
  {
    if items != [] {
      var frame, rest := EncodeItem(items[0], first), EncodeItems(items[1..], false);
      assert EncodeItems(items, first) == [frame] + rest;
      assert ([frame] + rest)[1..] == rest;
      StepItem(items[0], first, Flatten(rest));
      DrainFrame(XudpStep, (), frame, Flatten(rest));
      DrainItems(items[1..], false);
      DeliveredCons(items);
    }
  }

  /** Any list of encodable packets, cut in any way, is read back in order and without residue;
    * only packets with an empty payload are missing. */
  lemma XudpRoundTrip(items: seq<Item>, chunks: seq<seq<Byte>>)
    requires forall i :: i in items ==> Encodable(i)
    requires Flatten(chunks) == Flatten(EncodeItems(items, true))
    ensures FeedAll(XudpStep, Fresh(()), chunks) == Parse((), [], Delivered(items), true)
  {
    XudpIncremental();
    FreshChunking(XudpStep, (), chunks);
    DrainItems(items, true);
  }
}
