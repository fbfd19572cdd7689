/** The AnyTLS padded writer: frames are cut across writes and filled up with waste, and what the
  * peer's frame decoder makes of the result. */
module AnyTlsPadding {
  import opened Bytes
  import opened Framing
  import opened AnyTlsFrames

  datatype PaddingSize = Check | Payload(size: nat)

  /** A padding scheme: packets numbered below `stop` follow the sizes listed for them. */
  datatype Scheme = Scheme(stop: nat, entries: seq<seq<PaddingSize>>)

  function Sizes(scheme: Scheme, packet: nat): seq<PaddingSize> {
    if packet < scheme.stop && packet < |scheme.entries| then scheme.entries[packet] else []
  }

  ghost predicate SizesFit(sizes: seq<PaddingSize>) {
    forall i :: 0 <= i < |sizes| && sizes[i].Payload? ==> sizes[i].size < 0x1_0000
  }

  function Waste(n: nat): Frame {
    Frame(CMD_WASTE, 0, Zeros(n))
  }

  /** The bytes that fill a write up; the length is cast to u16. */
  function Fill(n: nat): seq<Byte> {
    [CMD_WASTE] + U32(0) + U16(n) + Zeros(n)
  }

  predicate IsWaste(f: Frame) {
    f.cmd == CMD_WASTE && f.streamId == 0
  }

  ghost predicate AllWaste(fs: seq<Frame>) {
    forall i :: 0 <= i < |fs| ==> IsWaste(fs[i]) && FrameFits(fs[i])
  }

  // ---- What goes on the wire. ----

  /** Encoded frames, and fills of a length. */
  datatype Piece = Whole(frames: seq<Frame>) | Filler(length: nat)

  function PieceBytes(p: Piece): seq<Byte> {
    match p
    case Whole(fs) => EncodeFrames(fs)
    case Filler(n) => Fill(n)
  }

  function BytesOf(ps: seq<Piece>): seq<Byte> {
    if ps == [] then [] else PieceBytes(ps[0]) + BytesOf(ps[1..])
  }

  lemma {:induction false} BytesAppend(a: seq<Piece>, b: seq<Piece>)
    ensures BytesOf(a + b) == BytesOf(a) + BytesOf(b)
  {
    hide PieceBytes;
    if a == [] {
      assert a + b == b;
    } else {
      assert (a + b)[1..] == a[1..] + b;
      BytesAppend(a[1..], b);
      Assoc(PieceBytes(a[0]), BytesOf(a[1..]), BytesOf(b));
    }
  }

  lemma BytesOne(p: Piece)
    ensures BytesOf([p]) == PieceBytes(p)
  {
    hide PieceBytes;
    assert [p][1..] == [] && PieceBytes(p) + [] == PieceBytes(p);
  }

  /** The frames among the pieces. */
  function Wanted(ps: seq<Piece>): seq<Frame> {
    if ps == [] then [] else (if ps[0].Whole? then ps[0].frames else []) + Wanted(ps[1..])
  }

  /** The same with a waste frame for each fill. */
  function Framed(ps: seq<Piece>): seq<Frame> {
    if ps == [] then [] else (if ps[0].Whole? then ps[0].frames else [Waste(ps[0].length)]) + Framed(ps[1..])
  }

  lemma {:induction false} WantedAppend(a: seq<Piece>, b: seq<Piece>)
    ensures Wanted(a + b) == Wanted(a) + Wanted(b)
  {
    if a == [] {
      assert a + b == b;
    } else {
      assert (a + b)[1..] == a[1..] + b;
      WantedAppend(a[1..], b);
    }
  }

  // ---- Schedules. ----

  /** The length of one scheduled write and what is left of `remaining` bytes after it: the size
    * itself while there is more than that, then the last of the buffer, filled up to the size
    * where a waste frame fits, then waste frames alone. */
  function OneWrite(remaining: nat, size: nat): (nat, nat) {
    if remaining > size then (size, remaining - size)
    else if remaining == 0 then (HEADER_LEN + size, 0)
    else (if size > remaining + HEADER_LEN then size else remaining, 0)
  }

  /** A waste frame on its own that is too long is refused. */
  predicate Refuses(remaining: nat, size: nat) {
    remaining == 0 && size > 0xFFFF
  }

  function OneFill(remaining: nat, size: nat): seq<Piece> {
    if remaining > size then []
    else if remaining == 0 then [Filler(size)]
    else if size > remaining + HEADER_LEN then [Filler(size - remaining - HEADER_LEN)] else []
  }

  /** The lengths of all writes; a check ends the schedule once the buffer is written. */
  function WriteSizes(remaining: nat, sizes: seq<PaddingSize>): seq<nat> {
    if sizes == [] then (if remaining > 0 then [remaining] else [])
    else match sizes[0]
      case Check => if remaining == 0 then [] else WriteSizes(remaining, sizes[1..])
      case Payload(n) =>
        if Refuses(remaining, n) then []
        else [OneWrite(remaining, n).0] + WriteSizes(OneWrite(remaining, n).1, sizes[1..])
  }

  /** The fills of a schedule. */
  function Fills(remaining: nat, sizes: seq<PaddingSize>): seq<Piece> {
    if sizes == [] then []
    else match sizes[0]
      case Check => if remaining == 0 then [] else Fills(remaining, sizes[1..])
      case Payload(n) =>
        if Refuses(remaining, n) then []
        else OneFill(remaining, n) + Fills(OneWrite(remaining, n).1, sizes[1..])
  }

  /** Nothing in a schedule is refused. */
  predicate Completes(remaining: nat, sizes: seq<PaddingSize>) {
    sizes == [] ||
    match sizes[0]
    case Check => remaining == 0 || Completes(remaining, sizes[1..])
    case Payload(n) => !Refuses(remaining, n) && Completes(OneWrite(remaining, n).1, sizes[1..])
  }

  /** A piece is a fill whose length survives the cast. */
  predicate ShortFill(p: Piece) {
    p.Filler? && p.length < 0x1_0000
  }

  lemma {:induction false} FittingFills(remaining: nat, sizes: seq<PaddingSize>)
    requires SizesFit(sizes)
    ensures Completes(remaining, sizes) && forall p :: p in Fills(remaining, sizes) ==> ShortFill(p)
    decreases |sizes|
  {
    if sizes != [] {
      assert SizesFit(sizes[1..]);
      match sizes[0]
      case Check => FittingFills(remaining, sizes[1..]);
      case Payload(n) =>
        FittingFills(OneWrite(remaining, n).1, sizes[1..]);
        assert sizes[0].size < 0x1_0000;
        assert forall p :: p in OneFill(remaining, n) ==> ShortFill(p);
    }
  }

  /** Fills are waste frames if their lengths survive the cast. */
  lemma {:induction false} FillsAreWaste(ps: seq<Piece>)
    requires forall p :: p in ps ==> ShortFill(p)
    ensures BytesOf(ps) == EncodeFrames(Framed(ps)) && AllWaste(Framed(ps)) && Wanted(ps) == []
  {
    if ps != [] {
      FillsAreWaste(ps[1..]);
      hide EncodeFrame;
      assert ps[0] in ps;
      var w := Waste(ps[0].length);
      FillIsWaste(ps[0].length);
      assert ([w] + Framed(ps[1..]))[1..] == Framed(ps[1..]);
    }
  }

  lemma FillIsWaste(n: nat)
    requires n < 0x1_0000
    ensures Fill(n) == EncodeFrame(Waste(n))
  {
  }

  function Lengths(writes: seq<seq<Byte>>): seq<nat> {
    seq(|writes|, i requires 0 <= i < |writes| => |writes[i]|)
  }

  lemma LengthsSnoc(writes: seq<seq<Byte>>, x: seq<Byte>)
    ensures Lengths(writes + [x]) == Lengths(writes) + [|x|]
  {
  }

  /** Midway through a schedule: `buffer` is still to be written, with `sizes` left. */
  ghost predicate Midway(frames: seq<Byte>, all: seq<PaddingSize>,
                         writes: seq<seq<Byte>>, fills: seq<Piece>, buffer: seq<Byte>, sizes: seq<PaddingSize>) {
    && Flatten(writes) + buffer == frames + BytesOf(fills)
    && Lengths(writes) + WriteSizes(|buffer|, sizes) == WriteSizes(|frames|, all)
    && fills + Fills(|buffer|, sizes) == Fills(|frames|, all)
    && Completes(|buffer|, sizes) == Completes(|frames|, all)
  }

  /** What one scheduled write does to the buffer. */
  ghost predicate Scheduled(buffer: seq<Byte>, size: nat, piece: seq<Byte>, rest: seq<Byte>) {
    piece + rest == buffer + BytesOf(OneFill(|buffer|, size)) && (|piece|, |rest|) == OneWrite(|buffer|, size)
  }

  lemma MidwayStart(frames: seq<Byte>, all: seq<PaddingSize>)
    ensures Midway(frames, all, [], [], frames, all)
  {
  }

  lemma MidwayCheck(frames: seq<Byte>, all: seq<PaddingSize>, writes: seq<seq<Byte>>, fills: seq<Piece>,
                    buffer: seq<Byte>, sizes: seq<PaddingSize>)
    requires Midway(frames, all, writes, fills, buffer, sizes) && sizes != [] && sizes[0] == Check && buffer != []
    ensures Midway(frames, all, writes, fills, buffer, sizes[1..])
  {
  }

  lemma {:induction false} MidwayWrite(frames: seq<Byte>, all: seq<PaddingSize>, writes: seq<seq<Byte>>, fills: seq<Piece>,
                    buffer: seq<Byte>, sizes: seq<PaddingSize>, piece: seq<Byte>, rest: seq<Byte>)
    requires Midway(frames, all, writes, fills, buffer, sizes)
    requires sizes != [] && sizes[0].Payload? && !Refuses(|buffer|, sizes[0].size)
    requires Scheduled(buffer, sizes[0].size, piece, rest)
    ensures Midway(frames, all, writes + [piece], fills + OneFill(|buffer|, sizes[0].size), rest, sizes[1..])
  {
    hide BytesOf, OneFill, OneWrite;
    var added := OneFill(|buffer|, sizes[0].size);
    FlattenSnoc(writes, piece);
    BytesAppend(fills, added);
    calc {
      Flatten(writes + [piece]) + rest;
      { Assoc(Flatten(writes), piece, rest); }
      Flatten(writes) + (buffer + BytesOf(added));
      { Assoc(Flatten(writes), buffer, BytesOf(added)); }
      frames + BytesOf(fills) + BytesOf(added);
      { Assoc(frames, BytesOf(fills), BytesOf(added)); }
      frames + BytesOf(fills + added);
    }
    LengthsSnoc(writes, piece);
    Assoc(Lengths(writes), [|piece|], WriteSizes(|rest|, sizes[1..]));
    Assoc(fills, added, Fills(|rest|, sizes[1..]));
  }

  /** A schedule ends when its sizes are used up, at a check with nothing left to write, or when a
    * waste frame is refused. */
  lemma MidwayEnd(frames: seq<Byte>, all: seq<PaddingSize>, writes: seq<seq<Byte>>, fills: seq<Piece>,
                  buffer: seq<Byte>, sizes: seq<PaddingSize>)
    requires Midway(frames, all, writes, fills, buffer, sizes)
    requires sizes == [] || (buffer == [] && (sizes[0] == Check || Refuses(0, sizes[0].size)))
    ensures var done := if buffer == [] then writes else writes + [buffer];
            && Flatten(done) == frames + BytesOf(Fills(|frames|, all)) && Lengths(done) == WriteSizes(|frames|, all)
            && Completes(|frames|, all) == (sizes == [] || sizes[0] == Check)
  {
    hide BytesOf;
    FlattenSnoc(writes, buffer);
    LengthsSnoc(writes, buffer);
    assert Flatten(writes) + [] == Flatten(writes) && Lengths(writes) + [] == Lengths(writes) && fills + [] == fills;
  }

  /** The padded writer of a session. */
  class PaddedWriter {
    var packetCounter: nat
    var scheme: Scheme

    constructor (scheme: Scheme)
      ensures this.scheme == scheme && packetCounter == 1
    {
      this.scheme, packetCounter := scheme, 1;
    }

    /** `write_with_padding`: the writes are the buffer followed by the fills of the schedule, cut to
      * the scheduled lengths, up to the end or to a refused waste frame.  Fills that fit are waste
      * frames. */
    method WriteWithPadding(frames: seq<Byte>) returns (writes: seq<seq<Byte>>, ok: bool)
      modifies this`packetCounter
      ensures packetCounter == (old(packetCounter) + 1) % 0x1_0000_0000
      ensures var sizes := Sizes(scheme, old(packetCounter));
              && ok == Completes(|frames|, sizes) && Lengths(writes) == WriteSizes(|frames|, sizes)
              && Flatten(writes) == frames + BytesOf(Fills(|frames|, sizes))
              && (SizesFit(sizes) ==>
                    && ok && AllWaste(Framed(Fills(|frames|, sizes)))
                    && Flatten(writes) == frames + EncodeFrames(Framed(Fills(|frames|, sizes))))
      ensures var p := old(packetCounter);
              if p < scheme.stop && p < |scheme.entries|
              then && Lengths(writes) == WriteSizes(|frames|, scheme.entries[p])
                   && Flatten(writes) == frames + BytesOf(Fills(|frames|, scheme.entries[p]))
              else ok && writes == if frames == [] then [] else [frames]
    {
      hide BytesOf, Fills, WriteSizes, Completes, Lengths, SizesFit, Midway, Scheduled, EncodeFrames, Framed;
      var sizes := [];
      if packetCounter < scheme.stop {
        if packetCounter < |scheme.entries| {
          sizes := scheme.entries[packetCounter];
        }
      }
      if SizesFit(sizes) {
        FittingFills(|frames|, sizes);
        FillsAreWaste(Fills(|frames|, sizes));
      }
      packetCounter := (packetCounter + 1) % 0x1_0000_0000;
      var buffer := frames;
      writes, ok := [], true;
      ghost var fills := [];
      var i := 0;
      MidwayStart(frames, sizes);
      assert sizes[0..] == sizes;
      while i < |sizes|
        invariant ok && packetCounter == (old(packetCounter) + 1) % 0x1_0000_0000
        invariant sizes == [] ==> writes == [] && buffer == frames
        invariant i <= |sizes| && Midway(frames, sizes, writes, fills, buffer, sizes[i..])
      {
        assert sizes[i..][1..] == sizes[i + 1..];
        if sizes[i] == Check {
          if buffer == [] {
            break;
          }
          MidwayCheck(frames, sizes, writes, fills, buffer, sizes[i..]);
        } else {
          var rest, piece, written := ScheduledWrite(buffer, sizes[i].size);
          if !written {
            MidwayEnd(frames, sizes, writes, fills, buffer, sizes[i..]);
            return writes, false;
          }
          MidwayWrite(frames, sizes, writes, fills, buffer, sizes[i..], piece, rest);
          fills := fills + OneFill(|buffer|, sizes[i].size);
          writes, buffer := writes + [piece], rest;
        }
        i := i + 1;
      }
      MidwayEnd(frames, sizes, writes, fills, buffer, sizes[i..]);
      assert sizes == [] ==> writes == [] && buffer == frames;
      if buffer != [] {
        writes := writes + [buffer];
      }
    }

    /** One scheduled write.  The length of a fill is cast to u16; a lone waste frame that is too
      * long is refused. */
    method ScheduledWrite(buffer: seq<Byte>, size: nat) returns (rest: seq<Byte>, piece: seq<Byte>, ok: bool)
      ensures ok == !Refuses(|buffer|, size) && (ok ==> Scheduled(buffer, size, piece, rest))
      ensures ok && |buffer| <= size ==>
                rest == [] &&
                piece == if buffer == [] then EncodeFrame(Waste(size))
                         else if size > |buffer| + HEADER_LEN then buffer + Fill(size - |buffer| - HEADER_LEN)
                         else buffer
    {
      hide BytesOf;
      ok := true;
      if |buffer| > size {
        piece, rest := buffer[..size], buffer[size..];
        NoBytes();
      } else if buffer != [] {
        piece, rest := buffer, [];
        var paddingLen := if size > |buffer| + HEADER_LEN then size - (|buffer| + HEADER_LEN) else 0;
        NoBytes();
        if paddingLen > 0 {
          BytesOne(Filler(paddingLen));
          piece := piece + ([CMD_WASTE] + U32(0) + U16(paddingLen) + Zeros(paddingLen));
        }
      } else {
        BytesOne(Filler(size));
        rest := [];
        piece, ok := AppendFrame([], CMD_WASTE, 0, Zeros(size));
        assert ok ==> piece == EncodeFrame(Waste(size));
      }
    }
  }

  lemma NoBytes()
    ensures BytesOf([]) == []
  {
  }

  // ---- Whole runs of the write loop. ----

  datatype SessionWrite = Frames(frames: seq<Frame>) | One(frame: Frame) | Close

  function ItemFrames(w: SessionWrite): seq<Frame> {
    match w
    case Frames(fs) => fs
    case One(f) => [f]
    case Close => []
  }

  /** A close ends the loop; so does a frame that is too large, which closes the session. */
  predicate Stops(w: SessionWrite) {
    w.Close? || (w.One? && |w.frame.data| > 0xFFFF)
  }

  /** The frames that reach the writer. */
  function Sent(items: seq<SessionWrite>): seq<Frame> {
    if items == [] || Stops(items[0]) then [] else ItemFrames(items[0]) + Sent(items[1..])
  }

  /** The frames that were queued. */
  function Queued(items: seq<SessionWrite>): seq<Frame> {
    if items == [] then [] else ItemFrames(items[0]) + Queued(items[1..])
  }

  function ItemLen(w: SessionWrite): nat {
    |EncodeFrames(ItemFrames(w))|
  }

  function ItemPieces(w: SessionWrite, plan: seq<PaddingSize>): seq<Piece> {
    [Whole(ItemFrames(w))] + Fills(ItemLen(w), plan)
  }

  /** The pieces written for the queued items, each with the sizes planned for it. */
  function Pieces(items: seq<SessionWrite>, plans: seq<seq<PaddingSize>>): seq<Piece>
    requires |plans| == |items|
  {
    if items == [] || Stops(items[0]) then []
    else
      ItemPieces(items[0], plans[0]) +
      if Completes(ItemLen(items[0]), plans[0]) then Pieces(items[1..], plans[1..]) else []
  }

  /** The packet counter starts at 1 and wraps at 2^32. */
  function Counter(i: nat): nat {
    (1 + i) % 0x1_0000_0000
  }

  function Plans(schemes: seq<Scheme>): seq<seq<PaddingSize>> {
    seq(|schemes|, i requires 0 <= i < |schemes| => Sizes(schemes[i], Counter(i)))
  }

  /** Item `i` is padded by line `1 + i` of the scheme in force, and not at all from its stop on. */
  lemma PlanFollowsScheme(schemes: seq<Scheme>, i: nat)
    requires i < |schemes| && 1 + i < 0x1_0000_0000
    ensures var s := schemes[i];
            Plans(schemes)[i] == if 1 + i < s.stop && 1 + i < |s.entries| then s.entries[1 + i] else []
  {
  }

  lemma CounterNext(i: nat)
    ensures Counter(0) == 1 && Counter(i + 1) == (Counter(i) + 1) % 0x1_0000_0000
  {
  }

  /** `fs` is `sent` with waste frames on stream 0 put in between. */
  ghost predicate Woven(fs: seq<Frame>, sent: seq<Frame>)
    decreases |fs|
  {
    if fs == [] then sent == []
    else (sent != [] && fs[0] == sent[0] && Woven(fs[1..], sent[1..])) || (IsWaste(fs[0]) && Woven(fs[1..], sent))
  }

  lemma {:induction false} WovenSame(fs: seq<Frame>)
    ensures Woven(fs, fs)
  {
    if fs != [] {
      WovenSame(fs[1..]);
    }
  }

  lemma {:induction false} WovenWaste(wastes: seq<Frame>)
    requires AllWaste(wastes)
    ensures Woven(wastes, [])
  {
    if wastes != [] {
      assert AllWaste(wastes[1..]);
      WovenWaste(wastes[1..]);
    }
  }

  lemma {:induction false} WovenAppend(a: seq<Frame>, sa: seq<Frame>, b: seq<Frame>, sb: seq<Frame>)
    requires Woven(a, sa) && Woven(b, sb)
    ensures Woven(a + b, sa + sb)
    decreases |a|
  {
    if a == [] {
      assert a + b == b && sa + sb == sb;
    } else {
      assert (a + b)[1..] == a[1..] + b;
      if sa != [] && a[0] == sa[0] && Woven(a[1..], sa[1..]) {
        assert (sa + sb)[1..] == sa[1..] + sb;
        WovenAppend(a[1..], sa[1..], b, sb);
      } else {
        WovenAppend(a[1..], sa, b, sb);
      }
    }
  }

  /** The written bytes are `fs`, which is `sent` with waste frames put in. */
  ghost predicate Carries(wire: seq<Byte>, fs: seq<Frame>, sent: seq<Frame>) {
    wire == EncodeFrames(fs) && AllFit(fs) && Woven(fs, sent)
  }

  ghost predicate SchemeFits(scheme: Scheme) {
    forall i :: 0 <= i < |scheme.entries| ==> SizesFit(scheme.entries[i])
  }

  /** Frames are queued as the encoder left them; a single frame is encoded by the loop. */
  ghost predicate Encodable(w: SessionWrite) {
    (w.Frames? ==> AllFit(w.frames)) && (w.One? ==> w.frame.streamId < 0x1_0000_0000)
  }

  /** One item of the write loop. */
  method WriteItem(writer: PaddedWriter, w: SessionWrite) returns (bytes: seq<Byte>, ok: bool)
    requires !Stops(w)
    modifies writer`packetCounter
    ensures writer.packetCounter == (old(writer.packetCounter) + 1) % 0x1_0000_0000
    ensures var plan := Sizes(writer.scheme, old(writer.packetCounter));
            ok == Completes(ItemLen(w), plan) && bytes == BytesOf(ItemPieces(w, plan))
  {
    hide BytesOf, Fills, Completes, WriteSizes, EncodeFrame, EncodeFrames, SizesFit, AllWaste, Framed;
    ghost var plan := Sizes(writer.scheme, writer.packetCounter);
    var frames;
    if w.Frames? {
      frames := EncodeFrames(w.frames);
    } else {
      var fits;
      frames, fits := AppendFrame([], w.frame.cmd, w.frame.streamId, w.frame.data);
      assert frames == EncodeFrame(w.frame);
    }
    EncodeOne(ItemFrames(w));
    var writes;
    writes, ok := writer.WriteWithPadding(frames);
    bytes := Flatten(writes);
    BytesAppend([Whole(ItemFrames(w))], Fills(ItemLen(w), plan));
    BytesOne(Whole(ItemFrames(w)));
  }

  /** `write_loop` over the queued items; the padding scheme may be replaced before any of them.
    * The bytes written are those of the pieces.  Provided no scheme names a size over 65535, they
    * are the frames sent, in queue order, with nothing but waste frames on stream 0 in between. */
  method WriteLoop(items: seq<SessionWrite>, schemes: seq<Scheme>) returns (wire: seq<Byte>)
    requires |schemes| == |items| && forall w :: w in items ==> Encodable(w)
    ensures wire == BytesOf(Pieces(items, Plans(schemes)))
    ensures (forall i :: 0 <= i < |items| ==> SchemeFits(schemes[i])) ==>
              exists fs :: Carries(wire, fs, Sent(items))
  {
    hide BytesOf, Pieces, Carries, Sent, SchemeFits, Encodable, ItemPieces, ItemFrames, Completes, Counter, Sizes;
    CounterNext(0);
    FittingRun(items, schemes);
    wire := [];
    ghost var plans := Plans(schemes);
    ghost var done: seq<Piece> := [];
    NothingWritten(items, plans);
    if |items| == 0 {
      return;
    }
    var writer := new PaddedWriter(schemes[0]);
    for i := 0 to |items|
      invariant fresh(writer) && writer.packetCounter == Counter(i)
      invariant wire == BytesOf(done) && done + Pieces(items[i..], plans[i..]) == Pieces(items, plans)
    {
      writer.scheme := schemes[i];
      CounterNext(i);
      NextItem(items, plans, i, done);
      if items[i].Close? || (items[i].One? && |items[i].frame.data| > 0xFFFF) {
        return;
      }
      var bytes, ok := WriteItem(writer, items[i]);
      wire, done := wire + bytes, done + ItemPieces(items[i], plans[i]);
      if !ok {
        return;
      }
    }
    NothingLeft(items, plans, done);
  }

  lemma EncodeOne(frames: seq<Frame>)
    ensures |frames| == 1 ==> EncodeFrames(frames) == EncodeFrame(frames[0])
  {
    hide EncodeFrame;
    if |frames| == 1 {
      assert frames[1..] == [] && EncodeFrame(frames[0]) + [] == EncodeFrame(frames[0]);
    }
  }

  lemma NothingWritten(items: seq<SessionWrite>, plans: seq<seq<PaddingSize>>)
    requires |plans| == |items|
    ensures BytesOf([]) == [] && [] + Pieces(items[0..], plans[0..]) == Pieces(items, plans)
    ensures items == [] ==> Pieces(items, plans) == []
  {
    assert items[0..] == items && plans[0..] == plans;
  }

  lemma NothingLeft(items: seq<SessionWrite>, plans: seq<seq<PaddingSize>>, done: seq<Piece>)
    requires |plans| == |items|
    ensures done + Pieces(items[|items|..], plans[|items|..]) == done
  {
  }

  /** What item `i` adds to the pieces written before it. */
  lemma NextItem(items: seq<SessionWrite>, plans: seq<seq<PaddingSize>>, i: nat, done: seq<Piece>)
    requires |plans| == |items| && i < |items|
    ensures var w, now := items[i], done + ItemPieces(items[i], plans[i]);
            && (Stops(w) ==> done + Pieces(items[i..], plans[i..]) == done)
            && (!Stops(w) && !Completes(ItemLen(w), plans[i]) ==> done + Pieces(items[i..], plans[i..]) == now)
            && (!Stops(w) && Completes(ItemLen(w), plans[i]) ==>
                  done + Pieces(items[i..], plans[i..]) == now + Pieces(items[i + 1..], plans[i + 1..]))
            && BytesOf(now) == BytesOf(done) + BytesOf(ItemPieces(w, plans[i]))
  {
    hide BytesOf, Stops, Completes, ItemPieces;
    var head := ItemPieces(items[i], plans[i]);
    assert items[i..][1..] == items[i + 1..] && plans[i..][1..] == plans[i + 1..];
    BytesAppend(done, head);
    assert head + [] == head && done + [] == done;
    Assoc(done, head, Pieces(items[i + 1..], plans[i + 1..]));
  }

  // ---- Runs whose fills fit. ----

  /** A piece is read as it stands: its frames fit, and a fill survives the cast. */
  ghost predicate PieceFits(p: Piece) {
    if p.Whole? then AllFit(p.frames) else p.length < 0x1_0000
  }

  lemma {:induction false} PiecesCarry(ps: seq<Piece>)
    requires forall p :: p in ps ==> PieceFits(p)
    ensures Carries(BytesOf(ps), Framed(ps), Wanted(ps))
  {
    if ps != [] {
      PiecesCarry(ps[1..]);
      hide EncodeFrame, EncodeFrames;
      assert ps[0] in ps;
      var fs := if ps[0].Whole? then ps[0].frames else [Waste(ps[0].length)];
      EncodeAppend(fs, Framed(ps[1..]));
      if ps[0].Whole? {
        WovenSame(fs);
        WovenAppend(fs, fs, Framed(ps[1..]), Wanted(ps[1..]));
      } else {
        FillIsWaste(ps[0].length);
        EncodeOne(fs);
        WovenWaste(fs);
        WovenAppend(fs, [], Framed(ps[1..]), Wanted(ps[1..]));
      }
    }
  }

  lemma {:induction false} FittingPieces(items: seq<SessionWrite>, plans: seq<seq<PaddingSize>>)
    requires |plans| == |items| && forall w :: w in items ==> Encodable(w)
    requires forall i :: 0 <= i < |plans| ==> SizesFit(plans[i])
    ensures Wanted(Pieces(items, plans)) == Sent(items) && forall p :: p in Pieces(items, plans) ==> PieceFits(p)
  {
    if items != [] && !Stops(items[0]) {
      FittingPieces(items[1..], plans[1..]);
      hide EncodeFrame, SizesFit;
      var w, fills := items[0], Fills(ItemLen(items[0]), plans[0]);
      assert Encodable(w) && (w.One? ==> FrameFits(w.frame));
      FittingFills(ItemLen(w), plans[0]);
      FillsAreWaste(fills);
      WantedItem(w, fills, Pieces(items[1..], plans[1..]));
    }
  }

  lemma WantedItem(w: SessionWrite, fills: seq<Piece>, more: seq<Piece>)
    requires Wanted(fills) == []
    ensures Wanted([Whole(ItemFrames(w))] + fills + more) == ItemFrames(w) + Wanted(more)
  {
    var head := [Whole(ItemFrames(w))];
    WantedAppend(head, fills);
    WantedAppend(head + fills, more);
    assert head[1..] == [] && ItemFrames(w) + [] == ItemFrames(w) && Wanted([]) == [];
  }

  lemma FittingRun(items: seq<SessionWrite>, schemes: seq<Scheme>)
    requires |schemes| == |items| && forall w :: w in items ==> Encodable(w)
    ensures (forall i :: 0 <= i < |items| ==> SchemeFits(schemes[i])) ==>
              exists fs :: Carries(BytesOf(Pieces(items, Plans(schemes))), fs, Sent(items))
  {
    hide Carries, Encodable, BytesOf, Pieces, Sent, PieceFits;
    var plans := Plans(schemes);
    if forall i :: 0 <= i < |items| ==> SchemeFits(schemes[i]) {
      forall i | 0 <= i < |plans|
        ensures SizesFit(plans[i])
      {
        assert SchemeFits(schemes[i]);
      }
      FittingPieces(items, plans);
      PiecesCarry(Pieces(items, plans));
    }
  }

  // ---- What is lost. ----

  /** Item `i` loses nothing: if the loop stops at it, nothing is queued there or behind it. */
  ghost predicate KeptAt(items: seq<SessionWrite>, plans: seq<seq<PaddingSize>>, i: nat)
    requires |plans| == |items| && i < |items|
  {
    && (Stops(items[i]) ==> Queued(items[i..]) == [])
    && (!Completes(ItemLen(items[i]), plans[i]) ==> Queued(items[i + 1..]) == [])
  }

  /** Nothing is queued behind a close or a refused waste frame, and no frame is too large. */
  ghost predicate NothingLost(items: seq<SessionWrite>, plans: seq<seq<PaddingSize>>)
    requires |plans| == |items|
  {
    forall i :: 0 <= i < |items| ==> KeptAt(items, plans, i)
  }

  lemma {:induction false} FillsCarryNothing(remaining: nat, sizes: seq<PaddingSize>)
    ensures Wanted(Fills(remaining, sizes)) == []
    decreases |sizes|
  {
    if sizes != [] {
      match sizes[0]
      case Check => FillsCarryNothing(remaining, sizes[1..]);
      case Payload(n) =>
        FillsCarryNothing(OneWrite(remaining, n).1, sizes[1..]);
        WantedAppend(OneFill(remaining, n), Fills(OneWrite(remaining, n).1, sizes[1..]));
    }
  }

  lemma {:induction false} EmptyBehind(items: seq<SessionWrite>, i: nat)
    requires i <= |items| && Queued(items) == []
    ensures Queued(items[i..]) == []
  {
    if i > 0 {
      assert items[1..][i - 1..] == items[i..];
      EmptyBehind(items[1..], i - 1);
    }
  }

  lemma NothingLostNext(items: seq<SessionWrite>, plans: seq<seq<PaddingSize>>)
    requires |plans| == |items| && items != []
    ensures NothingLost(items, plans) <==> NothingLost(items[1..], plans[1..]) && KeptAt(items, plans, 0)
  {
    forall i | 0 <= i < |items[1..]|
      ensures KeptAt(items[1..], plans[1..], i) <==> KeptAt(items, plans, i + 1)
    {
      hide Stops, Queued, Completes;
      assert items[1..][i..] == items[i + 1..] && items[1..][i + 1..] == items[i + 2..];
    }
    hide KeptAt;
    if NothingLost(items[1..], plans[1..]) && KeptAt(items, plans, 0) {
      forall i | 0 <= i < |items|
        ensures KeptAt(items, plans, i)
      {
        assert i > 0 ==> KeptAt(items[1..], plans[1..], i - 1);
      }
    }
  }

  /** Everything queued reaches the wire if and only if nothing is queued behind a close or a
    * refused waste frame and no frame is too large. */
  lemma {:induction false} EverythingSent(items: seq<SessionWrite>, plans: seq<seq<PaddingSize>>)
    requires |plans| == |items|
    ensures Wanted(Pieces(items, plans)) <= Queued(items)
    ensures Wanted(Pieces(items, plans)) == Queued(items) <==> NothingLost(items, plans)
    decreases |items|
  {
    if items != [] {
      EverythingSent(items[1..], plans[1..]);
      NothingLostNext(items, plans);
      NothingLostBehind(items, plans);
      var w, fills := items[0], Fills(ItemLen(items[0]), plans[0]);
      FillsCarryNothing(ItemLen(w), plans[0]);
      WantedItem(w, fills, Pieces(items[1..], plans[1..]));
      WantedItem(w, fills, []);
      hide Fills, NothingLost, ItemLen;
      SamePrefix(ItemFrames(w), Wanted(Pieces(items[1..], plans[1..])), Queued(items[1..]));
      SamePrefix(ItemFrames(w), [], Queued(items[1..]));
    }
  }

  lemma SamePrefix(a: seq<Frame>, b: seq<Frame>, c: seq<Frame>)
    requires b <= c
    ensures a + b <= a + c && (a + b == a + c <==> b == c)
  {
    assert |a + b| == |a| + |b|;
  }

  lemma NothingLostBehind(items: seq<SessionWrite>, plans: seq<seq<PaddingSize>>)
    requires |plans| == |items| && items != []
    ensures Queued(items[1..]) == [] ==> NothingLost(items[1..], plans[1..])
    ensures Queued(items) == [] ==> NothingLost(items[1..], plans[1..])
  {
    hide Stops, Completes, ItemLen;
    if Queued(items[1..]) == [] {
      forall i | 0 <= i <= |items[1..]|
        ensures Queued(items[1..][i..]) == []
      {
        EmptyBehind(items[1..], i);
      }
      hide Queued;
    }
  }

  const LARGE_WRITE := 0x2_0000

  /** One write as large as the relay's buffers: it and everything behind it is lost. */
  lemma LargeWriteIsLost(id: nat, data: seq<Byte>, items: seq<SessionWrite>, plans: seq<seq<PaddingSize>>)
    requires |data| == LARGE_WRITE && |plans| == 1 + |items|
    ensures var w := One(Frame(CMD_PUSH, id, data));
            Pieces([w] + items, plans) == [] && Queued([w] + items) == [w.frame] + Queued(items)
  {
    var w := One(Frame(CMD_PUSH, id, data));
    assert ([w] + items)[1..] == items;
  }

  // ---- Fills that are too long. ----

  lemma WasteCons(w: Frame, wastes: seq<Frame>)
    requires IsWaste(w) && FrameFits(w) && AllWaste(wastes)
    ensures AllWaste([w] + wastes)
  {
  }

  /** A waste frame in front of zero bytes. */
  lemma WasteInFront(k: nat, m: nat)
    requires k < 0x1_0000
    ensures Drain(FrameStep, (), EncodeFrame(Waste(k)) + Zeros(m)) ==
            Prepend([Waste(k)], Drain(FrameStep, (), Zeros(m)))
  {
    hide EncodeFrame, FrameStep, Drain;
    StepFrame(Waste(k), Zeros(m));
    DrainFrame(FrameStep, (), EncodeFrame(Waste(k)), Zeros(m));
  }

  lemma ZerosFront(m: nat)
    requires m >= HEADER_LEN
    ensures Zeros(m) == EncodeFrame(Waste(0)) + Zeros(m - HEADER_LEN)
  {
  }

  lemma FewZeros(m: nat)
    requires m < HEADER_LEN
    ensures Drain(FrameStep, (), Zeros(m)) == Parse((), Zeros(m), [], true)
  {
  }

  /** Zero bytes read as empty waste frames, seven bytes each. */
  lemma {:induction false} DrainZeros(m: nat)
    ensures var r := Drain(FrameStep, (), Zeros(m)); r.ok && AllWaste(r.out) && r.pending == Zeros(m % HEADER_LEN)
    decreases m
  {
    hide FrameStep, Drain, EncodeFrame, Zeros, IsWaste;
    if m >= HEADER_LEN {
      assert m % HEADER_LEN == (m - HEADER_LEN) % HEADER_LEN;
      ZerosFront(m);
      WasteInFront(0, m - HEADER_LEN);
      DrainZeros(m - HEADER_LEN);
      WasteCons(Waste(0), Drain(FrameStep, (), Zeros(m - HEADER_LEN)).out);
    } else {
      FewZeros(m);
    }
  }

  /** A fill announces what the cast leaves of its length. */
  lemma FillFront(n: nat)
    ensures var k := n % 0x1_0000; Fill(n) == EncodeFrame(Waste(k)) + Zeros(n - k)
  {
    var k := n % 0x1_0000;
    assert U16(n) == U16(k);
    hide U16, U32;
    assert Zeros(n) == Zeros(k) + Zeros(n - k);
  }

  lemma SevenfoldZeros(n: nat)
    ensures (n - n % 0x1_0000) % HEADER_LEN == n / 0x1_0000 * 2 % HEADER_LEN
    ensures n / 0x1_0000 * 2 % HEADER_LEN == 0 <==> n / 0x1_0000 % HEADER_LEN == 0
  {
  }

  /** Exactly when a fill leaves the reader in step.  Its length is cast to u16; a longer fill is
    * read as more waste frames, and what is left of it spoils the frame behind it unless it is
    * long by a multiple of 7 * 65536 bytes. */
  lemma FillInSync(n: nat)
    ensures var r := Drain(FrameStep, (), Fill(n));
            r.ok && AllWaste(r.out) && (r.pending == [] <==> n / 0x1_0000 % HEADER_LEN == 0)
  {
    hide FrameStep, Drain, EncodeFrame, Fill;
    var k := n % 0x1_0000;
    FillFront(n);
    WasteInFront(k, n - k);
    DrainZeros(n - k);
    SevenfoldZeros(n);
    WasteCons(Waste(k), Drain(FrameStep, (), Zeros(n - k)).out);
  }

  /** The fills that leave the reader in step. */
  predicate KeepsStep(p: Piece) {
    p.Filler? ==> p.length / 0x1_0000 % HEADER_LEN == 0
  }

  lemma {:induction false} PieceRead(p: Piece)
    requires p.Whole? ==> AllFit(p.frames)
    ensures var r := Drain(FrameStep, (), PieceBytes(p));
            r.ok && (r.pending == [] <==> KeepsStep(p)) && Woven(r.out, if p.Whole? then p.frames else [])
  {
    hide FrameStep, Drain, EncodeFrames, Fill;
    match p
    case Whole(fs) =>
      DrainFrames(fs);
      WovenSame(fs);
    case Filler(n) =>
      FillInSync(n);
      WovenWaste(Drain(FrameStep, (), Fill(n)).out);
  }

  /** After `i` pieces the reader holds nothing back. */
  ghost predicate InStepAt(ps: seq<Piece>, i: nat)
    requires i <= |ps|
  {
    var r := Drain(FrameStep, (), BytesOf(ps[..i]));
    r.ok && r.pending == []
  }

  lemma PiecesSnoc(ps: seq<Piece>, i: nat)
    requires i < |ps|
    ensures BytesOf(ps[..i + 1]) == BytesOf(ps[..i]) + PieceBytes(ps[i])
    ensures Wanted(ps[..i + 1]) == Wanted(ps[..i]) + if ps[i].Whole? then ps[i].frames else []
  {
    assert ps[..i + 1] == ps[..i] + [ps[i]];
    BytesAppend(ps[..i], [ps[i]]);
    WantedAppend(ps[..i], [ps[i]]);
    BytesOne(ps[i]);
    hide BytesOf, PieceBytes;
    assert [ps[i]][1..] == [] && Wanted([]) == [];
    assert ps[i].Whole? ==> ps[i].frames + [] == ps[i].frames;
  }

  /** After `i` pieces the reader has read their frames, with waste frames put in. */
  ghost predicate ReadAt(ps: seq<Piece>, i: nat)
    requires i <= |ps|
  {
    Woven(Drain(FrameStep, (), BytesOf(ps[..i])).out, Wanted(ps[..i]))
  }

  lemma RunStarts(ps: seq<Piece>)
    ensures InStepAt(ps, 0) && ReadAt(ps, 0)
  {
    assert ps[..0] == [];
  }

  /** Behind pieces read without residue the next one is read as if it stood alone. */
  lemma ReadBehind(ps: seq<Piece>, i: nat)
    requires i < |ps| && InStepAt(ps, i)
    ensures Drain(FrameStep, (), BytesOf(ps[..i + 1])) ==
            Prepend(Drain(FrameStep, (), BytesOf(ps[..i])).out, Drain(FrameStep, (), PieceBytes(ps[i])))
  {
    hide FrameStep, Drain, BytesOf, PieceBytes, Incremental, Wanted;
    PiecesSnoc(ps, i);
    FrameIncremental();
    var before, more := BytesOf(ps[..i]), PieceBytes(ps[i]);
    DrainOn(FrameStep, (), before, more);
    assert Drain(FrameStep, (), before).state == ();
    assert BytesOf(ps[..i + 1]) == before + more;
    assert Drain(FrameStep, (), before + more) ==
           Prepend(Drain(FrameStep, (), before).out, Drain(FrameStep, (), more));
  }

  lemma NextInStep(ps: seq<Piece>, i: nat)
    requires i < |ps| && InStepAt(ps, i) && (ps[i].Whole? ==> AllFit(ps[i].frames))
    ensures InStepAt(ps, i + 1) <==> KeepsStep(ps[i])
    ensures ReadAt(ps, i) ==> ReadAt(ps, i + 1)
  {
    hide FrameStep, Drain, BytesOf, PieceBytes, Wanted, KeepsStep, Woven, AllFit;
    ReadBehind(ps, i);
    PieceRead(ps[i]);
    if ReadAt(ps, i) {
      PiecesSnoc(ps, i);
      WovenAppend(Drain(FrameStep, (), BytesOf(ps[..i])).out, Wanted(ps[..i]),
                  Drain(FrameStep, (), PieceBytes(ps[i])).out, if ps[i].Whole? then ps[i].frames else []);
    }
  }

  /** The reader keeps in step with a run of pieces if and only if every fill keeps it so; it then
    * reads the frames of the run with waste frames put in. */
  lemma {:induction false} RunInStep(ps: seq<Piece>, n: nat)
    requires n <= |ps| && forall p :: p in ps && p.Whole? ==> AllFit(p.frames)
    ensures (forall i :: 0 <= i <= n ==> InStepAt(ps, i)) <==> forall i :: 0 <= i < n ==> KeepsStep(ps[i])
    ensures (forall i :: 0 <= i < n ==> KeepsStep(ps[i])) ==> ReadAt(ps, n)
    decreases n
  {
    hide InStepAt, ReadAt, KeepsStep, AllFit;
    if n == 0 {
      RunStarts(ps);
    } else {
      RunInStep(ps, n - 1);
      assert ps[n - 1] in ps;
      if forall i :: 0 <= i < n - 1 ==> KeepsStep(ps[i]) {
        NextInStep(ps, n - 1);
      }
    }
  }

  lemma {:induction false} PiecesEncoded(items: seq<SessionWrite>, plans: seq<seq<PaddingSize>>)
    requires |plans| == |items| && forall w :: w in items ==> Encodable(w)
    ensures forall p :: p in Pieces(items, plans) && p.Whole? ==> AllFit(p.frames)
  {
    if items != [] && !Stops(items[0]) {
      PiecesEncoded(items[1..], plans[1..]);
      assert Encodable(items[0]);
      OnlyFillers(ItemLen(items[0]), plans[0]);
    }
  }

  lemma {:induction false} OnlyFillers(remaining: nat, sizes: seq<PaddingSize>)
    ensures forall p :: p in Fills(remaining, sizes) ==> p.Filler?
    decreases |sizes|
  {
    if sizes != [] {
      match sizes[0]
      case Check => OnlyFillers(remaining, sizes[1..]);
      case Payload(n) => OnlyFillers(OneWrite(remaining, n).1, sizes[1..]);
    }
  }

  /** A whole run of the write loop and its reader, exactly, for every queue and every scheme: the
    * reader is in step after every piece if and only if every fill keeps it so, and has then read
    * the frames written with waste frames put in; these are all frames queued if and only if
    * nothing was lost. */
  lemma {:induction false} LoopReadInStep(items: seq<SessionWrite>, schemes: seq<Scheme>)
    requires |schemes| == |items| && forall w :: w in items ==> Encodable(w)
    ensures var ps := Pieces(items, Plans(schemes)); var r := Drain(FrameStep, (), BytesOf(ps));
            && ((forall i :: 0 <= i <= |ps| ==> InStepAt(ps, i)) <==> forall p :: p in ps ==> KeepsStep(p))
            && ((forall p :: p in ps ==> KeepsStep(p)) ==> r.ok && r.pending == [] && Woven(r.out, Wanted(ps)))
            && (Wanted(ps) == Queued(items) <==> NothingLost(items, Plans(schemes)))
  {
    var plans := Plans(schemes);
    PiecesEncoded(items, plans);
    EverythingSent(items, plans);
    hide Drain, FrameStep, BytesOf, Pieces, Wanted, Queued, NothingLost, KeepsStep, Woven, Plans;
    var ps := Pieces(items, plans);
    RunInStep(ps, |ps|);
    assert ps[..|ps|] == ps;
    if forall p :: p in ps ==> KeepsStep(p) {
      assert InStepAt(ps, |ps|);
    }
  }

  /** The limit is needed: one size that leaves 65536 bytes to fill, and the reader is out of step. */
  lemma LongFillSpoils(f: Frame)
    requires FrameFits(f)
    ensures var size := |EncodeFrame(f)| + HEADER_LEN + 0x1_0000; var ps := Pieces([One(f)], [[Payload(size)]]);
            ps == [Whole([f]), Filler(0x1_0000)] && !InStepAt(ps, 2)
  {
    var size, ps := |EncodeFrame(f)| + HEADER_LEN + 0x1_0000, [Whole([f]), Filler(0x1_0000)];
    hide EncodeFrame, EncodeFrames, InStepAt, Fills, Completes, SizesFit;
    OnePieces(f, size);
    RunStarts(ps);
    NextInStep(ps, 0);
    NextInStep(ps, 1);
  }

  lemma OnePieces(f: Frame, size: nat)
    requires FrameFits(f) && |EncodeFrame(f)| + HEADER_LEN < size
    ensures Pieces([One(f)], [[Payload(size)]]) == [Whole([f]), Filler(size - |EncodeFrame(f)| - HEADER_LEN)]
  {
    EncodeOne([f]);
    OnePlan(ItemLen(One(f)), size);
    hide EncodeFrame, EncodeFrames, Fills, Completes;
    assert Pieces([One(f)], [[Payload(size)]]) ==
           [Whole([f])] + [Filler(size - |EncodeFrame(f)| - HEADER_LEN)] + [];
  }

  lemma OnePlan(remaining: nat, size: nat)
    requires 0 < remaining && remaining + HEADER_LEN < size
    ensures var plan := [Payload(size)];
            Completes(remaining, plan) && Fills(remaining, plan) == [Filler(size - remaining - HEADER_LEN)]
  {
    var plan := [Payload(size)];
    assert plan[1..] == [];
  }
}
