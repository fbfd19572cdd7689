/** The receiving side of an AnyTLS session: frames handed to streams, and a stream read in
  * pieces of the caller's size. */
module AnyTlsSession {
  import opened Bytes
  import opened Framing
  import opened AnyTlsFrames
  import opened AnyTlsPadding

  datatype Answer = Accepted | Refused(message: seq<Byte>)

  /** `delivered` is what has been sent into each stream's channel, message by message, and
    * `answers` what has been sent to whoever waits for a stream to be acknowledged. */
  datatype Session = Session(
    streams: set<nat>,
    delivered: map<nat, seq<seq<Byte>>>,
    synacks: set<nat>,
    answers: map<nat, Answer>,
    heartbeats: seq<nat>,
    closed: bool)

  function Messages(s: Session, id: nat): seq<seq<Byte>> {
    if id in s.delivered then s.delivered[id] else []
  }

  /** `close_session`: an already closed session is left as it is. */
  function CloseOnce(s: Session): Session {
    if s.closed then s
    else Session({}, s.delivered, {}, s.answers + (map id | id in s.synacks :: Refused([])), s.heartbeats, true)
  }

  /** What one frame does.  Unknown commands and waste do nothing. */
  function Handled(s: Session, f: Frame): Session {
    if f.cmd == CMD_PUSH then
      if f.streamId in s.streams
      then s.(delivered := s.delivered[f.streamId := Messages(s, f.streamId) + [f.data]]) else s
    else if f.cmd == CMD_FIN then s.(streams := s.streams - {f.streamId})
    else if f.cmd == CMD_SYNACK then
      if f.streamId in s.synacks
      then s.(synacks := s.synacks - {f.streamId},
              answers := s.answers[f.streamId := if f.data == [] then Accepted else Refused(f.data)]) else s
    else if f.cmd == CMD_ALERT then CloseOnce(s)
    else if f.cmd == CMD_HEART_REQUEST then s.(heartbeats := s.heartbeats + [f.streamId])
    else s
  }

  function HandledAll(s: Session, fs: seq<Frame>): Session
    decreases |fs|
  {
    if fs == [] then s else HandledAll(Handled(s, fs[0]), fs[1..])
  }

  class SessionReader {
    var buffer: seq<Byte>
    var streams: set<nat>
    var delivered: map<nat, seq<seq<Byte>>>
    var synacks: set<nat>
    var answers: map<nat, Answer>
    var heartbeats: seq<nat>
    var closed: bool

    ghost function Abs(): Session
      reads this
    {
      Session(streams, delivered, synacks, answers, heartbeats, closed)
    }

    constructor ()
      ensures buffer == [] && Abs() == Session({}, map[], {}, map[], [], false)
    {
      buffer, streams, delivered, synacks, answers, heartbeats, closed := [], {}, map[], {}, map[], [], false;
    }

    method CloseSession()
      modifies this
      ensures buffer == old(buffer) && Abs() == CloseOnce(old(Abs()))
    {
      if closed {
        return;
      }
      closed := true;
      answers, synacks := answers + (map id | id in synacks :: Refused([])), {};
      streams := {};
    }

    /** The part of `open_stream` that inserts a stream and its waiter. */
    method InsertStream(id: nat)
      modifies this
      ensures buffer == old(buffer) && Abs() == Happened(old(Abs()), Opens(id))
    {
      streams, synacks := streams + {id}, synacks + {id};
    }

    /** The removal behind the drop of a stream. */
    method RemoveStream(id: nat)
      modifies this
      ensures buffer == old(buffer) && Abs() == Happened(old(Abs()), Drops(id))
    {
      streams, synacks := streams - {id}, synacks - {id};
    }

    /** `close`: only the mark is set, so that a later alert finds the session closed. */
    method CloseHere()
      modifies this
      ensures buffer == old(buffer) && Abs() == Happened(old(Abs()), Closes)
    {
      closed := true;
    }

    method HandleFrame(f: Frame)
      modifies this
      ensures buffer == old(buffer) && Abs() == Handled(old(Abs()), f)
    {
      if f.cmd == 2 { // push
        if f.streamId in streams {
          var queue := if f.streamId in delivered then delivered[f.streamId] else [];
          delivered := delivered[f.streamId := queue + [f.data]];
        }
      } else if f.cmd == 3 { // fin
        streams := streams - {f.streamId};
      } else if f.cmd == 7 { // synack
        if f.streamId in synacks {
          synacks := synacks - {f.streamId};
          answers := answers[f.streamId := if f.data == [] then Accepted else Refused(f.data)];
        }
      } else if f.cmd == 5 { // alert
        CloseSession();
      } else if f.cmd == 8 { // heartbeat request
        heartbeats := heartbeats + [f.streamId];
      }
    }

    /** One turn of `read_loop`: append what was read, then handle every complete frame. */
    method Received(chunk: seq<Byte>)
      modifies this
      ensures var r := Drain(FrameStep, (), old(buffer) + chunk);
              buffer == r.pending && Abs() == HandledAll(old(Abs()), r.out)
    {
      buffer := buffer + chunk;
      ghost var fs := Drain(FrameStep, (), buffer).out;
      while true
        invariant HandledAll(Abs(), Drain(FrameStep, (), buffer).out) == HandledAll(old(Abs()), fs)
        invariant Drain(FrameStep, (), buffer).pending == Drain(FrameStep, (), old(buffer) + chunk).pending
        decreases |buffer|
      {
        if |buffer| < HEADER_LEN {
          return;
        }
        var n := HEADER_LEN + GetU16(buffer, 5);
        if |buffer| < n {
          return;
        }
        var frame := Frame(buffer[0], GetU32(buffer, 1), buffer[HEADER_LEN..n]);
        assert ([frame] + Drain(FrameStep, (), buffer[n..]).out)[1..] == Drain(FrameStep, (), buffer[n..]).out;
        buffer := buffer[n..];
        HandleFrame(frame);
      }
    }
  }

  // ---- What a stream gets out of a run. ----

  /** What happens to a session: a frame comes, or the local side acts. */
  datatype Event = Came(frame: Frame) | Opens(id: nat) | Drops(dropped: nat) | Closes

  function Happened(s: Session, e: Event): Session {
    match e
    case Came(f) => Handled(s, f)
    case Opens(id) => s.(streams := s.streams + {id}, synacks := s.synacks + {id})
    case Drops(id) => s.(streams := s.streams - {id}, synacks := s.synacks - {id})
    case Closes => s.(closed := true)
  }

  function HappenedAll(s: Session, es: seq<Event>): Session
    decreases |es|
  {
    if es == [] then s else HappenedAll(Happened(s, es[0]), es[1..])
  }

  /** The event ends stream `id`: it is finished or dropped, or an alert closes the session; an
    * alert to a session that is closed already ends nothing. */
  predicate Ends(e: Event, id: nat, closed: bool) {
    match e
    case Came(f) => (f.cmd == CMD_FIN && f.streamId == id) || (f.cmd == CMD_ALERT && !closed)
    case Drops(other) => other == id
    case _ => false
  }

  predicate ClosedBy(e: Event, closed: bool) {
    closed || e == Closes || (e.Came? && e.frame.cmd == CMD_ALERT)
  }

  /** The messages pushed to stream `id` before it ends. */
  function PushedTo(es: seq<Event>, id: nat, closed: bool): seq<seq<Byte>> {
    if es == [] || Ends(es[0], id, closed) then []
    else PushedBy(es[0], id) + PushedTo(es[1..], id, ClosedBy(es[0], closed))
  }

  function PushedBy(e: Event, id: nat): seq<seq<Byte>> {
    if e.Came? && e.frame.cmd == CMD_PUSH && e.frame.streamId == id then [e.frame.data] else []
  }

  lemma {:induction false} NothingAfterEnd(s: Session, es: seq<Event>, id: nat)
    requires id !in s.streams && Opens(id) !in es
    ensures Messages(HappenedAll(s, es), id) == Messages(s, id)
    decreases |es|
  {
    if es != [] {
      NothingAfterEnd(Happened(s, es[0]), es[1..], id);
    }
  }

  /** What one event does to an open stream. */
  lemma OneEvent(s: Session, e: Event, id: nat)
    requires id in s.streams && e != Opens(id)
    ensures var t := Happened(s, e);
            && t.closed == ClosedBy(e, s.closed) && (id in t.streams <==> !Ends(e, id, s.closed))
            && Messages(t, id) == Messages(s, id) + PushedBy(e, id)
            && (Ends(e, id, s.closed) ==> PushedBy(e, id) == [])
  {
    assert Messages(s, id) + [] == Messages(s, id);
  }

  /** Every open stream receives exactly its own pushes, in order, up to its end, whatever else
    * comes, is opened, dropped or closed in between. */
  lemma {:induction false} StreamGetsItsPushes(s: Session, es: seq<Event>, id: nat)
    requires id in s.streams && Opens(id) !in es
    ensures Messages(HappenedAll(s, es), id) == Messages(s, id) + PushedTo(es, id, s.closed)
    decreases |es|
  {
    assert Messages(s, id) + [] == Messages(s, id);
    if es != [] {
      hide Happened, Messages, Ends, ClosedBy, PushedBy;
      var e, t := es[0], Happened(s, es[0]);
      OneEvent(s, e, id);
      if id in t.streams {
        StreamGetsItsPushes(t, es[1..], id);
        Assoc(Messages(s, id), PushedBy(e, id), PushedTo(es[1..], id, t.closed));
      } else {
        NothingAfterEnd(t, es[1..], id);
      }
    }
  }

  /** What becomes of whoever waits for stream `id` to be acknowledged. */
  datatype Fate = Waits | Answered(answer: Answer) | Abandoned

  /** The first acknowledgement for the stream, the first alert, which closes the session, or the
    * drop of the stream decides. */
  function FateOf(es: seq<Event>, id: nat, closed: bool): Fate {
    if es == [] then Waits
    else match es[0]
      case Drops(other) => if other == id then Abandoned else FateOf(es[1..], id, closed)
      case Came(f) =>
        if f.cmd == CMD_SYNACK && f.streamId == id then Answered(if f.data == [] then Accepted else Refused(f.data))
        else if f.cmd == CMD_ALERT && !closed then Answered(Refused([]))
        else FateOf(es[1..], id, ClosedBy(es[0], closed))
      case _ => FateOf(es[1..], id, ClosedBy(es[0], closed))
  }

  lemma {:induction false} AnswerStays(s: Session, es: seq<Event>, id: nat)
    requires id !in s.synacks && Opens(id) !in es
    ensures var t := HappenedAll(s, es);
            && id !in t.synacks && (id in t.answers <==> id in s.answers)
            && (id in s.answers ==> t.answers[id] == s.answers[id])
    decreases |es|
  {
    if es != [] {
      AnswerStays(Happened(s, es[0]), es[1..], id);
    }
  }

  /** Everyone who waits for an acknowledgement is answered at most once, by what decides, and goes
    * on waiting as long as nothing has. */
  lemma {:induction false} AnsweredOnce(s: Session, es: seq<Event>, id: nat)
    requires id in s.synacks && id !in s.answers && Opens(id) !in es
    ensures var t := HappenedAll(s, es);
            match FateOf(es, id, s.closed)
            case Waits => id in t.synacks && id !in t.answers
            case Answered(a) => id !in t.synacks && id in t.answers && t.answers[id] == a
            case Abandoned => id !in t.synacks && id !in t.answers
    decreases |es|
  {
    if es != [] {
      var t := Happened(s, es[0]);
      if id in t.synacks {
        AnsweredOnce(t, es[1..], id);
      } else {
        AnswerStays(t, es[1..], id);
      }
    }
  }

  function HeartRequests(es: seq<Event>): seq<nat> {
    if es == [] then []
    else
      (if es[0].Came? && es[0].frame.cmd == CMD_HEART_REQUEST then [es[0].frame.streamId] else []) +
      HeartRequests(es[1..])
  }

  /** Every heartbeat request queues an answer, in order. */
  lemma {:induction false} HeartbeatsAnswered(s: Session, es: seq<Event>)
    ensures HappenedAll(s, es).heartbeats == s.heartbeats + HeartRequests(es)
    decreases |es|
  {
    if es != [] {
      var head := if es[0].Came? && es[0].frame.cmd == CMD_HEART_REQUEST then [es[0].frame.streamId] else [];
      assert Happened(s, es[0]).heartbeats == s.heartbeats + head;
      HeartbeatsAnswered(Happened(s, es[0]), es[1..]);
      Assoc(s.heartbeats, head, HeartRequests(es[1..]));
    }
  }

  /** Waste frames change nothing, so frames with waste woven in are handled as without. */
  lemma {:induction false} WasteIsInvisible(s: Session, fs: seq<Frame>, sent: seq<Frame>)
    requires Woven(fs, sent)
    ensures HandledAll(s, fs) == HandledAll(s, sent)
    decreases |fs|
  {
    if fs != [] {
      if sent != [] && fs[0] == sent[0] && Woven(fs[1..], sent[1..]) {
        WasteIsInvisible(Handled(s, fs[0]), fs[1..], sent[1..]);
      } else {
        assert Handled(s, fs[0]) == s;
        WasteIsInvisible(s, fs[1..], sent);
      }
    }
  }

  /** The frames among the events. */
  function FramesOf(es: seq<Event>): seq<Frame> {
    if es == [] then [] else (if es[0].Came? then [es[0].frame] else []) + FramesOf(es[1..])
  }

  function NotWaste(fs: seq<Frame>): seq<Frame> {
    if fs == [] then [] else (if IsWaste(fs[0]) then [] else [fs[0]]) + NotWaste(fs[1..])
  }

  /** Taking waste out of frames without waste changes nothing. */
  lemma {:induction false} NothingToTakeOut(fs: seq<Frame>)
    requires forall i :: 0 <= i < |fs| ==> fs[i].cmd != 0 || fs[i].streamId != 0
    ensures NotWaste(fs) == fs
  {
    if fs != [] {
      NothingToTakeOut(fs[1..]);
    }
  }

  lemma {:induction false} WovenNotWaste(fs: seq<Frame>, sent: seq<Frame>)
    requires Woven(fs, sent)
    ensures NotWaste(fs) == NotWaste(sent)
    decreases |fs|
  {
    if fs != [] {
      if sent != [] && fs[0] == sent[0] && Woven(fs[1..], sent[1..]) {
        WovenNotWaste(fs[1..], sent[1..]);
      } else {
        WovenNotWaste(fs[1..], sent);
      }
    }
  }

  lemma {:induction false} OnlyFrames(s: Session, es: seq<Event>)
    requires forall i :: 0 <= i < |es| ==> es[i].Came?
    ensures HappenedAll(s, es) == HandledAll(s, FramesOf(es))
    decreases |es|
  {
    if es != [] {
      OnlyFrames(Handled(s, es[0].frame), es[1..]);
      assert FramesOf(es)[1..] == FramesOf(es[1..]);
    }
  }

  /** Session transparency: whatever the write loop put on the wire for the queued items, cut in
    * any way, is decoded without residue as the frames sent, waste aside; and however their arrival
    * is interleaved with local events, each open stream receives exactly the pushes sent for it, up
    * to its end. */
  lemma {:induction false} SessionTransparent(wire: seq<Byte>, fs: seq<Frame>, sent: seq<Frame>, chunks: seq<seq<Byte>>,
                           s: Session, es: seq<Event>, id: nat)
    requires Carries(wire, fs, sent) && Flatten(chunks) == wire
    requires FramesOf(es) == FeedAll(FrameStep, Fresh(()), chunks).out && id in s.streams && Opens(id) !in es
    ensures var r := FeedAll(FrameStep, Fresh(()), chunks);
            && r.pending == [] && r.ok && r.out == fs && HandledAll(s, fs) == HandledAll(s, sent)
            && NotWaste(FramesOf(es)) == NotWaste(sent)
            && Messages(HappenedAll(s, es), id) == Messages(s, id) + PushedTo(es, id, s.closed)
    ensures (forall i :: 0 <= i < |sent| ==> sent[i].cmd != 0 || sent[i].streamId != 0) ==>
              NotWaste(FramesOf(es)) == sent
  {
    if forall i :: 0 <= i < |sent| ==> sent[i].cmd != 0 || sent[i].streamId != 0 {
      NothingToTakeOut(sent);
    }
    FramesRoundTrip(fs, chunks);
    WasteIsInvisible(s, fs, sent);
    WovenNotWaste(fs, sent);
    StreamGetsItsPushes(s, es, id);
  }

  // ---- Reading a stream. ----

  datatype ReadResult = Bytes(data: seq<Byte>) | Eof | Pending

  /** The message the next byte comes from. */
  function NextMessage(messages: seq<seq<Byte>>): seq<Byte> {
    if messages == [] then [] else if messages[0] != [] then messages[0] else NextMessage(messages[1..])
  }

  /** `AnyTlsStream` as a reader, once it has been acknowledged: the channel's queue, whether its
    * sender is gone, and the message being read. */
  class StreamReader {
    var incoming: seq<seq<Byte>>
    var ended: bool
    var current: Option<seq<Byte>>

    /** The bytes received and not yet read. */
    ghost function Unread(): seq<Byte>
      reads this
    {
      (if current.Some? then current.value else []) + Flatten(incoming)
    }

    ghost function Next(): seq<Byte>
      reads this
    {
      if current.Some? && current.value != [] then current.value else NextMessage(incoming)
    }

    /** What is to be read before the last queued message. */
    ghost function InFront(): seq<Byte>
      reads this
    {
      if incoming == [] then []
      else (if current.Some? then current.value else []) + Flatten(incoming[..|incoming| - 1])
    }

    /** The last of several messages is all of them exactly if nothing stands in front of it. */
    lemma LastRemains()
      ensures InFront() == [] <==> incoming == [] || incoming[|incoming| - 1] == Unread()
    {
      if incoming != [] {
        var first := if current.Some? then current.value else [];
        LastAppended(first, incoming);
        assert InFront() == [] ==> InFront() + incoming[|incoming| - 1] == incoming[|incoming| - 1];
      }
    }

    constructor ()
      ensures Unread() == [] && !ended
    {
      incoming, ended, current := [], false, None;
    }

    /** `poll_read`.  With room in the caller's buffer the bytes read are the next unread ones, as
      * many as the buffer and the message they come from allow, and none are lost.  Without room
      * every queued message replaces the one before it, and nothing is lost exactly if all in front
      * of the last one is empty. */
    method PollRead(capacity: nat) returns (r: ReadResult)
      modifies this
      ensures ended == old(ended)
      ensures r.Bytes? ==> |r.data| == (if |old(Next())| < capacity then |old(Next())| else capacity) > 0
      ensures r.Bytes? ==> r.data + Unread() == old(Unread())
      ensures r.Bytes? <==> capacity > 0 && old(Unread()) != []
      ensures !r.Bytes? ==> r == if ended then Eof else Pending
      ensures capacity > 0 && !r.Bytes? ==> Unread() == []
      ensures capacity == 0 ==>
                Unread() == if old(incoming) == [] then old(Unread()) else old(incoming)[|old(incoming)| - 1]
      ensures capacity == 0 ==> (Unread() == old(Unread()) <==> old(InFront()) == [])
    {
      LastRemains();
      hide Flatten, NextMessage, InFront;
      ghost var skipped := 0;
      while true
        invariant ended == old(ended)
        invariant capacity > 0 ==> Unread() == old(Unread()) && Next() == old(Next())
        invariant skipped <= |old(incoming)| && incoming == old(incoming)[skipped..]
        invariant capacity == 0 ==> current == if skipped == 0 then old(current) else Some(old(incoming)[skipped - 1])
        decreases |incoming|
      {
        if current.Some? {
          var n := if |current.value| < capacity then |current.value| else capacity;
          if n > 0 {
            var data := ReadCurrent(n);
            return Bytes(data);
          }
        }
        if incoming == [] {
          NothingQueued();
          return if ended then Eof else Pending;
        }
        NextQueued(incoming);
        current, incoming, skipped := Some(incoming[0]), incoming[1..], skipped + 1;
      }
    }

    /** Takes the first `n` bytes of the message being read. */
    method ReadCurrent(n: nat) returns (data: seq<Byte>)
      requires current.Some? && 0 < n <= |current.value|
      modifies this`current
      ensures data == old(current).value[..n] && data + Unread() == old(Unread())
    {
      hide Flatten;
      data := current.value[..n];
      var rest := current.value[n..];
      assert data + rest == current.value;
      Assoc(data, rest, Flatten(incoming));
      current := if rest == [] then None else Some(rest);
    }
  }

  lemma NothingQueued()
    ensures NextMessage([]) == [] && Flatten<Byte>([]) == []
  {
  }

  lemma NextQueued(incoming: seq<seq<Byte>>)
    requires incoming != []
    ensures Flatten(incoming) == incoming[0] + Flatten(incoming[1..]) == [] + Flatten(incoming)
    ensures NextMessage(incoming) == if incoming[0] != [] then incoming[0] else NextMessage(incoming[1..])
  {
  }

  lemma {:induction false} LastAppended(current: seq<Byte>, incoming: seq<seq<Byte>>)
    requires incoming != []
    ensures var k := |incoming| - 1; current + Flatten(incoming) == current + Flatten(incoming[..k]) + incoming[k]
  {
    var k := |incoming| - 1;
    assert incoming == incoming[..k] + [incoming[k]];
    FlattenSnoc(incoming[..k], incoming[k]);
    Assoc(current, Flatten(incoming[..k]), incoming[k]);
  }
}
