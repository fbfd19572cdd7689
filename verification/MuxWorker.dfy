/** The VLESS mux worker: requests sent and replies read over one connection, in any interleaving,
  * and which waiter gets which reply. */
module MuxWorker {
  import opened Bytes
  import opened Framing
  import opened PacketSession
  import opened RequestOrder
  import VisionUnpadding
  import VisionStream
  import VisionTransparency
  import VlessMux
  import MuxTransparency
  import Xudp

  /** How far a request got before anyone waits for its reply. */
  datatype Sent = WorkerClosed | TooLarge | Broken | Awaited

  function Dispatch(keyOf: Keys, p: Xudp.Packet): Op {
    if p.target.Some? then Deliver(keyOf(p.target.value), Data(p.payload)) else DeliverNext(Data(p.payload))
  }

  function Dispatches(keyOf: Keys, packets: seq<Xudp.Packet>): seq<Op> {
    seq(|packets|, i requires 0 <= i < |packets| => Dispatch(keyOf, packets[i]))
  }

  /** The deliveries of a run, in order. */
  function Deliveries(ops: seq<Op>): seq<Op> {
    if ops == [] then []
    else
      var op := ops[|ops| - 1];
      Deliveries(ops[..|ops| - 1]) + if op.Deliver? || op.DeliverNext? then [op] else []
  }

  /** What the demultiplexer has gone through, and that it is where that leads. */
  ghost predicate Follows(s: Session, ops: seq<Op>) {
    AllowedRun(EMPTY_SESSION, ops) && s == Run(EMPTY_SESSION, ops)
  }

  lemma FollowsNext(s: Session, ops: seq<Op>, op: Op)
    requires Follows(s, ops) && Allowed(s, op)
    ensures Follows(Apply(s, op), ops + [op])
    ensures Deliveries(ops + [op]) == Deliveries(ops) + if op.Deliver? || op.DeliverNext? then [op] else []
  {
    hide Apply, Allowed;
    assert (ops + [op])[..|ops|] == ops;
  }

  /** What has been read so far, packet by packet, and what the buffer still holds. */
  ghost predicate ReadSoFar(
      uuid: Option<seq<Byte>>, received: seq<seq<Byte>>, packets: seq<Xudp.Packet>, buffer: seq<Byte>)
  {
    Drain(Xudp.XudpStep, (), VlessMux.Plain(uuid, Flatten(received))) ==
    Prepend(packets, Drain(Xudp.XudpStep, (), buffer))
  }

  lemma {:induction false} MoreRead(b: seq<Byte>, packets: seq<Xudp.Packet>, buffer: seq<Byte>, text: seq<Byte>)
    requires Drain(Xudp.XudpStep, (), b) == Prepend(packets, Drain(Xudp.XudpStep, (), buffer))
    ensures Drain(Xudp.XudpStep, (), b + text) == Prepend(packets, Drain(Xudp.XudpStep, (), buffer + text))
  {
    hide Drain, Xudp.XudpStep, Incremental;
    Xudp.XudpIncremental();
    DrainMore(Xudp.XudpStep, (), b, packets, (), buffer, text);
  }

  class Worker {
    const keyOf: Keys
    const writer: VlessMux.MuxWriter
    const pending: PacketSessionDemux
    const reader: Xudp.XudpReader
    const downlink: VisionUnpadding.Unpadder?
    var nextRequestId: nat
    var closed: bool
    /** Request ids taken whose waiters are not registered yet. */
    ghost var issued: set<nat>
    ghost var log: seq<Action>
    ghost var ops: seq<Op>
    ghost var received: seq<seq<Byte>>
    ghost var packets: seq<Xudp.Packet>

    ghost predicate Valid()
      reads this, writer, pending, reader, downlink
    {
      && ValidRequests() && ValidSession()
      && (!closed ==>
            && VlessMux.Unpads(writer.visionUuid, received, downlink)
            && ReadSoFar(writer.visionUuid, received, packets, reader.buffer))
    }

    /** Ids are used once; the waiters are those of the log, and so are the requests written. */
    ghost predicate ValidRequests()
      reads this, writer, pending
    {
      && writer.Valid() && Orderly(keyOf, log)
      && pending.registered == Waiters(RequestsIn(log)) && writer.accepted == Asked(WrittenIn(log))
      && (forall e :: e in pending.fifo ==> e in pending.registered)
      && (forall q :: q in RequestsIn(log) ==> q.entry.id < nextRequestId && q.entry.id !in issued)
      && (forall id :: id in issued ==> id < nextRequestId)
    }

    /** The demultiplexer refines its abstract run, in which the replies read are the deliveries. */
    ghost predicate ValidSession()
      reads this, pending
    {
      && pending.Valid() && Follows(pending.Abs(), ops) && Deliveries(ops) == Dispatches(keyOf, packets)
    }

    constructor (uuid: Option<seq<Byte>>, keyOf: Keys)
      requires VlessMux.ValidUuid(uuid)
      ensures Valid() && this.keyOf == keyOf && writer.visionUuid == uuid && !closed
      ensures log == [] && issued == {} && ops == [] && received == [] && packets == []
      ensures fresh(writer) && fresh(pending) && fresh(reader) && (downlink != null ==> fresh(downlink))
    {
      this.keyOf := keyOf;
      writer := new VlessMux.MuxWriter(uuid);
      pending := new PacketSessionDemux();
      reader := new Xudp.XudpReader();
      nextRequestId, closed, issued, log, ops, received, packets := 0, false, {}, [], [], [], [];
      if uuid.Some? {
        var unpadder := new VisionUnpadding.Unpadder(uuid.value);
        downlink := unpadder;
      } else {
        downlink := null;
      }
      new;
      StartsValid(uuid);
    }

    lemma StartsValid(uuid: Option<seq<Byte>>)
      requires VlessMux.ValidUuid(uuid) && writer.visionUuid == uuid && (downlink == null <==> uuid == None)
      requires writer.Valid() && writer.accepted == []
      requires pending.Valid() && pending.Abs() == EMPTY_SESSION
      requires reader.buffer == [] && issued == {} && log == [] && ops == [] && received == [] && packets == []
      requires downlink != null ==>
                 downlink.Valid() && downlink.State() == VisionStream.Start(uuid.value) && downlink.pending == []
      ensures Valid()
    {
      NothingYet(uuid, keyOf);
      hide Follows, InStep, ReadSoFar, Orderly, Waiters, Asked, RequestsIn, WrittenIn, Deliveries, Dispatches;
      hide Drain, VisionUnpadding.VisionStep, Flatten, VlessMux.MuxWire, Xudp.EncodeItems;
    }

    /** `close`, and the end of the reading loop: everyone still waiting is refused. */
    method Close(message: string)
      requires Valid()
      modifies this`closed, this`ops, pending
      ensures Valid() && closed && pending.registered == old(pending.registered) && pending.fifo == []
    {
      hide Follows, InStep, ReadSoFar, Orderly, Waiters, Asked, RequestsIn, WrittenIn, Deliveries, Dispatches;
      closed := true;
      ghost var s := pending.Abs();
      var order := pending.FailEveryone(message);
      FollowsNext(s, ops, FailAll(order, message));
      ops := ops + [FailAll(order, message)];
    }

    /** A waiter gives up: its reply timed out or could not be received any more. */
    method GiveUp(entry: Entry)
      requires Valid()
      modifies this`ops, pending
      ensures Valid() && ops == old(ops) + [Remove(entry)] && pending.Abs() == Apply(old(pending.Abs()), Remove(entry))
    {
      hide Follows, InStep, ReadSoFar, Orderly, Waiters, Asked, RequestsIn, WrittenIn, Deliveries, Dispatches, Without;
      FollowsNext(pending.Abs(), ops, Remove(entry));
      WithoutSubset(pending.fifo, entry);
      pending.RemoveById(entry.key, entry.id);
      ops := ops + [Remove(entry)];
    }

    /** `fetch_add` on the request counter. */
    method IssueId() returns (id: nat)
      requires Valid()
      modifies this`nextRequestId, this`issued
      ensures Valid() && id == old(nextRequestId) && nextRequestId == id + 1 && issued == old(issued) + {id}
    {
      hide Follows, InStep, ReadSoFar, Orderly, Waiters, Asked, RequestsIn, WrittenIn, Deliveries, Dispatches;
      id := nextRequestId;
      nextRequestId, issued := nextRequestId + 1, issued + {id};
    }

    /** The registration of the waiter, with an id taken before. */
    method RegisterRequest(id: nat, item: Xudp.Item) returns (r: Request)
      requires Valid() && id in issued && Xudp.ValidTarget(item.target)
      modifies this`issued, this`log, this`ops, pending
      ensures Valid() && r == Request(Entry(keyOf(item.target), id), item)
      ensures issued == old(issued) - {id} && log == old(log) + [Registered(r)] && ops == old(ops) + [Register(r.entry)]
      ensures r in RequestsIn(log) && !Settled(log, r)
      ensures pending.Abs() == Apply(old(pending.Abs()), Register(r.entry))
    {
      hide Follows, InStep, ReadSoFar, Deliveries, Dispatches, Xudp.ValidTarget, Orderly, VlessMux.Unpads;
      hide RequestsIn, WrittenIn, Waiters, Asked, Settled, Allowed, Drain, Ids;
      r := Request(Entry(keyOf(item.target), id), item);
      RegistrationComes(keyOf, log, r);
      RegistrationAllowed(pending.Abs(), r.entry);
      FollowsNext(pending.Abs(), ops, Register(r.entry));
      pending.RegisterWaiter(r.entry.key, r.entry.id);
      issued, log, ops := issued - {id}, log + [Registered(r)], ops + [Register(r.entry)];
    }

    /** Encoding and writing under the writer's lock; `writes` says whether the stream takes the
      * frame. */
    method WriteRequest(r: Request, writes: bool) returns (sent: Sent)
      requires Valid() && r in RequestsIn(log) && !Settled(log, r)
      modifies this`log, writer
      ensures Valid() && sent == if !Xudp.Encodable(r.item) then TooLarge else if !writes then Broken else Awaited
      ensures log == old(log) + [if sent == TooLarge then Refused(r) else Wrote(r)]
      ensures writer.accepted == old(writer.accepted) + if sent == TooLarge then [] else [r.item]
    {
      hide Follows, InStep, ReadSoFar, Deliveries, Dispatches, Xudp.Encodable, Orderly, VlessMux.Unpads, Settled;
      SettlingComes(keyOf, log, r);
      hide RequestsIn, WrittenIn, Waiters, Asked;
      var ok := writer.Send(r.item);
      if !ok {
        log := log + [Refused(r)];
        return TooLarge;
      }
      log := log + [Wrote(r)];
      return if writes then Awaited else Broken;
    }

    /** `send_packet` up to the wait for the reply, when nothing comes between its steps.  The
      * waiter is registered before the packet is encoded.  A refused packet leaves it behind; a
      * failed write removes it and closes the worker. */
    method SendPacket(item: Xudp.Item, writes: bool) returns (r: Request, sent: Sent)
      requires Valid() && Xudp.ValidTarget(item.target)
      modifies this, writer, pending
      ensures Valid() && r == Request(Entry(keyOf(item.target), old(nextRequestId)), item)
      ensures sent == if old(closed) then WorkerClosed else if !Xudp.Encodable(item) then TooLarge
                      else if !writes then Broken else Awaited
      ensures closed == (old(closed) || sent == Broken) && packets == old(packets) && received == old(received)
      ensures nextRequestId == old(nextRequestId) + if sent == WorkerClosed then 0 else 1
      ensures issued == old(issued) && (old(Sequential(log)) ==> Sequential(log))
      ensures log == if sent == WorkerClosed then old(log)
                     else old(log) + [Registered(r)] + [if sent == TooLarge then Refused(r) else Wrote(r)]
      ensures sent == WorkerClosed ==> ops == old(ops)
      ensures sent == TooLarge || sent == Awaited ==> ops == old(ops) + [Register(r.entry)]
      ensures sent == Broken ==> pending.fifo == []
    {
      hide Follows, InStep, ReadSoFar, Orderly, Waiters, Asked, RequestsIn, WrittenIn, Deliveries, Dispatches;
      hide Xudp.Encodable, Xudp.ValidTarget, Settled, VlessMux.Unpads, Sequential, Drain, Ids;
      if closed {
        return Request(Entry(keyOf(item.target), nextRequestId), item), WorkerClosed;
      }
      ghost var before := log;
      var id := IssueId();
      r := RegisterRequest(id, item);
      sent := WriteRequest(r, writes);
      SequentialNext(before, r, log[|log| - 1]);
      if sent == Broken {
        GiveUp(r.entry);
        Close("write failed");
      }
    }

    /** The reading half of `read_packet`: unpad what was read and append it. */
    method Receive(chunk: seq<Byte>)
      requires Valid() && !closed
      modifies this`received, reader, downlink
      ensures Valid() && received == old(received) + [chunk]
    {
      hide Follows, InStep, Orderly, Waiters, Asked, RequestsIn, WrittenIn, Deliveries, Dispatches;
      hide Drain, VisionUnpadding.VisionStep, Xudp.XudpStep, Flatten;
      var text := chunk;
      ghost var before, now := received, received + [chunk];
      assert now[..|before|] == before && now[..|before| + 1] == now;
      VlessMux.OneMore(writer.visionUuid, now, |before|);
      if downlink != null {
        var pieces, _ := downlink.Push(chunk);
        text := Flatten(pieces);
      }
      assert VlessMux.Plain(writer.visionUuid, Flatten(now)) ==
             VlessMux.Plain(writer.visionUuid, Flatten(before)) + text;
      MoreRead(VlessMux.Plain(writer.visionUuid, Flatten(before)), packets, reader.buffer, text);
      reader.buffer := reader.buffer + text;
      received := now;
    }

    /** One turn of the reading loop: the next packet, if a whole one has been read, goes to its
      * waiter; a malformed frame closes the worker. */
    method NextPacket() returns (r: Xudp.Taken)
      requires Valid() && !closed
      modifies this`packets, this`ops, this`closed, reader, pending
      ensures Valid() && log == old(log) && issued == old(issued) && received == old(received)
      ensures closed == (r == Xudp.Malformed)
      ensures r == Xudp.Malformed ==> !Drain(Xudp.XudpStep, (), old(reader.buffer)).ok
      ensures r.Got? ==> packets == old(packets) + [r.packet] && ops == old(ops) + [Dispatch(keyOf, r.packet)]
      ensures !r.Got? ==> packets == old(packets)
      ensures r == Xudp.NoPacket ==>
                ops == old(ops) && Drain(Xudp.XudpStep, (), reader.buffer) == Parse((), reader.buffer, [], true)
    {
      hide Follows, InStep, ReadSoFar, Orderly, Waiters, Asked, RequestsIn, WrittenIn, Deliveries, Dispatches, Dispatch;
      hide Drain, VlessMux.Unpads;
      ghost var buffer := reader.buffer;
      r := reader.TakePacket();
      match r {
        case NoPacket =>
          StillNothing(buffer, reader.buffer);
          ReadOn(writer.visionUuid, received, packets, buffer, reader.buffer);
        case Malformed =>
          closed := true;
          Close("malformed frame");
        case Got(p) =>
          ReadOne(writer.visionUuid, received, packets, buffer, p, reader.buffer);
          DispatchesSnoc(keyOf, packets, p);
          DispatchPacket(p);
          packets := packets + [p];
      }
    }

    /** A targeted reply goes to its key, one without a target to the oldest waiter. */
    method DispatchPacket(p: Xudp.Packet)
      requires ValidSession()
      modifies this`ops, pending
      ensures pending.Valid() && Follows(pending.Abs(), ops) && ops == old(ops) + [Dispatch(keyOf, p)]
      ensures Deliveries(ops) == old(Deliveries(ops)) + [Dispatch(keyOf, p)]
      ensures pending.Abs() == Apply(old(pending.Abs()), Dispatch(keyOf, p))
      ensures pending.registered == old(pending.registered)
      ensures forall e :: e in pending.fifo ==> e in old(pending.fifo)
    {
      hide Follows, InStep, Deliveries, Dispatches;
      FollowsNext(pending.Abs(), ops, Dispatch(keyOf, p));
      ghost var s := pending.Abs();
      DispatchKeeps(s, Dispatch(keyOf, p));
      if p.target.Some? {
        var _ := pending.DeliverTo(keyOf(p.target.value), Data(p.payload));
      } else {
        var _ := pending.DeliverOldest(Data(p.payload));
      }
      ops := ops + [Dispatch(keyOf, p)];
    }
  }

  lemma DispatchKeeps(s: Session, op: Op)
    requires op.Deliver? || op.DeliverNext?
    ensures Apply(s, op).registered == s.registered && forall e :: e in Apply(s, op).waiting ==> e in s.waiting
  {
    if op.Deliver? && Ids(s.waiting, op.key) != [] {
      WithoutSubset(s.waiting, Entry(op.key, Ids(s.waiting, op.key)[0]));
    }
  }

  lemma NothingYet(uuid: Option<seq<Byte>>, keyOf: Keys)
    requires VlessMux.ValidUuid(uuid)
    ensures Follows(EMPTY_SESSION, []) && Deliveries([]) == Dispatches(keyOf, []) && ReadSoFar(uuid, [], [], [])
    ensures Orderly(keyOf, []) && RequestsIn([]) == [] && WrittenIn([]) == [] && Waiters([]) == [] && Asked([]) == []
    ensures uuid.Some? ==>
              Drain(VisionUnpadding.VisionStep, VisionStream.Start(uuid.value), Flatten([])) ==
              Parse(VisionStream.Start(uuid.value), [], [], true)
  {
    VlessMux.NothingRead(uuid);
    MuxTransparency.NothingToDrain();
  }

  lemma ReadOne(uuid: Option<seq<Byte>>, received: seq<seq<Byte>>, packets: seq<Xudp.Packet>,
                before: seq<Byte>, p: Xudp.Packet, after: seq<Byte>)
    requires ReadSoFar(uuid, received, packets, before)
    requires Drain(Xudp.XudpStep, (), before) == Prepend([p], Drain(Xudp.XudpStep, (), after))
    ensures ReadSoFar(uuid, received, packets + [p], after)
  {
    hide Drain;
    PrependTwice(packets, [p], Drain(Xudp.XudpStep, (), after));
  }

  lemma ReadOn(uuid: Option<seq<Byte>>, received: seq<seq<Byte>>, packets: seq<Xudp.Packet>,
               before: seq<Byte>, after: seq<Byte>)
    requires ReadSoFar(uuid, received, packets, before)
    requires Drain(Xudp.XudpStep, (), before) == Drain(Xudp.XudpStep, (), after)
    ensures ReadSoFar(uuid, received, packets, after)
  {
    hide Drain;
  }

  /** Skipped frames are gone; what is left waits. */
  lemma StillNothing(before: seq<Byte>, after: seq<Byte>)
    requires Drain(Xudp.XudpStep, (), before) == Parse((), after, [], true)
    ensures Drain(Xudp.XudpStep, (), after) == Parse((), after, [], true)
  {
    Xudp.XudpIncremental();
    DrainStops(Xudp.XudpStep, (), before);
  }

  lemma DispatchesSnoc(keyOf: Keys, packets: seq<Xudp.Packet>, p: Xudp.Packet)
    ensures Dispatches(keyOf, packets + [p]) == Dispatches(keyOf, packets) + [Dispatch(keyOf, p)]
  {
    hide Dispatch;
  }

  /** Registering a request with a fresh id. */
  lemma RegistrationComes(keyOf: Keys, log: seq<Action>, r: Request)
    requires Orderly(keyOf, log) && FreshId(log, r.entry.id)
    requires r.entry.key == keyOf(r.item.target) && Xudp.ValidTarget(r.item.target)
    ensures var now := log + [Registered(r)];
            && Orderly(keyOf, now) && r in RequestsIn(now) && !Settled(now, r)
            && RequestsIn(now) == RequestsIn(log) + [r] && WrittenIn(now) == WrittenIn(log)
            && Waiters(RequestsIn(now)) == Waiters(RequestsIn(log)) + [r.entry] && r.entry !in Waiters(RequestsIn(log))
  {
    hide Xudp.ValidTarget, Xudp.Encodable;
    LogNext(keyOf, log, Registered(r));
    WaitersNext(RequestsIn(log), r);
    assert WrittenIn(log) + [] == WrittenIn(log);
    OnlyRegisteredSettle(keyOf, log, r);
    var w := Waiters(RequestsIn(log));
    forall i | 0 <= i < |w|
      ensures w[i] != r.entry
    {
      assert RequestsIn(log)[i] in RequestsIn(log);
    }
  }

  lemma RegistrationAllowed(s: Session, e: Entry)
    requires e !in s.registered && forall f :: f in s.waiting ==> f in s.registered
    ensures Allowed(s, Register(e)) && Apply(s, Register(e)).registered == s.registered + [e]
    ensures forall f :: f in Apply(s, Register(e)).waiting ==> f in Apply(s, Register(e)).registered
  {
  }

  lemma {:induction false} OnlyRegisteredSettle(keyOf: Keys, log: seq<Action>, r: Request)
    requires Orderly(keyOf, log)
    ensures Settled(log, r) ==> r in RequestsIn(log)
    decreases |log|
  {
    hide Xudp.ValidTarget, Xudp.Encodable;
    if log != [] {
      var before, a := log[..|log| - 1], log[|log| - 1];
      assert log == before + [a];
      OnlyRegisteredSettle(keyOf, before, r);
    }
  }

  /** Writing or refusing a registered request. */
  lemma SettlingComes(keyOf: Keys, log: seq<Action>, r: Request)
    requires Orderly(keyOf, log) && r in RequestsIn(log) && !Settled(log, r)
    ensures var now := log + [if Xudp.Encodable(r.item) then Wrote(r) else Refused(r)];
            && Orderly(keyOf, now) && RequestsIn(now) == RequestsIn(log)
            && Asked(WrittenIn(now)) == Asked(WrittenIn(log)) + if Xudp.Encodable(r.item) then [r.item] else []
    ensures Xudp.ValidTarget(r.item.target)
  {
    hide Xudp.ValidTarget, Xudp.Encodable, Settled;
    LogNext(keyOf, log, if Xudp.Encodable(r.item) then Wrote(r) else Refused(r));
    assert RequestsIn(log) + [] == RequestsIn(log) && WrittenIn(log) + [] == WrittenIn(log);
    assert Asked(WrittenIn(log)) + [] == Asked(WrittenIn(log));
    WaitersNext(WrittenIn(log), r);
    TargetsValid(keyOf, log);
  }

  lemma {:induction false} TargetsValid(keyOf: Keys, log: seq<Action>)
    requires Orderly(keyOf, log)
    ensures forall q :: q in RequestsIn(log) ==> Xudp.ValidTarget(q.item.target)
    decreases |log|
  {
    hide Xudp.ValidTarget, Xudp.Encodable;
    if log != [] {
      TargetsValid(keyOf, log[..|log| - 1]);
    }
  }

  lemma SequentialNext(log: seq<Action>, r: Request, a: Action)
    requires a.request == r && !a.Registered?
    ensures Sequential(log) ==> Sequential(log + [Registered(r)] + [a])
  {
    var now := log + [Registered(r)] + [a];
    assert now[..|now| - 2] == log && now[|now| - 2] == Registered(r) && now[|now| - 1] == a;
  }

  // ---- Who gets which reply. ----

  /** No waiter has given up and the worker has not failed. */
  ghost predicate Undisturbed(ops: seq<Op>) {
    forall i :: 0 <= i < |ops| ==> ops[i].Register? || ops[i].Deliver?
  }

  lemma {:induction false} RequestsAre(ops: seq<Op>, k: Key)
    requires Undisturbed(ops)
    ensures Requests(ops, k) == Ids(Run(EMPTY_SESSION, ops).registered, k)
    decreases |ops|
  {
    if ops != [] {
      var before, op := ops[..|ops| - 1], ops[|ops| - 1];
      RequestsAre(before, k);
      if op.Register? {
        IdsAppend(Run(EMPTY_SESSION, before).registered, [op.entry], k);
        IdsOne(op.entry, k);
      } else {
        DispatchKeeps(Run(EMPTY_SESSION, before), op);
        assert Requests(before, k) + [] == Requests(before, k);
      }
    }
  }

  /** In every undisturbed run of a worker, the i-th accepted reply for a key resolves the i-th
    * waiter registered for it; the i-th written request is that waiter's, for every i, exactly if
    * every write for the key was in turn. */
  lemma {:induction false} RepliesInOrder(w: Worker, k: Key)
    requires w.Valid() && Undisturbed(w.ops)
    ensures Counted(w.pending.Abs(), RegisteredIds(w.log, k), Accepted(w.ops, k), k)
    ensures WrittenIds(w.log, k) <= RegisteredIds(w.log, k) <==> InTurn(w.log, k)
    ensures Sequential(w.log) ==> (InTurn(w.log, k) <==> NoneBehindRefused(w.log, k))
  {
    hide Counted, WrittenIds, InTurn, Sequential, NoneBehindRefused;
    RepliesMatchRequests(w.ops, k);
    RequestsAre(w.ops, k);
    WrittenLineUp(w.keyOf, w.log, k);
    if Sequential(w.log) {
      SequentialInTurn(w.keyOf, w.log, k);
    }
  }

  /** The replies to a key among the deliveries. */
  function RepliesTo(ops: seq<Op>, k: Key): seq<Reply> {
    if ops == [] then []
    else
      var op := ops[|ops| - 1];
      RepliesTo(ops[..|ops| - 1], k) + if op.Deliver? && op.key == k then [op.reply] else []
  }

  /** No reply comes before its request. */
  ghost predicate NoneEarly(ops: seq<Op>, k: Key) {
    forall i :: 0 <= i <= |ops| ==> |RepliesTo(ops[..i], k)| <= |Requests(ops[..i], k)|
  }

  lemma {:induction false} AllRepliesAccepted(ops: seq<Op>, k: Key)
    requires NoneEarly(ops, k)
    ensures Accepted(ops, k) == RepliesTo(ops, k)
    decreases |ops|
  {
    if ops != [] {
      var before, op := ops[..|ops| - 1], ops[|ops| - 1];
      forall i | 0 <= i <= |before|
        ensures |RepliesTo(before[..i], k)| <= |Requests(before[..i], k)|
      {
        assert before[..i] == ops[..i];
      }
      AllRepliesAccepted(before, k);
      assert ops[..|ops|] == ops;
    }
  }

  lemma {:induction false} OnlyDeliveriesReply(ops: seq<Op>, k: Key)
    ensures RepliesTo(ops, k) == RepliesTo(Deliveries(ops), k)
    decreases |ops|
  {
    if ops != [] {
      var before, op := ops[..|ops| - 1], ops[|ops| - 1];
      OnlyDeliveriesReply(before, k);
      if op.Deliver? || op.DeliverNext? {
        assert (Deliveries(before) + [op])[..|Deliveries(before)|] == Deliveries(before);
      } else {
        assert RepliesTo(before, k) + [] == RepliesTo(before, k) && Deliveries(before) + [] == Deliveries(before);
      }
    }
  }

  /** The peer's replies, cut in any way on the wire and read to the end: exactly those packets have
    * been taken, and the buffer is empty. */
  lemma {:induction false} RepliesRead(uuid: Option<seq<Byte>>, received: seq<seq<Byte>>, packets: seq<Xudp.Packet>,
                    buffer: seq<Byte>, replies: seq<Xudp.Item>)
    requires VlessMux.ValidUuid(uuid) && forall i :: i in replies ==> Xudp.Encodable(i)
    requires ReadSoFar(uuid, received, packets, buffer)
    requires Flatten(received) == VlessMux.MuxWire(uuid, Xudp.EncodeItems(replies, true))
    requires uuid.Some? ==> MuxTransparency.ReadsFit(replies, |replies|)
    requires Drain(Xudp.XudpStep, (), buffer) == Parse((), buffer, [], true)
    ensures packets == Xudp.Delivered(replies) && buffer == []
  {
    hide Drain, Xudp.XudpStep, VlessMux.Plain, MuxTransparency.ReadsFit, Xudp.Encodable, Xudp.EncodeItems;
    assert packets + [] == packets;
    if uuid == None {
      hide VlessMux.MuxWire;
      Xudp.DrainItems(replies, true);
      PlainNone(received, replies);
    } else {
      hide VlessMux.MuxWire;
      MuxTransparency.MuxReadsExactly(uuid.value, replies, |replies|);
      assert replies[..|replies|] == replies;
      assert MuxTransparency.ReadAt(uuid.value, replies, |replies|);
    }
  }

  lemma PlainNone(received: seq<seq<Byte>>, replies: seq<Xudp.Item>)
    requires forall i :: i in replies ==> Xudp.Encodable(i)
    requires Flatten(received) == VlessMux.MuxWire(None, Xudp.EncodeItems(replies, true))
    ensures VlessMux.Plain(None, Flatten(received)) == Flatten(Xudp.EncodeItems(replies, true))
  {
  }

  /** Whatever frames the peer's stream consists of, padded in any way and cut in any way, keep-alives
    * and replies without a target among them: exactly the packets they carry have been taken. */
  lemma PeerStreamRead(uuid: Option<seq<Byte>>, received: seq<seq<Byte>>, packets: seq<Xudp.Packet>,
                       buffer: seq<Byte>, fs: seq<Xudp.PeerFrame>, ks: seq<VisionStream.Block>)
    requires VlessMux.ValidUuid(uuid) && forall f :: f in fs ==> Xudp.Readable(f)
    requires ReadSoFar(uuid, received, packets, buffer)
    requires uuid == None ==> Flatten(received) == Xudp.PeerBytes(fs)
    requires uuid.Some? ==>
               && Flatten(received) == uuid.value + VisionStream.EncodeBlocks(ks)
               && VisionStream.PaddedRun(ks) && VisionStream.Contents(ks) == Xudp.PeerBytes(fs)
    requires Drain(Xudp.XudpStep, (), buffer) == Parse((), buffer, [], true)
    ensures packets == Xudp.PeerPackets(fs) && buffer == []
  {
    if uuid.Some? {
      BlocksPlain(uuid.value, ks);
    }
    hide Drain, Xudp.XudpStep, Xudp.Readable, Xudp.PeerBytes, Xudp.PeerPackets;
    Xudp.DrainPeer(fs);
    assert packets + [] == packets;
  }

  lemma BlocksPlain(uuid: seq<Byte>, ks: seq<VisionStream.Block>)
    requires |uuid| == VisionUnpadding.UUID_LEN && VisionStream.PaddedRun(ks)
    ensures VlessMux.Plain(Some(uuid), uuid + VisionStream.EncodeBlocks(ks)) == VisionStream.Contents(ks)
  {
    var s, b := MuxTransparency.Padded(uuid), VisionStream.EncodeBlocks(ks);
    DrainWaits(VisionUnpadding.VisionStep, s, [], []);
    hide VisionUnpadding.VisionStep, VisionStream.EncodeBlocks, VisionStream.Contents, VisionStream.PaddedRun;
    VisionTransparency.DrainPrefix(uuid);
    VisionTransparency.MoreDrained(VisionStream.Start(uuid), uuid, s, [], b);
    VisionStream.DrainBlocks(s, ks, []);
    assert b + [] == b && VisionStream.Contents(ks) + [] == VisionStream.Contents(ks);
  }

  /** End to end: from the requests through a reply stream cut in any way to the waiters.  For each
    * key the replies resolve its waiters in order, none lost and none doubled; and the i-th reply
    * goes to the waiter of the i-th written request if every write for the key was in turn. */
  lemma {:induction false} EveryReplyArrives(w: Worker, replies: seq<Xudp.Item>, k: Key)
    requires w.Valid() && !w.closed && forall i :: i in replies ==> Xudp.Encodable(i)
    requires Flatten(w.received) == VlessMux.MuxWire(w.writer.visionUuid, Xudp.EncodeItems(replies, true))
    requires w.writer.visionUuid.Some? ==> MuxTransparency.ReadsFit(replies, |replies|)
    requires Drain(Xudp.XudpStep, (), w.reader.buffer) == Parse((), w.reader.buffer, [], true)
    requires Undisturbed(w.ops) && NoneEarly(w.ops, k)
    ensures var got := RepliesTo(Dispatches(w.keyOf, Xudp.Delivered(replies)), k);
            var s := w.pending.Abs();
            && RepliesFor(s.resolved, k) == got && |got| <= |RegisteredIds(w.log, k)|
            && Ids(Resolved(s.resolved), k) == RegisteredIds(w.log, k)[..|got|]
            && (InTurn(w.log, k) && |got| <= |WrittenIds(w.log, k)| ==>
                  Ids(Resolved(s.resolved), k) == WrittenIds(w.log, k)[..|got|])
  {
    hide Drain, Xudp.XudpStep, WrittenIds, RegisteredIds, InTurn, Dispatches, NoneEarly;
    RepliesRead(w.writer.visionUuid, w.received, w.packets, w.reader.buffer, replies);
    OnlyDeliveriesReply(w.ops, k);
    AllRepliesAccepted(w.ops, k);
    RepliesInOrder(w, k);
    WrittenLineUp(w.keyOf, w.log, k);
  }

  // ---- Runs in which a reply goes astray. ----

  const OVERSIZE := 0x1_0000

  /** Two waiters and one reply. */
  lemma FirstWaiterFirst(e: Entry, f: Entry, reply: Reply)
    requires e.key == f.key && e.id != f.id
    ensures var s := Run(EMPTY_SESSION, [Register(e)] + [Register(f)] + [Deliver(e.key, reply)]);
            s.resolved == [Resolution(e, reply)] && Ids(s.waiting, e.key) == [f.id]
  {
    RunSnoc([], Register(e));
    RunSnoc([Register(e)], Register(f));
    RunSnoc([Register(e)] + [Register(f)], Deliver(e.key, reply));
    var s := Run(EMPTY_SESSION, [Register(e)] + [Register(f)]);
    assert Run(EMPTY_SESSION, []) == EMPTY_SESSION && [] + [Register(e)] == [Register(e)] && [] + [e] == [e];
    hide Run;
    assert s.waiting == [e] + [f] && s.resolved == [];
    IdsAppend([e], [f], e.key);
    IdsOne(e, e.key);
    IdsOne(f, e.key);
    IdsWithout(s.waiting, e, e.key);
    WithoutFirstId([e.id, f.id]);
  }

  lemma RunSnoc(ops: seq<Op>, op: Op)
    ensures Run(EMPTY_SESSION, ops + [op]) == Apply(Run(EMPTY_SESSION, ops), op)
  {
    assert (ops + [op])[..|ops|] == ops;
  }

  /** With one frame received, its packet is the only one that can have been read, and it can be
    * read as long as it has not. */
  lemma OneReply(t: Xudp.Target, reply: seq<Byte>, packets: seq<Xudp.Packet>, buffer: seq<Byte>)
    requires Xudp.Encodable(Xudp.Item(t, reply)) && reply != []
    requires ReadSoFar(None, [Xudp.EncodeItem(Xudp.Item(t, reply), true)], packets, buffer)
    ensures packets + Drain(Xudp.XudpStep, (), buffer).out == [Xudp.Packet(Some(t), reply)]
    ensures Drain(Xudp.XudpStep, (), buffer).ok
    ensures |packets| == 1 ==> packets[0] == Xudp.Packet(Some(t), reply)
  {
    hide Xudp.XudpStep, Drain, Xudp.EncodeItem;
    MuxTransparency.OneFrame(Xudp.Item(t, reply), true);
    Xudp.DeliveredOne(Xudp.Item(t, reply));
    FlattenOne(Xudp.EncodeItem(Xudp.Item(t, reply), true));
    var out := Drain(Xudp.XudpStep, (), buffer).out;
    assert |packets| == 1 ==> (packets + out)[0] == packets[0];
  }

  /** For a caller that hands the worker a packet of 65536 bytes and then one of a single byte for
    * the same target: only the second is written, the peer answers it, and the answer goes to the
    * waiter of the first. */
  method RefusedRequestTakesReply(keyOf: Keys, t: Xudp.Target, reply: seq<Byte>)
      returns (w: Worker, refused: Request, written: Request)
    requires Xudp.Encodable(Xudp.Item(t, reply)) && reply != []
    ensures w.Valid() && !w.closed && w.keyOf == keyOf && w.writer.visionUuid == None
    ensures refused.item == Xudp.Item(t, Zeros(OVERSIZE)) && written.item == Xudp.Item(t, [1])
    ensures w.log == [Registered(refused)] + [Refused(refused)] + [Registered(written)] + [Wrote(written)]
    ensures w.received == [Xudp.EncodeItem(Xudp.Item(t, reply), true)]
    ensures w.pending.resolved == [Resolution(refused.entry, Data(reply))]
    ensures Ids(w.pending.fifo, keyOf(t)) == [written.entry.id]
  {
    w := new Worker(None, keyOf);
    refused, written := SendTwo(w, t);
    ReadReply(w, t, reply);
    FirstWaiterFirst(refused.entry, written.entry, Data(reply));
  }

  /** Two requests for one target, of which only the second can be encoded. */
  method SendTwo(w: Worker, t: Xudp.Target) returns (refused: Request, written: Request)
    requires w.Valid() && !w.closed && Xudp.Encodable(Xudp.Item(t, [])) && w.log == [] && w.ops == []
    modifies w, w.writer, w.pending
    ensures w.Valid() && !w.closed && refused.entry.key == written.entry.key == w.keyOf(t)
    ensures refused.entry.id != written.entry.id
    ensures refused.item == Xudp.Item(t, Zeros(OVERSIZE)) && written.item == Xudp.Item(t, [1])
    ensures w.log == [Registered(refused)] + [Refused(refused)] + [Registered(written)] + [Wrote(written)]
    ensures w.ops == [Register(refused.entry)] + [Register(written.entry)]
    ensures w.received == old(w.received) && w.packets == old(w.packets)
  {
    hide InStep, Follows, ReadSoFar, Orderly, Waiters, Asked, RequestsIn, WrittenIn, Deliveries, Dispatches;
    hide Sequential, VlessMux.Unpads, Drain, Ids;
    var sent;
    refused, sent := w.SendPacket(Xudp.Item(t, Zeros(OVERSIZE)), true);
    written, sent := w.SendPacket(Xudp.Item(t, [1]), true);
    assert [] + [Registered(refused)] == [Registered(refused)];
    assert [] + [Register(refused.entry)] == [Register(refused.entry)];
  }

  /** Two packets for one target, nothing refused: the second to register is the first to write, the
    * peer answers it, and the answer goes to the waiter of the other. */
  method CrossedRequestsCrossReplies(keyOf: Keys, t: Xudp.Target, reply: seq<Byte>)
      returns (w: Worker, a: Request, b: Request)
    requires Xudp.Encodable(Xudp.Item(t, reply)) && reply != []
    ensures w.Valid() && !w.closed && w.keyOf == keyOf && w.writer.visionUuid == None
    ensures a.item == Xudp.Item(t, [1]) && b.item == Xudp.Item(t, [2])
    ensures w.log == [Registered(a)] + [Registered(b)] + [Wrote(b)] + [Wrote(a)]
    ensures !InTurn(w.log, keyOf(t)) && NoneBehindRefused(w.log, keyOf(t))
    ensures w.received == [Xudp.EncodeItem(Xudp.Item(t, reply), true)]
    ensures w.pending.resolved == [Resolution(a.entry, Data(reply))] && Ids(w.pending.fifo, keyOf(t)) == [b.entry.id]
    ensures Undisturbed(w.ops)
  {
    hide Undisturbed;
    w := new Worker(None, keyOf);
    a, b := SendCrossed(w, t);
    CrossedLog(keyOf, a, b);
    ReadReply(w, t, reply);
    AllUndisturbed(a.entry, b.entry, Data(reply));
    FirstWaiterFirst(a.entry, b.entry, Data(reply));
  }

  lemma AllUndisturbed(e: Entry, f: Entry, reply: Reply)
    ensures Undisturbed([Register(e)] + [Register(f)] + [Deliver(e.key, reply)])
  {
  }

  method SendCrossed(w: Worker, t: Xudp.Target) returns (a: Request, b: Request)
    requires w.Valid() && !w.closed && Xudp.Encodable(Xudp.Item(t, [])) && w.log == [] && w.ops == []
    modifies w, w.writer, w.pending
    ensures w.Valid() && !w.closed && a.entry.key == b.entry.key == w.keyOf(t) && a.entry.id != b.entry.id
    ensures a.item == Xudp.Item(t, [1]) && b.item == Xudp.Item(t, [2])
    ensures w.log == [Registered(a)] + [Registered(b)] + [Wrote(b)] + [Wrote(a)]
    ensures w.ops == [Register(a.entry)] + [Register(b.entry)]
    ensures w.received == old(w.received) && w.packets == old(w.packets)
  {
    hide InStep, Follows, ReadSoFar, Orderly, Waiters, Asked, Deliveries, Dispatches, VlessMux.Unpads;
    hide RequestsIn, WrittenIn, Settled, Drain, Ids;
    var first := w.IssueId();
    a := w.RegisterRequest(first, Xudp.Item(t, [1]));
    var second := w.IssueId();
    ghost var log := w.log;
    b := w.RegisterRequest(second, Xudp.Item(t, [2]));
    StillOpen(log, b, a);
    var sent := w.WriteRequest(b, true);
    StillOpen(log + [Registered(b)], b, a);
    sent := w.WriteRequest(a, true);
    assert [] + [Registered(a)] == [Registered(a)] && [] + [Register(a.entry)] == [Register(a.entry)];
  }

  /** What happens to one request leaves another registered and open. */
  lemma StillOpen(log: seq<Action>, r: Request, other: Request)
    requires other in RequestsIn(log) && !Settled(log, other) && r != other
    ensures other in RequestsIn(log + [Registered(r)]) && !Settled(log + [Registered(r)], other)
    ensures other in RequestsIn(log + [Wrote(r)]) && !Settled(log + [Wrote(r)], other)
  {
    assert (log + [Registered(r)])[..|log|] == log && (log + [Wrote(r)])[..|log|] == log;
    assert RequestsIn(log) + [] == RequestsIn(log);
  }

  /** In such a log the first write is out of turn, though nothing was refused. */
  lemma CrossedLog(keyOf: Keys, a: Request, b: Request)
    requires a.entry.key == b.entry.key && a.entry.id != b.entry.id
    ensures var log := [Registered(a)] + [Registered(b)] + [Wrote(b)] + [Wrote(a)];
            !InTurn(log, a.entry.key) && NoneBehindRefused(log, a.entry.key)
  {
    hide RegisteredIds, WrittenIds;
    var k, log := a.entry.key, [Registered(a)] + [Registered(b)];
    var none: seq<nat> := [];
    IdsNextInLog([], Registered(a), k);
    NoIds(k);
    assert [] + [Registered(a)] == [Registered(a)] && none + [a.entry.id] == [a.entry.id] && none + none == none;
    assert RegisteredIds([Registered(a)], k) == [a.entry.id];
    assert WrittenIds([Registered(a)], k) == none;
    IdsNextInLog([Registered(a)], Registered(b), k);
    assert WrittenIds(log, k) == none;
    assert RegisteredIds(log, k) == [a.entry.id] + [b.entry.id];
    assert RegisteredIds(log, k)[0] == a.entry.id;
    assert !NoneAhead(log, b);
    hide NoneAhead;
    TurnNext(log, Wrote(b), k);
    TurnNext(log + [Wrote(b)], Wrote(a), k);
  }

  /** One reply frame is received and dispatched. */
  method ReadReply(w: Worker, t: Xudp.Target, reply: seq<Byte>)
    requires w.Valid() && !w.closed && w.writer.visionUuid == None && w.received == [] && w.packets == []
    requires Xudp.Encodable(Xudp.Item(t, reply)) && reply != []
    modifies w, w.reader, w.downlink, w.pending
    ensures w.Valid() && !w.closed && w.received == [Xudp.EncodeItem(Xudp.Item(t, reply), true)]
    ensures w.log == old(w.log) && w.ops == old(w.ops) + [Deliver(w.keyOf(t), Data(reply))]
  {
    hide InStep, Follows, ReadSoFar, Orderly, Waiters, Asked, RequestsIn, WrittenIn, Deliveries, Dispatches;
    hide Drain, Xudp.EncodeItem, Xudp.Encodable, VlessMux.Unpads, Ids;
    var frame := Xudp.EncodeItem(Xudp.Item(t, reply), true);
    assert [] + [frame] == [frame];
    w.Receive(frame);
    OneReply(t, reply, w.packets, w.reader.buffer);
    var r := w.NextPacket();
    if r != Xudp.Malformed {
      OneReply(t, reply, w.packets, w.reader.buffer);
    }
  }
}
