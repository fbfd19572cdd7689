/** In which order requests are registered and written, and what that means for their replies.
  * Registering a waiter and writing its request are two steps with anything in between. */
module RequestOrder {
  import opened Bytes
  import opened PacketSession
  import Xudp

  /** `packet_target_key`, as an arbitrary function. */
  type Keys = Xudp.Target -> Key

  /** A registered waiter and what it asks for. */
  datatype Request = Request(entry: Entry, item: Xudp.Item)

  /** What happens to a request: its waiter is registered; later, under the writer's lock, it is
    * encoded and written, or refused by the encoder. */
  datatype Action = Registered(request: Request) | Wrote(request: Request) | Refused(request: Request)

  /** The requests registered, and those written, in the order of either. */
  function RequestsIn(log: seq<Action>): seq<Request> {
    if log == [] then []
    else
      var last := log[|log| - 1];
      RequestsIn(log[..|log| - 1]) + if last.Registered? then [last.request] else []
  }

  function WrittenIn(log: seq<Action>): seq<Request> {
    if log == [] then []
    else
      var last := log[|log| - 1];
      WrittenIn(log[..|log| - 1]) + if last.Wrote? then [last.request] else []
  }

  predicate Settled(log: seq<Action>, r: Request) {
    Wrote(r) in log || Refused(r) in log
  }

  predicate FreshId(log: seq<Action>, id: nat) {
    forall q :: q in RequestsIn(log) ==> q.entry.id != id
  }

  /** One more action: no id is registered twice, nothing is settled before it is registered or
    * twice, and the encoder decides which way. */
  predicate MayCome(keyOf: Keys, log: seq<Action>, a: Action) {
    var r := a.request;
    match a
    case Registered(_) =>
      r.entry.key == keyOf(r.item.target) && Xudp.ValidTarget(r.item.target) && FreshId(log, r.entry.id)
    case Wrote(_) => r in RequestsIn(log) && !Settled(log, r) && Xudp.Encodable(r.item)
    case Refused(_) => r in RequestsIn(log) && !Settled(log, r) && !Xudp.Encodable(r.item)
  }

  predicate Orderly(keyOf: Keys, log: seq<Action>) {
    log != [] ==> Orderly(keyOf, log[..|log| - 1]) && MayCome(keyOf, log[..|log| - 1], log[|log| - 1])
  }

  function Waiters(requests: seq<Request>): seq<Entry> {
    seq(|requests|, i requires 0 <= i < |requests| => requests[i].entry)
  }

  function Asked(requests: seq<Request>): seq<Xudp.Item> {
    seq(|requests|, i requires 0 <= i < |requests| => requests[i].item)
  }

  /** The ids registered under a key, in order, and those written. */
  function RegisteredIds(log: seq<Action>, k: Key): seq<nat> {
    Ids(Waiters(RequestsIn(log)), k)
  }

  function WrittenIds(log: seq<Action>, k: Key): seq<nat> {
    Ids(Waiters(WrittenIn(log)), k)
  }

  // ---- One action at a time. ----

  lemma LogNext(keyOf: Keys, log: seq<Action>, a: Action)
    ensures RequestsIn(log + [a]) == RequestsIn(log) + if a.Registered? then [a.request] else []
    ensures WrittenIn(log + [a]) == WrittenIn(log) + if a.Wrote? then [a.request] else []
    ensures Orderly(keyOf, log + [a]) <==> Orderly(keyOf, log) && MayCome(keyOf, log, a)
  {
    hide MayCome;
    assert (log + [a])[..|log|] == log;
  }

  lemma WaitersNext(requests: seq<Request>, r: Request)
    ensures Waiters(requests + [r]) == Waiters(requests) + [r.entry]
    ensures Asked(requests + [r]) == Asked(requests) + [r.item]
  {
  }

  lemma IdsNext(requests: seq<Request>, r: Request, k: Key)
    ensures Ids(Waiters(requests + [r]), k) == Ids(Waiters(requests), k) + if r.entry.key == k then [r.entry.id] else []
  {
    WaitersNext(requests, r);
    IdsAppend(Waiters(requests), [r.entry], k);
    IdsOne(r.entry, k);
  }

  lemma IdsNextInLog(log: seq<Action>, a: Action, k: Key)
    ensures var more := if a.request.entry.key == k then [a.request.entry.id] else [];
            && RegisteredIds(log + [a], k) == RegisteredIds(log, k) + (if a.Registered? then more else [])
            && WrittenIds(log + [a], k) == WrittenIds(log, k) + if a.Wrote? then more else []
  {
    assert (log + [a])[..|log|] == log;
    assert RequestsIn(log) + [] == RequestsIn(log) && WrittenIn(log) + [] == WrittenIn(log);
    assert RegisteredIds(log, k) + [] == RegisteredIds(log, k) && WrittenIds(log, k) + [] == WrittenIds(log, k);
    IdsNext(RequestsIn(log), a.request, k);
    IdsNext(WrittenIn(log), a.request, k);
  }

  lemma IdIsListed(requests: seq<Request>, k: Key, id: nat)
    ensures id in Ids(Waiters(requests), k) <==> exists q :: q in requests && q.entry == Entry(k, id)
  {
    var w := Waiters(requests);
    IdsMember(w, Entry(k, id));
    if Entry(k, id) in w {
      var i :| 0 <= i < |w| && w[i] == Entry(k, id);
      assert requests[i] in requests;
    }
    if q :| q in requests && q.entry == Entry(k, id) {
      var i :| 0 <= i < |requests| && requests[i] == q;
      assert w[i] == Entry(k, id);
    }
  }

  /** In every orderly log ids name requests, and only registered requests have been written. */
  lemma {:induction false} LogFacts(keyOf: Keys, log: seq<Action>)
    requires Orderly(keyOf, log)
    ensures forall q, r :: q in RequestsIn(log) && r in RequestsIn(log) && q.entry.id == r.entry.id ==> q == r
    ensures forall q :: q in WrittenIn(log) ==> q in RequestsIn(log) && Wrote(q) in log
    decreases |log|
  {
    hide Xudp.Encodable, Xudp.ValidTarget;
    if log != [] {
      LogFacts(keyOf, log[..|log| - 1]);
    }
  }

  lemma {:induction false} RegisteredDistinct(keyOf: Keys, log: seq<Action>, k: Key)
    requires Orderly(keyOf, log)
    ensures Distinct(RegisteredIds(log, k)) && forall id :: id in WrittenIds(log, k) ==> id in RegisteredIds(log, k)
    decreases |log|
  {
    if log != [] {
      var before, a := log[..|log| - 1], log[|log| - 1];
      assert log == before + [a];
      RegisteredDistinct(keyOf, before, k);
      IdsNextInLog(before, a, k);
      IdIsListed(RequestsIn(before), k, a.request.entry.id);
      hide RegisteredIds, WrittenIds;
      if a.Wrote? && a.request.entry.key == k {
        WrittenIsRegistered(before, a.request);
      }
    }
  }

  lemma WrittenIsRegistered(log: seq<Action>, r: Request)
    requires r in RequestsIn(log)
    ensures r.entry.id in RegisteredIds(log, r.entry.key)
  {
    IdIsListed(RequestsIn(log), r.entry.key, r.entry.id);
  }

  /** A request that is not settled has not been written. */
  lemma UnsettledUnwritten(keyOf: Keys, log: seq<Action>, r: Request)
    requires Orderly(keyOf, log) && r in RequestsIn(log) && !Settled(log, r)
    ensures r.entry.id !in WrittenIds(log, r.entry.key)
  {
    LogFacts(keyOf, log);
    IdIsListed(WrittenIn(log), r.entry.key, r.entry.id);
  }

  // ---- Written in the order of registration. ----

  /** Everything registered for the key of `r` before it has been written. */
  predicate NoneAhead(log: seq<Action>, r: Request) {
    var registered, written := RegisteredIds(log, r.entry.key), WrittenIds(log, r.entry.key);
    exists p ::
      0 <= p < |registered| && registered[p] == r.entry.id && forall i :: 0 <= i < p ==> registered[i] in written
  }

  /** At every write for key `k`, no request registered for it earlier is still unwritten, be it
    * refused or between its registration and its write. */
  predicate InTurn(log: seq<Action>, k: Key) {
    log != [] ==>
      var before, a := log[..|log| - 1], log[|log| - 1];
      InTurn(before, k) && (a.Wrote? && a.request.entry.key == k ==> NoneAhead(before, a.request))
  }

  lemma NextInTurn(w: seq<nat>, r: seq<nat>, id: nat)
    requires Distinct(r) && id !in w
    ensures w + [id] <= r <==>
            w <= r && exists p :: 0 <= p < |r| && r[p] == id && forall i :: 0 <= i < p ==> r[i] in w
  {
    if w + [id] <= r {
      assert (w + [id])[|w|] == r[|w|];
      assert forall i :: 0 <= i < |w| ==> (w + [id])[i] == w[i] == r[i];
    }
    if w <= r && exists p :: 0 <= p < |r| && r[p] == id && forall i :: 0 <= i < p ==> r[i] in w {
      var p :| 0 <= p < |r| && r[p] == id && forall i :: 0 <= i < p ==> r[i] in w;
      assert |w| == p;
    }
  }

  lemma PrefixGrows(w: seq<nat>, r: seq<nat>, id: nat)
    requires (forall x :: x in w ==> x in r) && id !in r
    ensures w <= r + [id] <==> w <= r
  {
    assert |w| > |r| ==> w[|r|] in w;
    assert (r + [id])[|r|] == id;
    if w <= r + [id] {
      assert |w| <= |r|;
      assert forall i :: 0 <= i < |w| ==> w[i] == (r + [id])[i] == r[i];
    }
    if w <= r {
      assert forall i :: 0 <= i < |w| ==> w[i] == r[i] == (r + [id])[i];
    }
  }

  /** Waiters and written requests, exactly: for every run, however its calls overlap, and every key,
    * the written ids are a prefix of the registered ids if and only if every write for the key was
    * in turn. */
  lemma {:induction false} WrittenLineUp(keyOf: Keys, log: seq<Action>, k: Key)
    requires Orderly(keyOf, log)
    ensures WrittenIds(log, k) <= RegisteredIds(log, k) <==> InTurn(log, k)
    decreases |log|
  {
    if log == [] {
      NoIds(k);
    } else {
      var before, a := log[..|log| - 1], log[|log| - 1];
      assert log == before + [a];
      WrittenLineUp(keyOf, before, k);
      RegisteredDistinct(keyOf, before, k);
      IdsNextInLog(before, a, k);
      var w, r := WrittenIds(before, k), RegisteredIds(before, k);
      assert w + [] == w && r + [] == r;
      if a.request.entry.key == k {
        if a.Registered? {
          IdIsListed(RequestsIn(before), k, a.request.entry.id);
          PrefixGrows(w, r, a.request.entry.id);
        } else if a.Wrote? {
          UnsettledUnwritten(keyOf, before, a.request);
          NextInTurn(w, r, a.request.entry.id);
        }
      }
    }
  }

  lemma NoIds(k: Key)
    ensures WrittenIds([], k) == [] && RegisteredIds([], k) == []
  {
  }

  // ---- Calls that do not overlap. ----

  /** Every registration is followed at once by its write or its refusal. */
  predicate Sequential(log: seq<Action>) {
    log != [] ==>
      && |log| >= 2 && Sequential(log[..|log| - 2])
      && log[|log| - 2].Registered? && !log[|log| - 1].Registered? && log[|log| - 1].request == log[|log| - 2].request
  }

  predicate RefusedFor(a: Action, k: Key) {
    a.Refused? && a.request.entry.key == k
  }

  predicate WroteFor(a: Action, k: Key) {
    a.Wrote? && a.request.entry.key == k
  }

  predicate NoneRefused(log: seq<Action>, k: Key) {
    forall a :: a in log ==> !RefusedFor(a, k)
  }

  /** Under key `k`, nothing was written behind a refused request. */
  predicate NoneBehindRefused(log: seq<Action>, k: Key) {
    forall i, j :: 0 <= i < j < |log| && RefusedFor(log[i], k) ==> !WroteFor(log[j], k)
  }

  lemma BehindNext(log: seq<Action>, a: Action, k: Key)
    ensures NoneBehindRefused(log + [a], k) <==>
            NoneBehindRefused(log, k) && (WroteFor(a, k) ==> NoneRefused(log, k))
    ensures NoneRefused(log + [a], k) <==> NoneRefused(log, k) && !RefusedFor(a, k)
  {
    hide RefusedFor, WroteFor;
    var all := log + [a];
    assert forall i :: 0 <= i < |log| ==> all[i] == log[i];
    assert all[|log|] == a;
    if NoneBehindRefused(all, k) {
      forall i, j | 0 <= i < j < |log| && RefusedFor(log[i], k)
        ensures !WroteFor(log[j], k)
      {
        assert RefusedFor(all[i], k) && all[j] == log[j];
      }
      forall b | b in log && WroteFor(a, k)
        ensures !RefusedFor(b, k)
      {
        var i :| 0 <= i < |log| && log[i] == b;
        assert all[i] == b && WroteFor(all[|log|], k);
      }
    }
  }

  /** The last call of a log without overlap. */
  lemma LastCall(keyOf: Keys, log: seq<Action>) returns (before: seq<Action>, r: Request, a: Action)
    requires Orderly(keyOf, log) && Sequential(log) && log != []
    ensures log == before + [Registered(r)] + [a] && |before| < |log| && a.request == r && !a.Registered?
    ensures Orderly(keyOf, before) && Sequential(before) && MayCome(keyOf, before, Registered(r))
  {
    hide MayCome;
    var n := |log|;
    before, r, a := log[..n - 2], log[n - 1].request, log[n - 1];
    var middle := log[..n - 1];
    assert middle[..n - 2] == before && middle[n - 2] == log[n - 2] == Registered(r);
    assert Orderly(keyOf, middle);
  }

  /** What one such call adds under its key. */
  lemma CallIds(log: seq<Action>, r: Request, a: Action, k: Key)
    requires a.request == r && !a.Registered?
    ensures var all := log + [Registered(r)] + [a]; var more := if r.entry.key == k then [r.entry.id] else [];
            && RegisteredIds(all, k) == RegisteredIds(log, k) + more
            && WrittenIds(all, k) == WrittenIds(log, k) + if a.Wrote? then more else []
  {
    IdsNextInLog(log, Registered(r), k);
    IdsNextInLog(log + [Registered(r)], a, k);
    hide RegisteredIds, WrittenIds;
    assert WrittenIds(log, k) + [] == WrittenIds(log, k);
    assert RegisteredIds(log, k) + (if r.entry.key == k then [r.entry.id] else []) + [] ==
           RegisteredIds(log, k) + if r.entry.key == k then [r.entry.id] else [];
  }

  /** Without overlap, everything registered has been written exactly if nothing was refused. */
  lemma {:induction false} SequentialFacts(keyOf: Keys, log: seq<Action>, k: Key)
    requires Orderly(keyOf, log) && Sequential(log)
    ensures NoneRefused(log, k) <==> forall id :: id in RegisteredIds(log, k) ==> id in WrittenIds(log, k)
    decreases |log|
  {
    if log == [] {
      NoIds(k);
    } else {
      var before, r, a := LastCall(keyOf, log);
      SequentialFacts(keyOf, before, k);
      CallIds(before, r, a, k);
      BehindNext(before, Registered(r), k);
      BehindNext(before + [Registered(r)], a, k);
      RegisteredDistinct(keyOf, before, k);
      IdIsListed(RequestsIn(before), k, r.entry.id);
      hide RegisteredIds, WrittenIds, NoneRefused, Orderly, Sequential, NoneBehindRefused;
      SameMembers(RegisteredIds(before, k), WrittenIds(before, k), r.entry.id);
      assert RegisteredIds(before, k) + [] == RegisteredIds(before, k);
      assert WrittenIds(before, k) + [] == WrittenIds(before, k);
    }
  }

  lemma SameMembers(r: seq<nat>, w: seq<nat>, id: nat)
    requires forall x :: x in w ==> x in r
    ensures id !in r ==> ((forall x :: x in r + [id] ==> x in w + [id]) <==> (forall x :: x in r ==> x in w))
    ensures id !in r ==> !(forall x :: x in r + [id] ==> x in w)
  {
    assert id in r + [id];
    assert forall x :: x in r ==> x in r + [id];
    assert forall x :: x in w + [id] && x != id ==> x in w;
  }

  /** For calls that do not overlap, writes are in turn exactly if nothing was written for the key
    * behind a refused request. */
  lemma {:induction false} SequentialInTurn(keyOf: Keys, log: seq<Action>, k: Key)
    requires Orderly(keyOf, log) && Sequential(log)
    ensures InTurn(log, k) <==> NoneBehindRefused(log, k)
    decreases |log|
  {
    if log != [] {
      var before, r, a := LastCall(keyOf, log);
      SequentialInTurn(keyOf, before, k);
      SequentialFacts(keyOf, before, k);
      BehindNext(before, Registered(r), k);
      BehindNext(before + [Registered(r)], a, k);
      TurnNext(before, Registered(r), k);
      TurnNext(before + [Registered(r)], a, k);
      hide Orderly, Sequential, InTurn, NoneAhead, NoneBehindRefused, NoneRefused, RegisteredIds, WrittenIds;
      if WroteFor(a, k) {
        LastInTurn(keyOf, before, r);
      }
    }
  }

  lemma TurnNext(log: seq<Action>, a: Action, k: Key)
    ensures InTurn(log + [a], k) <==> InTurn(log, k) && (WroteFor(a, k) ==> NoneAhead(log, a.request))
  {
    hide NoneAhead;
    assert (log + [a])[..|log|] == log;
  }

  /** Just registered: everything registered before it is ahead of it. */
  lemma LastInTurn(keyOf: Keys, log: seq<Action>, r: Request)
    requires Orderly(keyOf, log) && MayCome(keyOf, log, Registered(r))
    ensures NoneAhead(log + [Registered(r)], r) <==>
            forall id :: id in RegisteredIds(log, r.entry.key) ==> id in WrittenIds(log, r.entry.key)
  {
    var k, id := r.entry.key, r.entry.id;
    var registered, written := RegisteredIds(log, k), WrittenIds(log, k);
    IdsNextInLog(log, Registered(r), k);
    assert written + [] == written;
    IdIsListed(RequestsIn(log), k, id);
    hide RegisteredIds, WrittenIds;
    var all := registered + [id];
    assert forall i :: 0 <= i < |registered| ==> all[i] == registered[i];
    assert all[|registered|] == id && id !in registered;
    assert forall p :: 0 <= p < |all| && all[p] == id ==> p == |registered|;
  }
}
