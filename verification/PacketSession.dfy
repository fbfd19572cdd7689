/** The demultiplexer that matches UDP replies to waiting requests: a map of per-key queues and a
  * global queue kept in step, refining one arrival-ordered list. */
module PacketSession {
  import opened Bytes

  type Key = string

  datatype Entry = Entry(key: Key, id: nat)

  datatype Reply = Data(payload: seq<int>) | Failed(message: string)

  /** A result sent on a waiter's one-shot channel. */
  datatype Resolution = Resolution(entry: Entry, reply: Reply)

  /** The request ids waiting under a key, oldest first. */
  function Ids(l: seq<Entry>, k: Key): seq<nat> {
    if l == [] then [] else (if l[0].key == k then [l[0].id] else []) + Ids(l[1..], k)
  }

  /** `retain` on the global queue: drops every entry equal to `e`. */
  function Without(l: seq<Entry>, e: Entry): seq<Entry> {
    if l == [] then [] else (if l[0] == e then [] else [l[0]]) + Without(l[1..], e)
  }

  /** `retain` on one key's queue. */
  function WithoutId(q: seq<nat>, id: nat): seq<nat> {
    if q == [] then [] else (if q[0] == id then [] else [q[0]]) + WithoutId(q[1..], id)
  }

  // ---- The abstract machine: one list in order of arrival. ----

  datatype Session = Session(
    waiting: seq<Entry>, resolved: seq<Resolution>, removed: seq<Entry>, registered: seq<Entry>)

  const EMPTY_SESSION := Session([], [], [], [])

  datatype Op =
    | Register(entry: Entry)
    | Deliver(key: Key, reply: Reply)
    | DeliverNext(next: Reply)
    | Remove(gone: Entry)
    | FailAll(order: seq<Entry>, message: string)

  function Resolve(s: Session, e: Entry, r: Reply): Session {
    s.(waiting := Without(s.waiting, e), resolved := s.resolved + [Resolution(e, r)])
  }

  function Refusals(order: seq<Entry>, message: string): seq<Resolution> {
    if order == [] then [] else [Resolution(order[0], Failed(message))] + Refusals(order[1..], message)
  }

  function Apply(s: Session, op: Op): Session {
    match op
    case Register(e) => s.(waiting := s.waiting + [e], registered := s.registered + [e])
    case Deliver(k, r) => if Ids(s.waiting, k) == [] then s else Resolve(s, Entry(k, Ids(s.waiting, k)[0]), r)
    case DeliverNext(r) =>
      if s.waiting == [] then s
      else s.(waiting := s.waiting[1..], resolved := s.resolved + [Resolution(s.waiting[0], r)])
    case Remove(e) =>
      if e in s.waiting then s.(waiting := Without(s.waiting, e), removed := s.removed + [e]) else s
    case FailAll(order, message) => s.(waiting := [], resolved := s.resolved + Refusals(order, message))
  }

  /** Failing everybody walks the queues in the map's order: any order that keeps each queue. */
  ghost predicate SameQueues(order: seq<Entry>, l: seq<Entry>) {
    forall k :: Ids(order, k) == Ids(l, k)
  }

  ghost predicate Allowed(s: Session, op: Op) {
    match op
    case Register(e) => e !in s.registered
    case FailAll(order, _) => SameQueues(order, s.waiting)
    case _ => true
  }

  // ---- Facts about queues. ----

  lemma {:induction false} IdsAppend(a: seq<Entry>, b: seq<Entry>, k: Key)
    ensures Ids(a + b, k) == Ids(a, k) + Ids(b, k)
  {
    if a == [] {
      assert a + b == b;
    } else {
      assert (a + b)[1..] == a[1..] + b;
      IdsAppend(a[1..], b, k);
    }
  }

  lemma IdsOne(e: Entry, k: Key)
    ensures Ids([e], k) == if e.key == k then [e.id] else []
  {
  }

  lemma {:induction false} IdsWithout(l: seq<Entry>, e: Entry, k: Key)
    ensures Ids(Without(l, e), k) == if k == e.key then WithoutId(Ids(l, k), e.id) else Ids(l, k)
  {
    if l != [] {
      IdsWithout(l[1..], e, k);
      var head := if l[0] == e then [] else [l[0]];
      IdsAppend(head, Without(l[1..], e), k);
      IdsOne(l[0], k);
      assert Ids(head, k) == if l[0] == e || l[0].key != k then [] else [l[0].id];
      assert ([l[0].id] + Ids(l[1..], k))[1..] == Ids(l[1..], k) == [] + Ids(l[1..], k);
    }
  }

  lemma {:induction false} WithoutAbsentId(q: seq<nat>, id: nat)
    requires id !in q
    ensures WithoutId(q, id) == q
  {
    if q != [] {
      WithoutAbsentId(q[1..], id);
    }
  }

  lemma {:induction false} IdsMember(l: seq<Entry>, e: Entry)
    ensures e in l <==> e.id in Ids(l, e.key)
  {
    if l != [] {
      IdsMember(l[1..], e);
      assert e in l <==> e == l[0] || e in l[1..];
    }
  }

  lemma {:induction false} IdsDistinct(l: seq<Entry>, k: Key)
    requires Distinct(l)
    ensures Distinct(Ids(l, k))
  {
    if l != [] {
      assert Distinct(l[1..]);
      IdsDistinct(l[1..], k);
      IdsMember(l[1..], l[0]);
      assert l[0] !in l[1..];
      var tail := Ids(l[1..], k);
      assert forall i, j :: 0 <= i < j < |tail| ==> tail[i] != tail[j];
    }
  }

  lemma {:induction false} WithoutSubset(l: seq<Entry>, e: Entry)
    ensures forall x :: x in Without(l, e) <==> x in l && x != e
    ensures Distinct(l) ==> Distinct(Without(l, e))
  {
    if l != [] {
      WithoutSubset(l[1..], e);
      assert Distinct(l) ==> Distinct(l[1..]) && l[0] !in l[1..];
      var rest := Without(l[1..], e);
      assert forall x :: x in l <==> x == l[0] || x in l[1..];
      if l[0] != e {
        assert forall x :: x in [l[0]] + rest <==> x == l[0] || x in rest;
        if Distinct(l) {
          assert l[0] !in rest && Distinct(rest);
          assert Distinct([l[0]] + rest);
        }
      }
    }
  }

  /** The first of distinct ids, removed, leaves the rest of the queue. */
  lemma WithoutFirstId(q: seq<nat>)
    requires q != [] && Distinct(q)
    ensures WithoutId(q, q[0]) == q[1..]
  {
    assert q[0] !in q[1..];
    WithoutAbsentId(q[1..], q[0]);
  }

  lemma {:induction false} WithoutAbsent(l: seq<Entry>, e: Entry)
    requires e !in l
    ensures Without(l, e) == l
  {
    if l != [] {
      WithoutAbsent(l[1..], e);
    }
  }

  // ---- The implementation's two structures. ----

  /** No queue is empty, and each is the global queue filtered by its key. */
  ghost predicate InStep(pending: map<Key, seq<nat>>, fifo: seq<Entry>) {
    && Distinct(fifo)
    && (forall e :: e in fifo ==> e.key in pending)
    && (forall k :: k in pending ==> pending[k] != [] && pending[k] == Ids(fifo, k))
  }

  /** A key without a queue has nobody waiting. */
  lemma NoQueue(pending: map<Key, seq<nat>>, fifo: seq<Entry>, k: Key)
    requires InStep(pending, fifo) && k !in pending
    ensures Ids(fifo, k) == []
  {
    if Ids(fifo, k) != [] {
      IdsMember(fifo, Entry(k, Ids(fifo, k)[0]));
    }
  }

  /** Queues are dropped as soon as they become empty. */
  function SetQueue(pending: map<Key, seq<nat>>, k: Key, queue: seq<nat>): map<Key, seq<nat>> {
    if queue == [] then pending - {k} else pending[k := queue]
  }

  lemma InStepPush(pending: map<Key, seq<nat>>, fifo: seq<Entry>, e: Entry)
    requires InStep(pending, fifo) && e !in fifo
    ensures InStep(pending[e.key := (if e.key in pending then pending[e.key] else []) + [e.id]], fifo + [e])
  {
    if e.key !in pending {
      NoQueue(pending, fifo, e.key);
    }
    forall k
      ensures Ids(fifo + [e], k) == Ids(fifo, k) + if k == e.key then [e.id] else []
    {
      IdsAppend(fifo, [e], k);
      IdsOne(e, k);
    }
  }

  lemma InStepWithout(pending: map<Key, seq<nat>>, fifo: seq<Entry>, e: Entry)
    requires InStep(pending, fifo) && e.key in pending
    ensures InStep(SetQueue(pending, e.key, WithoutId(pending[e.key], e.id)), Without(fifo, e))
  {
    WithoutSubset(fifo, e);
    forall k
      ensures Ids(Without(fifo, e), k) == if k == e.key then WithoutId(Ids(fifo, k), e.id) else Ids(fifo, k)
    {
      IdsWithout(fifo, e, k);
    }
    forall x | x in Without(fifo, e) && x.key == e.key
      ensures WithoutId(pending[e.key], e.id) != []
    {
      IdsMember(Without(fifo, e), x);
    }
  }

  /** The head of the global queue is the head of its key's queue. */
  lemma HeadIsFirst(fifo: seq<Entry>)
    requires fifo != [] && Distinct(fifo)
    ensures var e := fifo[0];
            && Ids(fifo, e.key) != [] && Ids(fifo, e.key)[0] == e.id
            && WithoutId(Ids(fifo, e.key), e.id) == Ids(fifo, e.key)[1..] && Without(fifo, e) == fifo[1..]
  {
    IdsDistinct(fifo, fifo[0].key);
    WithoutFirstId(Ids(fifo, fifo[0].key));
    assert fifo[0] !in fifo[1..];
    WithoutAbsent(fifo[1..], fifo[0]);
  }

  /** Taking the head of the global queue takes the head of its key's queue. */
  lemma DeliverHead(pending: map<Key, seq<nat>>, fifo: seq<Entry>)
    requires InStep(pending, fifo) && fifo != []
    ensures var e := fifo[0];
            && e.key in pending && pending[e.key] != [] && pending[e.key][0] == e.id
            && Position(pending[e.key], e.id) == 0 && pending[e.key][..0] + pending[e.key][1..] == pending[e.key][1..]
            && InStep(SetQueue(pending, e.key, pending[e.key][1..]), fifo[1..])
  {
    HeadIsFirst(fifo);
    InStepWithout(pending, fifo, fifo[0]);
  }

  class PacketSessionDemux {
    var pending: map<Key, seq<nat>>
    var fifo: seq<Entry>
    ghost var resolved: seq<Resolution>
    ghost var removed: seq<Entry>
    ghost var registered: seq<Entry>

    ghost function Abs(): Session
      reads this
    {
      Session(fifo, resolved, removed, registered)
    }

    ghost predicate Valid()
      reads this
    {
      InStep(pending, fifo)
    }

    constructor ()
      ensures Valid() && Abs() == EMPTY_SESSION
    {
      pending, fifo := map[], [];
      resolved, removed, registered := [], [], [];
    }

    method RegisterWaiter(key: Key, id: nat)
      requires Valid() && Entry(key, id) !in fifo
      modifies this
      ensures Valid() && Abs() == Apply(old(Abs()), Register(Entry(key, id)))
    {
      InStepPush(pending, fifo, Entry(key, id));
      pending := pending[key := (if key in pending then pending[key] else []) + [id]];
      fifo := fifo + [Entry(key, id)];
      registered := registered + [Entry(key, id)];
    }

    /** `remove_by_id`. */
    method RemoveById(key: Key, id: nat)
      requires Valid()
      modifies this
      ensures Valid() && Abs() == Apply(old(Abs()), Remove(Entry(key, id)))
    {
      var e := Entry(key, id);
      if e in fifo {
        removed := removed + [e];
      } else {
        WithoutAbsent(fifo, e);
      }
      if key in pending {
        InStepWithout(pending, fifo, e);
        pending := SetQueue(pending, key, WithoutId(pending[key], id));
      }
      fifo := Without(fifo, e);
    }

    /** `deliver`: the oldest waiter for the key gets the reply. */
    method DeliverTo(key: Key, reply: Reply) returns (delivered: bool)
      requires Valid()
      modifies this
      ensures Valid() && Abs() == Apply(old(Abs()), Deliver(key, reply))
      ensures delivered == (Ids(old(fifo), key) != [])
    {
      if key !in pending {
        NoQueue(pending, fifo, key);
        return false;
      }
      var queue := pending[key];
      var e := Entry(key, queue[0]);
      IdsDistinct(fifo, key);
      WithoutFirstId(queue);
      InStepWithout(pending, fifo, e);
      pending := SetQueue(pending, key, queue[1..]);
      fifo := Without(fifo, e);
      resolved := resolved + [Resolution(e, reply)];
      return true;
    }

    /** `deliver_next`: the oldest waiter of all gets the reply.  The loop skips heads of the
      * global queue that have no queue entry; in step there are none. */
    method DeliverOldest(reply: Reply) returns (delivered: bool)
      modifies this
      ensures old(Valid()) ==> Valid() && Abs() == Apply(old(Abs()), DeliverNext(reply))
      ensures old(Valid()) ==> delivered == (old(fifo) != [])
    {
      hide InStep, Ids, SetQueue;
      while fifo != []
        invariant removed == old(removed) && registered == old(registered) && resolved == old(resolved)
        invariant old(Valid()) ==> fifo == old(fifo) && pending == old(pending)
        decreases |fifo|
      {
        var e := fifo[0];
        if old(Valid()) {
          DeliverHead(pending, fifo);
        }
        fifo := fifo[1..];
        if e.key in pending {
          var queue := pending[e.key];
          var position := Position(queue, e.id);
          if position < |queue| {
            pending := SetQueue(pending, e.key, queue[..position] + queue[position + 1..]);
            resolved := resolved + [Resolution(e, reply)];
            return true;
          }
        }
      }
      return false;
    }

    /** `fail_all`: take every waiter out, then tell each the same error. */
    method FailEveryone(message: string) returns (order: seq<Entry>)
      requires Valid()
      modifies this
      ensures Valid() && SameQueues(order, old(fifo)) && Abs() == Apply(old(Abs()), FailAll(order, message))
    {
      order := TakeAll();
      for i := 0 to |order|
        invariant pending == map[] && fifo == [] && removed == old(removed) && registered == old(registered)
        invariant resolved + Refusals(order[i..], message) == old(resolved) + Refusals(order, message)
      {
        assert order[i..][1..] == order[i + 1..];
        resolved := resolved + [Resolution(order[i], Failed(message))];
      }
      assert order[|order|..] == [];
    }

    /** Empties both structures, queue by queue in whatever order the map yields its keys. */
    method TakeAll() returns (order: seq<Entry>)
      requires Valid()
      modifies this`pending, this`fifo
      ensures pending == map[] && fifo == [] && SameQueues(order, old(fifo))
    {
      hide Drained, SameQueues, InStep, Entries, Ids;
      ghost var waiting := fifo;
      NoneDrained(pending, waiting);
      fifo, order := [], [];
      while pending != map[]
        invariant Drained(pending, order, waiting) && fifo == []
        decreases pending.Keys
      {
        var key :| key in pending;
        DrainQueue(pending, order, waiting, key);
        order, pending := order + Entries(key, pending[key]), pending - {key};
      }
      AllDrained(order, waiting);
    }

    /** `pending_count`: the lengths of all queues together. */
    method PendingCount() returns (count: nat)
      requires Valid()
      ensures count == |fifo|
    {
      count := 0;
      var keys := pending.Keys;
      CountNone(fifo);
      assert pending.Keys - keys == {};
      while keys != {}
        invariant keys <= pending.Keys && count == CountIn(fifo, pending.Keys - keys)
        decreases keys
      {
        var key :| key in keys;
        CountOneMore(fifo, pending.Keys - keys, key);
        assert pending.Keys - (keys - {key}) == pending.Keys - keys + {key};
        count, keys := count + |pending[key]|, keys - {key};
      }
      assert pending.Keys - keys == pending.Keys;
      CountAll(fifo, pending.Keys);
    }
  }

  function Entries(key: Key, queue: seq<nat>): seq<Entry> {
    if queue == [] then [] else [Entry(key, queue[0])] + Entries(key, queue[1..])
  }

  lemma {:induction false} IdsEntries(key: Key, queue: seq<nat>, k: Key)
    ensures Ids(Entries(key, queue), k) == if k == key then queue else []
  {
    if queue != [] {
      IdsEntries(key, queue[1..], k);
      assert Entries(key, queue)[1..] == Entries(key, queue[1..]);
    }
  }

  lemma AppendQueue(order: seq<Entry>, key: Key, queue: seq<nat>)
    ensures forall k :: Ids(order + Entries(key, queue), k) == if k == key then Ids(order, k) + queue else Ids(order, k)
  {
    forall k
      ensures Ids(order + Entries(key, queue), k) == if k == key then Ids(order, k) + queue else Ids(order, k)
    {
      IdsAppend(order, Entries(key, queue), k);
      IdsEntries(key, queue, k);
    }
  }

  /** Queues still in the map are as they were; the others have moved to the list. */
  ghost predicate Drained(pending: map<Key, seq<nat>>, order: seq<Entry>, waiting: seq<Entry>) {
    && (forall k :: k in pending ==> pending[k] == Ids(waiting, k) && Ids(order, k) == [])
    && (forall k :: k !in pending ==> Ids(order, k) == Ids(waiting, k))
  }

  lemma NoneDrained(pending: map<Key, seq<nat>>, waiting: seq<Entry>)
    requires InStep(pending, waiting)
    ensures Drained(pending, [], waiting)
  {
    forall k | k !in pending
      ensures Ids(waiting, k) == []
    {
      NoQueue(pending, waiting, k);
    }
  }

  lemma DrainQueue(pending: map<Key, seq<nat>>, order: seq<Entry>, waiting: seq<Entry>, key: Key)
    requires Drained(pending, order, waiting) && key in pending
    ensures Drained(pending - {key}, order + Entries(key, pending[key]), waiting)
  {
    hide Ids, Entries;
    AppendQueue(order, key, pending[key]);
  }

  lemma AllDrained(order: seq<Entry>, waiting: seq<Entry>)
    requires Drained(map[], order, waiting)
    ensures SameQueues(order, waiting)
  {
  }

  /** How many waiters have a key among `keys`. */
  ghost function CountIn(l: seq<Entry>, keys: set<Key>): nat {
    if l == [] then 0 else (if l[0].key in keys then 1 else 0) + CountIn(l[1..], keys)
  }

  lemma {:induction false} CountNone(l: seq<Entry>)
    ensures CountIn(l, {}) == 0
  {
    if l != [] {
      CountNone(l[1..]);
    }
  }

  lemma {:induction false} CountOneMore(l: seq<Entry>, keys: set<Key>, k: Key)
    requires k !in keys
    ensures CountIn(l, keys + {k}) == CountIn(l, keys) + |Ids(l, k)|
  {
    if l != [] {
      CountOneMore(l[1..], keys, k);
    }
  }

  lemma {:induction false} CountAll(l: seq<Entry>, keys: set<Key>)
    requires forall e :: e in l ==> e.key in keys
    ensures CountIn(l, keys) == |l|
  {
    if l != [] {
      CountAll(l[1..], keys);
    }
  }

  /** The index of the first occurrence, or the length. */
  function Position(q: seq<nat>, id: nat): (r: nat)
    ensures r <= |q| && (r < |q| ==> q[r] == id) && id !in q[..r]
  {
    if q == [] || q[0] == id then 0 else 1 + Position(q[1..], id)
  }

  // ---- Whole runs of the abstract machine. ----

  function Run(s: Session, ops: seq<Op>): Session
    decreases |ops|
  {
    if ops == [] then s else Apply(Run(s, ops[..|ops| - 1]), ops[|ops| - 1])
  }

  ghost predicate AllowedRun(s: Session, ops: seq<Op>)
    decreases |ops|
  {
    ops == [] ||
    (AllowedRun(s, ops[..|ops| - 1]) && Allowed(Run(s, ops[..|ops| - 1]), ops[|ops| - 1]))
  }

  function Resolved(rs: seq<Resolution>): seq<Entry> {
    if rs == [] then [] else [rs[0].entry] + Resolved(rs[1..])
  }

  lemma {:induction false} ResolvedAppend(a: seq<Resolution>, b: seq<Resolution>)
    ensures Resolved(a + b) == Resolved(a) + Resolved(b)
  {
    if a == [] {
      assert a + b == b;
    } else {
      assert (a + b)[1..] == a[1..] + b;
      ResolvedAppend(a[1..], b);
    }
  }

  lemma {:induction false} ResolvedRefusals(order: seq<Entry>, message: string)
    ensures Resolved(Refusals(order, message)) == order
  {
    if order != [] {
      ResolvedRefusals(order[1..], message);
      assert Refusals(order, message)[1..] == Refusals(order[1..], message);
    }
  }

  /** Every registered waiter is in exactly one place. */
  ghost predicate Conserved(s: Session) {
    && multiset(s.registered) == multiset(s.waiting) + multiset(Resolved(s.resolved)) + multiset(s.removed)
    && Distinct(s.registered)
  }

  lemma {:induction false} WithoutMultiset(l: seq<Entry>, e: Entry)
    requires Distinct(l)
    ensures multiset(Without(l, e)) + (if e in l then multiset{e} else multiset{}) == multiset(l)
  {
    if l != [] {
      assert l == [l[0]] + l[1..];
      assert Distinct(l[1..]) && l[0] !in l[1..];
      WithoutMultiset(l[1..], e);
      assert e in l <==> e == l[0] || e in l[1..];
    }
  }

  lemma {:induction false} CountIds(l: seq<Entry>, e: Entry)
    ensures multiset(l)[e] == multiset(Ids(l, e.key))[e.id]
  {
    if l != [] {
      assert l == [l[0]] + l[1..];
      CountIds(l[1..], e);
    }
  }

  lemma SameQueuesSameWaiters(order: seq<Entry>, l: seq<Entry>)
    requires SameQueues(order, l)
    ensures multiset(order) == multiset(l)
  {
    forall e: Entry
      ensures multiset(order)[e] == multiset(l)[e]
    {
      CountIds(order, e);
      CountIds(l, e);
    }
  }

  lemma ResolveOne(s: Session, e: Entry, r: Reply)
    ensures Resolved(s.resolved + [Resolution(e, r)]) == Resolved(s.resolved) + [e]
  {
    ResolvedAppend(s.resolved, [Resolution(e, r)]);
    assert [Resolution(e, r)][1..] == [];
  }

  lemma DistinctFromCount(l: seq<Entry>, whole: seq<Entry>)
    requires Distinct(whole) && multiset(l) <= multiset(whole)
    ensures Distinct(l)
  {
    forall i, j | 0 <= i < j < |l|
      ensures l[i] != l[j]
    {
      if l[i] == l[j] {
        assert l == l[..i] + [l[i]] + l[i + 1..j] + [l[j]] + l[j + 1..];
        assert multiset(l)[l[i]] >= 2;
        AtMostOnce(whole, l[i]);
      }
    }
  }

  lemma {:induction false} AtMostOnce(l: seq<Entry>, e: Entry)
    requires Distinct(l)
    ensures multiset(l)[e] <= 1
  {
    if l != [] {
      assert l == [l[0]] + l[1..];
      assert Distinct(l[1..]) && l[0] !in l[1..];
      AtMostOnce(l[1..], e);
      assert e in multiset(l[1..]) <==> e in l[1..];
    }
  }

  lemma ResolveConserves(s: Session, e: Entry, r: Reply)
    requires Conserved(s) && e in s.waiting
    ensures Conserved(Resolve(s, e, r))
  {
    DistinctFromCount(s.waiting, s.registered);
    WithoutMultiset(s.waiting, e);
    ResolveOne(s, e, r);
  }

  lemma RegisterConserves(s: Session, e: Entry)
    requires Conserved(s) && e !in s.registered
    ensures Conserved(Apply(s, Register(e)))
  {
  }

  lemma RemoveConserves(s: Session, e: Entry)
    requires Conserved(s)
    ensures Conserved(Apply(s, Remove(e)))
  {
    DistinctFromCount(s.waiting, s.registered);
    WithoutMultiset(s.waiting, e);
  }

  lemma FailAllConserves(s: Session, order: seq<Entry>, message: string)
    requires Conserved(s) && SameQueues(order, s.waiting)
    ensures Conserved(Apply(s, FailAll(order, message)))
  {
    SameQueuesSameWaiters(order, s.waiting);
    ResolvedAppend(s.resolved, Refusals(order, message));
    ResolvedRefusals(order, message);
  }

  /** A delivery resolves the head of a queue, and the oldest waiter heads its own queue. */
  lemma DeliveriesResolve(s: Session, k: Key, r: Reply)
    requires Distinct(s.waiting)
    ensures Ids(s.waiting, k) != [] ==> Entry(k, Ids(s.waiting, k)[0]) in s.waiting
    ensures s.waiting != [] ==>
              && Apply(s, DeliverNext(r)) == Resolve(s, s.waiting[0], r)
              && Ids(s.waiting, s.waiting[0].key) != [] && Ids(s.waiting, s.waiting[0].key)[0] == s.waiting[0].id
  {
    if Ids(s.waiting, k) != [] {
      IdsMember(s.waiting, Entry(k, Ids(s.waiting, k)[0]));
    }
    if s.waiting != [] {
      HeadIsFirst(s.waiting);
    }
  }

  lemma {:induction false} ApplyConserves(s: Session, op: Op)
    requires Conserved(s) && Allowed(s, op)
    ensures Conserved(Apply(s, op))
  {
    DistinctFromCount(s.waiting, s.registered);
    match op
    case Register(e) => RegisterConserves(s, e);
    case Deliver(k, r) =>
      DeliveriesResolve(s, k, r);
      if Ids(s.waiting, k) != [] {
        ResolveConserves(s, Entry(k, Ids(s.waiting, k)[0]), r);
      }
    case DeliverNext(r) =>
      DeliveriesResolve(s, "", r);
      if s.waiting != [] {
        ResolveConserves(s, s.waiting[0], r);
      }
    case Remove(e) => RemoveConserves(s, e);
    case FailAll(order, message) => FailAllConserves(s, order, message);
  }

  /** In every reachable state each registered waiter is exactly one of waiting, resolved once,
    * or removed. */
  lemma {:induction false} WaitersConserved(ops: seq<Op>)
    requires AllowedRun(EMPTY_SESSION, ops)
    ensures Conserved(Run(EMPTY_SESSION, ops))
    decreases |ops|
  {
    if ops != [] {
      WaitersConserved(ops[..|ops| - 1]);
      ApplyConserves(Run(EMPTY_SESSION, ops[..|ops| - 1]), ops[|ops| - 1]);
    }
  }

  /** Under every key, waiters are resolved in the order in which they registered. */
  ghost predicate InOrder(s: Session) {
    forall k :: Ids(s.registered, k) == Ids(Resolved(s.resolved), k) + Ids(s.waiting, k)
  }

  lemma ApplyInOrder(s: Session, op: Op)
    requires Conserved(s) && InOrder(s) && Allowed(s, op) && !op.Remove?
    ensures InOrder(Apply(s, op))
  {
    DistinctFromCount(s.waiting, s.registered);
    forall k
      ensures var t := Apply(s, op); Ids(t.registered, k) == Ids(Resolved(t.resolved), k) + Ids(t.waiting, k)
    {
      ApplyKeyInOrder(s, op, k);
    }
  }

  lemma ApplyKeyInOrder(s: Session, op: Op, k: Key)
    requires Ids(s.registered, k) == Ids(Resolved(s.resolved), k) + Ids(s.waiting, k)
    requires Distinct(s.waiting) && Allowed(s, op) && !op.Remove?
    ensures var t := Apply(s, op); Ids(t.registered, k) == Ids(Resolved(t.resolved), k) + Ids(t.waiting, k)
  {
    hide Ids, Resolved, Refusals, Without;
    match op
    case Register(e) => RegisterKeyInOrder(s, e, k);
    case Deliver(k', r) =>
      if Ids(s.waiting, k') != [] {
        ResolveKeyInOrder(s, Entry(k', Ids(s.waiting, k')[0]), r, k);
      }
    case DeliverNext(r) =>
      DeliveriesResolve(s, "", r);
      if s.waiting != [] {
        ResolveKeyInOrder(s, s.waiting[0], r, k);
      }
    case FailAll(order, message) => FailAllKeyInOrder(s, order, message, k);
  }

  lemma RegisterKeyInOrder(s: Session, e: Entry, k: Key)
    ensures var t := Apply(s, Register(e)); var more := if e.key == k then [e.id] else [];
            t.resolved == s.resolved && Ids(t.registered, k) == Ids(s.registered, k) + more &&
            Ids(t.waiting, k) == Ids(s.waiting, k) + more
  {
    IdsAppend(s.registered, [e], k);
    IdsAppend(s.waiting, [e], k);
    IdsOne(e, k);
  }

  lemma FailAllKeyInOrder(s: Session, order: seq<Entry>, message: string, k: Key)
    requires SameQueues(order, s.waiting)
    ensures var t := Apply(s, FailAll(order, message));
            t.registered == s.registered && Ids(t.waiting, k) == [] &&
            Ids(Resolved(t.resolved), k) == Ids(Resolved(s.resolved), k) + Ids(s.waiting, k)
  {
    ResolvedAppend(s.resolved, Refusals(order, message));
    ResolvedRefusals(order, message);
    IdsAppend(Resolved(s.resolved), order, k);
  }

  /** Resolving the head of its key's queue moves one id from the queue to the resolutions. */
  lemma ResolveKeyInOrder(s: Session, e: Entry, r: Reply, k: Key)
    requires Distinct(s.waiting) && Ids(s.waiting, e.key) != [] && Ids(s.waiting, e.key)[0] == e.id
    ensures var t := Resolve(s, e, r);
            if k == e.key
            then Ids(Resolved(t.resolved), k) == Ids(Resolved(s.resolved), k) + [e.id] &&
                 Ids(t.waiting, k) == Ids(s.waiting, k)[1..]
            else Ids(Resolved(t.resolved), k) == Ids(Resolved(s.resolved), k) && Ids(t.waiting, k) == Ids(s.waiting, k)
  {
    IdsDistinct(s.waiting, e.key);
    WithoutFirstId(Ids(s.waiting, e.key));
    IdsWithout(s.waiting, e, k);
    ResolveInOrder(s, e, r, k);
  }

  lemma ResolveInOrder(s: Session, e: Entry, r: Reply, k: Key)
    ensures Ids(Resolved(s.resolved + [Resolution(e, r)]), k) ==
            Ids(Resolved(s.resolved), k) + if k == e.key then [e.id] else []
  {
    ResolveOne(s, e, r);
    IdsAppend(Resolved(s.resolved), [e], k);
    IdsOne(e, k);
  }

  /** Without removals, the i-th resolution under a key is of the i-th waiter registered under it,
    * however targeted and targetless replies for any keys are interleaved. */
  lemma {:induction false} ResolvedInOrder(ops: seq<Op>)
    requires AllowedRun(EMPTY_SESSION, ops) && forall i :: 0 <= i < |ops| ==> !ops[i].Remove?
    ensures InOrder(Run(EMPTY_SESSION, ops))
    decreases |ops|
  {
    if ops != [] {
      ResolvedInOrder(ops[..|ops| - 1]);
      WaitersConserved(ops[..|ops| - 1]);
      ApplyInOrder(Run(EMPTY_SESSION, ops[..|ops| - 1]), ops[|ops| - 1]);
    }
  }

  /** What a requester under `k` should see, by counting alone: a targeted reply is accepted when
    * fewer replies than requests have come for its key. */
  function Requests(ops: seq<Op>, k: Key): seq<nat>
    decreases |ops|
  {
    if ops == [] then []
    else
      var op := ops[|ops| - 1];
      Requests(ops[..|ops| - 1], k) + if op.Register? && op.entry.key == k then [op.entry.id] else []
  }

  function Accepted(ops: seq<Op>, k: Key): seq<Reply>
    decreases |ops|
  {
    if ops == [] then []
    else
      var op, before := ops[|ops| - 1], Accepted(ops[..|ops| - 1], k);
      if op.Deliver? && op.key == k && |before| < |Requests(ops[..|ops| - 1], k)| then before + [op.reply] else before
  }

  /** The replies that waiters under `k` received, in order. */
  function RepliesFor(rs: seq<Resolution>, k: Key): seq<Reply> {
    if rs == [] then [] else (if rs[0].entry.key == k then [rs[0].reply] else []) + RepliesFor(rs[1..], k)
  }

  lemma {:induction false} RepliesSnoc(rs: seq<Resolution>, x: Resolution, k: Key)
    ensures RepliesFor(rs + [x], k) == RepliesFor(rs, k) + if x.entry.key == k then [x.reply] else []
  {
    if rs == [] {
      assert rs + [x] == [x] && [x][1..] == [];
    } else {
      assert (rs + [x])[1..] == rs[1..] + [x];
      RepliesSnoc(rs[1..], x, k);
    }
  }

  /** What the abstract machine has done for `k` is what counting says. */
  ghost predicate Counted(s: Session, requests: seq<nat>, accepted: seq<Reply>, k: Key) {
    && |accepted| <= |requests| && RepliesFor(s.resolved, k) == accepted
    && Ids(Resolved(s.resolved), k) == requests[..|accepted|]
    && Ids(s.waiting, k) == requests[|accepted|..]
  }

  lemma RegisterCounted(s: Session, e: Entry, requests: seq<nat>, accepted: seq<Reply>, k: Key)
    requires Counted(s, requests, accepted, k)
    ensures Counted(Apply(s, Register(e)), requests + if e.key == k then [e.id] else [], accepted, k)
  {
    IdsAppend(s.waiting, [e], k);
    IdsOne(e, k);
  }

  lemma DeliverCounted(s: Session, k': Key, r: Reply, requests: seq<nat>, accepted: seq<Reply>, k: Key)
    requires Counted(s, requests, accepted, k) && Distinct(s.waiting)
    ensures Counted(Apply(s, Deliver(k', r)), requests,
                    if k' == k && |accepted| < |requests| then accepted + [r] else accepted, k)
  {
    if Ids(s.waiting, k') != [] {
      var e := Entry(k', Ids(s.waiting, k')[0]);
      ResolveKeyInOrder(s, e, r, k);
      RepliesSnoc(s.resolved, Resolution(e, r), k);
      if k' == k {
        assert requests[|accepted|..][1..] == requests[|accepted| + 1..];
        assert requests[..|accepted|] + [requests[|accepted|]] == requests[..|accepted| + 1];
      }
    }
  }

  /** With targeted replies only, the i-th accepted reply for a key goes to the i-th waiter
    * registered for that key, whatever order the targets arrive in. */
  lemma {:induction false} RepliesMatchRequests(ops: seq<Op>, k: Key)
    requires AllowedRun(EMPTY_SESSION, ops)
    requires forall i :: 0 <= i < |ops| ==> ops[i].Register? || ops[i].Deliver?
    ensures Counted(Run(EMPTY_SESSION, ops), Requests(ops, k), Accepted(ops, k), k)
    decreases |ops|
  {
    if ops != [] {
      var before, op := ops[..|ops| - 1], ops[|ops| - 1];
      var s := Run(EMPTY_SESSION, before);
      RepliesMatchRequests(before, k);
      match op
      case Register(e) =>
        RegisterCounted(s, e, Requests(before, k), Accepted(before, k), k);
      case Deliver(k', r) =>
        WaitersConserved(before);
        DistinctFromCount(s.waiting, s.registered);
        assert Requests(before, k) + [] == Requests(before, k);
        DeliverCounted(s, k', r, Requests(before, k), Accepted(before, k), k);
    }
  }

  lemma {:induction false} WithoutLacks(q: seq<nat>, id: nat)
    ensures id !in WithoutId(q, id)
  {
    if q != [] {
      WithoutLacks(q[1..], id);
    }
  }

  /** Exactly how far distinct ids are needed: a delivery keeps the two structures in step for its
    * key if and only if the id it takes is not registered under that key a second time. */
  lemma DeliveryInStep(fifo: seq<Entry>, k: Key)
    requires Ids(fifo, k) != []
    ensures var q := Ids(fifo, k);
            Ids(Without(fifo, Entry(k, q[0])), k) == q[1..] <==> q[0] !in q[1..]
  {
    var q := Ids(fifo, k);
    IdsWithout(fifo, Entry(k, q[0]), k);
    WithoutLacks(q, q[0]);
    if q[0] !in q[1..] {
      WithoutAbsentId(q[1..], q[0]);
    }
  }
}
