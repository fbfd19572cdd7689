/** The AnyTLS client's pool of idle sessions, and who owns a session when. */
module AnyTlsPool {
  import opened Bytes

  datatype Idle = Idle(session: nat, since: int)

  function Sessions(idle: seq<Idle>): (r: seq<nat>)
    ensures |r| == |idle| && forall i :: 0 <= i < |r| ==> r[i] == idle[i].session
  {
    seq(|idle|, i requires 0 <= i < |idle| => idle[i].session)
  }

  /** `clock[i]` is the time at which entry `i` is looked at. */
  predicate Expired(e: Idle, now: int, timeout: nat) {
    now - e.since >= timeout
  }

  /** The entries that stay, oldest first, when `kept` older ones have stayed already: open ones
    * that have not expired, and expired ones while fewer than `minIdle` are kept. */
  function Staying(idle: seq<Idle>, clock: seq<int>, closed: set<nat>, timeout: nat, minIdle: nat, kept: nat): seq<Idle>
    requires |clock| == |idle|
    decreases |idle|
  {
    if idle == [] then []
    else
      var e := idle[0];
      if e.session in closed || (Expired(e, clock[0], timeout) && kept >= minIdle)
      then Staying(idle[1..], clock[1..], closed, timeout, minIdle, kept)
      else [e] + Staying(idle[1..], clock[1..], closed, timeout, minIdle, kept + 1)
  }

  /** The open entries, in order. */
  function Live(idle: seq<Idle>, closed: set<nat>): seq<Idle> {
    if idle == [] then [] else (if idle[0].session in closed then [] else [idle[0]]) + Live(idle[1..], closed)
  }

  /** `sub` is `whole` with entries left out. */
  ghost predicate Subsequence(sub: seq<Idle>, whole: seq<Idle>)
    decreases |whole|
  {
    sub == [] ||
    (whole != [] && ((sub[0] == whole[0] && Subsequence(sub[1..], whole[1..])) || Subsequence(sub, whole[1..])))
  }

  /** Clean-up keeps order, keeps no closed session and no more than it was given, keeps at least
    * `minIdle` sessions, or every open one if there are fewer. */
  lemma {:induction false} StayingProperties(
      idle: seq<Idle>, clock: seq<int>, closed: set<nat>, timeout: nat, minIdle: nat, kept: nat)
    requires |clock| == |idle|
    ensures var r := Staying(idle, clock, closed, timeout, minIdle, kept);
            && Subsequence(r, idle)
            && (forall e :: e in r ==> e in idle && e.session !in closed)
            && (kept + |r| >= minIdle || r == Live(idle, closed))
    decreases |idle|
  {
    if idle != [] {
      var e := idle[0];
      var stays := !(e.session in closed || (Expired(e, clock[0], timeout) && kept >= minIdle));
      var r := Staying(idle[1..], clock[1..], closed, timeout, minIdle, if stays then kept + 1 else kept);
      StayingProperties(idle[1..], clock[1..], closed, timeout, minIdle, if stays then kept + 1 else kept);
      assert ([e] + r)[1..] == r;
      assert [] + Live(idle[1..], closed) == Live(idle[1..], closed);
    }
  }

  /** Clean-up removes no session that is open and has not expired. */
  lemma {:induction false} UnexpiredStay(
      idle: seq<Idle>, clock: seq<int>, closed: set<nat>, timeout: nat, minIdle: nat, kept: nat, i: nat)
    requires i < |clock| == |idle|
    requires idle[i].session !in closed && !Expired(idle[i], clock[i], timeout)
    ensures idle[i] in Staying(idle, clock, closed, timeout, minIdle, kept)
    decreases i
  {
    hide Expired;
    if i > 0 {
      var e := idle[0];
      var stays := !(e.session in closed || (Expired(e, clock[0], timeout) && kept >= minIdle));
      UnexpiredStay(idle[1..], clock[1..], closed, timeout, minIdle, if stays then kept + 1 else kept, i - 1);
    }
  }

  lemma {:induction false} StayingAppend(a: seq<Idle>, b: seq<Idle>, ca: seq<int>, cb: seq<int>,
                                         closed: set<nat>, timeout: nat, minIdle: nat, kept: nat)
    requires |ca| == |a| && |cb| == |b|
    ensures var stay := Staying(a, ca, closed, timeout, minIdle, kept);
            Staying(a + b, ca + cb, closed, timeout, minIdle, kept) ==
            stay + Staying(b, cb, closed, timeout, minIdle, kept + |stay|)
    decreases |a|
  {
    if a == [] {
      assert a + b == b && ca + cb == cb;
    } else {
      var e := a[0];
      var stays := !(e.session in closed || (Expired(e, ca[0], timeout) && kept >= minIdle));
      assert (a + b)[1..] == a[1..] + b && (ca + cb)[1..] == ca[1..] + cb;
      StayingAppend(a[1..], b, ca[1..], cb, closed, timeout, minIdle, if stays then kept + 1 else kept);
    }
  }

  /** Exactly which entries stay: the open ones that have not been idle for the timeout, and others
    * that are open while fewer than `minIdle` older ones stay. */
  lemma StayExactly(idle: seq<Idle>, clock: seq<int>, closed: set<nat>, timeout: nat, minIdle: nat, i: nat)
    requires i < |clock| == |idle| && Distinct(Sessions(idle))
    ensures idle[i] in Staying(idle, clock, closed, timeout, minIdle, 0) <==>
            && idle[i].session !in closed
            && (clock[i] - idle[i].since < timeout ||
                |Staying(idle[..i], clock[..i], closed, timeout, minIdle, 0)| < minIdle)
  {
    hide Staying, Subsequence, Live;
    var before := Staying(idle[..i], clock[..i], closed, timeout, minIdle, 0);
    StayingHead(idle[i..], clock[i..], closed, timeout, minIdle, |before|);
    assert idle[..i] + idle[i..] == idle && clock[..i] + clock[i..] == clock;
    StayingAppend(idle[..i], idle[i..], clock[..i], clock[i..], closed, timeout, minIdle, 0);
    StayingProperties(idle[..i], clock[..i], closed, timeout, minIdle, 0);
    assert idle[i..][1..] == idle[i + 1..] && clock[i..][1..] == clock[i + 1..];
    StayingProperties(idle[i + 1..], clock[i + 1..], closed, timeout, minIdle, |before|);
    StayingProperties(idle[i + 1..], clock[i + 1..], closed, timeout, minIdle, |before| + 1);
    OnlyOnce(idle, i);
  }

  lemma StayingHead(idle: seq<Idle>, clock: seq<int>, closed: set<nat>, timeout: nat, minIdle: nat, kept: nat)
    requires |clock| == |idle| && idle != []
    ensures var stays := idle[0].session !in closed && (clock[0] - idle[0].since < timeout || kept < minIdle);
            Staying(idle, clock, closed, timeout, minIdle, kept) ==
            if stays then [idle[0]] + Staying(idle[1..], clock[1..], closed, timeout, minIdle, kept + 1)
            else Staying(idle[1..], clock[1..], closed, timeout, minIdle, kept)
  {
  }

  lemma OnlyOnce(idle: seq<Idle>, i: nat)
    requires i < |idle| && Distinct(Sessions(idle))
    ensures idle[i] !in idle[..i] && idle[i] !in idle[i + 1..]
  {
    forall j | 0 <= j < |idle| && j != i
      ensures idle[j] != idle[i]
    {
      assert Sessions(idle)[j] != Sessions(idle)[i];
    }
  }

  /** With nothing left to expire, clean-up only removes closed sessions. */
  lemma {:induction false} StayingIfUnexpired(
      idle: seq<Idle>, clock: seq<int>, closed: set<nat>, timeout: nat, minIdle: nat, kept: nat)
    requires |clock| == |idle| && forall i :: 0 <= i < |idle| ==> !Expired(idle[i], clock[i], timeout)
    ensures Staying(idle, clock, closed, timeout, minIdle, kept) == Live(idle, closed)
    decreases |idle|
  {
    if idle != [] {
      forall i | 0 <= i < |idle| - 1
        ensures !Expired(idle[1..][i], clock[1..][i], timeout)
      {
        assert !Expired(idle[i + 1], clock[i + 1], timeout);
      }
      StayingIfUnexpired(idle[1..], clock[1..], closed, timeout, minIdle,
                         if idle[0].session in closed then kept else kept + 1);
    }
  }

  lemma {:induction false} SubsequenceDistinct(sub: seq<Idle>, whole: seq<Idle>)
    requires Subsequence(sub, whole) && Distinct(Sessions(whole))
    ensures Distinct(Sessions(sub)) && forall x :: x in Sessions(sub) ==> x in Sessions(whole)
    decreases |whole|
  {
    if sub != [] {
      assert Sessions(whole)[1..] == Sessions(whole[1..]);
      assert Distinct(Sessions(whole[1..]));
      if sub[0] == whole[0] && Subsequence(sub[1..], whole[1..]) {
        SubsequenceDistinct(sub[1..], whole[1..]);
        assert Sessions(sub) == [sub[0].session] + Sessions(sub[1..]);
        assert whole[0].session !in Sessions(whole)[1..];
      } else {
        SubsequenceDistinct(sub, whole[1..]);
      }
    }
  }

  /** `AnyTlsClient`, with the owners of sessions made explicit: idle, `opening` while a stream is
    * being opened on it, `held` by a stream, or `releasing` between the drop of the stream and the
    * return of the session.  Each method is one critical section, so any interleaving of them is a
    * run of the client. */
  class AnyTlsClient {
    const timeout: nat
    const minIdle: nat
    var idle: seq<Idle>
    var closed: set<nat>
    var nextSession: nat
    ghost var opening: set<nat>
    ghost var held: set<nat>
    ghost var releasing: set<nat>

    /** Every session has at most one owner, and is idle at most once. */
    ghost predicate Valid()
      reads this
    {
      && Distinct(Sessions(idle))
      && opening !! held && opening !! releasing && held !! releasing
      && (forall x :: x in Sessions(idle) ==> x !in opening && x !in held && x !in releasing && x < nextSession)
      && (forall x :: x in opening || x in held || x in releasing ==> x < nextSession)
    }

    constructor (timeout: nat, minIdle: nat)
      ensures Valid() && idle == [] && opening == {} && held == {} && releasing == {} && closed == {}
    {
      this.timeout, this.minIdle := timeout, minIdle;
      idle, closed, nextSession, opening, held, releasing := [], {}, 0, {}, {}, {};
    }

    /** `take_idle`: the youngest open session; closed ones behind it are dropped. */
    method TakeIdle() returns (r: Option<nat>)
      requires Valid()
      modifies this`idle, this`opening
      ensures Valid()
      ensures r == None ==> idle == [] && opening == old(opening) && forall e :: e in old(idle) ==> e.session in closed
      ensures r.Some? ==>
                && r.value !in closed && |idle| < |old(idle)| && idle == old(idle)[..|idle|]
                && r.value == old(idle)[|idle|].session
                && r.value !in old(opening) && opening == old(opening) + {r.value}
                && forall i :: |idle| < i < |old(idle)| ==> old(idle)[i].session in closed
    {
      while idle != []
        invariant Valid() && opening == old(opening)
        invariant |idle| <= |old(idle)| && idle == old(idle)[..|idle|]
        invariant forall i :: |idle| <= i < |old(idle)| ==> old(idle)[i].session in closed
        decreases |idle|
      {
        var entry := idle[|idle| - 1];
        assert entry.session == Sessions(idle)[|idle| - 1];
        assert Sessions(idle)[..|idle| - 1] == Sessions(idle[..|idle| - 1]);
        idle := idle[..|idle| - 1];
        if entry.session !in closed {
          opening := opening + {entry.session};
          return Some(entry.session);
        }
      }
      return None;
    }

    /** `create_session`, once connected. */
    method CreateSession() returns (session: nat)
      requires Valid()
      modifies this`nextSession, this`opening
      ensures Valid() && session == old(nextSession) && nextSession == session + 1
      ensures session !in old(opening) && opening == old(opening) + {session}
    {
      session := nextSession;
      nextSession, opening := nextSession + 1, opening + {session};
    }

    /** The outcome of opening a stream on a session: the stream holds it, or it is dropped. */
    method Opened(session: nat, opens: bool)
      requires Valid() && session in opening
      modifies this`opening, this`held
      ensures Valid() && opening == old(opening) - {session} && held == old(held) + (if opens then {session} else {})
    {
      opening := opening - {session};
      if opens {
        held := held + {session};
      }
    }

    /** `open_stream` when nothing comes between its steps: clean up, then open a stream on the
      * youngest idle session that stays or, if none does, on a new one.  A session on which no
      * stream can be opened is dropped. */
    method OpenStream(clock: seq<int>, connects: bool, opens: bool) returns (r: Option<nat>)
      requires Valid() && |clock| == |idle|
      modifies this
      ensures Valid() && releasing == old(releasing) && opening == old(opening)
      ensures held == old(held) + (if r.Some? then {r.value} else {}) && (r.Some? ==> r.value !in old(held))
      ensures var stay := Staying(old(idle), clock, old(closed), timeout, minIdle, 0);
              if stay != []
              then && idle == stay[..|stay| - 1] && nextSession == old(nextSession)
                   && r == if opens then Some(stay[|stay| - 1].session) else None
              else && idle == [] && nextSession == old(nextSession) + (if connects then 1 else 0)
                   && r == if connects && opens then Some(old(nextSession)) else None
    {
      CleanupIdle(clock);
      ghost var stay := idle;
      var taken := TakeIdle();
      var session;
      if taken.Some? {
        session := taken.value;
        assert |idle| + 1 == |stay| by {
          assert stay[|stay| - 1] in stay;
        }
      } else if connects {
        session := CreateSession();
      } else {
        return None;
      }
      Opened(session, opens);
      return if opens then Some(session) else None;
    }

    /** Dropping a stream leaves its session to be released. */
    method DropStream(session: nat)
      requires Valid() && session in held
      modifies this`held, this`releasing
      ensures Valid() && held == old(held) - {session} && releasing == old(releasing) + {session}
    {
      held, releasing := held - {session}, releasing + {session};
    }

    /** `release`: back to the pool, unless the session has been closed. */
    method Release(session: nat, now: int)
      requires Valid() && session in releasing
      modifies this`idle, this`releasing
      ensures Valid() && releasing == old(releasing) - {session}
      ensures idle == if session in closed then old(idle) else old(idle) + [Idle(session, now)]
    {
      releasing := releasing - {session};
      if session in closed {
        return;
      }
      assert Sessions(idle + [Idle(session, now)]) == Sessions(idle) + [session];
      idle := idle + [Idle(session, now)];
    }

    /** Anyone may close a session at any time. */
    method CloseSession(session: nat)
      requires Valid()
      modifies this`closed
      ensures Valid() && closed == old(closed) + {session}
    {
      closed := closed + {session};
    }

    /** `cleanup_idle`: rebuilds the queue; what does not stay is closed. */
    method CleanupIdle(clock: seq<int>)
      requires Valid() && |clock| == |idle|
      modifies this`idle, this`closed
      ensures Valid()
      ensures idle == Staying(old(idle), clock, old(closed), timeout, minIdle, 0)
      ensures |idle| >= minIdle || idle == Live(old(idle), old(closed))
      ensures Subsequence(idle, old(idle)) && forall e :: e in idle ==> e.session !in closed
      ensures old(closed) <= closed && forall e :: e in old(idle) ==> e in idle || e.session in closed
      ensures forall x :: x in closed ==> x in old(closed) || x in Sessions(old(idle))
      ensures forall x :: x in Sessions(idle) ==> x in Sessions(old(idle))
      ensures forall i :: 0 <= i < |old(idle)| ==>
                (old(idle)[i] in idle <==>
                 && old(idle)[i].session !in old(closed)
                 && (clock[i] - old(idle)[i].since < timeout ||
                     |Staying(old(idle)[..i], clock[..i], old(closed), timeout, minIdle, 0)| < minIdle))
    {
      var kept: seq<Idle>, i := [], 0;
      ghost var goal := Staying(idle, clock, closed, timeout, minIdle, 0);
      assert idle[0..] == idle && clock[0..] == clock && [] + goal == goal;
      while i < |idle|
        invariant i <= |idle| && idle == old(idle)
        invariant goal == kept + Staying(idle[i..], clock[i..], old(closed), timeout, minIdle, |kept|)
        invariant old(closed) <= closed
        invariant forall x :: x in closed ==> x in old(closed) || x in Sessions(idle[..i])
        invariant forall e :: e in idle[..i] ==> e in kept || e.session in closed
        invariant forall e :: e in kept ==> e.session !in closed && e.session in Sessions(idle[..i])
      {
        var entry := idle[i];
        NotYet(idle, i);
        assert idle[i..][1..] == idle[i + 1..] && clock[i..][1..] == clock[i + 1..];
        assert idle[..i + 1] == idle[..i] + [entry];
        assert Sessions(idle[..i + 1]) == Sessions(idle[..i]) + [entry.session];
        ghost var rest := idle[i..];
        var expired := clock[i] - entry.since >= timeout;
        if entry.session in closed || (expired && |kept| >= minIdle) {
          closed := closed + {entry.session};
        } else {
          Assoc(kept, [entry], Staying(rest[1..], clock[i..][1..], old(closed), timeout, minIdle, |kept| + 1));
          kept := kept + [entry];
        }
        i := i + 1;
      }
      assert kept + [] == kept && idle[..i] == idle;
      StayingProperties(idle, clock, old(closed), timeout, minIdle, 0);
      SubsequenceDistinct(kept, idle);
      forall i | 0 <= i < |idle|
        ensures idle[i] in goal <==>
                && idle[i].session !in old(closed)
                && (clock[i] - idle[i].since < timeout ||
                    |Staying(idle[..i], clock[..i], old(closed), timeout, minIdle, 0)| < minIdle)
      {
        StayExactly(idle, clock, old(closed), timeout, minIdle, i);
      }
      idle := kept;
    }
  }

  lemma NotYet(idle: seq<Idle>, i: nat)
    requires i < |idle| && Distinct(Sessions(idle))
    ensures idle[i].session !in Sessions(idle[..i])
  {
  }
}
