/** The rate-limited stream: a token bucket refilled lazily, over reals instead of floats. */
module TokenBucket {
  import opened Bytes

  const CHUNK := 64 * 1024

  function Min(x: real, y: real): real {
    if x < y then x else y
  }

  /** What the inner stream does when offered bytes. */
  datatype Inner = Busy | Broken | Takes(count: nat)

  datatype Outcome = Waiting | Failed | Written(count: nat)

  /** The bucket at one moment: bytes passed on so far, tokens, and the time of the last refill. */
  datatype Snapshot = Snapshot(passed: nat, tokens: real, time: real)

  /** The tokens at `now`, if they are refilled then. */
  function TokensAt(s: Snapshot, rate: real, now: real): real {
    Min(s.tokens + (now - s.time) * rate, rate)
  }

  /** From one poll to the next no byte is passed on without a token. */
  predicate Paid(a: Snapshot, b: Snapshot, rate: real) {
    && a.time <= b.time && a.passed <= b.passed && 0.0 <= b.tokens
    && (b.passed - a.passed) as real + b.tokens <= TokensAt(a, rate, b.time)
  }

  /** How much of a write of `len` bytes is offered to the inner stream. */
  function Allowed(len: nat, tokens: real): nat
    requires tokens >= 0.0
  {
    var n := if len < tokens.Floor then len else tokens.Floor;
    var m := if n < CHUNK then n else CHUNK;
    if m < 1 then 1 else m
  }

  /** The offer stays inside the caller's buffer if and only if the buffer is not empty. */
  lemma AllowedFits(len: nat, tokens: real)
    requires tokens >= 1.0
    ensures Allowed(len, tokens) <= len <==> len > 0
    ensures len > 0 ==> Allowed(len, tokens) as real <= tokens
  {
  }

  /** The offer is the largest number of bytes within the write, the tokens and 64 KiB. */
  lemma AllowedIsLargest(len: nat, tokens: real)
    requires tokens >= 1.0 && len > 0
    ensures var n := Allowed(len, tokens);
            && 0 < n <= len && n <= 65536 && n as real <= tokens
            && (n == len || n == 65536 || n as real + 1.0 > tokens)
  {
  }

  /** What offering a write of `len` bytes with `t` tokens at hand comes to. */
  predicate Offered(t: real, len: nat, inner: Inner, r: Outcome, left: real)
    requires t >= 0.0
  {
    match inner
    case Busy => r == Waiting && left == t
    case Broken => r == Failed && left == t
    case Takes(count) =>
      var n := Allowed(len, t);
      r == Written(if count < n then count else n) && left == t - r.count as real
  }

  /** When a sleep ends: the one under way, or one until there is a whole token. */
  function Deadline(wait: Option<real>, t: real, now: real, rate: real): real
    requires rate > 0.0
  {
    if wait.Some? then wait.value else now + (1.0 - t) / rate
  }

  lemma TimesAdd(x: real, y: real, rate: real)
    requires y >= 0.0 && rate >= 0.0
    ensures (x + y) * rate == x * rate + y * rate && y * rate >= 0.0
  {
  }

  /** Refilling twice gives no more than refilling once, at the later time. */
  lemma RefillTwice(s: Snapshot, rate: real, t: real, u: real)
    requires s.time <= t <= u && rate >= 0.0
    ensures TokensAt(Snapshot(s.passed, TokensAt(s, rate, t), t), rate, u) <= TokensAt(s, rate, u)
  {
    TimesAdd(t - s.time, u - t, rate);
  }

  lemma LaterTokens(s: Snapshot, rate: real, t: real, u: real)
    requires s.time <= t <= u && rate >= 0.0
    ensures TokensAt(s, rate, u) <= TokensAt(s, rate, t) + (u - t) * rate
  {
    TimesAdd(t - s.time, u - t, rate);
  }

  class RateLimitedStream {
    const rate: real
    var tokens: real
    var lastRefill: real
    var wait: Option<real>
    ghost var passed: nat
    ghost var history: seq<Snapshot>

    ghost function Now(): Snapshot
      reads this
    {
      Snapshot(passed, tokens, lastRefill)
    }

    /** Tokens stay within 0 and the rate, a pending sleep ends no sooner than the next token, and
      * every recorded poll was paid for. */
    ghost predicate Core()
      reads this
    {
      && rate >= 1.0 && 0.0 <= tokens <= rate
      && (wait.Some? ==> Ripens(tokens, lastRefill, wait.value, rate))
    }

    ghost predicate Valid()
      reads this
    {
      && Core()
      && history != [] && history[|history| - 1] == Now()
      && PaidRun(history, rate)
    }

    constructor (rateLimit: nat, now: real)
      requires rateLimit > 0
      ensures Valid() && tokens == rate == rateLimit as real * 1048576.0 && history == [Now()] && passed == 0
    {
      rate := rateLimit as real * 1048576.0;
      tokens, lastRefill, wait := rateLimit as real * 1048576.0, now, None;
      passed, history := 0, [Snapshot(0, rateLimit as real * 1048576.0, now)];
    }

    /** `poll_write` of `len` bytes; `clock` yields the readings of the clock, in order.  With a
      * whole token the write is offered at once; otherwise the poll sleeps until the deadline, and
      * behind it the next refill brings a whole token, so the loop turns at most twice. */
    method PollWrite(len: nat, clock: nat -> real, inner: Inner) returns (r: Outcome)
      requires Valid() && len > 0
      requires lastRefill <= clock(0) && forall i, j :: 0 <= i <= j ==> clock(i) <= clock(j)
      modifies this
      ensures Valid() && Paid(old(Now()), Now(), rate) && history == old(history) + [Now()]
      ensures r.Written? ==> r.count <= len && r.count <= CHUNK && passed == old(passed) + r.count
      ensures !r.Written? ==> passed == old(passed)
      ensures var t := TokensAt(old(Now()), rate, clock(0));
              var deadline := Deadline(old(wait), t, clock(0), rate);
              if t >= 1.0 then lastRefill == clock(0) && wait == None && Offered(t, len, inner, r, tokens)
              else if clock(1) < deadline
              then lastRefill == clock(0) && wait == Some(deadline) && r == Waiting && tokens == t
              else
                var u := TokensAt(Snapshot(old(passed), t, clock(0)), rate, clock(2));
                lastRefill == clock(2) && wait == None && u >= 1.0 && Offered(u, len, inner, r, tokens)
      ensures wait.Some? ==> r == Waiting
      ensures wait == None ==>
                var t := TokensAt(old(Now()), rate, clock(0));
                var have := if t >= 1.0 then t else TokensAt(Snapshot(old(passed), t, clock(0)), rate, clock(2));
                match inner
                case Busy => r == Waiting && tokens == have
                case Broken => r == Failed && tokens == have
                case Takes(count) =>
                  && r.Written? && r.count <= count && r.count <= len && r.count <= 65536
                  && tokens == have - r.count as real && 0.0 <= tokens
                  && (r.count == count || r.count == len || r.count == 65536 || tokens < 1.0)
    {
      hide TokensAt, Ripens, Deadline, Offered;
      var ready := AwaitToken(clock);
      if !ready {
        PaidSnoc(history, Now(), rate);
        history := history + [Now()];
        return Waiting;
      }
      r := Offer(len, inner);
      PaidSnoc(history, Now(), rate);
      history := history + [Now()];
    }

    /** With a whole token at hand, as much of the write as is allowed is offered. */
    method Offer(len: nat, inner: Inner) returns (r: Outcome)
      requires Core() && wait == None && tokens >= 1.0 && len > 0
      modifies this`tokens, this`passed
      ensures Core() && Offered(old(tokens), len, inner, r, tokens)
      ensures passed == old(passed) + (if r.Written? then r.count else 0)
      ensures match inner
              case Busy => r == Waiting && tokens == old(tokens)
              case Broken => r == Failed && tokens == old(tokens)
              case Takes(count) =>
                && r.Written? && r.count <= count && r.count <= len && r.count <= 65536
                && tokens == old(tokens) - r.count as real
                && (r.count == count || r.count == len || r.count == 65536 || tokens < 1.0)
    {
      AllowedFits(len, tokens);
      AllowedIsLargest(len, tokens);
      var allowed := if len < tokens.Floor then len else tokens.Floor;
      allowed := if allowed < CHUNK then allowed else CHUNK;
      allowed := if allowed < 1 then 1 else allowed;
      match inner {
        case Busy => r := Waiting;
        case Broken => r := Failed;
        case Takes(count) =>
          var written := if count < allowed then count else allowed;
          tokens := if tokens - written as real < 0.0 then 0.0 else tokens - written as real;
          passed := passed + written;
          r := Written(written);
      }
    }

    method Refill(now: real)
      requires Core() && lastRefill <= now
      modifies this`tokens, this`lastRefill
      ensures Core() && lastRefill == now && tokens == TokensAt(old(Now()), rate, now)
    {
      TimesAdd(0.0, now - lastRefill, rate);
      if wait.Some? {
        StillRipens(tokens, lastRefill, now, wait.value, rate);
      }
      var refilled := tokens + (now - lastRefill) * rate;
      tokens := if refilled < rate then refilled else rate;
      lastRefill := now;
    }

    /** The loop of `poll_write`: refill, and sleep until a whole token is there. */
    method AwaitToken(clock: nat -> real) returns (ready: bool)
      requires Core()
      requires lastRefill <= clock(0) && forall i, j :: 0 <= i <= j ==> clock(i) <= clock(j)
      modifies this`tokens, this`lastRefill, this`wait
      ensures Core() && (ready ==> tokens >= 1.0 && wait == None)
      ensures old(lastRefill) <= lastRefill && tokens <= TokensAt(old(Now()), rate, lastRefill)
      ensures var t := TokensAt(old(Now()), rate, clock(0));
              var deadline := Deadline(old(wait), t, clock(0), rate);
              if t >= 1.0 then ready && lastRefill == clock(0) && tokens == t
              else if clock(1) < deadline then !ready && lastRefill == clock(0) && tokens == t && wait == Some(deadline)
              else ready && lastRefill == clock(2) &&
                   tokens == TokensAt(Snapshot(old(passed), t, clock(0)), rate, clock(2))
    {
      hide TokensAt, Ripens, Deadline;
      ghost var start := Now();
      var turn: nat := 0;
      while true
        invariant Core() && turn <= 1 && passed == start.passed
        invariant turn == 0 ==> Now() == start
        invariant turn == 1 ==> lastRefill == clock(0) && tokens == TokensAt(start, rate, clock(0))
        invariant turn == 0 ==> wait == old(wait)
        invariant turn == 1 ==> wait == None && Ripens(tokens, lastRefill, clock(1), rate)
        invariant turn == 1 ==> tokens < 1.0 && clock(1) >= Deadline(old(wait), tokens, clock(0), rate)
        decreases 2 - turn
      {
        if turn == 1 {
          Ripe(Now(), clock(1), clock(2), rate);
          RefillTwice(start, rate, clock(0), clock(2));
        }
        var slept;
        ready, slept := AwaitTurn(clock(2 * turn), clock(2 * turn + 1));
        if ready || !slept {
          return;
        }
        turn := turn + 1;
      }
    }

    /** Refill; without a whole token, poll a sleep that lasts until there is one. */
    method AwaitTurn(now: real, polled: real) returns (ready: bool, slept: bool)
      requires Core() && lastRefill <= now <= polled
      modifies this`tokens, this`lastRefill, this`wait
      ensures Core() && lastRefill == now && tokens == TokensAt(old(Now()), rate, now)
      ensures (ready <==> tokens >= 1.0) && (ready ==> wait == None)
      ensures !ready ==> slept == (polled >= Deadline(old(wait), tokens, now, rate))
      ensures !ready && !slept ==> wait == Some(Deadline(old(wait), tokens, now, rate))
      ensures !ready && slept ==> wait == None && Ripens(tokens, now, polled, rate)
    {
      Refill(now);
      if tokens >= 1.0 {
        wait := None;
        return true, false;
      }
      if wait == None {
        NewDeadline(tokens, lastRefill, rate);
        wait := Some(lastRefill + (1.0 - tokens) / rate);
      }
      if polled < wait.value {
        return false, false;
      }
      RipensLater(tokens, lastRefill, wait.value, polled, rate);
      wait := None;
      return false, true;
    }
  }

  // ---- Sleeping long enough. ----

  /** By `deadline` there is a whole token, counting from the last refill. */
  predicate Ripens(tokens: real, last: real, deadline: real, rate: real) {
    tokens >= 1.0 || tokens + (deadline - last) * rate >= 1.0
  }

  lemma NewDeadline(tokens: real, last: real, rate: real)
    requires rate >= 1.0
    ensures Ripens(tokens, last, last + (1.0 - tokens) / rate, rate)
  {
  }

  lemma RipensLater(tokens: real, last: real, deadline: real, later: real, rate: real)
    requires rate >= 1.0 && deadline <= later && Ripens(tokens, last, deadline, rate)
    ensures Ripens(tokens, last, later, rate)
  {
  }

  /** A refill at or after the deadline brings a whole token. */
  lemma Ripe(s: Snapshot, deadline: real, now: real, rate: real)
    requires rate >= 1.0 && s.time <= now && deadline <= now && Ripens(s.tokens, s.time, deadline, rate)
    ensures TokensAt(s, rate, now) >= 1.0
  {
    TimesAdd(deadline - s.time, now - deadline, rate);
    TimesAdd(0.0, now - s.time, rate);
  }

  lemma StillRipens(tokens: real, last: real, now: real, deadline: real, rate: real)
    requires rate >= 1.0 && last <= now && Ripens(tokens, last, deadline, rate)
    ensures Ripens(Min(tokens + (now - last) * rate, rate), now, deadline, rate)
  {
    TimesAdd(deadline - now, now - last, rate);
  }

  // ---- Whole runs. ----

  ghost predicate PaidRun(history: seq<Snapshot>, rate: real) {
    forall i :: 0 <= i < |history| - 1 ==> Paid(history[i], history[i + 1], rate)
  }

  lemma PaidSnoc(history: seq<Snapshot>, s: Snapshot, rate: real)
    requires history != [] && PaidRun(history, rate) && Paid(history[|history| - 1], s, rate)
    ensures PaidRun(history + [s], rate)
  {
  }

  /** Between any two polls of a run, the bytes passed on and the tokens left are covered by the
    * tokens at the start and the rate times the time between. */
  lemma {:induction false} RunIsPaid(history: seq<Snapshot>, i: nat, j: nat, rate: real)
    requires rate >= 0.0 && PaidRun(history, rate) && i <= j < |history|
    ensures history[i].time <= history[j].time && history[i].passed <= history[j].passed
    ensures (history[j].passed - history[i].passed) as real + history[j].tokens <=
            history[i].tokens + (history[j].time - history[i].time) * rate
    decreases j - i
  {
    if i < j {
      RunIsPaid(history, i, j - 1, rate);
      var a, b, c := history[i], history[j - 1], history[j];
      assert Paid(history[j - 1], history[j - 1 + 1], rate);
      TimesAdd(b.time - a.time, c.time - b.time, rate);
    }
  }

  /** In any window, from a moment `t0` between two polls up to any later poll, the bytes passed on
    * never exceed the tokens at its start plus the rate times its length. */
  lemma WindowBound(history: seq<Snapshot>, i: nat, j: nat, t0: real, rate: real)
    requires rate >= 0.0 && PaidRun(history, rate) && i < j < |history|
    requires history[i].time <= t0 <= history[i + 1].time
    ensures (history[j].passed - history[i].passed) as real <=
            TokensAt(history[i], rate, t0) + (history[j].time - t0) * rate
  {
    var a, b, c := history[i], history[i + 1], history[j];
    assert Paid(history[i], history[i + 1], rate);
    RunIsPaid(history, i + 1, j, rate);
    assert 0.0 <= c.tokens by {
      assert Paid(history[j - 1], history[j - 1 + 1], rate);
    }
    LaterTokens(a, rate, t0, b.time);
    TimesAdd(b.time - t0, c.time - b.time, rate);
  }
}
