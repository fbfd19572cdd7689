/** A theory of resumable parsers.  A decoder looks at the bytes it has and either waits for
  * more, takes a frame off the front (emitting items and moving to a next state), or fails.
  * `Drain` is the one-shot meaning of a decoder; `FeedAll` is what a connection does: append
  * one chunk at a time and drain after each.  The main result says that the two agree. */
module Framing {
  import opened Bytes

  datatype Step<S, T> = Wait | Take(n: nat, out: seq<T>, next: S) | Fail

  datatype Parse<S, T> = Parse(state: S, pending: seq<Byte>, out: seq<T>, ok: bool)

  function Prepend<S, T>(acc: seq<T>, p: Parse<S, T>): Parse<S, T> {
    p.(out := acc + p.out)
  }

  lemma PrependNil<S, T>(p: Parse<S, T>)
    ensures Prepend([], p) == p
  {
  }

  lemma PrependTwice<S, T>(a: seq<T>, b: seq<T>, p: Parse<S, T>)
    ensures Prepend(a, Prepend(b, p)) == Prepend(a + b, p)
  {
  }

  /** Takes frames off `buf` until the decoder waits or fails. */
  function Drain<S, T>(f: (S, seq<Byte>) -> Step<S, T>, s: S, buf: seq<Byte>): Parse<S, T>
    decreases |buf|
  {
    match f(s, buf)
    case Wait => Parse(s, buf, [], true)
    case Fail => Parse(s, buf, [], false)
    case Take(n, out, next) =>
      if 0 < n <= |buf| then Prepend(out, Drain(f, next, buf[n..])) else Parse(s, buf, [], true)
  }

  /** Appends and drains one chunk after another; a failed parser reads no further. */
  function FeedAll<S, T>(f: (S, seq<Byte>) -> Step<S, T>, p: Parse<S, T>, chunks: seq<seq<Byte>>): Parse<S, T>
    decreases |chunks|
  {
    if !p.ok || chunks == [] then p
    else FeedAll(f, Prepend(p.out, Drain(f, p.state, p.pending + chunks[0])), chunks[1..])
  }

  /** A decoder that consumes something with each frame, never more than it has, and whose
    * verdict does not change when more bytes arrive. */
  ghost predicate Incremental<S(!new), T(!new)>(f: (S, seq<Byte>) -> Step<S, T>) {
    && (forall s, b :: f(s, b).Take? ==> 0 < f(s, b).n <= |b|)
    && (forall s, b, c {:trigger f(s, b + c)} :: !f(s, b).Wait? ==> f(s, b + c) == f(s, b))
  }

  /** Equal outcomes; a failed parser's unread input is not compared. */
  predicate Agree<S(==), T(==)>(a: Parse<S, T>, b: Parse<S, T>) {
    a.state == b.state && a.out == b.out && a.ok == b.ok && (a.ok ==> a.pending == b.pending)
  }

  /** One turn of a draining loop, with `acc` emitted so far. */
  lemma Unfold<S, T>(f: (S, seq<Byte>) -> Step<S, T>, s: S, buf: seq<Byte>, acc: seq<T>)
    requires f(s, buf).Take? && 0 < f(s, buf).n <= |buf|
    ensures var t := f(s, buf);
            Prepend(acc, Drain(f, s, buf)) == Prepend(acc + t.out, Drain(f, t.next, buf[t.n..]))
  {
  }

  lemma DrainWaits<S, T>(f: (S, seq<Byte>) -> Step<S, T>, s: S, buf: seq<Byte>, acc: seq<T>)
    requires f(s, buf).Wait?
    ensures Prepend(acc, Drain(f, s, buf)) == Parse(s, buf, acc, true)
  {
  }

  lemma DrainFails<S, T>(f: (S, seq<Byte>) -> Step<S, T>, s: S, buf: seq<Byte>, acc: seq<T>)
    requires f(s, buf).Fail?
    ensures Prepend(acc, Drain(f, s, buf)) == Parse(s, buf, acc, false)
  {
  }

  /** A complete frame at the front is taken whole, whatever follows it. */
  lemma DrainFrame<S, T>(f: (S, seq<Byte>) -> Step<S, T>, s: S, frame: seq<Byte>, rest: seq<Byte>)
    requires frame != []
    requires f(s, frame + rest).Take? && f(s, frame + rest).n == |frame|
    ensures var t := f(s, frame + rest); Drain(f, s, frame + rest) == Prepend(t.out, Drain(f, t.next, rest))
  {
  }

  lemma {:induction false} DrainStops<S(!new), T(!new)>(f: (S, seq<Byte>) -> Step<S, T>, s: S, buf: seq<Byte>)
    requires Incremental(f)
    ensures var r := Drain(f, s, buf);
            |r.pending| <= |buf| && r.pending == buf[|buf| - |r.pending|..] &&
            if r.ok then f(r.state, r.pending).Wait? else f(r.state, r.pending).Fail?
    decreases |buf|
  {
    if f(s, buf).Take? {
      DrainStops(f, f(s, buf).next, buf[f(s, buf).n..]);
    }
  }

  /** Draining a longer buffer is draining the first part and then going on from its residue. */
  lemma {:induction false} DrainAppend<S(!new), T(!new)>(
      f: (S, seq<Byte>) -> Step<S, T>, s: S, b: seq<Byte>, c: seq<Byte>)
    requires Incremental(f)
    ensures var r := Drain(f, s, b);
            Drain(f, s, b + c) ==
            if r.ok then Prepend(r.out, Drain(f, r.state, r.pending + c)) else r.(pending := r.pending + c)
    decreases |b|
  {
    match f(s, b)
    case Wait =>
      var r := Drain(f, s, b + c);
      assert [] + r.out == r.out;
    case Fail =>
      assert f(s, b + c) == f(s, b);
    case Take(n, out, next) =>
      assert f(s, b + c) == f(s, b);
      assert (b + c)[n..] == b[n..] + c;
      DrainAppend(f, next, b[n..], c);
      var r := Drain(f, next, b[n..]);
      PrependTwice(out, r.out, Drain(f, r.state, r.pending + c));
  }

  /** A parse without residue goes on with what arrives. */
  lemma {:induction false} DrainOn<S(!new), T(!new)>(f: (S, seq<Byte>) -> Step<S, T>, s: S, b: seq<Byte>, c: seq<Byte>)
    requires Incremental(f) && Drain(f, s, b).ok && Drain(f, s, b).pending == []
    ensures Drain(f, s, b + c) == Prepend(Drain(f, s, b).out, Drain(f, Drain(f, s, b).state, c))
  {
    hide Drain, Incremental;
    DrainAppend(f, s, b, c);
    assert [] + c == c;
  }

  /** A parse that has come as far as `rest` goes on the same when more bytes arrive. */
  lemma DrainMore<S(!new), T(!new)>(
      f: (S, seq<Byte>) -> Step<S, T>, s: S, b: seq<Byte>, acc: seq<T>, t: S, rest: seq<Byte>, c: seq<Byte>)
    requires Incremental(f) && Drain(f, s, b) == Prepend(acc, Drain(f, t, rest))
    ensures Drain(f, s, b + c) == Prepend(acc, Drain(f, t, rest + c))
  {
    hide Drain, Incremental;
    var r := Drain(f, t, rest);
    DrainAppend(f, s, b, c);
    DrainAppend(f, t, rest, c);
    if r.ok {
      PrependTwice(acc, r.out, Drain(f, r.state, r.pending + c));
    }
  }

  /** Chunking independence: however the stream is cut, feeding it chunk by chunk gives what
    * draining it in one piece gives. */
  lemma {:induction false} ChunkingIrrelevant<S(!new), T(!new)>(
      f: (S, seq<Byte>) -> Step<S, T>, p: Parse<S, T>, chunks: seq<seq<Byte>>)
    requires Incremental(f)
    requires p.ok && f(p.state, p.pending).Wait?
    ensures Agree(FeedAll(f, p, chunks), Prepend(p.out, Drain(f, p.state, p.pending + Flatten(chunks))))
    decreases |chunks|
  {
    if chunks == [] {
      assert p.pending + Flatten(chunks) == p.pending;
      assert p.out + [] == p.out;
    } else {
      var rest := Flatten(chunks[1..]);
      var r := Drain(f, p.state, p.pending + chunks[0]);
      var q := Prepend(p.out, r);
      assert p.pending + Flatten(chunks) == p.pending + chunks[0] + rest;
      DrainAppend(f, p.state, p.pending + chunks[0], rest);
      if r.ok {
        DrainStops(f, p.state, p.pending + chunks[0]);
        ChunkingIrrelevant(f, q, chunks[1..]);
        PrependTwice(p.out, r.out, Drain(f, r.state, r.pending + rest));
      }
    }
  }

  /** The state a connection starts in. */
  function Fresh<S, T>(s: S): Parse<S, T> {
    Parse(s, [], [], true)
  }

  /** Chunking independence from a fresh connection. */
  lemma FreshChunking<S(!new), T(!new)>(f: (S, seq<Byte>) -> Step<S, T>, s: S, chunks: seq<seq<Byte>>)
    requires Incremental(f) && f(s, []).Wait?
    ensures Agree(FeedAll(f, Fresh(s), chunks), Drain(f, s, Flatten(chunks)))
  {
    ChunkingIrrelevant(f, Fresh(s), chunks);
    assert [] + Flatten(chunks) == Flatten(chunks);
    var r := Drain(f, s, Flatten(chunks));
    assert [] + r.out == r.out;
  }
}
