/** Draining an HTTP/1.1 chunked body (section 7.1 of RFC 9112): read up to the first byte after it
  * and not further. */
module ChunkedBody {
  import opened Bytes
  import opened ChunkSize

  const LIMIT := 0x10_0000
  const CR: Byte := 13
  const LF: Byte := 10
  const CRLF: seq<Byte> := [13, 10]
  const LINE_MAX := 4096
  const TRAILER_MAX := 8192

  // ---- Lines and sizes. ----

  /** The end of the line that starts before `i`, its line feed included, if it ends by `limit`. */
  function LineEnd(b: seq<Byte>, i: nat, limit: nat): (r: Option<nat>)
    requires i <= |b|
    ensures r.Some? ==> i < r.value <= |b|
    decreases |b| - i
  {
    if i == |b| || i >= limit then None
    else if b[i] == LF then Some(i + 1)
    else LineEnd(b, i + 1, limit)
  }

  predicate IsLine(line: seq<Byte>, max: nat) {
    0 < |line| <= max && line[|line| - 1] == LF && forall i :: 0 <= i < |line| - 1 ==> line[i] != LF
  }

  /** `s` stands in `b` at position `at`. */
  predicate At(b: seq<Byte>, at: nat, s: seq<Byte>) {
    at + |s| <= |b| && forall i :: 0 <= i < |s| ==> s[i] == b[at + i]
  }

  lemma AtSlice(b: seq<Byte>, at: nat, s: seq<Byte>)
    requires At(b, at, s)
    ensures b[at..at + |s|] == s
  {
  }

  lemma {:induction false} LineEndFound(b: seq<Byte>, at: nat, line: seq<Byte>, max: nat, i: nat)
    requires At(b, at, line) && IsLine(line, max) && i < |line|
    ensures LineEnd(b, at + i, at + max) == Some(at + |line|)
    decreases |line| - i
  {
    assert b[at + i] == line[i];
    if i < |line| - 1 {
      LineEndFound(b, at, line, max, i + 1);
    }
  }

  lemma {:induction false} FoundEnd(b: seq<Byte>, i: nat, limit: nat)
    requires i <= |b| && LineEnd(b, i, limit).Some?
    ensures var n := LineEnd(b, i, limit).value;
            n <= limit && b[n - 1] == LF && forall k :: i <= k < n - 1 ==> b[k] != LF
    decreases |b| - i
  {
    if b[i] != LF {
      FoundEnd(b, i + 1, limit);
    }
  }

  lemma FoundLine(b: seq<Byte>, at: nat, max: nat)
    requires at <= |b| && LineEnd(b, at, at + max).Some?
    ensures var line := b[at..LineEnd(b, at, at + max).value]; IsLine(line, max) && At(b, at, line)
  {
    FoundEnd(b, at, at + max);
    var n := LineEnd(b, at, at + max).value;
    var line := b[at..n];
    forall i | 0 <= i < |line| - 1
      ensures line[i] != LF
    {
      assert line[i] == b[at + i];
    }
  }

  // ---- What draining does, on a whole transport from a position on. ----

  /** CR LF, or LF alone. */
  predicate Blank(line: seq<Byte>) {
    (|line| == 2 && line[0] == CR && line[1] == LF) || (|line| == 1 && line[0] == LF)
  }

  predicate CrLfAt(b: seq<Byte>, at: nat) {
    at + 2 <= |b| && b[at] == CR && b[at + 1] == LF
  }

  function AfterTrailers(b: seq<Byte>, at: nat): (r: Option<nat>)
    requires at <= |b|
    decreases |b| - at
  {
    match LineEnd(b, at, at + TRAILER_MAX)
    case None => None
    case Some(n) => if Blank(b[at..n]) then Some(n) else AfterTrailers(b, n)
  }

  /** How a size line is read. */
  type Sizes = seq<Byte> -> Option<nat>

  /** One turn of draining: an error, the zero-size line, or a chunk and its delimiter. */
  datatype Turn = Bad | Last(trailers: nat) | More(next: nat, total: nat)

  function AfterLine(size: Option<nat>, b: seq<Byte>, at: nat, drained: nat): Turn {
    if size == None then Bad
    else if size.value == 0 then Last(at)
    else if drained + size.value > LIMIT || !CrLfAt(b, at + size.value) then Bad
    else More(at + size.value + 2, drained + size.value)
  }

  function OneTurn(size: Sizes, b: seq<Byte>, at: nat, drained: nat): (t: Turn)
    requires at <= |b|
    ensures t.More? ==> at < t.next <= |b|
    ensures t.Last? ==> t.trailers <= |b|
  {
    match LineEnd(b, at, at + LINE_MAX)
    case None => Bad
    case Some(n) => AfterLine(size(b[at..n]), b, n, drained)
  }

  /** The position behind the body that starts at `at`, when `size` reads size lines; `SizeOf` is
    * what the source uses. */
  function AfterBody(size: Sizes, b: seq<Byte>, at: nat, drained: nat): (r: Option<nat>)
    requires at <= |b|
    decreases |b| - at
  {
    match OneTurn(size, b, at, drained)
    case Bad => None
    case Last(trailers) => AfterTrailers(b, trailers)
    case More(next, total) => AfterBody(size, b, next, total)
  }

  /** The turns of draining one by one. */
  lemma BodyBad(size: Sizes, b: seq<Byte>, at: nat, drained: nat)
    requires at <= |b| && OneTurn(size, b, at, drained) == Bad
    ensures AfterBody(size, b, at, drained) == None
  {
  }

  lemma BodyLast(size: Sizes, b: seq<Byte>, at: nat, drained: nat, n: nat)
    requires at <= |b| && OneTurn(size, b, at, drained) == Last(n)
    ensures AfterBody(size, b, at, drained) == AfterTrailers(b, n)
  {
  }

  lemma BodyMore(size: Sizes, b: seq<Byte>, at: nat, drained: nat, n: nat, total: nat)
    requires at <= |b| && OneTurn(size, b, at, drained) == More(n, total)
    ensures AfterBody(size, b, at, drained) == AfterBody(size, b, n, total)
  {
  }

  // ---- The implementation. ----

  class ByteStream {
    const data: seq<Byte>
    var pos: nat

    ghost predicate Valid()
      reads this
    {
      pos <= |data|
    }

    constructor (data: seq<Byte>)
      ensures Valid() && this.data == data && pos == 0
    {
      this.data, pos := data, 0;
    }

    /** `read_exact`; running out of bytes is an error. */
    method ReadExact(n: nat) returns (r: Option<seq<Byte>>)
      requires Valid()
      modifies this
      ensures Valid() && pos >= old(pos)
      ensures if old(pos) + n <= |data| then pos == old(pos) + n && r == Some(data[old(pos)..pos]) else r == None
    {
      if |data| - pos < n {
        pos := |data|;
        return None;
      }
      r := Some(data[pos..pos + n]);
      pos := pos + n;
    }

    /** `read_http1_line`: byte by byte up to a line feed. */
    method ReadLine(max: nat) returns (r: Option<seq<Byte>>)
      requires Valid()
      modifies this
      ensures Valid() && pos >= old(pos)
      ensures match LineEnd(data, old(pos), old(pos) + max)
              case None => r == None
              case Some(n) => r == Some(data[old(pos)..n]) && pos == n
    {
      var line := [];
      while |line| < max
        invariant Valid() && |line| <= max && pos == old(pos) + |line| && line == data[old(pos)..pos]
        invariant LineEnd(data, old(pos), old(pos) + max) == LineEnd(data, pos, old(pos) + max)
      {
        var byte := ReadExact(1);
        if byte == None {
          return None;
        }
        assert data[old(pos)..pos] == line + byte.value;
        line := line + byte.value;
        if byte.value[0] == 10 {
          return Some(line);
        }
      }
      return None;
    }

    /** `drain_exact_http_body`, 8192 bytes at a time. */
    method DrainExact(n: nat) returns (ok: bool)
      requires Valid()
      modifies this
      ensures Valid() && pos >= old(pos)
      ensures ok <==> n <= 1024 * 1024 && old(pos) + n <= |data|
      ensures ok ==> pos == old(pos) + n
    {
      if n > LIMIT {
        return false;
      }
      var remaining := n;
      while remaining > 0
        invariant Valid() && 0 <= remaining <= n && pos == old(pos) + (n - remaining)
      {
        var take := if remaining < 8192 then remaining else 8192;
        var got := ReadExact(take);
        if got == None {
          return false;
        }
        remaining := remaining - take;
      }
      return true;
    }

    /** `drain_http1_chunked_body`: succeeds exactly when a body can be read, and then stops right
      * behind it. */
    method DrainChunkedBody() returns (ok: bool)
      requires Valid()
      modifies this
      ensures Valid()
      ensures match AfterBody(SizeOf, data, old(pos), 0)
              case None => !ok
              case Some(n) => ok && pos == n
    {
      var drained: nat := 0;
      while true
        invariant Valid() && AfterBody(SizeOf, data, old(pos), 0) == AfterBody(SizeOf, data, pos, drained)
        decreases |data| - pos
      {
        ghost var at := pos;
        var t := DrainTurn(drained);
        if t == Bad {
          BodyBad(SizeOf, data, at, drained);
          return false;
        }
        if t.Last? {
          BodyLast(SizeOf, data, at, drained, pos);
          ok := DrainTrailers();
          return;
        }
        BodyMore(SizeOf, data, at, drained, pos, t.total);
        drained := t.total;
      }
    }

    /** A size line and what it announces. */
    method DrainTurn(drained: nat) returns (t: Turn)
      requires Valid()
      modifies this
      ensures Valid() && t == OneTurn(SizeOf, data, old(pos), drained)
      ensures t.Last? ==> pos == t.trailers
      ensures t.More? ==> pos == t.next
    {
      var line := ReadLine(4096);
      if line == None {
        return Bad;
      }
      var size := SizeOf(line.value);
      if size == None {
        return Bad;
      }
      if size.value == 0 {
        return Last(pos);
      }
      var whole := DrainChunk(size.value, drained);
      return if whole then More(pos, drained + size.value) else Bad;
    }

    /** A chunk's data and its delimiter, unless the total becomes too large. */
    method DrainChunk(size: nat, drained: nat) returns (ok: bool)
      requires Valid() && size > 0
      modifies this
      ensures Valid() && pos >= old(pos)
      ensures match AfterLine(Some(size), data, old(pos), drained)
              case More(next, total) => ok && pos == next
              case _ => !ok
    {
      if drained + size > LIMIT {
        return false;
      }
      var body := DrainExact(size);
      if !body {
        return false;
      }
      var crlf := ReadExact(2);
      return crlf != None && crlf.value == [13, 10];
    }

    method DrainTrailers() returns (ok: bool)
      requires Valid()
      modifies this
      ensures Valid()
      ensures match AfterTrailers(data, old(pos))
              case None => !ok
              case Some(n) => ok && pos == n
    {
      while true
        invariant Valid() && AfterTrailers(data, old(pos)) == AfterTrailers(data, pos)
        decreases |data| - pos
      {
        var trailer := ReadLine(8192);
        if trailer == None {
          return false;
        }
        if trailer.value == [13, 10] || trailer.value == [10] {
          return true;
        }
      }
    }
  }

  // ---- Exactness: an independent description of chunked bodies. ----

  /** A chunk as it stands on the wire: its size line and its data. */
  datatype Chunk = Chunk(line: seq<Byte>, data: seq<Byte>)

  /** Chunks, a zero-size line, trailers and a blank line. */
  datatype Body = Body(chunks: seq<Chunk>, last: seq<Byte>, trailers: seq<seq<Byte>>, blank: seq<Byte>)

  predicate ValidChunk(size: Sizes, c: Chunk) {
    IsLine(c.line, LINE_MAX) && c.data != [] && size(c.line) == Some(|c.data|)
  }

  ghost predicate ValidBody(size: Sizes, body: Body) {
    && (forall i :: 0 <= i < |body.chunks| ==> ValidChunk(size, body.chunks[i]))
    && IsLine(body.last, LINE_MAX) && size(body.last) == Some(0)
    && (forall i :: 0 <= i < |body.trailers| ==> IsLine(body.trailers[i], TRAILER_MAX) && !Blank(body.trailers[i]))
    && Blank(body.blank)
  }

  function Total(chunks: seq<Chunk>): nat {
    if chunks == [] then 0 else |chunks[0].data| + Total(chunks[1..])
  }

  /** The trailers and the blank line stand at `at`, up to `end`. */
  ghost predicate TrailersAt(b: seq<Byte>, at: nat, body: Body, end: nat)
    decreases |body.trailers|
  {
    if body.trailers == [] then At(b, at, body.blank) && end == at + |body.blank|
    else
      var t := body.trailers[0];
      At(b, at, t) && TrailersAt(b, at + |t|, body.(trailers := body.trailers[1..]), end)
  }

  predicate ChunkAt(b: seq<Byte>, at: nat, c: Chunk) {
    At(b, at, c.line) && At(b, at + |c.line|, c.data) && CrLfAt(b, at + |c.line| + |c.data|)
  }

  /** The body stands at `at`, up to `end`. */
  ghost predicate BodyAt(b: seq<Byte>, at: nat, body: Body, end: nat)
    decreases |body.chunks|
  {
    if body.chunks == [] then At(b, at, body.last) && TrailersAt(b, at + |body.last|, body, end)
    else
      var c := body.chunks[0];
      && ChunkAt(b, at, c)
      && BodyAt(b, at + |c.line| + |c.data| + 2, body.(chunks := body.chunks[1..]), end)
  }

  /** A blank line ends the trailers and any other line is skipped. */
  lemma TrailerTurn(b: seq<Byte>, at: nat, line: seq<Byte>)
    requires At(b, at, line) && IsLine(line, TRAILER_MAX)
    ensures AfterTrailers(b, at) == if Blank(line) then Some(at + |line|) else AfterTrailers(b, at + |line|)
  {
    LineEndFound(b, at, line, TRAILER_MAX, 0);
    AtSlice(b, at, line);
  }

  lemma {:induction false} TrailersSkipped(size: Sizes, b: seq<Byte>, at: nat, body: Body, end: nat)
    requires ValidBody(size, body) && at <= |b| && TrailersAt(b, at, body, end)
    ensures AfterTrailers(b, at) == Some(end)
    decreases |body.trailers|
  {
    if body.trailers == [] {
      TrailerTurn(b, at, body.blank);
    } else {
      TrailerTurn(b, at, body.trailers[0]);
      TrailersSkipped(size, b, at + |body.trailers[0]|, body.(trailers := body.trailers[1..]), end);
    }
  }

  lemma TurnOfLast(size: Sizes, b: seq<Byte>, at: nat, last: seq<Byte>, drained: nat)
    requires At(b, at, last) && IsLine(last, LINE_MAX) && size(last) == Some(0)
    ensures OneTurn(size, b, at, drained) == Last(at + |last|)
  {
    LineEndFound(b, at, last, LINE_MAX, 0);
    AtSlice(b, at, last);
  }

  lemma LastTurn(size: Sizes, b: seq<Byte>, at: nat, last: seq<Byte>, drained: nat)
    requires At(b, at, last) && IsLine(last, LINE_MAX) && size(last) == Some(0)
    ensures AfterBody(size, b, at, drained) == AfterTrailers(b, at + |last|)
  {
    TurnOfLast(size, b, at, last, drained);
    BodyLast(size, b, at, drained, at + |last|);
  }

  lemma ChunkTurn(size: Sizes, b: seq<Byte>, at: nat, c: Chunk, drained: nat)
    requires ValidChunk(size, c)
    requires ChunkAt(b, at, c)
    ensures OneTurn(size, b, at, drained) ==
            if drained + |c.data| > LIMIT then Bad else More(at + |c.line| + |c.data| + 2, drained + |c.data|)
  {
    LineEndFound(b, at, c.line, LINE_MAX, 0);
    AtSlice(b, at, c.line);
  }

  lemma ChunkDrained(size: Sizes, b: seq<Byte>, at: nat, c: Chunk, drained: nat)
    requires ValidChunk(size, c)
    requires ChunkAt(b, at, c)
    ensures AfterBody(size, b, at, drained) ==
            if drained + |c.data| > LIMIT then None
            else AfterBody(size, b, at + |c.line| + |c.data| + 2, drained + |c.data|)
  {
    ChunkTurn(size, b, at, c, drained);
    if drained + |c.data| > LIMIT {
      BodyBad(size, b, at, drained);
    } else {
      BodyMore(size, b, at, drained, at + |c.line| + |c.data| + 2, drained + |c.data|);
    }
  }

  lemma ValidTail(size: Sizes, body: Body)
    requires ValidBody(size, body) && body.chunks != []
    ensures ValidChunk(size, body.chunks[0]) && ValidBody(size, body.(chunks := body.chunks[1..]))
  {
  }

  /** Draining the first chunk of a body leaves the rest of the body. */
  lemma FirstChunk(size: Sizes, b: seq<Byte>, at: nat, body: Body, end: nat, drained: nat)
      returns (next: nat, total: nat, tail: Body)
    requires ValidBody(size, body) && body.chunks != [] && BodyAt(b, at, body, end)
    ensures at <= next <= |b| && ValidBody(size, tail) && BodyAt(b, next, tail, end) && |tail.chunks| < |body.chunks|
    ensures total > drained && total + Total(tail.chunks) == drained + Total(body.chunks)
    ensures AfterBody(size, b, at, drained) == if total > LIMIT then None else AfterBody(size, b, next, total)
  {
    var c := body.chunks[0];
    ValidTail(size, body);
    ChunkDrained(size, b, at, c, drained);
    next, total, tail := at + |c.line| + |c.data| + 2, drained + |c.data|, body.(chunks := body.chunks[1..]);
  }

  /** A body is drained up to its last byte if and only if its chunks total at most 1 MiB. */
  lemma {:induction false} BodyDrained(size: Sizes, b: seq<Byte>, at: nat, body: Body, end: nat, drained: nat)
    requires ValidBody(size, body) && at <= |b| && BodyAt(b, at, body, end) && drained <= LIMIT
    ensures AfterBody(size, b, at, drained) == if drained + Total(body.chunks) <= LIMIT then Some(end) else None
    decreases |body.chunks|
  {
    if body.chunks == [] {
      LastTurn(size, b, at, body.last, drained);
      TrailersSkipped(size, b, at + |body.last|, body, end);
    } else {
      var next, total, tail := FirstChunk(size, b, at, body, end, drained);
      if total <= LIMIT {
        BodyDrained(size, b, next, tail, end, total);
      }
    }
  }

  lemma {:induction false} DrainedTrailers(b: seq<Byte>, at: nat, end: nat)
      returns (trailers: seq<seq<Byte>>, blank: seq<Byte>)
    requires at <= |b| && AfterTrailers(b, at) == Some(end)
    ensures Blank(blank) && forall i :: 0 <= i < |trailers| ==> IsLine(trailers[i], TRAILER_MAX) && !Blank(trailers[i])
    ensures forall last :: TrailersAt(b, at, Body([], last, trailers, blank), end)
    decreases |b| - at
  {
    FoundLine(b, at, TRAILER_MAX);
    var n := LineEnd(b, at, at + TRAILER_MAX).value;
    if Blank(b[at..n]) {
      trailers, blank := [], b[at..n];
    } else {
      var more;
      more, blank := DrainedTrailers(b, n, end);
      trailers := [b[at..n]] + more;
      assert trailers[1..] == more;
    }
  }

  lemma DrainedLine(size: Sizes, b: seq<Byte>, at: nat, drained: nat) returns (line: seq<Byte>)
    requires at <= |b| && OneTurn(size, b, at, drained) != Bad
    ensures At(b, at, line) && IsLine(line, LINE_MAX)
    ensures OneTurn(size, b, at, drained) == AfterLine(size(line), b, at + |line|, drained)
  {
    FoundLine(b, at, LINE_MAX);
    line := b[at..LineEnd(b, at, at + LINE_MAX).value];
  }

  lemma DrainedChunk(size: Sizes, b: seq<Byte>, at: nat, drained: nat) returns (c: Chunk)
    requires at <= |b| && OneTurn(size, b, at, drained).More?
    ensures ValidChunk(size, c) && ChunkAt(b, at, c)
    ensures OneTurn(size, b, at, drained) == More(at + |c.line| + |c.data| + 2, drained + |c.data|)
    ensures drained + |c.data| <= LIMIT
  {
    var line := DrainedLine(size, b, at, drained);
    var n := at + |line|;
    c := Chunk(line, b[n..n + size(line).value]);
  }

  function Cons(c: Chunk, rest: Body): (body: Body)
    ensures body.chunks != [] && body.chunks[0] == c && body.(chunks := body.chunks[1..]) == rest
  {
    rest.(chunks := [c] + rest.chunks)
  }

  lemma BodyCons(size: Sizes, c: Chunk, rest: Body)
    requires ValidChunk(size, c) && ValidBody(size, rest)
    ensures ValidBody(size, Cons(c, rest)) && Total(Cons(c, rest).chunks) == |c.data| + Total(rest.chunks)
  {
  }

  lemma StandsCons(b: seq<Byte>, at: nat, c: Chunk, rest: Body, end: nat)
    requires ChunkAt(b, at, c) && BodyAt(b, at + |c.line| + |c.data| + 2, rest, end)
    ensures BodyAt(b, at, Cons(c, rest), end)
  {
  }

  lemma BodyWith(size: Sizes, b: seq<Byte>, at: nat, c: Chunk, rest: Body, end: nat) returns (body: Body)
    requires ValidChunk(size, c) && ValidBody(size, rest) && ChunkAt(b, at, c)
    requires BodyAt(b, at + |c.line| + |c.data| + 2, rest, end)
    ensures ValidBody(size, body) && BodyAt(b, at, body, end) && Total(body.chunks) == |c.data| + Total(rest.chunks)
  {
    BodyCons(size, c, rest);
    StandsCons(b, at, c, rest, end);
    body := Cons(c, rest);
  }

  lemma DrainedLast(size: Sizes, b: seq<Byte>, at: nat, end: nat, drained: nat) returns (body: Body)
    requires at <= |b| && AfterBody(size, b, at, drained) == Some(end) && OneTurn(size, b, at, drained).Last?
    ensures ValidBody(size, body) && BodyAt(b, at, body, end) && body.chunks == []
  {
    hide AfterBody, OneTurn;
    var t := OneTurn(size, b, at, drained);
    BodyLast(size, b, at, drained, t.trailers);
    var last := DrainedLine(size, b, at, drained);
    var trailers, blank := DrainedTrailers(b, t.trailers, end);
    body := Body([], last, trailers, blank);
  }

  /** Conversely, whatever is drained is such a body, and draining stops right behind it. */
  lemma {:induction false} DrainedBody(size: Sizes, b: seq<Byte>, at: nat, end: nat, drained: nat) returns (body: Body)
    requires at <= |b| && drained <= LIMIT && AfterBody(size, b, at, drained) == Some(end)
    ensures ValidBody(size, body) && BodyAt(b, at, body, end) && drained + Total(body.chunks) <= LIMIT
    decreases |b| - at
  {
    hide BodyAt, OneTurn, ValidBody;
    var t := OneTurn(size, b, at, drained);
    if t.Last? {
      body := DrainedLast(size, b, at, end, drained);
    } else {
      var c := DrainedChunk(size, b, at, drained);
      BodyMore(size, b, at, drained, t.next, t.total);
      var rest := DrainedBody(size, b, t.next, end, t.total);
      body := BodyWith(size, b, at, c, rest, end);
    }
  }

  // ---- The writer. ----

  function HexDigit(d: nat): Byte
    requires d < 16
  {
    if d < 10 then 48 + d else 87 + d
  }

  /** `{n:x}`. */
  function Hex(n: nat): (r: seq<Byte>)
    ensures r != []
  {
    if n < 16 then [HexDigit(n)] else Hex(n / 16) + [HexDigit(n % 16)]
  }

  lemma {:induction false} HexFacts(n: nat, k: nat)
    requires k > 0 && n < Pow16(k)
    ensures HexValue(Hex(n)) == Some(n) && |Hex(n)| <= k
    ensures forall i :: 0 <= i < |Hex(n)| ==> Digit(Hex(n)[i]).Some?
    decreases n
  {
    if n < 16 {
      assert HexValue([]) == Some(0) && Hex(n)[..0] == [];
    } else {
      assert k > 1;
      HexFacts(n / 16, k - 1);
      assert Hex(n)[..|Hex(n)| - 1] == Hex(n / 16);
    }
  }

  lemma Pow16Sixteen()
    ensures Pow16(16) == USIZE_LIMIT
  {
    assert Pow16(4) == 0x1_0000;
    assert Pow16(8) == 0x1_0000_0000;
    assert Pow16(12) == 0x1_0000_0000_0000;
  }

  /** The size line written for a chunk is read back as its length. */
  lemma {:induction false} SizeLine(n: nat)
    requires n < USIZE_LIMIT
    ensures IsLine(Hex(n) + CRLF, LINE_MAX) && SizeOf(Hex(n) + CRLF) == Some(n)
  {
    Pow16Sixteen();
    HexFacts(n, 16);
    hide HexValue, Numeral, SizeOf, Hex, HexDigits, Digit;
    var h := Hex(n);
    var ds := HexFound(h);
    HexRead(h, ds);
    DigitsPlain(h, ds);
    LineBreak();
    assert [] + ([] + h) + CRLF + [] == h + CRLF;
    SizeRead(h + CRLF, [], false, h, [13, 10], [], ds);
  }

  lemma {:induction false} LineBreak()
    ensures WhiteText([]) && WhiteText([13, 10]) && WhiteBytes([]) == [] && WhiteBytes([13, 10]) == CRLF
  {
    assert [13, 10][1..] == [10] && [10][1..] == [];
  }

  /** What the upload side writes: every chunk read, then the zero chunk. */
  function Written(payloads: seq<seq<Byte>>): seq<Byte> {
    if payloads == [] then Hex(0) + CRLF + CRLF
    else Hex(|payloads[0]|) + CRLF + payloads[0] + CRLF + Written(payloads[1..])
  }

  function Sized(payloads: seq<seq<Byte>>): seq<Chunk> {
    if payloads == [] then [] else [Chunk(Hex(|payloads[0]|) + CRLF, payloads[0])] + Sized(payloads[1..])
  }

  /** The body that has been written. */
  function WrittenBody(payloads: seq<seq<Byte>>): Body {
    Body(Sized(payloads), Hex(0) + CRLF, [], CRLF)
  }

  lemma {:induction false} WrittenIsValid(payloads: seq<seq<Byte>>)
    requires forall i :: 0 <= i < |payloads| ==> 0 < |payloads[i]| < USIZE_LIMIT
    ensures ValidBody(SizeOf, WrittenBody(payloads)) && Total(Sized(payloads)) == |Flatten(payloads)|
    decreases |payloads|
  {
    SizeLine(0);
    if payloads != [] {
      SizeLine(|payloads[0]|);
      WrittenIsValid(payloads[1..]);
      assert Sized(payloads)[1..] == Sized(payloads[1..]);
    }
  }

  lemma AtParts(b: seq<Byte>, at: nat, x: seq<Byte>, y: seq<Byte>)
    requires At(b, at, x + y)
    ensures At(b, at, x) && At(b, at + |x|, y)
  {
    assert forall i :: 0 <= i < |x| ==> x[i] == (x + y)[i];
    assert forall i :: 0 <= i < |y| ==> y[i] == (x + y)[|x| + i];
  }

  lemma WrittenChunkAt(b: seq<Byte>, at: nat, c: Chunk, more: seq<Byte>)
    requires At(b, at, c.line + c.data + CRLF + more)
    ensures ChunkAt(b, at, c) && At(b, at + |c.line| + |c.data| + 2, more)
  {
    AtParts(b, at, c.line + c.data + CRLF, more);
    AtParts(b, at, c.line + c.data, CRLF);
    AtParts(b, at, c.line, c.data);
    assert CRLF[0] == CR && CRLF[1] == LF;
  }

  lemma EndStands(b: seq<Byte>, at: nat)
    requires At(b, at, Hex(0) + CRLF + CRLF)
    ensures BodyAt(b, at, WrittenBody([]), at + |Hex(0) + CRLF + CRLF|)
  {
    AtParts(b, at, Hex(0) + CRLF, CRLF);
  }

  lemma {:induction false} WrittenStands(b: seq<Byte>, at: nat, payloads: seq<seq<Byte>>)
    requires At(b, at, Written(payloads))
    ensures BodyAt(b, at, WrittenBody(payloads), at + |Written(payloads)|)
    decreases |payloads|
  {
    if payloads == [] {
      EndStands(b, at);
    } else {
      var c := Chunk(Hex(|payloads[0]|) + CRLF, payloads[0]);
      WrittenChunkAt(b, at, c, Written(payloads[1..]));
      WrittenStands(b, at + |c.line| + |c.data| + 2, payloads[1..]);
      StandsCons(b, at, c, WrittenBody(payloads[1..]), at + |Written(payloads)|);
      assert WrittenBody(payloads) == Cons(c, WrittenBody(payloads[1..]));
    }
  }

  lemma AtFront(x: seq<Byte>, rest: seq<Byte>)
    ensures At(x + rest, 0, x)
  {
  }

  /** For every list of non-empty chunks, draining what was written stops exactly at the first
    * byte behind it if the chunks total at most 1 MiB, and fails otherwise. */
  lemma WrittenBodyDrained(payloads: seq<seq<Byte>>, rest: seq<Byte>)
    requires forall i :: 0 <= i < |payloads| ==> 0 < |payloads[i]| < USIZE_LIMIT
    ensures AfterBody(SizeOf, Written(payloads) + rest, 0, 0) ==
            if |Flatten(payloads)| <= 1024 * 1024 then Some(|Written(payloads)|) else None
  {
    hide AfterBody, SizeOf;
    var b := Written(payloads) + rest;
    AtFront(Written(payloads), rest);
    WrittenIsValid(payloads);
    WrittenStands(b, 0, payloads);
    BodyDrained(SizeOf, b, 0, WrittenBody(payloads), |Written(payloads)|, 0);
  }
}
