/** The VLESS Vision unpadding decoder: a UUID, then padded blocks, then raw bytes. */
module VisionUnpadding {
  import opened Bytes
  import opened Framing

  datatype Mode = Unknown | Padding | Raw

  /** What the decoder has learnt so far; `direct` records that a command-2 block was completed. */
  datatype VState = VState(uuid: seq<Byte>, mode: Mode, direct: bool)

  const HEADER := 5
  const UUID_LEN := 16

  function BlockLen(b: seq<Byte>): (n: nat)
    requires HEADER <= |b|
    ensures HEADER <= n
  {
    HEADER + GetU16(b, 1) + GetU16(b, 3)
  }

  /** One block header, or one raw byte, at a time. */
  function VisionStep(s: VState, b: seq<Byte>): Step<VState, Byte> {
    match s.mode
    case Unknown =>
      if |b| < UUID_LEN then Wait
      else if b[..UUID_LEN] == s.uuid then Take(UUID_LEN, [], s.(mode := Padding))
      else Take(1, [b[0]], s.(mode := Raw))
    case Padding =>
      if |b| < HEADER then Wait
      else if b[0] > 2 then Take(1, [b[0]], s.(mode := Raw))
      else if |b| < BlockLen(b) then Wait
      else
        Take(BlockLen(b), b[HEADER..HEADER + GetU16(b, 1)],
             if b[0] == 0 then s else s.(mode := Raw, direct := b[0] == 2))
    case Raw =>
      if b == [] then Wait else Take(1, [b[0]], s)
  }

  lemma VisionIncremental()
    ensures Incremental(VisionStep)
  {
    forall s, b, c: seq<Byte> | !VisionStep(s, b).Wait?
      ensures VisionStep(s, b + c) == VisionStep(s, b)
    {
      assert |b| >= UUID_LEN ==> (b + c)[..UUID_LEN] == b[..UUID_LEN];
      if s.mode == Padding && |b| >= HEADER && BlockLen(b) <= |b| {
        assert (b + c)[HEADER..HEADER + GetU16(b, 1)] == b[HEADER..HEADER + GetU16(b, 1)];
      }
    }
  }

  lemma {:induction false} DrainRaw(s: VState, b: seq<Byte>)
    requires s.mode == Raw
    ensures Drain(VisionStep, s, b) == Parse(s, [], b, true)
    decreases |b|
  {
    if b != [] {
      DrainRaw(s, b[1..]);
      assert [b[0]] + b[1..] == b;
    }
  }

  lemma {:induction false} VisionNeverFails(s: VState, b: seq<Byte>)
    requires s.direct ==> s.mode == Raw
    ensures var r := Drain(VisionStep, s, b);
            r.ok && (r.state.direct ==> r.state.mode == Raw) && (s.direct ==> r.state.direct)
    ensures Drain(VisionStep, s, b).state.uuid == s.uuid
    decreases |b|
  {
    var t := VisionStep(s, b);
    if t.Take? {
      VisionNeverFails(t.next, b[t.n..]);
    }
  }

  /** What one turn of either loop does: a step of the decoder, except that the turn which makes
    * the mode raw also forwards everything that is left. */
  ghost predicate Turn(s: VState, b: seq<Byte>, s': VState, b': seq<Byte>, out: seq<Byte>) {
    var t := VisionStep(s, b);
    && t.Take? && s' == t.next
    && if s'.mode == Raw then b' == [] && out == t.out + b[t.n..] else b' == b[t.n..] && out == t.out
  }

  /** Giving up on padding forwards the whole buffer. */
  lemma TurnGivesUp(s: VState, b: seq<Byte>)
    requires b != [] && VisionStep(s, b) == Take(1, [b[0]], s.(mode := Raw))
    ensures VisionStep(s, b).Take? && Turn(s, b, s.(mode := Raw), [], b)
  {
  }

  /** A complete block, its content, and what lies behind it. */
  lemma TurnBlock(s: VState, b: seq<Byte>, content: seq<Byte>, rest: seq<Byte>)
    requires s.mode == Padding && |b| >= HEADER && b[0] <= 2 && BlockLen(b) <= |b|
    requires content == b[HEADER..HEADER + GetU16(b, 1)] && rest == b[BlockLen(b)..]
    ensures VisionStep(s, b).Take?
    ensures if b[0] == 0 then Turn(s, b, s, rest, content)
            else Turn(s, b, s.(mode := Raw, direct := b[0] == 2), [], content + rest)
  {
  }

  /** Neither an incomplete header nor an incomplete block is touched. */
  lemma PaddingWaits(s: VState, b: seq<Byte>)
    requires s.mode == Padding
    ensures VisionStep(s, b).Wait? <==> |b| < HEADER || (b[0] <= 2 && |b| < BlockLen(b))
    ensures |b| >= HEADER && b[0] > 2 ==> VisionStep(s, b) == Take(1, [b[0]], s.(mode := Raw))
  {
  }

  lemma NothingWaits(s: VState)
    ensures VisionStep(s, []).Wait?
  {
  }

  lemma TurnDrain(s: VState, b: seq<Byte>, s': VState, b': seq<Byte>, out: seq<Byte>, acc: seq<Byte>)
    requires Turn(s, b, s', b', out)
    ensures Prepend(acc, Drain(VisionStep, s, b)) == Prepend(acc + out, Drain(VisionStep, s', b'))
  {
    var t := VisionStep(s, b);
    Unfold(VisionStep, s, b, acc);
    if s'.mode == Raw {
      DrainRaw(s', b[t.n..]);
      DrainRaw(s', []);
      PrependTwice(acc, t.out, Drain(VisionStep, s', b[t.n..]));
      assert acc + t.out + b[t.n..] == acc + out;
    }
  }

  /** A block read by offset is the block at the front of the tail. */
  lemma BlockAt(input: seq<Byte>, offset: nat)
    requires offset + HEADER <= |input|
    ensures var tail, n := input[offset..], GetU16(input, offset + 1);
            && tail[0] == input[offset] && GetU16(tail, 1) == n
            && BlockLen(tail) == HEADER + n + GetU16(input, offset + 3)
            && (BlockLen(tail) <= |tail| ==>
                  && tail[HEADER..HEADER + n] == input[offset + HEADER..offset + HEADER + n]
                  && tail[BlockLen(tail)..] == input[offset + BlockLen(tail)..])
  {
  }

  /** Adds a chunk to the output list unless it is empty. */
  function Emit(chunks: seq<seq<Byte>>, piece: seq<Byte>): (r: seq<seq<Byte>>)
    ensures Flatten(r) == Flatten(chunks) + piece
    ensures chunks == [] ==> Flatten(r) == piece
  {
    assert [] + piece == piece;
    FlattenSnoc(chunks, piece);
    if piece == [] then chunks else chunks + [piece]
  }

  /** `VisionUnpaddingState`. */
  class Unpadder {
    const uuid: seq<Byte>
    var pending: seq<Byte>
    var mode: Mode
    ghost var direct: bool

    ghost predicate Valid()
      reads this
    {
      |uuid| == UUID_LEN && (direct ==> mode == Raw) && VisionStep(State(), pending).Wait?
    }

    ghost function State(): VState
      reads this
    {
      VState(uuid, mode, direct)
    }

    constructor (uuid: seq<Byte>)
      requires |uuid| == UUID_LEN
      ensures Valid() && State() == VState(uuid, Unknown, false) && pending == []
    {
      this.uuid, pending, mode, direct := uuid, [], Unknown, false;
    }

    /** Whatever the path taken, a push does what draining the buffered bytes followed by `data`
      * does; it reports `raised` exactly when it completes a command-2 block. */
    method Push(data: seq<Byte>) returns (chunks: seq<seq<Byte>>, raised: bool)
      requires Valid()
      modifies this
      ensures Valid()
      ensures var r := Drain(VisionStep, old(State()), old(pending) + data);
              && State() == r.state && pending == r.pending && Flatten(chunks) == r.out
              && raised == (r.state.direct && !old(State()).direct)
    {
      ghost var whole := pending + data;
      if mode == Raw {
        DrainRaw(State(), whole);
        FlattenSnoc([], data);
        chunks, raised := [data], false;
      } else if pending == [] {
        assert whole == data;
        chunks, raised := PushWithoutPending(data);
      } else {
        chunks, raised := PushBuffered(data);
      }
    }

    /** The buffered path: append, then take frames off the front of `pending`. */
    method PushBuffered(data: seq<Byte>) returns (chunks: seq<seq<Byte>>, raised: bool)
      requires Valid() && mode != Raw
      modifies this
      ensures Valid() && raised == direct
      ensures Drain(VisionStep, old(State()), old(pending) + data) == Parse(State(), pending, Flatten(chunks), true)
    {
      pending := pending + data;
      hide Drain;
      ghost var goal := Drain(VisionStep, State(), pending);
      chunks, raised := [], false;
      PrependNil(goal);
      var more := true;
      while more
        invariant raised == direct && (direct ==> mode == Raw) && (more ==> mode != Raw)
        invariant goal == Prepend(Flatten(chunks), Drain(VisionStep, State(), pending))
        invariant !more ==> VisionStep(State(), pending).Wait?
        decreases more, |pending|
      {
        ghost var s, b, acc := State(), pending, Flatten(chunks);
        var out;
        more, out, raised := BufferedTurn();
        if VisionStep(s, b).Take? {
          TurnDrain(s, b, State(), pending, Flatten(out), acc);
        }
        FlattenAppend(chunks, out);
        chunks := chunks + out;
      }
      DrainWaits(VisionStep, State(), pending, Flatten(chunks));
    }

    /** One turn of the buffered loop.  A turn that makes the mode raw is the last one, so the
      * loop's raw arm is never entered. */
    method BufferedTurn() returns (more: bool, out: seq<seq<Byte>>, raised: bool)
      requires mode != Raw && !direct
      modifies this
      ensures raised == direct && (direct ==> mode == Raw)
      ensures more ==> mode != Raw && |pending| < |old(pending)|
      ensures !more ==> VisionStep(State(), pending).Wait?
      ensures if VisionStep(old(State()), old(pending)).Wait?
              then !more && State() == old(State()) && pending == old(pending) && out == []
              else Turn(old(State()), old(pending), State(), pending, Flatten(out))
    {
      more, out, raised := false, [], false;
      if mode == Unknown {
        if |pending| < UUID_LEN {
          return;
        }
        if pending[..UUID_LEN] == uuid {
          more, pending, mode := true, pending[UUID_LEN..], Padding;
        } else {
          TurnGivesUp(State(), pending);
          out, pending, mode := Emit([], pending), [], Raw;
        }
        return;
      }
      if |pending| < HEADER {
        return;
      }
      var command := pending[0];
      if command > 2 {
        TurnGivesUp(State(), pending);
        out, pending, mode := Emit([], pending), [], Raw;
        return;
      }
      var contentLen := GetU16(pending, 1);
      var blockLen := HEADER + contentLen + GetU16(pending, 3);
      if |pending| < blockLen {
        return;
      }
      TurnBlock(State(), pending, pending[HEADER..HEADER + contentLen], pending[blockLen..]);
      out := Emit([], pending[HEADER..HEADER + contentLen]);
      pending := pending[blockLen..];
      if command != 0 {
        raised, direct, mode := command == 2, command == 2, Raw;
        out, pending := Emit(out, pending), [];
      } else {
        more := true;
      }
    }

    /** The zero-copy path: no copy of `data` is made except for an incomplete tail. */
    method PushWithoutPending(data: seq<Byte>) returns (chunks: seq<seq<Byte>>, raised: bool)
      requires Valid() && mode != Raw && pending == []
      modifies this
      ensures Valid() && raised == direct
      ensures Drain(VisionStep, old(State()), data) == Parse(State(), pending, Flatten(chunks), true)
    {
      chunks, raised := [], false;
      if mode == Padding {
        chunks, raised := WalkBlocks(data);
      } else if |data| < UUID_LEN {
        pending := data;
      } else if data[..UUID_LEN] == uuid {
        TurnDrain(State(), data, State().(mode := Padding), data[UUID_LEN..], [], []);
        PrependNil(Drain(VisionStep, State(), data));
        mode := Padding;
        PrependNil(Drain(VisionStep, State(), data[UUID_LEN..]));
        chunks, raised := WalkBlocks(data[UUID_LEN..]);
      } else {
        TurnDrain(State(), data, State().(mode := Raw), [], data, []);
        PrependNil(Drain(VisionStep, State(), data));
        chunks, mode := Emit([], data), Raw;
      }
    }

    /** Walks the blocks of `input` by offset. */
    method WalkBlocks(input: seq<Byte>) returns (chunks: seq<seq<Byte>>, raised: bool)
      requires Valid() && mode == Padding && pending == []
      modifies this
      ensures Valid() && raised == direct
      ensures Drain(VisionStep, old(State()), input) == Parse(State(), pending, Flatten(chunks), true)
    {
      hide Drain;
      ghost var goal := Drain(VisionStep, State(), input);
      chunks, raised := [], false;
      PrependNil(goal);
      var offset := 0;
      assert pending + input[offset..] == input;
      while offset < |input|
        invariant offset <= |input| && raised == direct && (direct ==> mode == Raw)
        invariant offset < |input| ==> mode == Padding && pending == []
        invariant goal == Prepend(Flatten(chunks), Drain(VisionStep, State(), pending + input[offset..]))
        invariant offset == |input| ==> VisionStep(State(), pending).Wait?
      {
        ghost var s, b, acc := State(), input[offset..], Flatten(chunks);
        assert b == pending + input[offset..];
        var out;
        offset, out, raised := OffsetTurn(input, offset);
        if VisionStep(s, b).Take? {
          TurnDrain(s, b, State(), pending + input[offset..], Flatten(out), acc);
        }
        FlattenAppend(chunks, out);
        chunks := chunks + out;
      }
      assert pending + input[offset..] == pending;
      DrainWaits(VisionStep, State(), pending, Flatten(chunks));
    }

    /** One turn of the zero-copy loop; every exit moves the offset to the end of `input`. */
    method OffsetTurn(input: seq<Byte>, offset: nat) returns (next: nat, out: seq<seq<Byte>>, raised: bool)
      requires offset < |input| && mode == Padding && !direct && pending == []
      modifies this
      ensures offset < next <= |input| && raised == direct && (direct ==> mode == Raw)
      ensures next < |input| ==> mode == Padding && pending == []
      ensures next == |input| ==> VisionStep(State(), pending).Wait?
      ensures if VisionStep(old(State()), input[offset..]).Wait?
              then State() == old(State()) && pending + input[next..] == input[offset..] && out == []
              else Turn(old(State()), input[offset..], State(), pending + input[next..], Flatten(out))
    {
      hide VisionStep, Turn;
      next, out, raised := |input|, [], false;
      PaddingWaits(State(), input[offset..]);
      assert pending + input[|input|..] == [];
      if |input| - offset < HEADER {
        pending := input[offset..];
        assert pending + input[|input|..] == pending;
        return;
      }
      BlockAt(input, offset);
      var command := input[offset];
      if command > 2 {
        TurnGivesUp(State(), input[offset..]);
        out, mode := Emit([], input[offset..]), Raw;
        NothingWaits(State());
        return;
      }
      var contentLen := GetU16(input, offset + 1);
      var blockLen := HEADER + contentLen + GetU16(input, offset + 3);
      if |input| - offset < blockLen {
        pending := input[offset..];
        assert pending + input[|input|..] == pending;
        return;
      }
      TurnBlock(State(), input[offset..], input[offset + HEADER..offset + HEADER + contentLen],
                input[offset + blockLen..]);
      out := Emit([], input[offset + HEADER..offset + HEADER + contentLen]);
      if command != 0 {
        raised, direct, mode := command == 2, command == 2, Raw;
        out := Emit(out, input[offset + blockLen..]);
      } else {
        next := offset + blockLen;
        assert pending + input[next..] == input[next..];
      }
      NothingWaits(State());
    }
  }
}
