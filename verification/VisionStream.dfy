/** What Vision streams mean: an independent grammar of padded blocks, and whole runs of pushes. */
module VisionStream {
  import opened Bytes
  import opened Framing
  import opened VisionUnpadding

  datatype Block = Block(command: Byte, content: seq<Byte>, padding: seq<Byte>)

  predicate FitsBlock(k: Block) {
    |k.content| < 0x1_0000 && |k.padding| < 0x1_0000
  }

  function EncodeBlock(k: Block): (r: seq<Byte>)
    ensures |r| == HEADER + |k.content| + |k.padding|
  {
    [k.command] + U16(|k.content|) + U16(|k.padding|) + k.content + k.padding
  }

  function EncodeBlocks(ks: seq<Block>): seq<Byte> {
    if ks == [] then [] else EncodeBlock(ks[0]) + EncodeBlocks(ks[1..])
  }

  function Contents(ks: seq<Block>): seq<Byte> {
    if ks == [] then [] else ks[0].content + Contents(ks[1..])
  }

  /** Command-0 blocks only, except that the last may end the padding. */
  ghost predicate PaddedRun(ks: seq<Block>) {
    forall i :: 0 <= i < |ks| ==> FitsBlock(ks[i]) && ks[i].command <= 2 && (i + 1 < |ks| ==> ks[i].command == 0)
  }

  ghost predicate Terminated(ks: seq<Block>) {
    ks != [] && ks[|ks| - 1].command != 0
  }

  /** An encoded block is taken whole, with exactly its content. */
  lemma StepBlock(s: VState, k: Block, rest: seq<Byte>)
    requires s.mode == Padding && FitsBlock(k) && k.command <= 2
    ensures VisionStep(s, EncodeBlock(k) + rest) ==
            Take(|EncodeBlock(k)|, k.content, if k.command == 0 then s else s.(mode := Raw, direct := k.command == 2))
  {
    var b := EncodeBlock(k) + rest;
    hide U16;
    assert U16(|k.content|) == b[1..3] && U16(|k.padding|) == b[3..5];
    assert GetU16(b, 1) == GetU16(U16(|k.content|), 0) && GetU16(b, 3) == GetU16(U16(|k.padding|), 0);
    assert b[HEADER..HEADER + |k.content|] == k.content;
  }

  /** Conversely, whatever the decoder takes as a block is the encoding of one. */
  lemma TakenBlock(s: VState, b: seq<Byte>) returns (k: Block)
    requires s.mode == Padding && |b| >= HEADER && b[0] <= 2 && BlockLen(b) <= |b|
    ensures FitsBlock(k) && k.command == b[0] && b == EncodeBlock(k) + b[BlockLen(b)..]
    ensures VisionStep(s, b).out == k.content && |EncodeBlock(k)| == BlockLen(b)
  {
    k := Block(b[0], b[HEADER..HEADER + GetU16(b, 1)], b[HEADER + GetU16(b, 1)..BlockLen(b)]);
    assert U16(|k.content|) == b[1..3] && U16(|k.padding|) == b[3..5];
  }

  lemma DrainOneBlock(s: VState, k: Block, rest: seq<Byte>)
    requires s.mode == Padding && FitsBlock(k) && k.command <= 2
    ensures Drain(VisionStep, s, EncodeBlock(k) + rest) ==
            if k.command == 0 then Prepend(k.content, Drain(VisionStep, s, rest))
            else Parse(s.(mode := Raw, direct := k.command == 2), [], k.content + rest, true)
  {
    StepBlock(s, k, rest);
    DrainFrame(VisionStep, s, EncodeBlock(k), rest);
    if k.command != 0 {
      DrainRaw(s.(mode := Raw, direct := k.command == 2), rest);
    }
  }

  lemma BlocksCons(k: Block, ks: seq<Block>, rest: seq<Byte>)
    ensures EncodeBlocks([k] + ks) + rest == EncodeBlock(k) + (EncodeBlocks(ks) + rest)
    ensures Contents([k] + ks) == k.content + Contents(ks)
    ensures Contents([k] + ks) + rest == k.content + (Contents(ks) + rest)
  {
    assert ([k] + ks)[1..] == ks;
  }

  lemma PaddedCons(k: Block, ks: seq<Block>)
    requires FitsBlock(k) && k.command <= 2
    ensures k.command == 0 && PaddedRun(ks) ==> PaddedRun([k] + ks)
    ensures PaddedRun([k] + ks) ==> PaddedRun(ks) && (ks != [] ==> k.command == 0)
    ensures ks != [] ==> Terminated([k] + ks) == Terminated(ks)
  {
    var all := [k] + ks;
    assert forall i :: 0 <= i < |ks| ==> ks[i] == all[i + 1];
    assert ks != [] ==> all[|all| - 1] == ks[|ks| - 1];
    assert all[0] == k;
  }

  /** Padded blocks followed by anything: contents come out, then the rest raw or kept. */
  lemma {:induction false} DrainBlocks(s: VState, ks: seq<Block>, rest: seq<Byte>)
    requires s.mode == Padding && PaddedRun(ks)
    ensures Drain(VisionStep, s, EncodeBlocks(ks) + rest) ==
            if Terminated(ks)
            then Parse(s.(mode := Raw, direct := ks[|ks| - 1].command == 2), [], Contents(ks) + rest, true)
            else Prepend(Contents(ks), Drain(VisionStep, s, rest))
    decreases |ks|
  {
    if ks == [] {
      assert EncodeBlocks(ks) + rest == rest;
      PrependNil(Drain(VisionStep, s, rest));
    } else {
      var k, ks1 := ks[0], ks[1..];
      assert ks == [k] + ks1;
      BlocksCons(k, ks1, rest);
      PaddedCons(k, ks1);
      DrainOneBlock(s, k, EncodeBlocks(ks1) + rest);
      if k.command == 0 {
        DrainBlocks(s, ks1, rest);
        PrependTwice(k.content, Contents(ks1), Drain(VisionStep, s, rest));
      } else {
        assert EncodeBlocks(ks1) + rest == rest;
        assert Contents(ks) == k.content;
      }
    }
  }

  /** How a padded stream, its blocks and the outcome of parsing it belong together. */
  ghost predicate Explains(b: seq<Byte>, ks: seq<Block>, rest: seq<Byte>, r: Parse<VState, Byte>) {
    && PaddedRun(ks) && b == EncodeBlocks(ks) + rest
    && if r.state.mode == Padding
       then !Terminated(ks) && r.out == Contents(ks) && r.pending == rest && !r.state.direct
       else && r.state.mode == Raw && r.out == Contents(ks) + rest && r.pending == []
            && (r.state.direct <==> Terminated(ks) && ks[|ks| - 1].command == 2)
            && (Terminated(ks) || (|rest| >= HEADER && rest[0] > 2))
  }

  lemma ExplainsNothing(rest: seq<Byte>)
    ensures PaddedRun([]) && rest == EncodeBlocks([]) + rest && Contents([]) + rest == rest && Contents([]) == []
  {
  }

  lemma ExplainsCons(k: Block, b: seq<Byte>, ks: seq<Block>, rest: seq<Byte>, r: Parse<VState, Byte>)
    requires k.command == 0 && FitsBlock(k) && Explains(b, ks, rest, r)
    ensures Explains(EncodeBlock(k) + b, [k] + ks, rest, Prepend(k.content, r))
  {
    BlocksCons(k, ks, rest);
    PaddedCons(k, ks);
  }

  /** Every padded stream splits into the blocks the decoder took and a rest it passed through
    * or kept.  In particular `direct` is reached only behind a complete command-2 block. */
  lemma {:induction false} ParsedBlocks(s: VState, b: seq<Byte>) returns (ks: seq<Block>, rest: seq<Byte>)
    requires s.mode == Padding && !s.direct
    ensures Explains(b, ks, rest, Drain(VisionStep, s, b))
    decreases |b|
  {
    ks, rest := [], b;
    ExplainsNothing(b);
    var t := VisionStep(s, b);
    if |b| >= HEADER && b[0] > 2 {
      DrainRaw(t.next, b[1..]);
      assert [b[0]] + b[1..] == b;
    } else if t.Take? {
      var k := TakenBlock(s, b);
      DrainOneBlock(s, k, b[t.n..]);
      if k.command == 0 {
        ks, rest := ParsedBlocks(s, b[t.n..]);
        ExplainsCons(k, b[t.n..], ks, rest, Drain(VisionStep, s, b[t.n..]));
        ks := [k] + ks;
      } else {
        ExplainsNothing(b[t.n..]);
        BlocksCons(k, [], b[t.n..]);
        ks, rest := [k], b[t.n..];
        assert [k] + [] == [k];
      }
    }
  }

  function Start(uuid: seq<Byte>): VState {
    VState(uuid, Unknown, false)
  }

  /** The connection after a list of pushes. */
  function Pushed(uuid: seq<Byte>, chunks: seq<seq<Byte>>): Parse<VState, Byte> {
    FeedAll(VisionStep, Fresh(Start(uuid)), chunks)
  }

  /** Output, residue and mode depend on the bytes pushed and not on how they were cut. */
  lemma VisionChunking(uuid: seq<Byte>, chunks: seq<seq<Byte>>)
    ensures Pushed(uuid, chunks) == Drain(VisionStep, Start(uuid), Flatten(chunks))
    ensures Pushed(uuid, chunks).ok
  {
    VisionIncremental();
    FreshChunking(VisionStep, Start(uuid), chunks);
    VisionNeverFails(Start(uuid), Flatten(chunks));
  }

  lemma OneMoreChunk(uuid: seq<Byte>, chunks: seq<seq<Byte>>, i: nat)
    requires i < |chunks|
    ensures var r := Drain(VisionStep, Start(uuid), Flatten(chunks[..i]));
            Drain(VisionStep, Start(uuid), Flatten(chunks[..i + 1])) ==
            Prepend(r.out, Drain(VisionStep, r.state, r.pending + chunks[i]))
    ensures Drain(VisionStep, Start(uuid), Flatten(chunks[..i + 1])).ok
  {
    assert chunks[..i + 1] == chunks[..i] + [chunks[i]];
    FlattenSnoc(chunks[..i], chunks[i]);
    VisionIncremental();
    VisionNeverFails(Start(uuid), Flatten(chunks[..i]));
    VisionNeverFails(Start(uuid), Flatten(chunks[..i + 1]));
    DrainAppend(VisionStep, Start(uuid), Flatten(chunks[..i]), chunks[i]);
  }

  /** The downlink loop: push every read and write out, in order, what comes back. */
  method Downlink(uuid: seq<Byte>, chunks: seq<seq<Byte>>) returns (output: seq<Byte>)
    requires |uuid| == UUID_LEN
    ensures output == Drain(VisionStep, Start(uuid), Flatten(chunks)).out
  {
    var state := new Unpadder(uuid);
    output := [];
    for i := 0 to |chunks|
      invariant fresh(state) && state.Valid()
      invariant Drain(VisionStep, Start(uuid), Flatten(chunks[..i])) ==
                Parse(state.State(), state.pending, output, true)
    {
      OneMoreChunk(uuid, chunks, i);
      var pieces, raised := state.Push(chunks[i]);
      output := output + Flatten(pieces);
    }
    assert chunks[..|chunks|] == chunks;
  }

  /** Push `i` reports the switch to direct copying. */
  predicate Raises(uuid: seq<Byte>, chunks: seq<seq<Byte>>, i: nat)
    requires i < |chunks|
  {
    Pushed(uuid, chunks[..i + 1]).state.direct && !Pushed(uuid, chunks[..i]).state.direct
  }

  lemma DirectStays(uuid: seq<Byte>, chunks: seq<seq<Byte>>, i: nat, j: nat)
    requires i <= j <= |chunks| && Pushed(uuid, chunks[..i]).state.direct
    ensures Pushed(uuid, chunks[..j]).state.direct
  {
    VisionChunking(uuid, chunks[..i]);
    VisionChunking(uuid, chunks[..j]);
    assert chunks[..j] == chunks[..i] + chunks[i..j];
    FlattenAppend(chunks[..i], chunks[i..j]);
    VisionIncremental();
    DrainAppend(VisionStep, Start(uuid), Flatten(chunks[..i]), Flatten(chunks[i..j]));
    var r := Drain(VisionStep, Start(uuid), Flatten(chunks[..i]));
    VisionNeverFails(Start(uuid), Flatten(chunks[..i]));
    VisionNeverFails(r.state, r.pending + Flatten(chunks[i..j]));
  }

  /** Over a whole run the switch is reported at most once, and it is reported exactly when the
    * stream is the UUID, command-0 blocks and a command-2 block, followed by anything. */
  lemma {:induction false} DirectOnce(uuid: seq<Byte>, chunks: seq<seq<Byte>>)
    requires |uuid| == UUID_LEN
    ensures forall i, j :: 0 <= i < j < |chunks| && Raises(uuid, chunks, i) ==> !Raises(uuid, chunks, j)
    ensures (exists i :: 0 <= i < |chunks| && Raises(uuid, chunks, i)) <==>
            (exists ks, rest :: IsDirectStream(uuid, Flatten(chunks), ks, rest))
  {
    hide Pushed, VisionStep, Drain, IsDirectStream;
    forall i, j | 0 <= i < j < |chunks| && Raises(uuid, chunks, i)
      ensures !Raises(uuid, chunks, j)
    {
      DirectStays(uuid, chunks, i + 1, j);
    }
    FirstRaise(uuid, chunks, |chunks|);
    assert chunks[..|chunks|] == chunks;
    VisionChunking(uuid, chunks);
    DirectStream(uuid, Flatten(chunks));
    forall i | 0 <= i < |chunks| && Raises(uuid, chunks, i)
      ensures Pushed(uuid, chunks).state.direct
    {
      DirectStays(uuid, chunks, i + 1, |chunks|);
    }
  }

  lemma {:induction false} FirstRaise(uuid: seq<Byte>, chunks: seq<seq<Byte>>, n: nat)
    requires n <= |chunks|
    ensures Pushed(uuid, chunks[..n]).state.direct ==> exists i :: 0 <= i < n && Raises(uuid, chunks, i)
  {
    if n > 0 {
      FirstRaise(uuid, chunks, n - 1);
      assert !Pushed(uuid, chunks[..n - 1]).state.direct && Pushed(uuid, chunks[..n]).state.direct ==>
          Raises(uuid, chunks, n - 1);
    }
  }

  ghost predicate IsDirectStream(uuid: seq<Byte>, b: seq<Byte>, ks: seq<Block>, rest: seq<Byte>) {
    PaddedRun(ks) && Terminated(ks) && ks[|ks| - 1].command == 2 && b == uuid + (EncodeBlocks(ks) + rest)
  }

  lemma DirectStream(uuid: seq<Byte>, b: seq<Byte>)
    requires |uuid| == UUID_LEN
    ensures Drain(VisionStep, Start(uuid), b).state.direct <==> exists ks, rest :: IsDirectStream(uuid, b, ks, rest)
  {
    var s := Start(uuid).(mode := Padding);
    if |b| >= UUID_LEN && b[..UUID_LEN] == uuid {
      assert b == uuid + b[UUID_LEN..];
      var ks, rest := ParsedBlocks(s, b[UUID_LEN..]);
      if Terminated(ks) && ks[|ks| - 1].command == 2 {
        assert IsDirectStream(uuid, b, ks, rest);
      }
    } else if |b| >= UUID_LEN {
      DrainRaw(Start(uuid).(mode := Raw), b[1..]);
    }
    forall ks, rest | IsDirectStream(uuid, b, ks, rest)
      ensures Drain(VisionStep, Start(uuid), b).state.direct
    {
      assert b[..UUID_LEN] == uuid && b[UUID_LEN..] == EncodeBlocks(ks) + rest;
      DrainBlocks(s, ks, rest);
    }
  }
}
