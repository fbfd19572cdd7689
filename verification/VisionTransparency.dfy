/** What the peer's unpadding makes of the Vision uplink: when it keeps in step, and when it outputs
  * exactly what was read. */
module VisionTransparency {
  import opened Bytes
  import opened Framing
  import opened VisionUnpadding
  import opened VisionStream
  import opened VisionUplink

  /** Appending to a stream that has been parsed without residue. */
  lemma MoreDrained(s: VState, b: seq<Byte>, t: VState, got: seq<Byte>, more: seq<Byte>)
    requires Drain(VisionStep, s, b) == Parse(t, [], got, true)
    ensures Drain(VisionStep, s, b + more) == Prepend(got, Drain(VisionStep, t, more))
  {
    VisionIncremental();
    DrainOn(VisionStep, s, b, more);
  }

  lemma DrainPrefix(uuid: seq<Byte>)
    requires |uuid| == UUID_LEN
    ensures Drain(VisionStep, Start(uuid), uuid) == Parse(Start(uuid).(mode := Padding), [], [], true)
  {
  }

  lemma UuidInFront(uuid: seq<Byte>, content: seq<Byte>)
    ensures XtlsPadding(content, 0, Some(uuid), true) == uuid + XtlsPadding(content, 0, None, true)
  {
  }

  /** A decoder that ends in the padding mode has dropped a header for every block it took. */
  lemma {:induction false} HeadersDropped(s: VState, b: seq<Byte>)
    requires s.mode == Padding && b != []
    ensures var r := Drain(VisionStep, s, b);
            r.state.mode == Padding && r.pending == [] ==> |r.out| + HEADER <= |b|
    decreases |b|
  {
    var t := VisionStep(s, b);
    if t.Take? {
      if t.next.mode == Raw {
        DrainRaw(t.next, b[t.n..]);
      } else if b[t.n..] != [] {
        HeadersDropped(s, b[t.n..]);
      }
    }
  }

  /** An overlong block: its length field names only the first part of its content. */
  lemma OverlongBlock(s: VState, content: seq<Byte>, command: Byte)
    requires s.mode == Padding && command <= 2 && |content| >= 0x1_0000
    ensures var n := |content| % 0x1_0000;
            Drain(VisionStep, s, XtlsPadding(content, command, None, true)) ==
            Prepend(content[..n], Drain(VisionStep, AfterBlock(s, command), content[n..]))
  {
    var n := |content| % 0x1_0000;
    var b := XtlsPadding(content, command, None, true);
    var k := Block(command, content[..n], []);
    assert U16(|content|) == U16(n);
    assert b == EncodeBlock(k) + content[n..];
    StepBlock(s, k, content[n..]);
    DrainFrame(VisionStep, s, EncodeBlock(k), content[n..]);
  }

  function AfterBlock(s: VState, command: Byte): VState {
    if command == 0 then s else s.(mode := Raw, direct := command == 2)
  }

  lemma FittingBlock(s: VState, content: seq<Byte>, command: Byte)
    requires s.mode == Padding && command <= 2 && |content| < 0x1_0000
    ensures Drain(VisionStep, s, XtlsPadding(content, command, None, true)) ==
            Parse(AfterBlock(s, command), [], content, true)
  {
    BlockReadsBack(s, content, command, true);
    var b := XtlsPadding(content, command, None, true);
    var k :| FitsBlock(k) && k.command == command && k.content == content && b == EncodeBlock(k);
    hide XtlsPadding, EncodeBlock;
    DrainOneBlock(s, k, []);
    DrainWaits(VisionStep, s, [], content);
    assert b + [] == b && content + [] == content;
  }

  /** A block gives its content and leaves the decoder in step if and only if it is the last padded
    * one or its length fits the field: behind a terminal block the rest of an overlong content
    * passes through raw. */
  lemma BlockInSync(s: VState, content: seq<Byte>, command: Byte)
    requires s.mode == Padding && command <= 2
    ensures (Drain(VisionStep, s, XtlsPadding(content, command, None, true)) ==
             Parse(AfterBlock(s, command), [], content, true)) <==> (command != 0 || |content| < 0x1_0000)
  {
    hide XtlsPadding, VisionStep, Drain;
    if |content| < 0x1_0000 {
      FittingBlock(s, content, command);
    } else {
      var n := |content| % 0x1_0000;
      var head, tail := content[..n], content[n..];
      OverlongBlock(s, content, command);
      assert head + tail == content;
      if command == 0 {
        HeadersDropped(s, tail);
      } else {
        DrainRaw(AfterBlock(s, command), tail);
      }
    }
  }

  /** The state a peer is in that has kept up with the uplink. */
  function PeerState(uuid: seq<Byte>, u: UplinkView): VState {
    VState(uuid, if u.padding then Padding else Raw, u.directSent)
  }

  /** What has been written so far parses, without residue, into what has been read. */
  ghost predicate Transparent(uuid: seq<Byte>, wire: seq<seq<Byte>>, s: VState, got: seq<Byte>) {
    Drain(VisionStep, Start(uuid), Flatten(wire)) == Parse(s, [], got, true)
  }

  lemma SameBehind(a: seq<Byte>, x: Parse<VState, Byte>, s: VState, content: seq<Byte>)
    ensures Prepend(a, x) == Parse(s, [], a + content, true) <==> x == Parse(s, [], content, true)
  {
    assert (a + x.out)[|a|..] == x.out && (a + content)[|a|..] == content;
  }

  /** One more block keeps the peer in step exactly if `BlockInSync` says so. */
  lemma NextBlock(uuid: seq<Byte>, s: VState, wire: seq<seq<Byte>>, got: seq<Byte>, content: seq<Byte>, command: Byte)
    requires Transparent(uuid, wire, s, got) && s.mode == Padding && command <= 2
    ensures var wire' := wire + [XtlsPadding(content, command, None, true)];
            Transparent(uuid, wire', AfterBlock(s, command), got + content) <==> command != 0 || |content| < 0x1_0000
  {
    hide XtlsPadding, VisionStep, AfterBlock;
    var b := XtlsPadding(content, command, None, true);
    FlattenSnoc(wire, b);
    MoreDrained(Start(uuid), Flatten(wire), s, got, b);
    SameBehind(got, Drain(VisionStep, s, b), AfterBlock(s, command), content);
    BlockInSync(s, content, command);
  }

  lemma NextRaw(uuid: seq<Byte>, s: VState, wire: seq<seq<Byte>>, got: seq<Byte>, input: seq<Byte>)
    requires Transparent(uuid, wire, s, got) && s.mode == Raw
    ensures Transparent(uuid, wire + [input], s, got + input)
  {
    FlattenSnoc(wire, input);
    MoreDrained(Start(uuid), Flatten(wire), s, got, input);
    DrainRaw(s, input);
  }

  lemma FirstBlock(uuid: seq<Byte>, first: seq<Byte>)
    requires |uuid| == UUID_LEN
    ensures Transparent(uuid, [XtlsPadding(first, 0, Some(uuid), true)], Start(uuid).(mode := Padding), first) <==>
            |first| < 0x1_0000
  {
    hide XtlsPadding, VisionStep;
    var s, b := Start(uuid).(mode := Padding), XtlsPadding(first, 0, None, true);
    DrainPrefix(uuid);
    UuidInFront(uuid, first);
    FlattenOne(uuid + b);
    MoreDrained(Start(uuid), uuid, s, [], b);
    PrependNil(Drain(VisionStep, s, b));
    BlockInSync(s, first, 0);
  }

  /** After the first `i` reads the peer has output exactly those, holds nothing back, and is in
    * the mode the uplink is in. */
  ghost predicate SyncAt(uuid: seq<Byte>, first: seq<Byte>, inputs: seq<seq<Byte>>, confirmed: seq<bool>, i: nat)
    requires i <= |inputs| == |confirmed|
  {
    Transparent(uuid, Wire(uuid, first, inputs, confirmed, i), PeerState(uuid, ViewAt(inputs, confirmed, i)),
                first + Flatten(inputs[..i]))
  }

  /** Read `i` is not too long for the block it travels in. */
  predicate FitsAt(inputs: seq<seq<Byte>>, confirmed: seq<bool>, i: nat)
    requires i < |inputs| == |confirmed|
  {
    ViewAt(inputs, confirmed, i).padding && CommandAt(inputs, confirmed, i) == 0 ==> |inputs[i]| < 0x1_0000
  }

  lemma SyncFirst(uuid: seq<Byte>, first: seq<Byte>, inputs: seq<seq<Byte>>, confirmed: seq<bool>)
    requires |uuid| == UUID_LEN && |inputs| == |confirmed|
    ensures SyncAt(uuid, first, inputs, confirmed, 0) <==> |first| < 0x1_0000
  {
    FirstBlock(uuid, first);
    assert first + Flatten(inputs[..0]) == first;
  }

  lemma SyncNext(uuid: seq<Byte>, first: seq<Byte>, inputs: seq<seq<Byte>>, confirmed: seq<bool>, i: nat)
    requires i < |inputs| == |confirmed| && SyncAt(uuid, first, inputs, confirmed, i)
    ensures SyncAt(uuid, first, inputs, confirmed, i + 1) <==> FitsAt(inputs, confirmed, i)
  {
    hide Command, XtlsPadding, Transparent;
    var u := ViewAt(inputs, confirmed, i);
    var wire, got := Wire(uuid, first, inputs, confirmed, i), first + Flatten(inputs[..i]);
    assert inputs[..i + 1] == inputs[..i] + [inputs[i]];
    FlattenSnoc(inputs[..i], inputs[i]);
    Assoc(first, Flatten(inputs[..i]), inputs[i]);
    if u.padding {
      WhilePadding(inputs, confirmed, i);
      NextBlock(uuid, PeerState(uuid, u), wire, got, inputs[i], CommandAt(inputs, confirmed, i));
    } else {
      NextRaw(uuid, PeerState(uuid, u), wire, got, inputs[i]);
    }
  }

  ghost predicate AllSync(uuid: seq<Byte>, first: seq<Byte>, inputs: seq<seq<Byte>>, confirmed: seq<bool>, n: nat)
    requires n <= |inputs| == |confirmed|
  {
    forall i :: 0 <= i <= n ==> SyncAt(uuid, first, inputs, confirmed, i)
  }

  ghost predicate AllFit(first: seq<Byte>, inputs: seq<seq<Byte>>, confirmed: seq<bool>, n: nat)
    requires n <= |inputs| == |confirmed|
  {
    |first| < 0x1_0000 && forall i :: 0 <= i < n ==> FitsAt(inputs, confirmed, i)
  }

  /** Keeping in step, exactly: for every list of reads, the peer keeps up with the uplink, mode
    * included, at every moment if and only if no read that travels in a command-0 block is longer than 65535
    * bytes.  Neither the terminal block nor the raw reads behind it are limited. */
  lemma {:induction false} InSyncExactly(
      uuid: seq<Byte>, first: seq<Byte>, inputs: seq<seq<Byte>>, confirmed: seq<bool>, n: nat)
    requires |uuid| == UUID_LEN && n <= |inputs| == |confirmed|
    ensures AllSync(uuid, first, inputs, confirmed, n) <==> AllFit(first, inputs, confirmed, n)
    decreases n
  {
    hide SyncAt, FitsAt;
    if n == 0 {
      SyncFirst(uuid, first, inputs, confirmed);
    } else {
      InSyncExactly(uuid, first, inputs, confirmed, n - 1);
      if AllSync(uuid, first, inputs, confirmed, n - 1) {
        SyncNext(uuid, first, inputs, confirmed, n - 1);
      }
    }
  }

  // ---- Output alone. ----

  lemma {:induction false} OutputBounded(s: VState, b: seq<Byte>)
    ensures |Drain(VisionStep, s, b).out| <= |b|
    decreases |b|
  {
    var t := VisionStep(s, b);
    if t.Take? {
      OutputBounded(t.next, b[t.n..]);
    }
  }

  /** What starts like a block loses at least that header. */
  lemma HeaderLost(s: VState, b: seq<Byte>)
    requires s.mode == Padding && |b| >= HEADER && b[0] <= 2
    ensures |Drain(VisionStep, s, b).out| + HEADER <= |b|
  {
    var t := VisionStep(s, b);
    if t.Take? {
      OutputBounded(t.next, b[t.n..]);
    }
  }

  /** What cannot be a block is passed on whole. */
  lemma GivesUp(s: VState, b: seq<Byte>)
    requires s.mode == Padding && |b| >= HEADER && b[0] > 2
    ensures Drain(VisionStep, s, b) == Parse(s.(mode := Raw), [], b, true)
  {
    DrainRaw(s.(mode := Raw), b[1..]);
    assert [b[0]] + b[1..] == b;
  }

  /** The content survives the cast of its length: it fits, or the first byte behind what the length
    * field names cannot be a command, so that the decoder gives up on padding just there. */
  predicate Passes(content: seq<Byte>) {
    |content| < 0x1_0000 || content[|content| % 0x1_0000] > 2
  }

  /** The first `k` bytes of a content, and what becomes of the rest in the padding mode. */
  lemma CutOutput(s: VState, content: seq<Byte>, k: nat)
    requires s.mode == Padding && k + HEADER <= |content|
    ensures var r := Prepend(content[..k], Drain(VisionStep, s, content[k..]));
            if content[k] > 2 then r == Parse(s.(mode := Raw), [], content, true) else |r.out| < |content|
  {
    hide VisionStep, Drain;
    assert content[..k] + content[k..] == content;
    if content[k] > 2 {
      GivesUp(s, content[k..]);
    } else {
      HeaderLost(s, content[k..]);
    }
  }

  /** An overlong command-0 block: output exactly, by a decoder that is raw from then on, or with
    * bytes missing. */
  lemma OverlongOutput(s: VState, content: seq<Byte>)
    requires s.mode == Padding && |content| >= 0x1_0000
    ensures var r := Drain(VisionStep, s, XtlsPadding(content, 0, None, true));
            if Passes(content) then r == Parse(s.(mode := Raw), [], content, true) else |r.out| < |content|
  {
    hide XtlsPadding, VisionStep, Drain;
    OverlongBlock(s, content, 0);
    CutOutput(s, content, |content| % 0x1_0000);
  }

  /** A block outputs its content exactly if it is terminal or its content passes. */
  lemma BlockOutput(s: VState, content: seq<Byte>, command: Byte)
    requires s.mode == Padding && command <= 2
    ensures Drain(VisionStep, s, XtlsPadding(content, command, None, true)).out == content <==>
            command != 0 || Passes(content)
  {
    hide XtlsPadding, VisionStep;
    BlockInSync(s, content, command);
    if command == 0 && |content| >= 0x1_0000 {
      OverlongOutput(s, content);
    }
  }

  /** After the first `i` reads the peer has output exactly those. */
  ghost predicate OutputAt(uuid: seq<Byte>, first: seq<Byte>, inputs: seq<seq<Byte>>, confirmed: seq<bool>, i: nat)
    requires i <= |inputs| == |confirmed|
  {
    Drain(VisionStep, Start(uuid), Flatten(Wire(uuid, first, inputs, confirmed, i))).out == first + Flatten(inputs[..i])
  }

  /** ... but it has given up on padding while the uplink has not. */
  ghost predicate LeftBehind(uuid: seq<Byte>, first: seq<Byte>, inputs: seq<seq<Byte>>, confirmed: seq<bool>, i: nat)
    requires i <= |inputs| == |confirmed|
  {
    && ViewAt(inputs, confirmed, i).padding
    && Transparent(uuid, Wire(uuid, first, inputs, confirmed, i), VState(uuid, Raw, false), first + Flatten(inputs[..i]))
  }

  lemma MoreReads(first: seq<Byte>, inputs: seq<seq<Byte>>, i: nat)
    requires i < |inputs|
    ensures first + Flatten(inputs[..i + 1]) == first + Flatten(inputs[..i]) + inputs[i]
  {
    assert inputs[..i + 1] == inputs[..i] + [inputs[i]];
    FlattenSnoc(inputs[..i], inputs[i]);
    Assoc(first, Flatten(inputs[..i]), inputs[i]);
  }

  lemma SameOutput(a: seq<Byte>, x: seq<Byte>, y: seq<Byte>)
    ensures a + x == a + y <==> x == y
  {
    assert (a + x)[|a|..] == x && (a + y)[|a|..] == y;
  }

  lemma NextOutput(uuid: seq<Byte>, s: VState, wire: seq<seq<Byte>>, got: seq<Byte>, content: seq<Byte>, command: Byte)
    requires Transparent(uuid, wire, s, got) && s.mode == Padding && command <= 2
    ensures var wire' := wire + [XtlsPadding(content, command, None, true)];
            && (Drain(VisionStep, Start(uuid), Flatten(wire')).out == got + content <==> command != 0 || Passes(content))
            && (command == 0 && |content| >= 0x1_0000 && Passes(content) ==>
                  Transparent(uuid, wire', s.(mode := Raw), got + content))
  {
    hide XtlsPadding, VisionStep;
    var b := XtlsPadding(content, command, None, true);
    FlattenSnoc(wire, b);
    MoreDrained(Start(uuid), Flatten(wire), s, got, b);
    BlockOutput(s, content, command);
    SameOutput(got, Drain(VisionStep, s, b).out, content);
    if command == 0 && |content| >= 0x1_0000 {
      OverlongOutput(s, content);
    }
  }

  lemma FirstOutput(uuid: seq<Byte>, first: seq<Byte>, inputs: seq<seq<Byte>>, confirmed: seq<bool>)
    requires |uuid| == UUID_LEN && |inputs| == |confirmed|
    ensures OutputAt(uuid, first, inputs, confirmed, 0) <==> Passes(first)
    ensures Passes(first) && |first| >= 0x1_0000 ==> LeftBehind(uuid, first, inputs, confirmed, 0)
  {
    hide XtlsPadding, VisionStep, Passes;
    var s, b := Start(uuid).(mode := Padding), XtlsPadding(first, 0, None, true);
    assert first + Flatten(inputs[..0]) == first;
    DrainPrefix(uuid);
    UuidInFront(uuid, first);
    FlattenOne(uuid + b);
    MoreDrained(Start(uuid), uuid, s, [], b);
    PrependNil(Drain(VisionStep, s, b));
    BlockOutput(s, first, 0);
    if |first| >= 0x1_0000 {
      OverlongOutput(s, first);
    }
  }

  /** From a moment in step: the next read is output exactly if it fits its block or passes. */
  lemma {:induction false} OutputNext(uuid: seq<Byte>, first: seq<Byte>, inputs: seq<seq<Byte>>, confirmed: seq<bool>, i: nat)
    requires i < |inputs| == |confirmed| && SyncAt(uuid, first, inputs, confirmed, i)
    ensures OutputAt(uuid, first, inputs, confirmed, i + 1) <==> FitsAt(inputs, confirmed, i) || Passes(inputs[i])
    ensures !FitsAt(inputs, confirmed, i) && Passes(inputs[i]) ==> LeftBehind(uuid, first, inputs, confirmed, i + 1)
  {
    hide Command, XtlsPadding, VisionStep, Passes;
    var u := ViewAt(inputs, confirmed, i);
    var wire, got := Wire(uuid, first, inputs, confirmed, i), first + Flatten(inputs[..i]);
    MoreReads(first, inputs, i);
    if u.padding {
      WhilePadding(inputs, confirmed, i);
      NextOutput(uuid, PeerState(uuid, u), wire, got, inputs[i], CommandAt(inputs, confirmed, i));
      FittingPasses(inputs[i]);
    } else {
      NextRaw(uuid, PeerState(uuid, u), wire, got, inputs[i]);
    }
  }

  lemma FittingPasses(content: seq<Byte>)
    ensures |content| < 0x1_0000 ==> Passes(content)
  {
  }

  /** Once left behind, the peer outputs the next block's header as if it had been read. */
  lemma HeaderShows(uuid: seq<Byte>, first: seq<Byte>, inputs: seq<seq<Byte>>, confirmed: seq<bool>, i: nat)
    requires i < |inputs| == |confirmed| && LeftBehind(uuid, first, inputs, confirmed, i)
    ensures !OutputAt(uuid, first, inputs, confirmed, i + 1)
  {
    hide Command, VisionStep;
    var wire, got := Wire(uuid, first, inputs, confirmed, i), first + Flatten(inputs[..i]);
    var b := OnWire(inputs, confirmed, i);
    assert |b| > |inputs[i]|;
    hide OnWire;
    MoreReads(first, inputs, i);
    NextRaw(uuid, VState(uuid, Raw, false), wire, got, b);
    SameOutput(got, b, inputs[i]);
  }

  /** All reads but the last fit their blocks, and the last one fits or passes. */
  predicate OutputFits(first: seq<Byte>, inputs: seq<seq<Byte>>, confirmed: seq<bool>, n: nat)
    requires n <= |inputs| == |confirmed|
  {
    if n == 0 then Passes(first)
    else
      && |first| < 0x1_0000 && (forall i :: 0 <= i < n - 1 ==> FitsAt(inputs, confirmed, i))
      && (FitsAt(inputs, confirmed, n - 1) || Passes(inputs[n - 1]))
  }

  ghost predicate AllOutput(uuid: seq<Byte>, first: seq<Byte>, inputs: seq<seq<Byte>>, confirmed: seq<bool>, n: nat)
    requires n <= |inputs| == |confirmed|
  {
    forall i :: 0 <= i <= n ==> OutputAt(uuid, first, inputs, confirmed, i)
  }

  lemma SyncOutputs(uuid: seq<Byte>, first: seq<Byte>, inputs: seq<seq<Byte>>, confirmed: seq<bool>, n: nat)
    requires |uuid| == UUID_LEN && n <= |inputs| == |confirmed| && AllFit(first, inputs, confirmed, n)
    ensures AllOutput(uuid, first, inputs, confirmed, n) && SyncAt(uuid, first, inputs, confirmed, n)
  {
    InSyncExactly(uuid, first, inputs, confirmed, n);
    hide SyncAt, OutputAt, AllFit;
    forall i | 0 <= i <= n
      ensures OutputAt(uuid, first, inputs, confirmed, i)
    {
      SyncOutput(uuid, first, inputs, confirmed, i);
    }
  }

  lemma SyncOutput(uuid: seq<Byte>, first: seq<Byte>, inputs: seq<seq<Byte>>, confirmed: seq<bool>, i: nat)
    requires i <= |inputs| == |confirmed| && SyncAt(uuid, first, inputs, confirmed, i)
    ensures OutputAt(uuid, first, inputs, confirmed, i)
  {
    hide Wire, ViewAt, VisionStep, Drain;
  }

  /** Transparency of the output, exactly: for every list of reads, at every moment the peer has
    * output exactly what was read, if and only if every read but the last fits its block and the
    * last one fits or passes. */
  lemma {:induction false} OutputExactly(
      uuid: seq<Byte>, first: seq<Byte>, inputs: seq<seq<Byte>>, confirmed: seq<bool>, n: nat)
    requires |uuid| == UUID_LEN && n <= |inputs| == |confirmed|
    ensures AllOutput(uuid, first, inputs, confirmed, n) <==> OutputFits(first, inputs, confirmed, n)
    decreases n
  {
    hide OutputAt, SyncAt, LeftBehind, FitsAt, Passes;
    FirstOutput(uuid, first, inputs, confirmed);
    if n > 0 {
      OutputExactly(uuid, first, inputs, confirmed, n - 1);
      if AllFit(first, inputs, confirmed, n - 1) {
        SyncOutputs(uuid, first, inputs, confirmed, n - 1);
        OutputNext(uuid, first, inputs, confirmed, n - 1);
      } else if OutputFits(first, inputs, confirmed, n - 1) {
        if n > 1 {
          assert AllFit(first, inputs, confirmed, n - 2);
          SyncOutputs(uuid, first, inputs, confirmed, n - 2);
          OutputNext(uuid, first, inputs, confirmed, n - 2);
        }
        HeaderShows(uuid, first, inputs, confirmed, n - 1);
      }
    }
  }

  // ---- The loop. ----

  /** However the written bytes are cut on the way, the peer's pushes output exactly `data`. */
  ghost predicate Outputs(uuid: seq<Byte>, wire: seq<seq<Byte>>, data: seq<Byte>) {
    forall chunks: seq<seq<Byte>> :: Flatten(chunks) == Flatten(wire) ==> Pushed(uuid, chunks).out == data
  }

  lemma OutputsExactly(uuid: seq<Byte>, wire: seq<seq<Byte>>, data: seq<Byte>)
    ensures Outputs(uuid, wire, data) <==> Drain(VisionStep, Start(uuid), Flatten(wire)).out == data
  {
    hide VisionStep, Drain, Pushed;
    forall chunks: seq<seq<Byte>> | Flatten(chunks) == Flatten(wire)
      ensures Pushed(uuid, chunks) == Drain(VisionStep, Start(uuid), Flatten(wire))
    {
      VisionChunking(uuid, chunks);
    }
  }

  lemma {:induction false} WirePrefix(
      uuid: seq<Byte>, first: seq<Byte>, inputs: seq<seq<Byte>>, confirmed: seq<bool>, i: nat, n: nat)
    requires i <= n <= |inputs| == |confirmed|
    ensures |Wire(uuid, first, inputs, confirmed, n)| == n + 1
    ensures Wire(uuid, first, inputs, confirmed, n)[..i + 1] == Wire(uuid, first, inputs, confirmed, i)
    decreases n
  {
    hide OnWire, XtlsPadding;
    if i < n {
      WirePrefix(uuid, first, inputs, confirmed, i, n - 1);
    } else if n > 0 {
      WirePrefix(uuid, first, inputs, confirmed, n - 1, n - 1);
    }
  }

  /** However the written bytes are cut on the way, the peer's pushes output `data` and keep
    * nothing back. */
  ghost predicate TransparentRun(uuid: seq<Byte>, wire: seq<seq<Byte>>, data: seq<Byte>) {
    forall chunks: seq<seq<Byte>> :: Flatten(chunks) == Flatten(wire) ==>
      Pushed(uuid, chunks).out == data && Pushed(uuid, chunks).pending == []
  }

  lemma RunFromOneShot(uuid: seq<Byte>, wire: seq<seq<Byte>>, s: VState, data: seq<Byte>)
    requires Transparent(uuid, wire, s, data)
    ensures TransparentRun(uuid, wire, data)
  {
    forall chunks: seq<seq<Byte>> | Flatten(chunks) == Flatten(wire)
      ensures Pushed(uuid, chunks).out == data && Pushed(uuid, chunks).pending == []
    {
      VisionChunking(uuid, chunks);
    }
  }

  lemma {:induction false} RunInSync(uuid: seq<Byte>, first: seq<Byte>, inputs: seq<seq<Byte>>, confirmed: seq<bool>)
    requires |uuid| == UUID_LEN && |inputs| == |confirmed|
    ensures AllFit(first, inputs, confirmed, |inputs|) ==>
              TransparentRun(uuid, Wire(uuid, first, inputs, confirmed, |inputs|), first + Flatten(inputs))
  {
    InSyncExactly(uuid, first, inputs, confirmed, |inputs|);
    if AllFit(first, inputs, confirmed, |inputs|) {
      hide Wire, ViewAt, VisionStep;
      var n := |inputs|;
      assert inputs[..n] == inputs;
      assert SyncAt(uuid, first, inputs, confirmed, n);
      RunFromOneShot(uuid, Wire(uuid, first, inputs, confirmed, n), PeerState(uuid, ViewAt(inputs, confirmed, n)),
                     first + Flatten(inputs));
    }
  }

  /** The uplink loop: the first payload in a block with the UUID, padded blocks while padding
    * lasts, then raw bytes.  At every moment the peer outputs exactly what was read so far, however
    * the bytes are cut on the way, if and only if `OutputFits`; and if every read fits, it keeps
    * nothing back either. */
  method Uplink(uuid: seq<Byte>, first: seq<Byte>, inputs: seq<seq<Byte>>, peerDirect: seq<bool>)
      returns (wire: seq<seq<Byte>>)
    requires |uuid| == UUID_LEN && |peerDirect| == |inputs|
    ensures wire == Wire(uuid, first, inputs, peerDirect, |inputs|) && |wire| == |inputs| + 1
    ensures (forall i :: 0 <= i <= |inputs| ==> Outputs(uuid, wire[..i + 1], first + Flatten(inputs[..i]))) <==>
            OutputFits(first, inputs, peerDirect, |inputs|)
    ensures AllFit(first, inputs, peerDirect, |inputs|) ==> TransparentRun(uuid, wire, first + Flatten(inputs))
    ensures |wire[0]| == 16 + PaddedLen(|first|)
    ensures forall i :: 0 <= i < |inputs| ==>
              |wire[i + 1]| == if ViewAt(inputs, peerDirect, i).padding then PaddedLen(|inputs[i]|) else |inputs[i]|
  {
    hide Command, XtlsPadding, AllFit, TransparentRun, Outputs, OutputFits;
    var head := BuildBlock(first, 0, Some(uuid), true);
    wire := [head];
    var uplink := new UplinkState();
    for i := 0 to |inputs|
      invariant fresh(uplink) && uplink.View() == ViewAt(inputs, peerDirect, i)
      invariant wire == Wire(uuid, first, inputs, peerDirect, i)
    {
      if uplink.padding {
        var command, direct := uplink.CommandFor(inputs[i], peerDirect[i]);
        var block := BuildBlock(inputs[i], command, None, true);
        wire := wire + [block];
      } else {
        wire := wire + [inputs[i]];
      }
    }
    WireLengths(uuid, first, inputs, peerDirect, |inputs|);
    RunOutputs(uuid, first, inputs, peerDirect, wire);
    RunInSync(uuid, first, inputs, peerDirect);
  }

  lemma RunOutputs(uuid: seq<Byte>, first: seq<Byte>, inputs: seq<seq<Byte>>, confirmed: seq<bool>, wire: seq<seq<Byte>>)
    requires |uuid| == UUID_LEN && |inputs| == |confirmed| && wire == Wire(uuid, first, inputs, confirmed, |inputs|)
    ensures |wire| == |inputs| + 1
    ensures (forall i :: 0 <= i <= |inputs| ==> Outputs(uuid, wire[..i + 1], first + Flatten(inputs[..i]))) <==>
            OutputFits(first, inputs, confirmed, |inputs|)
  {
    hide Wire, OutputFits, Outputs, VisionStep, Drain;
    OutputExactly(uuid, first, inputs, confirmed, |inputs|);
    WirePrefix(uuid, first, inputs, confirmed, 0, |inputs|);
    forall i | 0 <= i <= |inputs|
      ensures Outputs(uuid, wire[..i + 1], first + Flatten(inputs[..i])) <==> OutputAt(uuid, first, inputs, confirmed, i)
    {
      WirePrefix(uuid, first, inputs, confirmed, i, |inputs|);
      OutputsExactly(uuid, wire[..i + 1], first + Flatten(inputs[..i]));
    }
  }

  // ---- An input on which bytes are lost. ----

  lemma ZeroBlock(s: VState, n: nat)
    requires s.mode == Padding && n >= HEADER
    ensures VisionStep(s, Zeros(n)) == Take(HEADER, [], s) && Zeros(n)[HEADER..] == Zeros(n - HEADER)
  {
  }

  lemma {:induction false} DrainZeros(s: VState, n: nat)
    requires s.mode == Padding
    ensures Drain(VisionStep, s, Zeros(n)).out == []
    decreases n
  {
    if n >= HEADER {
      ZeroBlock(s, n);
      DrainZeros(s, n - HEADER);
    }
  }

  /** The commands of a TLS handshake read followed by one of zeros. */
  lemma HelloThenZeros(hello: seq<Byte>, zeros: seq<Byte>)
    requires |hello| >= 6 && Handshake(hello) && zeros == Zeros(0x1_0000)
    ensures var inputs, confirmed := [hello, zeros], [false, false];
            && ViewAt(inputs, confirmed, 0).padding && CommandAt(inputs, confirmed, 0) == 0
            && ViewAt(inputs, confirmed, 1).padding && CommandAt(inputs, confirmed, 1) == 0
  {
    hide CompleteRecords;
    var inputs, confirmed := [hello, zeros], [false, false];
    PrefixesClash(hello);
    assert zeros[..3][0] == 0;
    assert ViewAt(inputs, confirmed, 1) == After(FRESH_UPLINK, hello, false);
  }

  /** The limit is needed: behind any first payload the source can read and a handshake read, a read
    * of 65536 zero bytes, half of what the uplink's buffer holds, arrives as nothing. */
  lemma {:induction false} OverlongReadIsLost(uuid: seq<Byte>, first: seq<Byte>, hello: seq<Byte>)
    requires |uuid| == UUID_LEN && |first| <= FIRST_PAYLOAD_MAX
    requires 6 <= |hello| < 0x1_0000 && Handshake(hello)
    ensures var inputs := [hello, Zeros(0x1_0000)];
            Drain(VisionStep, Start(uuid), Flatten(Wire(uuid, first, inputs, [false, false], 2))).out == first + hello
  {
    hide Command, After, XtlsPadding, VisionStep, Handshake;
    var zeros := Zeros(0x1_0000);
    var inputs, confirmed := [hello, zeros], [false, false];
    HelloThenZeros(hello, zeros);
    SyncFirst(uuid, first, inputs, confirmed);
    SyncNext(uuid, first, inputs, confirmed, 0);
    var s := PeerState(uuid, ViewAt(inputs, confirmed, 1));
    WhilePadding(inputs, confirmed, 1);
    var wire, b := Wire(uuid, first, inputs, confirmed, 1), XtlsPadding(zeros, 0, None, true);
    assert inputs[..1] == [hello];
    FlattenOne(hello);
    assert Wire(uuid, first, inputs, confirmed, 2) == wire + [b];
    FlattenSnoc(wire, b);
    MoreDrained(Start(uuid), Flatten(wire), s, first + hello, b);
    OverlongBlock(s, zeros, 0);
    DrainZeros(s, 0x1_0000);
    assert zeros[0..] == zeros && zeros[..0] == [];
  }
}
