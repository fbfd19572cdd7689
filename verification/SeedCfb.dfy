/** The SEED-CFB stream cipher: a byte-at-a-time, in-place implementation of block-level CFB.
  * The block cipher is an arbitrary function on 16-byte blocks. */
module SeedCfb {
  import opened Bytes

  const BLOCK := 16

  type Block = b: seq<bv8> | |b| == BLOCK witness seq(BLOCK, _ => 0 as bv8)

  type Cipher = Block -> Block

  // ---- CFB with whole-block segments (section 6.3 of NIST SP 800-38A). ----

  /** `data` combined with the front of a keystream block. */
  function Xor(data: seq<bv8>, key: seq<bv8>): (r: seq<bv8>)
    requires |data| <= |key|
    ensures |r| == |data|
  {
    seq(|data|, i requires 0 <= i < |data| => data[i] ^ key[i])
  }

  function CfbEncrypt(e: Cipher, iv: Block, plain: seq<bv8>): (r: seq<bv8>)
    ensures |r| == |plain|
    decreases |plain|
  {
    if |plain| <= BLOCK then Xor(plain, e(iv))
    else
      var c := Xor(plain[..BLOCK], e(iv));
      c + CfbEncrypt(e, c, plain[BLOCK..])
  }

  function CfbDecrypt(e: Cipher, iv: Block, text: seq<bv8>): (r: seq<bv8>)
    ensures |r| == |text|
    decreases |text|
  {
    if |text| <= BLOCK then Xor(text, e(iv))
    else Xor(text[..BLOCK], e(iv)) + CfbDecrypt(e, text[..BLOCK], text[BLOCK..])
  }

  lemma XorTwice(data: seq<bv8>, key: seq<bv8>)
    requires |data| <= |key|
    ensures Xor(Xor(data, key), key) == data
  {
  }

  /** Block-level decryption inverts block-level encryption. */
  lemma {:induction false} CfbInverse(e: Cipher, iv: Block, plain: seq<bv8>)
    ensures CfbDecrypt(e, iv, CfbEncrypt(e, iv, plain)) == plain
    decreases |plain|
  {
    if |plain| <= BLOCK {
      XorTwice(plain, e(iv));
    } else {
      var c := Xor(plain[..BLOCK], e(iv));
      var rest := CfbEncrypt(e, c, plain[BLOCK..]);
      assert (c + rest)[..BLOCK] == c && (c + rest)[BLOCK..] == rest;
      XorTwice(plain[..BLOCK], e(iv));
      CfbInverse(e, c, plain[BLOCK..]);
      assert plain[..BLOCK] + plain[BLOCK..] == plain;
    }
  }

  // ---- The byte-wise machine. ----

  /** The block being fed back into, and the ciphertext bytes collected for the next one. */
  datatype Cfb = Cfb(reg: Block, fed: seq<bv8>)

  predicate Partial(s: Cfb) {
    |s.fed| <= BLOCK
  }

  function Advance(s: Cfb): (r: Cfb)
    requires Partial(s)
    ensures |r.fed| < BLOCK
  {
    if |s.fed| == BLOCK then Cfb(s.fed, []) else s
  }

  function ByteStep(e: Cipher, encrypt: bool, s: Cfb, x: bv8): (r: (Cfb, bv8))
    requires Partial(s)
    ensures Partial(r.0)
  {
    var t := Advance(s);
    var y := x ^ e(t.reg)[|t.fed|];
    (Cfb(t.reg, t.fed + [if encrypt then y else x]), y)
  }

  function Run(e: Cipher, encrypt: bool, s: Cfb, data: seq<bv8>): (r: (Cfb, seq<bv8>))
    requires Partial(s)
    ensures Partial(r.0) && |r.1| == |data|
    decreases |data|
  {
    if data == [] then (s, [])
    else
      var (t, y) := ByteStep(e, encrypt, s, data[0]);
      var rest := Run(e, encrypt, t, data[1..]);
      (rest.0, [y] + rest.1)
  }

  function Behind(acc: seq<bv8>, r: (Cfb, seq<bv8>)): (Cfb, seq<bv8>) {
    (r.0, acc + r.1)
  }

  /** Running on is running from where the first part stopped. */
  lemma {:induction false} RunAppend(e: Cipher, encrypt: bool, s: Cfb, a: seq<bv8>, b: seq<bv8>)
    requires Partial(s)
    ensures var r := Run(e, encrypt, s, a); Run(e, encrypt, s, a + b) == Behind(r.1, Run(e, encrypt, r.0, b))
    decreases |a|
  {
    if a == [] {
      assert a + b == b && [] + Run(e, encrypt, s, b).1 == Run(e, encrypt, s, b).1;
    } else {
      assert (a + b)[1..] == a[1..] + b;
      var (t, y) := ByteStep(e, encrypt, s, a[0]);
      RunAppend(e, encrypt, t, a[1..], b);
      var r := Run(e, encrypt, t, a[1..]);
      Assoc([y], r.1, Run(e, encrypt, r.0, b).1);
    }
  }

  function BlockwiseCfb(e: Cipher, encrypt: bool, iv: Block, data: seq<bv8>): seq<bv8> {
    if encrypt then CfbEncrypt(e, iv, data) else CfbDecrypt(e, iv, data)
  }

  lemma BehindNil(r: (Cfb, seq<bv8>))
    ensures Behind([], r) == r
  {
    assert [] + r.1 == r.1;
  }

  lemma BehindNone(e: Cipher, encrypt: bool, s: Cfb, acc: seq<bv8>)
    requires Partial(s)
    ensures Behind(acc, Run(e, encrypt, s, [])) == (s, acc)
  {
    assert acc + [] == acc;
  }

  /** One turn of the loop, with `acc` produced so far. */
  lemma BehindStep(e: Cipher, encrypt: bool, s: Cfb, data: seq<bv8>, acc: seq<bv8>)
    requires Partial(s) && data != []
    ensures var (t, y) := ByteStep(e, encrypt, s, data[0]);
            Behind(acc, Run(e, encrypt, s, data)) == Behind(acc + [y], Run(e, encrypt, t, data[1..]))
  {
    var (t, y) := ByteStep(e, encrypt, s, data[0]);
    Assoc(acc, [y], Run(e, encrypt, t, data[1..]).1);
  }

  lemma XorCons(data: seq<bv8>, key: seq<bv8>)
    requires 0 < |data| <= |key|
    ensures [data[0] ^ key[0]] + Xor(data[1..], key[1..]) == Xor(data, key)
  {
  }

  /** The state and output within one block: every byte meets its own keystream byte. */
  function WithinBlock(e: Cipher, encrypt: bool, s: Cfb, data: seq<bv8>): (Cfb, seq<bv8>)
    requires |s.fed| + |data| <= BLOCK
  {
    var y := Xor(data, e(s.reg)[|s.fed|..]);
    (Cfb(s.reg, s.fed + if encrypt then y else data), y)
  }

  lemma WithinCons(e: Cipher, encrypt: bool, s: Cfb, data: seq<bv8>)
    requires |s.fed| + |data| <= BLOCK && data != []
    ensures var (t, y) := ByteStep(e, encrypt, s, data[0]);
            |t.fed| + |data| - 1 <= BLOCK &&
            WithinBlock(e, encrypt, s, data) == Behind([y], WithinBlock(e, encrypt, t, data[1..]))
  {
    var (t, y) := ByteStep(e, encrypt, s, data[0]);
    var key := e(s.reg)[|s.fed|..];
    assert key[1..] == e(s.reg)[|t.fed|..];
    XorCons(data, key);
    Assoc(s.fed, [if encrypt then y else data[0]], if encrypt then Xor(data[1..], key[1..]) else data[1..]);
    assert [data[0]] + data[1..] == data;
  }

  lemma {:induction false} RunWithinBlock(e: Cipher, encrypt: bool, s: Cfb, data: seq<bv8>)
    requires |s.fed| + |data| <= BLOCK
    ensures Run(e, encrypt, s, data) == WithinBlock(e, encrypt, s, data)
    decreases |data|
  {
    if data == [] {
      assert Xor(data, e(s.reg)[|s.fed|..]) == [];
      assert s.fed + [] == s.fed && s.fed + data == s.fed;
    } else {
      WithinCons(e, encrypt, s, data);
      RunWithinBlock(e, encrypt, ByteStep(e, encrypt, s, data[0]).0, data[1..]);
    }
  }

  /** From a full register the byte-wise machine computes block-level CFB. */
  lemma {:induction false} RunIsCfb(e: Cipher, encrypt: bool, reg: Block, iv: Block, data: seq<bv8>)
    ensures Run(e, encrypt, Cfb(reg, iv), data).1 == BlockwiseCfb(e, encrypt, iv, data)
    decreases |data|
  {
    if data == [] {
      assert Xor(data, e(iv)) == [];
    } else {
      FirstAdvance(e, encrypt, reg, iv, data);
      var s := Cfb(iv, []);
      assert e(iv)[0..] == e(iv);
      if |data| <= BLOCK {
        RunWithinBlock(e, encrypt, s, data);
      } else {
        var head, tail := data[..BLOCK], data[BLOCK..];
        var y := Xor(head, e(iv));
        RunWithinBlock(e, encrypt, s, head);
        assert head + tail == data && [] + y == y && [] + head == head;
        RunAppend(e, encrypt, s, head, tail);
        RunIsCfb(e, encrypt, iv, if encrypt then y else head, tail);
      }
    }
  }

  /** A full register is moved before the first byte, so both forms run alike. */
  lemma FirstAdvance(e: Cipher, encrypt: bool, reg: Block, iv: Block, data: seq<bv8>)
    requires data != []
    ensures Run(e, encrypt, Cfb(reg, iv), data) == Run(e, encrypt, Cfb(iv, []), data)
  {
  }

  // ---- The in-place implementation. ----

  class SeedCfbCipher {
    const cipher: Cipher
    const encrypt: bool
    const feedback: array<bv8>
    const keystream: array<bv8>
    var pos: nat
    ghost var reg: Block

    ghost predicate Valid()
      reads this, feedback, keystream
    {
      && feedback.Length == keystream.Length == BLOCK && feedback != keystream && pos <= BLOCK
      && (pos < BLOCK ==> keystream[..] == cipher(reg))
    }

    ghost function Abs(): Cfb
      requires Valid()
      reads this, feedback, keystream
    {
      Cfb(reg, feedback[..pos])
    }

    constructor (cipher: Cipher, iv: Block, encrypt: bool)
      ensures Valid() && fresh(feedback) && fresh(keystream)
      ensures this.cipher == cipher && this.encrypt == encrypt && Abs().fed == iv
    {
      this.cipher, this.encrypt := cipher, encrypt;
      feedback := new bv8[BLOCK](i requires 0 <= i < BLOCK => iv[i]);
      keystream := new bv8[BLOCK](_ => 0);
      pos, reg := BLOCK, iv;
      new;
      assert feedback[..BLOCK] == iv;
    }

    /** A new keystream block from a full feedback register. */
    method NextBlock()
      requires Valid() && pos == BLOCK
      modifies this, feedback, keystream
      ensures Valid() && pos == 0 && Abs() == Advance(old(Abs()))
    {
      assert feedback[..] == feedback[..BLOCK];
      var block := cipher(feedback[..]);
      reg := feedback[..];
      forall i | 0 <= i < BLOCK {
        keystream[i] := block[i];
      }
      forall i | 0 <= i < BLOCK {
        feedback[i] := 0;
      }
      pos := 0;
      assert keystream[..] == block;
    }

    /** One byte against the current keystream block. */
    method MixByte(input: bv8) returns (output: bv8)
      requires Valid() && pos < BLOCK
      modifies this`pos, feedback
      ensures Valid() && reg == old(reg) && output == input ^ cipher(reg)[old(pos)]
      ensures Abs().fed == old(Abs().fed) + [if encrypt then output else input]
    {
      ghost var fed := feedback[..pos];
      output := input ^ keystream[pos];
      assert keystream[pos] == keystream[..][pos];
      feedback[pos] := if encrypt then output else input;
      assert feedback[..pos] == fed;
      pos := pos + 1;
      assert feedback[..pos] == fed + [feedback[pos - 1]];
    }

    /** One byte: a new keystream block first, if the last one is used up. */
    method ApplyByte(input: bv8) returns (output: bv8)
      requires Valid()
      modifies this, feedback, keystream
      ensures Valid() && (Abs(), output) == ByteStep(cipher, encrypt, old(Abs()), input)
    {
      if pos == BLOCK {
        NextBlock();
      }
      output := MixByte(input);
    }

    /** `apply` on the bytes of `data` from `start` on, in place. */
    method Apply(data: array<bv8>, start: nat)
      requires Valid() && start <= data.Length && data != feedback && data != keystream
      modifies this, feedback, keystream, data
      ensures Valid() && data[..start] == old(data[..start])
      ensures (Abs(), data[start..]) == Run(cipher, encrypt, old(Abs()), old(data[start..]))
    {
      hide ByteStep, Run, Behind;
      ghost var s0, d0 := Abs(), data[start..];
      BehindNil(Run(cipher, encrypt, s0, d0));
      assert data[start..start] == [];
      for i := start to data.Length
        invariant Valid() && data[..start] == old(data[..start]) && data[i..] == old(data[i..])
        invariant Run(cipher, encrypt, s0, d0) ==
                  Behind(data[start..i], Run(cipher, encrypt, Abs(), data[i..]))
      {
        ghost var s, tail, acc := Abs(), data[i..], data[start..i];
        var output := ApplyByte(data[i]);
        data[i] := output;
        assert tail[1..] == data[i + 1..];
        assert data[start..i + 1] == acc + [output];
        BehindStep(cipher, encrypt, s, tail, acc);
      }
      assert data[start..data.Length] == data[start..] && data[data.Length..] == [];
      BehindNone(cipher, encrypt, Abs(), data[start..]);
    }
  }

  // ---- Streams in chunks, and UDP bodies. ----

  function RunChunks(e: Cipher, encrypt: bool, s: Cfb, chunks: seq<seq<bv8>>): seq<seq<bv8>>
    requires Partial(s)
    decreases |chunks|
  {
    if chunks == [] then []
    else
      var (t, y) := Run(e, encrypt, s, chunks[0]);
      [y] + RunChunks(e, encrypt, t, chunks[1..])
  }

  lemma {:induction false} RunChunksFlat(e: Cipher, encrypt: bool, s: Cfb, chunks: seq<seq<bv8>>)
    requires Partial(s)
    ensures Flatten(RunChunks(e, encrypt, s, chunks)) == Run(e, encrypt, s, Flatten(chunks)).1
    decreases |chunks|
  {
    if chunks != [] {
      var (t, y) := Run(e, encrypt, s, chunks[0]);
      var rest := RunChunks(e, encrypt, t, chunks[1..]);
      assert ([y] + rest)[1..] == rest;
      RunChunksFlat(e, encrypt, t, chunks[1..]);
      RunAppend(e, encrypt, s, chunks[0], Flatten(chunks[1..]));
    }
  }

  /** A fresh cipher applied chunk by chunk computes block-level CFB of the whole. */
  lemma ChunksAreCfb(e: Cipher, encrypt: bool, reg: Block, iv: Block, chunks: seq<seq<bv8>>)
    ensures Flatten(RunChunks(e, encrypt, Cfb(reg, iv), chunks)) == BlockwiseCfb(e, encrypt, iv, Flatten(chunks))
  {
    RunChunksFlat(e, encrypt, Cfb(reg, iv), chunks);
    RunIsCfb(e, encrypt, reg, iv, Flatten(chunks));
  }

  /** Decrypting with one chunking what was encrypted with another returns the plaintext. */
  lemma StreamRoundTrip(e: Cipher, r1: Block, r2: Block, iv: Block, plain: seq<seq<bv8>>, text: seq<seq<bv8>>)
    requires Flatten(text) == Flatten(RunChunks(e, true, Cfb(r1, iv), plain))
    ensures Flatten(RunChunks(e, false, Cfb(r2, iv), text)) == Flatten(plain)
  {
    ChunksAreCfb(e, true, r1, iv, plain);
    ChunksAreCfb(e, false, r2, iv, text);
    CfbInverse(e, iv, Flatten(plain));
  }

  /** `encrypt_legacy_udp_body` with a given IV: the IV, then the body encrypted in place. */
  method EncryptUdpBody(e: Cipher, iv: Block, body: seq<bv8>) returns (packet: array<bv8>)
    ensures fresh(packet) && packet[..] == iv + CfbEncrypt(e, iv, body)
  {
    packet := new bv8[BLOCK + |body|](
      i requires 0 <= i < BLOCK + |body| => if i < BLOCK then iv[i] else body[i - BLOCK]);
    assert packet[..BLOCK] == iv && packet[BLOCK..] == body;
    var cipher := new SeedCfbCipher(e, iv, true);
    RunIsCfb(e, true, cipher.reg, iv, body);
    cipher.Apply(packet, BLOCK);
    assert packet[..] == packet[..BLOCK] + packet[BLOCK..];
  }

  /** `decrypt_legacy_udp_body`: a packet shorter than an IV is refused; otherwise its body is
    * decrypted in place. */
  method DecryptUdpBody(e: Cipher, packet: array<bv8>) returns (body: Option<seq<bv8>>)
    modifies packet
    ensures body.Some? <==> packet.Length >= 16
    ensures body.Some? ==> body.value == CfbDecrypt(e, old(packet[..BLOCK]), old(packet[BLOCK..]))
    ensures body.Some? ==> packet[..] == old(packet[..BLOCK]) + body.value
  {
    if packet.Length < BLOCK {
      return None;
    }
    var iv: Block := packet[..BLOCK];
    var cipher := new SeedCfbCipher(e, iv, false);
    RunIsCfb(e, false, cipher.reg, iv, packet[BLOCK..]);
    cipher.Apply(packet, BLOCK);
    assert packet[..] == packet[..BLOCK] + packet[BLOCK..];
    return Some(packet[BLOCK..]);
  }

  /** What `EncryptUdpBody` leaves in a packet is what `DecryptUdpBody` turns back into the body. */
  lemma UdpRoundTrip(e: Cipher, iv: Block, body: seq<bv8>)
    ensures var packet := iv + CfbEncrypt(e, iv, body);
            |packet| >= BLOCK && CfbDecrypt(e, packet[..BLOCK], packet[BLOCK..]) == body
  {
    var packet := iv + CfbEncrypt(e, iv, body);
    assert packet[..BLOCK] == iv && packet[BLOCK..] == CfbEncrypt(e, iv, body);
    CfbInverse(e, iv, body);
  }
}
