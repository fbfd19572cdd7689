/** Well-formed UTF-8, which is what a Rust string holds. */
module Utf8 {
  import opened Bytes

  predicate Continuation(b: Byte) {
    0x80 <= b <= 0xBF
  }

  /** The syntax of section 4 of RFC 3629. */
  predicate WellFormed(b: seq<Byte>)
    decreases |b|
  {
    b == [] ||
    (b[0] < 0x80 && WellFormed(b[1..])) ||
    (|b| >= 2 && 0xC2 <= b[0] <= 0xDF && Continuation(b[1]) && WellFormed(b[2..])) ||
    (|b| >= 3 && 0xE0 <= b[0] <= 0xEF && Continuation(b[1]) && Continuation(b[2]) &&
     (b[0] == 0xE0 ==> b[1] >= 0xA0) && (b[0] == 0xED ==> b[1] <= 0x9F) && WellFormed(b[3..])) ||
    (|b| >= 4 && 0xF0 <= b[0] <= 0xF4 && Continuation(b[1]) && Continuation(b[2]) && Continuation(b[3]) &&
     (b[0] == 0xF0 ==> b[1] >= 0x90) && (b[0] == 0xF4 ==> b[1] <= 0x8F) && WellFormed(b[4..]))
  }

  /** The numbers characters have: no surrogates, and none above 10FFFF. */
  predicate Scalar(c: nat) {
    c < 0x11_0000 && !(0xD800 <= c < 0xE000)
  }

  /** White space (the Unicode property of that name), by number. */
  predicate WhiteScalar(c: nat) {
    9 <= c <= 13 || c == 32 || c == 0x85 || c == 0xA0 || c == 0x1680 || 0x2000 <= c <= 0x200A ||
    c == 0x2028 || c == 0x2029 || c == 0x202F || c == 0x205F || c == 0x3000
  }

  /** The encoding of section 3 of RFC 3629. */
  function EncodeScalar(c: nat): (r: seq<Byte>)
    requires Scalar(c)
    ensures 1 <= |r| <= 4
  {
    if c < 0x80 then [c]
    else if c < 0x800 then [0xC0 + c / 0x40, 0x80 + c % 0x40]
    else if c < 0x1_0000 then [0xE0 + c / 0x1000, 0x80 + c / 0x40 % 0x40, 0x80 + c % 0x40]
    else [0xF0 + c / 0x4_0000, 0x80 + c / 0x1000 % 0x40, 0x80 + c / 0x40 % 0x40, 0x80 + c % 0x40]
  }

  ghost predicate Text(cs: seq<nat>) {
    forall c :: c in cs ==> Scalar(c)
  }

  function EncodeText(cs: seq<nat>): seq<Byte>
    requires Text(cs)
  {
    if cs == [] then [] else EncodeScalar(cs[0]) + EncodeText(cs[1..])
  }

  /** The bytes of one character. */
  lemma ScalarShape(c: nat)
    requires Scalar(c)
    ensures var e := EncodeScalar(c);
            && (|e| == 1 ==> e[0] < 0x80)
            && (|e| == 2 ==> 0xC2 <= e[0] <= 0xDF && Continuation(e[1]))
            && (|e| == 3 ==>
                  && 0xE0 <= e[0] <= 0xEF && Continuation(e[1]) && Continuation(e[2])
                  && (e[0] == 0xE0 ==> e[1] >= 0xA0) && (e[0] == 0xED ==> e[1] <= 0x9F))
            && (|e| == 4 ==>
                  && 0xF0 <= e[0] <= 0xF4 && Continuation(e[1]) && Continuation(e[2]) && Continuation(e[3])
                  && (e[0] == 0xF0 ==> e[1] >= 0x90) && (e[0] == 0xF4 ==> e[1] <= 0x8F))
  {
    if c >= 0x1_0000 {
      LargeScalar(c);
    } else if c >= 0x800 {
      MiddleScalar(c);
    }
  }

  lemma MiddleScalar(c: nat)
    requires 0x800 <= c < 0x1_0000 && Scalar(c)
    ensures var lead, second := c / 0x1000, c / 0x40 % 0x40;
            lead <= 15 && (lead == 0 ==> second >= 0x20) && (lead == 13 ==> second <= 0x1F)
  {
  }

  lemma LargeScalar(c: nat)
    requires 0x1_0000 <= c < 0x11_0000
    ensures var lead, second := c / 0x4_0000, c / 0x1000 % 0x40;
            lead <= 4 && (lead == 0 ==> second >= 0x10) && (lead == 4 ==> second <= 0x0F)
  {
  }

  /** One encoded character in front of well-formed text. */
  lemma ScalarInFront(c: nat, rest: seq<Byte>)
    requires Scalar(c) && WellFormed(rest)
    ensures WellFormed(EncodeScalar(c) + rest)
  {
    ScalarShape(c);
    hide EncodeScalar, Scalar, Continuation;
    var e := EncodeScalar(c);
    assert (e + rest)[|e|..] == rest;
  }

  /** Six more bits. */
  lemma Sextets(high: nat, low: nat)
    requires low < 0x40
    ensures var c := high * 0x40 + low;
            && c / 0x40 == high && c % 0x40 == low && c / 0x1000 == high / 0x40 && c / 0x4_0000 == high / 0x1000
  {
    var c := high * 0x40 + low;
    assert c / 0x1000 == c / 0x40 / 0x40;
    assert c / 0x4_0000 == c / 0x40 / 0x1000;
  }

  lemma TwoBytes(b: seq<Byte>) returns (c: nat)
    requires |b| == 2 && 0xC2 <= b[0] <= 0xDF && Continuation(b[1])
    ensures Scalar(c) && EncodeScalar(c) == b
  {
    var b0: int, b1: int := b[0], b[1];
    Sextets(b0 - 0xC0, b1 - 0x80);
    c := (b0 - 0xC0) * 0x40 + (b1 - 0x80);
  }

  lemma ThreeBytes(b: seq<Byte>) returns (c: nat)
    requires |b| == 3 && 0xE0 <= b[0] <= 0xEF && Continuation(b[1]) && Continuation(b[2])
    requires (b[0] == 0xE0 ==> b[1] >= 0xA0) && (b[0] == 0xED ==> b[1] <= 0x9F)
    ensures Scalar(c) && EncodeScalar(c) == b
  {
    var b0: int, b1: int, b2: int := b[0], b[1], b[2];
    var high := (b0 - 0xE0) * 0x40 + (b1 - 0x80);
    Sextets(b0 - 0xE0, b1 - 0x80);
    Sextets(high, b2 - 0x80);
    c := high * 0x40 + (b2 - 0x80);
  }

  lemma FourBytes(b: seq<Byte>) returns (c: nat)
    requires |b| == 4 && 0xF0 <= b[0] <= 0xF4 && Continuation(b[1]) && Continuation(b[2]) && Continuation(b[3])
    requires (b[0] == 0xF0 ==> b[1] >= 0x90) && (b[0] == 0xF4 ==> b[1] <= 0x8F)
    ensures Scalar(c) && EncodeScalar(c) == b
  {
    var b0: int, b1: int, b2: int, b3: int := b[0], b[1], b[2], b[3];
    var top := (b0 - 0xF0) * 0x40 + (b1 - 0x80);
    var high := top * 0x40 + (b2 - 0x80);
    Sextets(b0 - 0xF0, b1 - 0x80);
    Sextets(top, b2 - 0x80);
    Sextets(high, b3 - 0x80);
    c := high * 0x40 + (b3 - 0x80);
  }

  /** The first character of well-formed text. */
  lemma FirstScalar(b: seq<Byte>) returns (c: nat)
    requires WellFormed(b) && b != []
    ensures Scalar(c) && |EncodeScalar(c)| <= |b| && b[..|EncodeScalar(c)|] == EncodeScalar(c)
    ensures WellFormed(b[|EncodeScalar(c)|..])
  {
    hide EncodeScalar, Scalar;
    if b[0] < 0x80 {
      c := OneByte(b[..1]);
    } else if b[0] < 0xE0 {
      c := TwoBytes(b[..2]);
    } else if b[0] < 0xF0 {
      c := ThreeBytes(b[..3]);
    } else {
      c := FourBytes(b[..4]);
    }
  }

  lemma OneByte(b: seq<Byte>) returns (c: nat)
    requires |b| == 1 && b[0] < 0x80
    ensures Scalar(c) && EncodeScalar(c) == b
  {
    c := b[0];
  }

  lemma {:induction false} EncodedText(cs: seq<nat>)
    requires Text(cs)
    ensures WellFormed(EncodeText(cs))
  {
    hide WellFormed, EncodeScalar;
    if cs == [] {
      Nothing();
    } else {
      assert cs[0] in cs;
      EncodedText(cs[1..]);
      ScalarInFront(cs[0], EncodeText(cs[1..]));
    }
  }

  lemma Nothing()
    ensures WellFormed([])
  {
  }

  lemma {:induction false} DecodedText(b: seq<Byte>) returns (cs: seq<nat>)
    requires WellFormed(b)
    ensures Text(cs) && EncodeText(cs) == b
    decreases |b|
  {
    hide WellFormed, EncodeScalar;
    cs := [];
    if b != [] {
      var c := FirstScalar(b);
      var more := DecodedText(b[|EncodeScalar(c)|..]);
      cs := [c] + more;
      assert cs[1..] == more;
    }
  }

  /** Well-formed bytes are exactly the encodings of characters. */
  lemma Utf8Exactly(b: seq<Byte>)
    ensures WellFormed(b) <==> exists cs :: Text(cs) && EncodeText(cs) == b
  {
    forall cs | Text(cs) && EncodeText(cs) == b
      ensures WellFormed(b)
    {
      EncodedText(cs);
    }
    if WellFormed(b) {
      var _ := DecodedText(b);
    }
  }
}
