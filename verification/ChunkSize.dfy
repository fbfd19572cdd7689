/** The size line of an HTTP/1.1 chunk, as the source reads it: what stands before a semicolon,
  * trimmed, as a hexadecimal number. */
module ChunkSize {
  import opened Bytes
  import opened Utf8

  const USIZE_LIMIT := 0x1_0000_0000_0000_0000
  const SEMICOLON: Byte := 59
  const PLUS: Byte := 43

  /** How many bytes the Unicode white space at the front takes, in UTF-8; 0 if there is none. */
  function WhiteFront(s: seq<Byte>): (n: nat)
    ensures n <= |s|
  {
    if s == [] then 0
    else if 9 <= s[0] <= 13 || s[0] == 32 then 1
    else if |s| >= 2 && s[0] == 0xC2 && (s[1] == 0x85 || s[1] == 0xA0) then 2
    else if |s| >= 3 && s[0] == 0xE1 && s[1] == 0x9A && s[2] == 0x80 then 3
    else if |s| >= 3 && s[0] == 0xE2 && s[1] == 0x80 && (0x80 <= s[2] <= 0x8A || s[2] in {0xA8, 0xA9, 0xAF}) then 3
    else if |s| >= 3 && s[0] == 0xE2 && s[1] == 0x81 && s[2] == 0x9F then 3
    else if |s| >= 3 && s[0] == 0xE3 && s[1] == 0x80 && s[2] == 0x80 then 3
    else 0
  }

  /** The same at the back: a white character ends there if its bytes stand there, because its first
    * byte always starts a character. */
  function WhiteBack(s: seq<Byte>): (n: nat)
    ensures n <= |s|
  {
    if |s| >= 1 && WhiteFront(s[|s| - 1..]) == 1 then 1
    else if |s| >= 2 && WhiteFront(s[|s| - 2..]) == 2 then 2
    else if |s| >= 3 && WhiteFront(s[|s| - 3..]) == 3 then 3
    else 0
  }

  function TrimStart(s: seq<Byte>): seq<Byte>
    decreases |s|
  {
    if WhiteFront(s) > 0 then TrimStart(s[WhiteFront(s)..]) else s
  }

  function TrimEnd(s: seq<Byte>): seq<Byte>
    decreases |s|
  {
    if WhiteBack(s) > 0 then TrimEnd(s[..|s| - WhiteBack(s)]) else s
  }

  function BeforeSemicolon(s: seq<Byte>): seq<Byte> {
    if s == [] || s[0] == SEMICOLON then [] else [s[0]] + BeforeSemicolon(s[1..])
  }

  function Digit(c: Byte): Option<nat> {
    if 48 <= c <= 57 then Some(c - 48)
    else if 97 <= c <= 102 then Some(c - 87)
    else if 65 <= c <= 70 then Some(c - 55)
    else None
  }

  function HexValue(s: seq<Byte>): Option<nat> {
    if s == [] then Some(0)
    else
      var front, d := HexValue(s[..|s| - 1]), Digit(s[|s| - 1]);
      if front.Some? && d.Some? then Some(front.value * 16 + d.value) else None
  }

  /** `usize::from_str_radix(_, 16)`: one plus sign is allowed, an overflow is an error. */
  function FromHex(s: seq<Byte>): Option<nat> {
    var digits := if |s| > 1 && s[0] == PLUS then s[1..] else s;
    if digits == [] then None
    else
      var v := HexValue(digits);
      if v.Some? && v.value < USIZE_LIMIT then v else None
  }

  function SizeOf(line: seq<Byte>): Option<nat> {
    FromHex(TrimEnd(TrimStart(BeforeSemicolon(line))))
  }

  // ---- What it accepts, exactly. ----

  ghost predicate WhiteText(ws: seq<nat>) {
    forall c :: c in ws ==> WhiteScalar(c)
  }

  /** A hexadecimal digit of value `d`. */
  predicate HexDigitOf(c: Byte, d: nat) {
    (d < 10 && c == 48 + d) || (10 <= d < 16 && (c == 97 + (d - 10) || c == 65 + (d - 10)))
  }

  ghost predicate HexDigits(s: seq<Byte>, ds: seq<nat>) {
    |s| == |ds| && forall i :: 0 <= i < |s| ==> HexDigitOf(s[i], ds[i])
  }

  function Pow16(k: nat): nat {
    if k == 0 then 1 else 16 * Pow16(k - 1)
  }

  /** The number that digits stand for, by place. */
  function Numeral(ds: seq<nat>): nat {
    if ds == [] then 0 else ds[0] * Pow16(|ds| - 1) + Numeral(ds[1..])
  }

  /** White space, perhaps a plus sign, digits, white space, and perhaps anything behind a semicolon. */
  ghost predicate SizeLineOf(line: seq<Byte>, front: seq<nat>, plus: bool, digits: seq<Byte>, back: seq<nat>,
                             tail: seq<Byte>) {
    && WhiteText(front) && WhiteText(back) && digits != [] && (tail == [] || tail[0] == 59)
    && line == WhiteBytes(front) + ((if plus then [43] else []) + digits) + WhiteBytes(back) + tail
  }

  function WhiteBytes(ws: seq<nat>): seq<Byte> {
    if ws == [] then []
    else (if Scalar(ws[0]) then EncodeScalar(ws[0]) else []) + WhiteBytes(ws[1..])
  }

  ghost predicate SizeIs(line: seq<Byte>, n: nat) {
    n < 0x1_0000_0000_0000_0000 &&
    exists front, plus, digits, back, tail, ds ::
      SizeLineOf(line, front, plus, digits, back, tail) && HexDigits(digits, ds) && Numeral(ds) == n
  }

  // ---- White space. ----

  lemma WhiteFound(s: seq<Byte>) returns (c: nat)
    requires WhiteFront(s) > 0
    ensures WhiteScalar(c) && Scalar(c) && EncodeScalar(c) == s[..WhiteFront(s)]
  {
    var n := WhiteFront(s);
    var b0: int := s[0];
    if n == 1 {
      return b0;
    }
    var b1: int := s[1];
    if n == 2 {
      return b1;
    }
    var b2: int := s[2];
    return (b0 - 0xE0) * 0x1000 + (b1 - 0x80) * 0x40 + (b2 - 0x80);
  }

  lemma WhiteSeen(c: nat, rest: seq<Byte>)
    requires WhiteScalar(c)
    ensures Scalar(c) && WhiteFront(EncodeScalar(c) + rest) == |EncodeScalar(c)|
    ensures SEMICOLON !in EncodeScalar(c)
  {
  }

  lemma WhiteIsScalar(c: nat)
    requires WhiteScalar(c)
    ensures Scalar(c)
  {
  }

  /** No white character ends in another one. */
  lemma WhiteAlone(c: nat)
    requires WhiteScalar(c)
    ensures Scalar(c)
    ensures var e := EncodeScalar(c);
            && |e| <= 3 && WhiteFront(e) == |e|
            && (|e| == 2 ==> WhiteFront(e[1..]) == 0)
            && (|e| == 3 ==> WhiteFront(e[1..]) == 0 && WhiteFront(e[2..]) == 0)
  {
  }

  lemma WhiteSeenBack(s: seq<Byte>, c: nat)
    requires WhiteScalar(c)
    ensures Scalar(c) && WhiteBack(s + EncodeScalar(c)) == |EncodeScalar(c)|
  {
    WhiteAlone(c);
    hide WhiteScalar, EncodeScalar, WhiteFront, WhiteBack, Scalar;
    BackIs(s, EncodeScalar(c));
  }

  lemma BackIs(s: seq<Byte>, e: seq<Byte>)
    requires 1 <= |e| <= 3 && WhiteFront(e) == |e| && (|e| == 2 ==> WhiteFront(e[1..]) == 0)
    requires |e| == 3 ==> WhiteFront(e[1..]) == 0 && WhiteFront(e[2..]) == 0
    ensures WhiteBack(s + e) == |e|
  {
    hide WhiteFront;
    var b := s + e;
    if |e| == 1 {
      assert b[|b| - 1..] == e;
    } else if |e| == 2 {
      assert b[|b| - 1..] == e[1..];
      assert b[|b| - 2..] == e;
    } else {
      assert b[|b| - 1..] == e[2..];
      assert b[|b| - 2..] == e[1..];
      assert b[|b| - 3..] == e;
    }
  }

  lemma WhiteBackFound(s: seq<Byte>) returns (c: nat)
    requires WhiteBack(s) > 0
    ensures WhiteScalar(c) && Scalar(c) && EncodeScalar(c) == s[|s| - WhiteBack(s)..]
  {
    hide WhiteScalar, EncodeScalar, Scalar, WhiteFront;
    var n := WhiteBack(s);
    c := WhiteFound(s[|s| - n..]);
    assert s[|s| - n..][..n] == s[|s| - n..];
  }

  lemma {:induction false} TrimFront(ws: seq<nat>, rest: seq<Byte>)
    requires WhiteText(ws)
    ensures TrimStart(WhiteBytes(ws) + rest) == TrimStart(rest)
    ensures SEMICOLON !in WhiteBytes(ws)
  {
    hide WhiteFront, WhiteScalar, EncodeScalar;
    if ws == [] {
      assert [] + rest == rest;
    } else {
      assert ws[0] in ws;
      WhiteIsScalar(ws[0]);
      var e, more := EncodeScalar(ws[0]), WhiteBytes(ws[1..]);
      WhiteSeen(ws[0], more + rest);
      Assoc(e, more, rest);
      assert (e + (more + rest))[|e|..] == more + rest;
      TrimFront(ws[1..], rest);
    }
  }

  lemma WhiteBytesSnoc(ws: seq<nat>, c: nat)
    requires Scalar(c)
    ensures WhiteBytes(ws + [c]) == WhiteBytes(ws) + EncodeScalar(c)
    decreases |ws|
  {
    hide Scalar, EncodeScalar;
    if ws == [] {
      assert [c][1..] == [] && EncodeScalar(c) + [] == EncodeScalar(c);
    } else {
      assert (ws + [c])[1..] == ws[1..] + [c];
      WhiteBytesSnoc(ws[1..], c);
    }
  }

  lemma {:induction false} TrimBack(s: seq<Byte>, ws: seq<nat>)
    requires WhiteText(ws)
    ensures TrimEnd(s + WhiteBytes(ws)) == TrimEnd(s)
    decreases |ws|
  {
    hide WhiteBack, WhiteScalar, EncodeScalar;
    if ws == [] {
      assert s + [] == s;
    } else {
      var front, c := ws[..|ws| - 1], ws[|ws| - 1];
      assert ws == front + [c] && c in ws;
      WhiteSeenBack(s + WhiteBytes(front), c);
      WhiteBytesSnoc(front, c);
      var e := EncodeScalar(c);
      Assoc(s, WhiteBytes(front), e);
      assert (s + WhiteBytes(front) + e)[..|s + WhiteBytes(front)|] == s + WhiteBytes(front);
      TrimBack(s, front);
    }
  }

  lemma {:induction false} TrimmedFront(s: seq<Byte>) returns (ws: seq<nat>)
    ensures WhiteText(ws) && s == WhiteBytes(ws) + TrimStart(s)
    decreases |s|
  {
    hide WhiteFront, WhiteScalar, EncodeScalar, Scalar;
    ws := [];
    var n := WhiteFront(s);
    if n > 0 {
      var c := WhiteFound(s);
      var more := TrimmedFront(s[n..]);
      ws := [c] + more;
      assert ws[1..] == more && s == s[..n] + s[n..];
    }
  }

  lemma {:induction false} TrimmedBack(s: seq<Byte>) returns (ws: seq<nat>)
    ensures WhiteText(ws) && s == TrimEnd(s) + WhiteBytes(ws)
    decreases |s|
  {
    hide WhiteScalar, EncodeScalar, Scalar, WhiteBack;
    ws := [];
    var n := WhiteBack(s);
    if n > 0 {
      var c := WhiteBackFound(s);
      var more := TrimmedBack(s[..|s| - n]);
      ws := more + [c];
      WhiteBytesSnoc(more, c);
      assert s == s[..|s| - n] + s[|s| - n..];
    } else {
      assert s + [] == s;
    }
  }

  lemma {:induction false} AsciiEnd(h: seq<Byte>)
    requires forall i :: 0 <= i < |h| ==> 32 < h[i] < 0x80
    ensures TrimEnd(h) == h
  {
    hide TrimEnd;
    NoWhite(h);
    WhiteNone(h);
  }

  lemma {:induction false} WhiteNone(h: seq<Byte>)
    requires WhiteBack(h) == 0
    ensures TrimEnd(h) == h
  {
    hide WhiteBack;
  }

  lemma {:induction false} NoWhite(h: seq<Byte>)
    requires forall i :: 0 <= i < |h| ==> 32 < h[i] < 0x80
    ensures WhiteBack(h) == 0
  {
    forall k | 0 <= k < |h|
      ensures WhiteFront(h[k..]) == 0
    {
      assert h[k..][0] == h[k];
    }
  }

  // ---- Digits. ----

  lemma DigitIs(c: Byte, d: nat)
    ensures Digit(c) == Some(d) <==> HexDigitOf(c, d)
  {
  }

  lemma {:induction false} NumeralSnoc(ds: seq<nat>, d: nat)
    ensures Numeral(ds + [d]) == Numeral(ds) * 16 + d
    decreases |ds|
  {
    if ds == [] {
      assert [d][1..] == [];
    } else {
      var head, p := ds[0], Pow16(|ds| - 1);
      assert (ds + [d])[1..] == ds[1..] + [d];
      NumeralSnoc(ds[1..], d);
      assert head * (16 * p) == head * p * 16;
    }
  }

  lemma {:induction false} HexRead(s: seq<Byte>, ds: seq<nat>)
    requires HexDigits(s, ds)
    ensures HexValue(s) == Some(Numeral(ds))
    decreases |s|
  {
    hide HexDigitOf, Digit;
    if s != [] {
      var n := |s| - 1;
      DigitIs(s[n], ds[n]);
      HexRead(s[..n], ds[..n]);
      NumeralSnoc(ds[..n], ds[n]);
      assert ds == ds[..n] + [ds[n]];
    }
  }

  lemma {:induction false} HexFound(s: seq<Byte>) returns (ds: seq<nat>)
    requires HexValue(s).Some?
    ensures HexDigits(s, ds)
    decreases |s|
  {
    hide HexDigitOf, Digit;
    ds := [];
    if s != [] {
      var n := |s| - 1;
      var front := HexFound(s[..n]);
      DigitIs(s[n], Digit(s[n]).value);
      ds := front + [Digit(s[n]).value];
    }
  }

  lemma DigitsPlain(s: seq<Byte>, ds: seq<nat>)
    requires HexDigits(s, ds)
    ensures forall i :: 0 <= i < |s| ==> 32 < s[i] < 0x80 && s[i] != SEMICOLON && s[i] != PLUS
  {
  }

  lemma {:induction false} CutAtSemicolon(s: seq<Byte>, tail: seq<Byte>)
    requires SEMICOLON !in s && (tail == [] || tail[0] == SEMICOLON)
    ensures BeforeSemicolon(s + tail) == s
  {
    if s == [] {
      assert s + tail == tail;
    } else {
      assert (s + tail)[1..] == s[1..] + tail;
      CutAtSemicolon(s[1..], tail);
    }
  }

  lemma {:induction false} CutFound(s: seq<Byte>) returns (tail: seq<Byte>)
    ensures s == BeforeSemicolon(s) + tail && (tail == [] || tail[0] == SEMICOLON)
  {
    tail := s;
    if s != [] && s[0] != SEMICOLON {
      tail := CutFound(s[1..]);
      assert s == [s[0]] + s[1..];
    } else {
      assert [] + s == s;
    }
  }

  lemma {:induction false} SizeRead(line: seq<Byte>, front: seq<nat>, plus: bool, digits: seq<Byte>, back: seq<nat>, tail: seq<Byte>,
                 ds: seq<nat>)
    requires SizeLineOf(line, front, plus, digits, back, tail) && HexDigits(digits, ds) && Numeral(ds) < USIZE_LIMIT
    ensures SizeOf(line) == Some(Numeral(ds))
  {
    hide TrimStart, TrimEnd, WhiteFront, WhiteBack, WhiteBytes, WhiteText, HexValue, HexDigits, Numeral;
    hide BeforeSemicolon;
    DigitsPlain(digits, ds);
    HexRead(digits, ds);
    var text := (if plus then [PLUS] else []) + digits;
    var padded := text + WhiteBytes(back);
    TrimFront(front, padded);
    TrimFront(back, []);
    assert SEMICOLON !in text;
    Assoc(WhiteBytes(front), text, WhiteBytes(back));
    CutAtSemicolon(WhiteBytes(front) + padded, tail);
    NotWhite(padded);
    TrimBack(text, back);
    AsciiEnd(text);
    assert !plus ==> text == digits;
    assert plus ==> text[1..] == digits;
  }

  lemma {:induction false} NotWhite(s: seq<Byte>)
    requires s != [] && 32 < s[0] < 0x80
    ensures TrimStart(s) == s
  {
  }

  /** The size line, exactly, for all bytes: what is read as a size is white space, perhaps a plus
    * sign, hexadecimal digits of either case for a number below 2^64, white space, and anything
    * behind a semicolon; nothing else is. */
  lemma {:induction false} SizeExactly(line: seq<Byte>, n: nat)
    ensures SizeOf(line) == Some(n) <==> SizeIs(line, n)
  {
    hide TrimStart, TrimEnd, HexValue, HexDigits, Numeral, BeforeSemicolon, WhiteText, WhiteBytes;
    if SizeIs(line, n) {
      var front, plus, digits, back, tail, ds :|
        SizeLineOf(line, front, plus, digits, back, tail) && HexDigits(digits, ds) && Numeral(ds) == n;
      SizeRead(line, front, plus, digits, back, tail, ds);
    }
    if SizeOf(line) == Some(n) {
      var tail := CutFound(line);
      var front := TrimmedFront(BeforeSemicolon(line));
      var s := TrimStart(BeforeSemicolon(line));
      var back := TrimmedBack(s);
      var text := TrimEnd(s);
      var plus := |text| > 1 && text[0] == PLUS;
      var digits := if plus then text[1..] else text;
      var ds := HexFound(digits);
      HexRead(digits, ds);
      assert text == (if plus then [PLUS] else []) + digits;
      Assoc(WhiteBytes(front), text, WhiteBytes(back));
      assert SizeLineOf(line, front, plus, digits, back, tail);
    }
  }
}
