/** Bytes, big-endian integers and chunk lists shared by every codec. */
module Bytes {

  type Byte = x: int | 0 <= x < 256

  datatype Option<+T> = None | Some(value: T)

  /** The two-byte big-endian form of `n as u16`: the cast keeps the low 16 bits. */
  function U16(n: nat): (r: seq<Byte>)
    ensures |r| == 2
    ensures GetU16(r, 0) == n % 0x1_0000
  {
    [n / 256 % 256, n % 256]
  }

  function GetU16(b: seq<Byte>, at: nat): (r: nat)
    requires at + 2 <= |b|
    ensures r < 0x1_0000
  {
    var hi: int, lo: int := b[at], b[at + 1];
    hi * 256 + lo
  }

  lemma GetU16Slice(b: seq<Byte>, at: nat)
    requires at + 2 <= |b|
    ensures GetU16(b, at) == GetU16(b[at..at + 2], 0)
  {
  }

  /** Reading two bytes and writing them again. */
  lemma U16Get(b: seq<Byte>, at: nat)
    requires at + 2 <= |b|
    ensures U16(GetU16(b, at)) == b[at..at + 2]
  {
    var hi: int, lo: int := b[at], b[at + 1];
    assert (hi * 256 + lo) / 256 == hi && (hi * 256 + lo) % 256 == lo;
  }

  lemma SplitU32(n: nat)
    ensures n / 0x1_0000 % 0x1_0000 * 0x1_0000 + n % 0x1_0000 == n % 0x1_0000_0000
  {
  }

  /** The four-byte big-endian form of `n as u32`. */
  function U32(n: nat): (r: seq<Byte>)
    ensures |r| == 4
    ensures GetU32(r, 0) == n % 0x1_0000_0000
  {
    var hi, lo := U16(n / 0x1_0000), U16(n);
    SplitU32(n);
    assert GetU16(hi + lo, 0) == GetU16(hi, 0) && GetU16(hi + lo, 2) == GetU16(lo, 0);
    hi + lo
  }

  function GetU32(b: seq<Byte>, at: nat): (r: nat)
    requires at + 4 <= |b|
    ensures r < 0x1_0000_0000
  {
    GetU16(b, at) * 0x1_0000 + GetU16(b, at + 2)
  }

  /** Reading four bytes and writing them again. */
  lemma U32Get(b: seq<Byte>)
    requires |b| == 4
    ensures U32(GetU32(b, 0)) == b
  {
    var hi, lo := GetU16(b, 0), GetU16(b, 2);
    assert U16(hi) == b[..2] && U16(lo) == b[2..];
    assert (hi * 0x1_0000 + lo) / 0x1_0000 == hi;
    assert U16(hi * 0x1_0000 + lo) == U16(lo);
  }

  function Zeros(n: nat): (r: seq<Byte>)
    ensures |r| == n
    ensures forall i :: 0 <= i < n ==> r[i] == 0
  {
    seq(n, _ => 0)
  }

  ghost predicate Distinct<T>(l: seq<T>) {
    forall i, j :: 0 <= i < j < |l| ==> l[i] != l[j]
  }

  /** The bytes of a list of chunks, in order. */
  function Flatten<T>(chunks: seq<seq<T>>): seq<T> {
    if chunks == [] then [] else chunks[0] + Flatten(chunks[1..])
  }

  lemma FlattenAppend<T>(a: seq<seq<T>>, b: seq<seq<T>>)
    ensures Flatten(a + b) == Flatten(a) + Flatten(b)
  {
    if a == [] {
      assert a + b == b;
    } else {
      assert (a + b)[0] == a[0] && (a + b)[1..] == a[1..] + b;
      FlattenAppend(a[1..], b);
    }
  }

  lemma FlattenSnoc<T>(a: seq<seq<T>>, x: seq<T>)
    ensures Flatten(a + [x]) == Flatten(a) + x
  {
    FlattenAppend(a, [x]);
    assert Flatten([x]) == x + Flatten([x][1..]);
  }

  lemma FlattenOne<T>(x: seq<T>)
    ensures Flatten([x]) == x
  {
  }

  lemma Assoc<T>(a: seq<T>, b: seq<T>, c: seq<T>)
    ensures a + b + c == a + (b + c)
  {
  }
}
