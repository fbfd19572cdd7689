/** A transport wrapper that never reads past a TLS record header, body or record, and yields once
  * after every record (section 5.1 of RFC 8446). */
module RecordLimited {
  import opened Bytes
  import opened Framing

  const HEADER := 5
  const SCRATCH := 16 * 1024

  /** One record: header and body. */
  function RecordStep(s: (), b: seq<Byte>): Step<(), seq<Byte>> {
    if |b| < HEADER || |b| < HEADER + GetU16(b, 3) then Wait
    else Take(HEADER + GetU16(b, 3), [b[..HEADER + GetU16(b, 3)]], ())
  }

  /** The complete records at the front of `b`, and the record under way. */
  function Records(b: seq<Byte>): seq<seq<Byte>> {
    Drain(RecordStep, (), b).out
  }

  function Underway(b: seq<Byte>): seq<Byte> {
    Drain(RecordStep, (), b).pending
  }

  lemma RecordIncremental()
    ensures Incremental(RecordStep)
  {
    forall s, b, c: seq<Byte> | !RecordStep(s, b).Wait?
      ensures RecordStep(s, b + c) == RecordStep(s, b)
    {
      var n := HEADER + GetU16(b, 3);
      assert (b + c)[..n] == b[..n];
    }
  }

  lemma {:induction false} RecordsNeverFail(b: seq<Byte>)
    ensures Drain(RecordStep, (), b).ok
    decreases |b|
  {
    if RecordStep((), b).Take? {
      RecordsNeverFail(b[RecordStep((), b).n..]);
    }
  }

  /** Bytes that stay within the record under way either leave it under way or complete it. */
  lemma MoreBytes(b: seq<Byte>, more: seq<Byte>)
    requires var p := Underway(b) + more;
             |p| <= HEADER || (|Underway(b)| >= HEADER && |p| <= HEADER + GetU16(p, 3))
    ensures var p := Underway(b) + more;
            if |p| >= HEADER && |p| == HEADER + GetU16(p, 3)
            then Records(b + more) == Records(b) + [p] && Underway(b + more) == []
            else Records(b + more) == Records(b) && Underway(b + more) == p
  {
    RecordIncremental();
    RecordsNeverFail(b);
    DrainAppend(RecordStep, (), b, more);
    var p := Underway(b) + more;
    if |p| >= HEADER && |p| == HEADER + GetU16(p, 3) {
      assert p[..|p|] == p && p[|p|..] == [];
      assert RecordStep((), p) == Take(|p|, [p], ());
      assert RecordStep((), []).Wait?;
    } else {
      assert RecordStep((), p).Wait?;
    }
  }

  /** The record under way is always incomplete. */
  lemma UnderwayIncomplete(b: seq<Byte>)
    ensures var p := Underway(b); |p| < HEADER || |p| < HEADER + GetU16(p, 3)
  {
    RecordIncremental();
    RecordsNeverFail(b);
    DrainStops(RecordStep, (), b);
  }

  /** How far the header or the body under way goes on. */
  function Left(p: seq<Byte>): (n: int)
    ensures |p| < HEADER || |p| < HEADER + GetU16(p, 3) ==> n > 0
  {
    if |p| < HEADER then HEADER - |p| else HEADER + GetU16(p, 3) - |p|
  }

  function Least(a: int, b: int): int {
    if a < b then a else b
  }

  /** What the transport does when polled. */
  datatype Inner = NotReady | Failed | Ready(count: nat)

  datatype Outcome = Yielded | Waiting | Error | Data(bytes: seq<Byte>)

  class RecordLimitedTcp {
    var tcp: seq<Byte>
    var header: seq<Byte>
    var headerLen: nat
    var remainingBody: Option<nat>
    var pendingYield: bool
    ghost var delivered: seq<Byte>
    ghost var yieldCount: nat

    /** The fields describe the position in the record under way, and every completed record has
      * caused one yield or is about to. */
    ghost predicate Valid()
      reads this
    {
      var p := Underway(delivered);
      && |header| == HEADER && headerLen <= HEADER
      && (match remainingBody
          case None => |p| < HEADER && headerLen == |p| && header[..headerLen] == p
          case Some(n) => |p| >= HEADER && n > 0 && |p| + n == HEADER + GetU16(p, 3))
      && yieldCount + (if pendingYield then 1 else 0) == |Records(delivered)|
    }

    constructor (tcp: seq<Byte>)
      ensures Valid() && delivered == [] && yieldCount == 0 && this.tcp == tcp
    {
      this.tcp, header, headerLen, remainingBody, pendingYield := tcp, Zeros(HEADER), 0, None, false;
      delivered, yieldCount := [], 0;
    }

    /** `poll_read` with room for `capacity` bytes.  What is read comes off the front of the
      * transport and stays inside the header or inside the body of the record under way; a yield
      * is due exactly when the read completes a record. */
    method PollRead(capacity: nat, inner: Inner) returns (r: Outcome)
      requires Valid()
      modifies this
      ensures Valid()
      ensures if old(pendingYield) then r == Yielded
              else if capacity == 0 then r == Data([])
              else match inner
                   case NotReady => r == Waiting
                   case Failed => r == Error
                   case Ready(count) =>
                     var left := Left(Underway(old(delivered)));
                     r.Data? && |r.bytes| == Least(Least(|old(tcp)|, count), Least(Least(16384, capacity), left))
      ensures r.Data? ==> old(tcp) == r.bytes + tcp && delivered == old(delivered) + r.bytes
      ensures !r.Data? ==> tcp == old(tcp) && delivered == old(delivered)
      ensures yieldCount == old(yieldCount) + if r.Yielded? then 1 else 0
      ensures pendingYield <==> |Records(delivered)| > |Records(old(delivered))|
    {
      if pendingYield {
        pendingYield, yieldCount := false, yieldCount + 1;
        return Yielded;
      }
      if capacity == 0 {
        assert [] + tcp == tcp && delivered + [] == delivered;
        return Data([]);
      }
      UnderwayIncomplete(delivered);
      var limit := Room();
      limit := if capacity < limit then capacity else limit;
      limit := if SCRATCH < limit then SCRATCH else limit;
      if !inner.Ready? {
        return if inner.NotReady? then Waiting else Error;
      }
      var bytes := ReadUpTo(if inner.count < limit then inner.count else limit);
      return Data(bytes);
    }

    /** Takes up to `n` bytes off the transport; the end of the transport yields none. */
    method ReadUpTo(n: nat) returns (bytes: seq<Byte>)
      requires Valid() && !pendingYield && n <= Room()
      modifies this`tcp, this`header, this`headerLen, this`remainingBody, this`pendingYield, this`delivered
      ensures Valid() && |bytes| == (if |old(tcp)| < n then |old(tcp)| else n)
      ensures old(tcp) == bytes + tcp && delivered == old(delivered) + bytes
      ensures pendingYield <==> |Records(delivered)| > |Records(old(delivered))|
    {
      var k := if |tcp| < n then |tcp| else n;
      bytes := tcp[..k];
      tcp := tcp[k..];
      if k > 0 {
        Account(bytes);
      } else {
        assert delivered + bytes == delivered;
      }
    }

    function Room(): nat
      requires headerLen <= HEADER
      reads this
    {
      if remainingBody.Some? then remainingBody.value else HEADER - headerLen
    }

    /** Moves the position over bytes just read. */
    method Account(bytes: seq<Byte>)
      requires Valid() && !pendingYield && bytes != []
      requires |bytes| <= Room()
      modifies this`header, this`headerLen, this`remainingBody, this`pendingYield, this`delivered
      ensures Valid() && delivered == old(delivered) + bytes
      ensures pendingYield <==> |Records(delivered)| > |Records(old(delivered))|
    {
      ghost var p := Underway(delivered);
      assert p + bytes == p + bytes && |p| >= HEADER ==> GetU16(p + bytes, 3) == GetU16(p, 3);
      MoreBytes(delivered, bytes);
      delivered := delivered + bytes;
      if remainingBody.Some? {
        var next := remainingBody.value - |bytes|;
        if next == 0 {
          remainingBody, headerLen, header, pendingYield := None, 0, Zeros(HEADER), true;
        } else {
          remainingBody := Some(next);
        }
      } else {
        header := header[..headerLen] + bytes + header[headerLen + |bytes|..];
        headerLen := headerLen + |bytes|;
        assert header[..headerLen] == p + bytes;
        if headerLen == HEADER {
          var bodyLen := GetU16(header, 3);
          assert header[..HEADER] == header;
          if bodyLen == 0 {
            headerLen, header, pendingYield := 0, Zeros(HEADER), true;
          } else {
            remainingBody := Some(bodyLen);
          }
        }
      }
    }
  }
}
