/** The instruction API of `FeetechDriver`: each call writes one request
    frame, parses the answer, and interprets it; plus the bus scan. */
module Driver {
  import opened Bytes
  import opened Packet
  import opened Parser

  /** The open serial connection as the driver sees it. `respond` gives, for
      each frame written (the stale input having been cleared first), the
      bytes that arrive before the deadline; `fuel` is how many header reads
      the timeout allows. */
  datatype Link = Link(respond: seq<byte> -> seq<byte>, fuel: nat)

  /** The exceptions that escape the driver. */
  datatype Exception =
    | ValueError   // `bytearray` given a value outside [0, 255]
    | IndexError   // `body[0]` on a response whose length byte is 0

  /** The outcome of a driver call: a returned value or a raised exception. */
  datatype Call<+T> = Returned(value: T) | Raised(exc: Exception)

  /** The request can be put on the wire without `bytearray` raising. */
  predicate Encodable(motorId: int, instruction: int, params: seq<int>) {
    IsByte(motorId) && IsByte(instruction) && AllBytes(params) && |params| <= 253
  }

  lemma EncodableParams(motorId: int, instruction: int, a: int, b: int, c: int)
    ensures Encodable(motorId, instruction, [a, b])
            <==> IsByte(motorId) && IsByte(instruction) && IsByte(a) && IsByte(b)
    ensures Encodable(motorId, instruction, [a, b, c])
            <==> IsByte(motorId) && IsByte(instruction) && IsByte(a) && IsByte(b) && IsByte(c)
  {
    assert [a, b][0] == a && [a, b][1] == b;
    assert [a, b, c][0] == a && [a, b, c][1] == b && [a, b, c][2] == c;
  }

  /** What `_read_packet` makes of the answer to an encodable request. */
  function Response(link: Link, motorId: int, instruction: int, params: seq<int>): ReadResult
    requires Encodable(motorId, instruction, params)
  {
    var frame: seq<byte> := Frame(motorId, instruction, params);
    ReadPacket(link.respond(frame), motorId, link.fuel)
  }

  /** `_write_packet` then `_read_packet(motor_id, _)`: the reply, None for
      `(None, None)`, or the exception that escapes. */
  function Transact(link: Link, motorId: int, instruction: int, params: seq<int>): (r: Call<Option<Reply>>)
    ensures r == Raised(ValueError) <==> !Encodable(motorId, instruction, params)
  {
    match EncodeRequest(motorId, instruction, params)
    case None => Raised(ValueError)
    case Some(frame) =>
      match ReadPacket(link.respond(frame), motorId, link.fuel)
      case Got(reply) => Returned(Some(reply))
      case NoReply(_) => Returned(None)
      case EmptyBody => Raised(IndexError)
  }

  // ---------------------------------------------------------------------
  // 16-bit words, little-endian on the wire.

  /** `value & 0xFF` */
  function LowByte(value: int): byte {
    Mask8(value)
  }

  /** `(value >> 8) & 0xFF` */
  function HighByte(value: int): byte {
    Mask8(Shr8(value))
  }

  /** `params[0] | (params[1] << 8)`: the bits of the two bytes do not
      overlap, so the bitwise or is an addition. */
  function Join(lo: byte, hi: byte): (w: int)
    ensures w == lo + 256 * hi
  {
    assert Pow2(8) == 256;
    BitOrDisjoint(lo, hi, 8);
    BitOr(lo, Shl8(hi))
  }

  /** The unsigned reading of `read_word_raw`. */
  function DecodeUnsigned(lo: byte, hi: byte): (w: int)
    ensures 0 <= w <= 65535
    ensures LowByte(w) == lo && HighByte(w) == hi
  {
    Join(lo, hi)
  }

  /** The signed reading of `read_word`: values above 32767 wrap to negative. */
  function DecodeSigned(lo: byte, hi: byte): (v: int)
    ensures -32768 <= v <= 32767
    ensures LowByte(v) == lo && HighByte(v) == hi
    ensures v < 0 <==> hi >= 128
  {
    var w := Join(lo, hi);
    if w > 32767 then w - 65536 else w
  }

  /** Every value in [0, 65535] survives `write_word`'s split and
      `read_word_raw`'s join. */
  lemma UnsignedWordRoundTrip(v: int)
    requires 0 <= v <= 65535
    ensures DecodeUnsigned(LowByte(v), HighByte(v)) == v
  {
    assert Shr8(v) < 256;
  }

  /** Every value in [-32768, 32767] survives `write_word`'s split and
      `read_word`'s signed join. */
  lemma SignedWordRoundTrip(v: int)
    requires -32768 <= v <= 32767
    ensures DecodeSigned(LowByte(v), HighByte(v)) == v
  {
    if v < 0 {
      assert -128 <= Shr8(v) < 0;
      assert HighByte(v) == Shr8(v) + 256;
    } else {
      assert Shr8(v) < 128;
    }
  }

  /** The sign boundary of the signed reading. */
  lemma SignedBoundary()
    ensures DecodeSigned(LowByte(32767), HighByte(32767)) == 32767
    ensures DecodeSigned(LowByte(32768), HighByte(32768)) == -32768
    ensures DecodeSigned(LowByte(65535), HighByte(65535)) == -1
    ensures DecodeUnsigned(LowByte(32768), HighByte(32768)) == 32768
    ensures DecodeUnsigned(LowByte(65535), HighByte(65535)) == 65535
  {
    UnsignedWordRoundTrip(32767);
    UnsignedWordRoundTrip(32768);
    UnsignedWordRoundTrip(65535);
  }

  // ---------------------------------------------------------------------
  // The instructions.

  /** `ping`: true exactly when a valid reply for the id came back. */
  function Ping(link: Link, motorId: int): (r: Call<bool>)
    ensures r == Raised(ValueError) <==> !IsByte(motorId)
    ensures r == Returned(true) <==> IsByte(motorId) && Response(link, motorId, INST_PING, []).Got?
    ensures r == Returned(false) <==> IsByte(motorId) && Response(link, motorId, INST_PING, []).NoReply?
  {
    match Transact(link, motorId, INST_PING, [])
    case Raised(e) => Raised(e)
    case Returned(reply) => Returned(reply.Some?)
  }

  /** `write_byte`: the device's error byte, or None when no valid reply came. */
  function WriteByte(link: Link, motorId: int, address: int, value: int): (r: Call<Option<byte>>)
    ensures r == Raised(ValueError) <==> !(IsByte(motorId) && IsByte(address) && IsByte(value))
    ensures Encodable(motorId, INST_WRITE, [address, value]) ==>
              var res := Response(link, motorId, INST_WRITE, [address, value]);
              (r.Returned? && r.value.Some? <==> res.Got?)
              && (res.Got? ==> r.value.value == res.reply.error)
              && (r == Raised(IndexError) <==> res == EmptyBody)
  {
    EncodableParams(motorId, INST_WRITE, address, value, 0);
    match Transact(link, motorId, INST_WRITE, [address, value])
    case Raised(e) => Raised(e)
    case Returned(reply) => Returned(if reply.Some? then Some(reply.value.error) else None)
  }

  /** `write_word`: sends the value as two bytes, low byte first; returns the
      device's error byte, or None when no valid reply came. The value is
      masked, so only an id or address outside [0, 255] raises. */
  function WriteWord(link: Link, motorId: int, address: int, value: int): (r: Call<Option<byte>>)
    ensures r == Raised(ValueError) <==> !(IsByte(motorId) && IsByte(address))
    ensures Encodable(motorId, INST_WRITE, [address, LowByte(value), HighByte(value)]) ==>
              var res := Response(link, motorId, INST_WRITE, [address, LowByte(value), HighByte(value)]);
              (r.Returned? && r.value.Some? <==> res.Got?)
              && (res.Got? ==> r.value.value == res.reply.error)
              && (r == Raised(IndexError) <==> res == EmptyBody)
  {
    var low, high := LowByte(value), HighByte(value);
    EncodableParams(motorId, INST_WRITE, address, low, high);
    match Transact(link, motorId, INST_WRITE, [address, low, high])
    case Raised(e) => Raised(e)
    case Returned(reply) => Returned(if reply.Some? then Some(reply.value.error) else None)
  }

  /** `read_byte`: the register's byte, when a valid reply with exactly one
      parameter came back. */
  function ReadByte(link: Link, motorId: int, address: int): (r: Call<Option<byte>>)
    ensures r == Raised(ValueError) <==> !(IsByte(motorId) && IsByte(address))
    ensures Encodable(motorId, INST_READ, [address, 1]) ==>
              var res := Response(link, motorId, INST_READ, [address, 1]);
              (r.Returned? && r.value.Some? <==> res.Got? && |res.reply.params| == 1)
              && (r == Raised(IndexError) <==> res == EmptyBody)
              && (r.Returned? && r.value.Some? ==> [r.value.value] == res.reply.params)
  {
    EncodableParams(motorId, INST_READ, address, 1, 0);
    match Transact(link, motorId, INST_READ, [address, 1])
    case Raised(e) => Raised(e)
    case Returned(reply) =>
      if reply.Some? && |reply.value.params| == 1 then Returned(Some(reply.value.params[0]))
      else Returned(None)
  }

  /** `read_word`: the register as a signed 16-bit value, when a valid reply
      with exactly two parameters came back. Re-splitting the value gives
      back the two bytes received. */
  function ReadWord(link: Link, motorId: int, address: int): (r: Call<Option<int>>)
    ensures r == Raised(ValueError) <==> !(IsByte(motorId) && IsByte(address))
    ensures r.Returned? && r.value.Some? ==> -32768 <= r.value.value <= 32767
    ensures Encodable(motorId, INST_READ, [address, 2]) ==>
              var res := Response(link, motorId, INST_READ, [address, 2]);
              (r.Returned? && r.value.Some? <==> res.Got? && |res.reply.params| == 2)
              && (r == Raised(IndexError) <==> res == EmptyBody)
              && (r.Returned? && r.value.Some? ==>
                    [LowByte(r.value.value), HighByte(r.value.value)] == res.reply.params)
  {
    EncodableParams(motorId, INST_READ, address, 2, 0);
    match Transact(link, motorId, INST_READ, [address, 2])
    case Raised(e) => Raised(e)
    case Returned(reply) =>
      if reply.Some? && |reply.value.params| == 2 then
        Returned(Some(DecodeSigned(reply.value.params[0], reply.value.params[1])))
      else Returned(None)
  }

  /** `read_word_raw`: the register as an unsigned 16-bit value, when a
      valid reply with exactly two parameters came back. */
  function ReadWordRaw(link: Link, motorId: int, address: int): (r: Call<Option<int>>)
    ensures r == Raised(ValueError) <==> !(IsByte(motorId) && IsByte(address))
    ensures r.Returned? && r.value.Some? ==> 0 <= r.value.value <= 65535
    ensures Encodable(motorId, INST_READ, [address, 2]) ==>
              var res := Response(link, motorId, INST_READ, [address, 2]);
              (r.Returned? && r.value.Some? <==> res.Got? && |res.reply.params| == 2)
              && (r == Raised(IndexError) <==> res == EmptyBody)
              && (r.Returned? && r.value.Some? ==>
                    [LowByte(r.value.value), HighByte(r.value.value)] == res.reply.params)
  {
    EncodableParams(motorId, INST_READ, address, 2, 0);
    match Transact(link, motorId, INST_READ, [address, 2])
    case Raised(e) => Raised(e)
    case Returned(reply) =>
      if reply.Some? && |reply.value.params| == 2 then
        Returned(Some(DecodeUnsigned(reply.value.params[0], reply.value.params[1])))
      else Returned(None)
  }

  // ---------------------------------------------------------------------
  // End to end: a servo's reply through the codec, the parser and the
  // interpretation.

  /** A servo that answers a ping with any well-formed reply is found. */
  lemma PingAnswered(link: Link, motorId: byte, error: byte, tail: seq<byte>)
    requires link.fuel >= 1
    requires link.respond(Frame(motorId, INST_PING, [])) == ResponseFrame(motorId, error, []) + tail
    ensures Ping(link, motorId) == Returned(true)
  {
    ReadPacketRoundTrip(motorId, error, [], tail, link.fuel);
  }

  /** A servo that holds `v` in a word register and answers the read with
      its two bytes is read back as `v`, signed or unsigned as the range
      allows. */
  lemma ReadWordAnswered(link: Link, motorId: byte, address: byte, error: byte, v: int, tail: seq<byte>)
    requires link.fuel >= 1 && -32768 <= v <= 65535
    requires link.respond(Frame(motorId, INST_READ, [address, 2]))
             == ResponseFrame(motorId, error, [LowByte(v), HighByte(v)]) + tail
    ensures v <= 32767 ==> ReadWord(link, motorId, address) == Returned(Some(v))
    ensures 0 <= v ==> ReadWordRaw(link, motorId, address) == Returned(Some(v))
  {
    ReadPacketRoundTrip(motorId, error, [LowByte(v), HighByte(v)], tail, link.fuel);
    if v <= 32767 {
      SignedWordRoundTrip(v);
    }
    if 0 <= v {
      UnsignedWordRoundTrip(v);
    }
  }

  /** `ping` in terms of the bytes on the line: true exactly when, within the
      budget, the first header chunk for the id starts a complete frame with
      a matching checksum. */
  lemma PingFindsValidFrame(link: Link, motorId: byte)
    ensures var s := link.respond(Frame(motorId, INST_PING, []));
            Ping(link, motorId) == Returned(true) <==>
            exists n: nat :: n < link.fuel && FirstHeaderFor(s, n, motorId)
                             && ValidFrame(s[4 * n..], motorId)
  {
    var s := link.respond(Frame(motorId, INST_PING, []));
    var res := Response(link, motorId, INST_PING, []);
    assert res == ReadPacket(s, motorId, link.fuel);
    if res.Got? {
      ReadPacketGot(s, motorId, link.fuel, res.reply);
    }
    if exists n: nat :: n < link.fuel && FirstHeaderFor(s, n, motorId) && ValidFrame(s[4 * n..], motorId) {
      var n: nat :| n < link.fuel && FirstHeaderFor(s, n, motorId) && ValidFrame(s[4 * n..], motorId);
      ReadPacketGot(s, motorId, link.fuel, ReplyOf(s[4 * n..]));
    }
  }

  /** A servo that answers `write_byte` with a well-formed reply makes the
      call return the reply's error byte. */
  lemma WriteByteAnswered(link: Link, motorId: byte, address: byte, value: byte, error: byte,
                          tail: seq<byte>)
    requires link.fuel >= 1
    requires link.respond(Frame(motorId, INST_WRITE, [address, value]))
             == ResponseFrame(motorId, error, []) + tail
    ensures WriteByte(link, motorId, address, value) == Returned(Some(error))
  {
    ReadPacketRoundTrip(motorId, error, [], tail, link.fuel);
  }

  /** A servo that answers `read_byte` with the register's byte `b` is read
      back as `b`. */
  lemma ReadByteAnswered(link: Link, motorId: byte, address: byte, error: byte, b: byte,
                         tail: seq<byte>)
    requires link.fuel >= 1
    requires link.respond(Frame(motorId, INST_READ, [address, 1]))
             == ResponseFrame(motorId, error, [b]) + tail
    ensures ReadByte(link, motorId, address) == Returned(Some(b))
  {
    ReadPacketRoundTrip(motorId, error, [b], tail, link.fuel);
  }

  /** `write_byte` in terms of the bytes on the line: it returns the error
      byte `e` exactly when, within the budget, the first header chunk for
      the id starts a valid frame carrying `e`. */
  lemma WriteByteFindsValidFrame(link: Link, motorId: byte, address: byte, value: byte, e: byte)
    ensures var s := link.respond(Frame(motorId, INST_WRITE, [address, value]));
            WriteByte(link, motorId, address, value) == Returned(Some(e)) <==>
            exists n: nat :: n < link.fuel && FirstHeaderFor(s, n, motorId)
                             && ValidFrame(s[4 * n..], motorId) && ReplyOf(s[4 * n..]).error == e
  {
    EncodableParams(motorId, INST_WRITE, address, value, 0);
    var s := link.respond(Frame(motorId, INST_WRITE, [address, value]));
    var res := Response(link, motorId, INST_WRITE, [address, value]);
    assert res == ReadPacket(s, motorId, link.fuel);
    if res.Got? {
      ReadPacketGot(s, motorId, link.fuel, res.reply);
    }
    if exists n: nat :: n < link.fuel && FirstHeaderFor(s, n, motorId)
                        && ValidFrame(s[4 * n..], motorId) && ReplyOf(s[4 * n..]).error == e {
      var n: nat :| n < link.fuel && FirstHeaderFor(s, n, motorId)
                    && ValidFrame(s[4 * n..], motorId) && ReplyOf(s[4 * n..]).error == e;
      ReadPacketGot(s, motorId, link.fuel, ReplyOf(s[4 * n..]));
    }
  }

  /** `read_byte` in terms of the bytes on the line: it returns `b` exactly
      when, within the budget, the first header chunk for the id starts a
      valid frame whose only parameter is `b`. */
  lemma ReadByteFindsValidFrame(link: Link, motorId: byte, address: byte, b: byte)
    ensures var s := link.respond(Frame(motorId, INST_READ, [address, 1]));
            ReadByte(link, motorId, address) == Returned(Some(b)) <==>
            exists n: nat :: n < link.fuel && FirstHeaderFor(s, n, motorId)
                             && ValidFrame(s[4 * n..], motorId) && ReplyOf(s[4 * n..]).params == [b]
  {
    EncodableParams(motorId, INST_READ, address, 1, 0);
    var s := link.respond(Frame(motorId, INST_READ, [address, 1]));
    var res := Response(link, motorId, INST_READ, [address, 1]);
    assert res == ReadPacket(s, motorId, link.fuel);
    if res.Got? {
      ReadPacketGot(s, motorId, link.fuel, res.reply);
    }
    if exists n: nat :: n < link.fuel && FirstHeaderFor(s, n, motorId)
                        && ValidFrame(s[4 * n..], motorId) && ReplyOf(s[4 * n..]).params == [b] {
      var n: nat :| n < link.fuel && FirstHeaderFor(s, n, motorId)
                    && ValidFrame(s[4 * n..], motorId) && ReplyOf(s[4 * n..]).params == [b];
      ReadPacketGot(s, motorId, link.fuel, ReplyOf(s[4 * n..]));
    }
  }

  // ---------------------------------------------------------------------
  // Bus scan.

  predicate Ascending(s: seq<int>) {
    forall a, b :: 0 <= a < b < |s| ==> s[a] < s[b]
  }

  /** An ascending list is determined by its elements, so the list `Scan`
      returns is the only ascending list of the ids that answer. */
  lemma {:induction false} AscendingDeterminedByElements(a: seq<int>, b: seq<int>)
    requires Ascending(a) && Ascending(b)
    requires forall x :: x in a <==> x in b
    ensures a == b
  {
    if |a| > 0 {
      assert a[0] in a; assert a[0] in b;
    }
    if |b| > 0 {
      assert b[0] in b; assert b[0] in a;
    }
    if |a| > 0 {
      assert a[0] == b[0];
      forall x
        ensures x in a[1..] <==> x in b[1..]
      {
        if x in a[1..] {
          assert x in b && x != b[0];
        }
        if x in b[1..] {
          assert x in a && x != a[0];
        }
      }
      AscendingDeterminedByElements(a[1..], b[1..]);
      assert a == [a[0]] + a[1..] && b == [b[0]] + b[1..];
    }
  }

  /** `scan(start_id, end_id)`: ping every id from `startId` to `endId` in
      turn and collect those that answer. An exception from a ping ends the
      scan. */
  method Scan(link: Link, startId: int, endId: int) returns (r: Call<seq<int>>)
    ensures r.Returned? <==> forall i :: startId <= i <= endId ==> Ping(link, i).Returned?
    ensures r.Returned? ==> Ascending(r.value)
    ensures r.Returned? ==>
              forall i :: i in r.value <==> startId <= i <= endId && Ping(link, i) == Returned(true)
    ensures r.Raised? ==>
              exists i :: startId <= i <= endId && Ping(link, i) == Raised(r.exc)
                          && forall j :: startId <= j < i ==> Ping(link, j).Returned?
  {
    var found: seq<int> := [];
    var i := startId;
    while i <= endId
      invariant startId <= i && (i <= endId + 1 || i == startId)
      invariant forall j :: startId <= j < i ==> Ping(link, j).Returned?
      invariant Ascending(found)
      invariant forall k :: 0 <= k < |found| ==> found[k] < i
      invariant forall x :: x in found <==> startId <= x < i && Ping(link, x) == Returned(true)
    {
      var answer := Ping(link, i);
      if answer.Raised? {
        return Raised(answer.exc);
      }
      if answer.value {
        found := found + [i];
      }
      i := i + 1;
    }
    return Returned(found);
  }

  /** The default range of `scan()`: every id from 0 to 253. */
  const SCAN_FIRST_ID := 0
  const SCAN_LAST_ID := 253

  /** `scan()` with its default range. Every id in it fits in a byte, so no
      ping raises ValueError; only a reply with a length byte of 0 can end
      the scan early. */
  method ScanBus(link: Link) returns (r: Call<seq<int>>)
    ensures r.Returned? ==> Ascending(r.value)
    ensures r.Returned? ==>
              forall i :: i in r.value <==> 0 <= i <= 253 && Ping(link, i) == Returned(true)
    ensures r.Raised? ==> r.exc == IndexError
    ensures r.Returned? <==> forall i :: 0 <= i <= 253 ==> Ping(link, i) != Raised(IndexError)
  {
    r := Scan(link, SCAN_FIRST_ID, SCAN_LAST_ID);
  }
}
