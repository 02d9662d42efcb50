/** The response parser `_read_packet`, run over the bytes that arrive on
    the serial line within one read window.

    The wall-clock loop is replaced by `fuel`: the number of 4-byte header
    reads the timeout leaves room for. The stream holds every byte that
    arrives before the deadline, so a stream with fewer than four bytes
    left also ends the loop by timing out. */
module Parser {
  import opened Bytes
  import opened Packet

  /** Why `_read_packet` returned `(None, None)`. Its callers cannot tell
      these apart. */
  datatype Failure = TimedOut | Incomplete | ChecksumMismatch

  /** A decoded response: the device's error byte and its parameters. */
  datatype Reply = Reply(error: byte, params: seq<byte>)

  datatype ReadResult =
    | Got(reply: Reply)       // `(error, params)`
    | NoReply(why: Failure)   // `(None, None)`
    | EmptyBody               // IndexError at `body[0]`: the length byte was 0

  /** Python's `body[1:-1]`, which is empty for a body of fewer than two bytes. */
  function Interior(body: seq<byte>): seq<byte> {
    if |body| >= 2 then body[1..|body| - 1] else []
  }

  /** `_read_packet`'s integrity check: the last body byte equals the
      checksum of `[id, length]` followed by the rest of the body. */
  predicate BodyChecks(id: byte, body: seq<byte>) {
    |body| >= 1 && Checksum([id, |body|] + body[..|body| - 1]) == body[|body| - 1]
  }

  /** Read `length` body bytes from what is left of the stream and validate them. */
  function ReadBody(id: byte, length: byte, rest: seq<byte>): (r: ReadResult)
    ensures r == NoReply(Incomplete) <==> |rest| < length
    ensures r == EmptyBody <==> length == 0
    ensures r == NoReply(ChecksumMismatch) <==>
            1 <= length <= |rest| && !BodyChecks(id, rest[..length])
    ensures r.Got? <==> 1 <= length <= |rest| && BodyChecks(id, rest[..length])
    ensures r.Got? ==> (r.reply.error == rest[0] && r.reply.params == Interior(rest[..length]))
    ensures r.Got? ==> |r.reply.params| + 1 <= length
    ensures !r.NoReply? || r.why != TimedOut
  {
    var body := rest[..Min(length, |rest|)];
    if |body| < length then NoReply(Incomplete)
    else if length == 0 then EmptyBody
    else
      var error, params, checksum := body[0], Interior(body), body[|body| - 1];
      if Checksum([id, length] + body[..|body| - 1]) != checksum then NoReply(ChecksumMismatch)
      else Got(Reply(error, params))
  }

  /** `_read_packet(expected_id, _)`: read 4-byte chunks; a chunk that does
      not begin `FF FF` is dropped whole, and so is the header of a frame for
      another id (its body stays in the stream). The first header for
      `expectedId` decides the outcome. */
  function ReadPacket(stream: seq<byte>, expectedId: int, fuel: nat): (r: ReadResult)
    ensures r.Got? ==> |r.reply.params| <= 253 && |r.reply.params| + 5 <= |stream|
    ensures r.Got? ==> fuel >= 1 && |stream| >= 4
    decreases fuel
  {
    if fuel == 0 || |stream| < 4 then NoReply(TimedOut)
    else
      var header, rest := stream[..4], stream[4..];
      if header[0] == HEADER && header[1] == HEADER then
        if header[2] != expectedId then ReadPacket(rest, expectedId, fuel - 1)
        else ReadBody(header[2], header[3], rest)
      else ReadPacket(rest, expectedId, fuel - 1)
  }

  // ---------------------------------------------------------------------
  // A reference description of the parser, chunk by chunk.

  /** `f` begins with a header `FF FF id`. */
  predicate HeaderAt(f: seq<byte>, id: int) {
    |f| >= 4 && f[0] == HEADER && f[1] == HEADER && f[2] == id
  }

  /** The n-th 4-byte chunk of the stream is a header for `id`. */
  predicate HeaderFor(s: seq<byte>, n: nat, id: int) {
    4 * n <= |s| && HeaderAt(s[4 * n..], id)
  }

  /** Chunk n is the first header chunk for `id`. */
  predicate FirstHeaderFor(s: seq<byte>, n: nat, id: int) {
    HeaderFor(s, n, id) && forall m :: 0 <= m < n ==> !HeaderFor(s, m, id)
  }

  /** `f` begins with a complete response for `id` whose checksum, taken over
      the bytes from the id through the last payload byte, matches. */
  predicate ValidFrame(f: seq<byte>, id: int) {
    HeaderAt(f, id) && 1 <= f[3] && 4 + f[3] <= |f|
    && Checksum(f[2..3 + f[3]]) == f[3 + f[3]]
  }

  /** The reply a valid frame carries: the byte after the length, and the
      bytes between it and the checksum. */
  function ReplyOf(f: seq<byte>): Reply
    requires |f| >= 4 && 4 + f[3] <= |f| && 1 <= f[3]
  {
    Reply(f[4], if f[3] >= 2 then f[5..3 + f[3]] else [])
  }

  lemma ChunkShift(s: seq<byte>, m: nat)
    requires |s| >= 4 && 4 * m <= |s| - 4
    ensures s[4..][4 * m..] == s[4 * (m + 1)..]
  {
  }

  /** The parser's outcome is decided by the first header chunk for the
      expected id, provided the budget reaches it. */
  lemma {:induction false} ReadPacketAtFirstHeader(s: seq<byte>, id: int, fuel: nat, n: nat)
    requires n < fuel && FirstHeaderFor(s, n, id)
    ensures ReadPacket(s, id, fuel) == ReadBody(s[4 * n + 2], s[4 * n + 3], s[4 * n + 4..])
  {
    if n > 0 {
      assert !HeaderFor(s, 0, id);
      var t := s[4..];
      forall m | 0 <= m < n - 1
        ensures !HeaderFor(t, m, id)
      {
        ChunkShift(s, m);
        assert !HeaderFor(s, m + 1, id);
      }
      ChunkShift(s, n - 1);
      assert HeaderFor(t, n - 1, id);
      ReadPacketAtFirstHeader(t, id, fuel - 1, n - 1);
      assert t[4 * (n - 1)..] == s[4 * n..];
    }
  }

  /** The parser times out exactly when no chunk within the budget is a
      header for the expected id. */
  lemma {:induction false} ReadPacketTimedOut(s: seq<byte>, id: int, fuel: nat)
    ensures ReadPacket(s, id, fuel) == NoReply(TimedOut) <==>
            forall m :: 0 <= m < fuel ==> !HeaderFor(s, m, id)
  {
    if fuel == 0 {
    } else if |s| < 4 {
      forall m | 0 <= m < fuel
        ensures !HeaderFor(s, m, id)
      {
      }
    } else if HeaderFor(s, 0, id) {
      assert s[0..] == s;
    } else {
      var t := s[4..];
      assert s[0..] == s;
      ReadPacketTimedOut(t, id, fuel - 1);
      forall m | 1 <= m < fuel && 4 * m <= |s|
        ensures HeaderFor(s, m, id) == HeaderFor(t, m - 1, id)
      {
        ChunkShift(s, m - 1);
      }
      if forall m :: 0 <= m < fuel - 1 ==> !HeaderFor(t, m, id) {
        forall m | 0 <= m < fuel
          ensures !HeaderFor(s, m, id)
        {
          if m > 0 && 4 * m <= |s| {
            assert !HeaderFor(t, m - 1, id);
          }
        }
      } else {
        var m :| 0 <= m < fuel - 1 && HeaderFor(t, m, id);
        ChunkShift(s, m);
        assert HeaderFor(s, m + 1, id);
      }
    }
  }

  /** `_read_packet` returns `(error, params)` exactly when, within the
      budget, the first header chunk for the expected id starts a complete
      frame with a matching checksum; the reply is then the frame's error
      byte and its parameters. A frame for another id is never returned. */
  lemma {:induction false} ReadPacketGot(s: seq<byte>, id: int, fuel: nat, rep: Reply)
    ensures ReadPacket(s, id, fuel) == Got(rep) <==>
            exists n: nat :: n < fuel && FirstHeaderFor(s, n, id) && ValidFrame(s[4 * n..], id)
                             && rep == ReplyOf(s[4 * n..])
  {
    if ReadPacket(s, id, fuel) == Got(rep) {
      GotHasWitness(s, id, fuel, rep);
    }
    if exists n: nat :: n < fuel && FirstHeaderFor(s, n, id) && ValidFrame(s[4 * n..], id)
                       && rep == ReplyOf(s[4 * n..]) {
      var n: nat :| n < fuel && FirstHeaderFor(s, n, id) && ValidFrame(s[4 * n..], id)
                    && rep == ReplyOf(s[4 * n..]);
      ReadPacketAtFirstHeader(s, id, fuel, n);
      FrameBody(s[4 * n..], id);
    }
  }

  /** At a header chunk, `_read_packet`'s check on `[id, length] + body[:-1]`
      is the checksum over the contiguous bytes from the id onwards, and
      the reply it builds is the frame's. */
  lemma FrameBody(f: seq<byte>, id: int)
    requires HeaderAt(f, id)
    ensures var r := ReadBody(f[2], f[3], f[4..]);
            (r.Got? <==> ValidFrame(f, id)) && (r.Got? ==> r.reply == ReplyOf(f))
  {
    var L := f[3];
    if 1 <= L && 4 + L <= |f| {
      var body := f[4..][..L];
      assert [f[2], L] + body[..L - 1] == f[2..3 + L];
      assert body[L - 1] == f[3 + L];
      assert body[0] == f[4];
      if L >= 2 {
        assert Interior(body) == f[5..3 + L];
      }
    }
  }

  lemma {:induction false} GotHasWitness(s: seq<byte>, id: int, fuel: nat, rep: Reply)
    requires ReadPacket(s, id, fuel) == Got(rep)
    ensures exists n: nat :: n < fuel && FirstHeaderFor(s, n, id) && ValidFrame(s[4 * n..], id)
                             && rep == ReplyOf(s[4 * n..])
  {
    assert s[0..] == s;
    if HeaderFor(s, 0, id) {
      FrameBody(s, id);
      assert FirstHeaderFor(s, 0, id);
    } else {
      var t := s[4..];
      GotHasWitness(t, id, fuel - 1, rep);
      var k: nat :| k < fuel - 1 && FirstHeaderFor(t, k, id) && ValidFrame(t[4 * k..], id)
                    && rep == ReplyOf(t[4 * k..]);
      ChunkShift(s, k);
      forall m | 0 <= m < k + 1
        ensures !HeaderFor(s, m, id)
      {
        if m > 0 {
          ChunkShift(s, m - 1);
          assert !HeaderFor(t, m - 1, id);
        }
      }
      assert FirstHeaderFor(s, k + 1, id);
    }
  }

  // ---------------------------------------------------------------------
  // Responses as a servo sends them.

  /** The bytes a servo sends in reply: the same layout as a request, with
      the error byte where the instruction goes. */
  function ResponseFrame(id: byte, error: byte, params: seq<byte>): seq<byte>
    requires |params| <= 253
  {
    Frame(id, error, params)
  }

  /** Round trip: a well-formed response for the expected id, at the start
      of the stream, is decoded to its error byte and parameters whatever
      follows it. */
  lemma ReadPacketRoundTrip(id: byte, error: byte, params: seq<byte>, tail: seq<byte>, fuel: nat)
    requires |params| <= 253 && fuel >= 1
    ensures ReadPacket(ResponseFrame(id, error, params) + tail, id, fuel) == Got(Reply(error, params))
  {
    var f := ResponseFrame(id, error, params);
    var s := f + tail;
    var L := |params| + 2;
    assert s[..4] == f[..4];
    assert s[4..][..L] == f[4..];
    FrameBody(s, id);
    assert s[2..3 + L] == f[2..|f| - 1];
    if L >= 2 {
      assert s[5..3 + L] == f[5..|f| - 1];
    }
  }

  /** Resynchronisation as `_read_packet` does it: whole 4-byte chunks that are
      not a header for the expected id are dropped, one read each. */
  lemma {:induction false} ReadPacketSkipsChunks(noise: seq<byte>, s: seq<byte>, id: int, fuel: nat)
    requires |noise| % 4 == 0
    requires forall m :: 0 <= m < |noise| / 4 ==> !HeaderFor(noise, m, id)
    ensures ReadPacket(noise + s, id, fuel + |noise| / 4) == ReadPacket(s, id, fuel)
  {
    if |noise| > 0 {
      var t := noise[4..];
      assert noise[0..] == noise;
      assert !HeaderFor(noise, 0, id);
      forall m | 0 <= m < |t| / 4
        ensures !HeaderFor(t, m, id)
      {
        ChunkShift(noise, m);
        assert !HeaderFor(noise, m + 1, id);
      }
      ReadPacketSkipsChunks(t, s, id, fuel);
      assert (noise + s)[..4] == noise[..4];
      assert (noise + s)[4..] == t + s;
      assert fuel + |noise| / 4 == fuel + |t| / 4 + 1;
      assert !HeaderAt(noise + s, id);
      assert ReadPacket(noise + s, id, fuel + |noise| / 4) == ReadPacket(t + s, id, fuel + |t| / 4);
    } else {
      assert noise + s == s;
    }
  }

  // ---------------------------------------------------------------------
  // Integrity.

  /** Adding a non-zero amount smaller than 256 changes a residue mod 256. */
  lemma ResidueShifts(a: int, d: int)
    requires 0 < d < 256 || -256 < d < 0
    ensures (a + d) % 256 != a % 256
  {
  }

  /** Corrupting any single byte after the length byte (error, parameter or
      checksum) of a well-formed response makes the parser report a
      checksum mismatch. */
  lemma CorruptedBodyRejected(id: byte, error: byte, params: seq<byte>, i: nat, x: byte,
                              tail: seq<byte>, fuel: nat)
    requires |params| <= 253 && fuel >= 1
    requires 4 <= i < |params| + 6
    requires x != ResponseFrame(id, error, params)[i]
    ensures ReadPacket(ResponseFrame(id, error, params)[i := x] + tail, id, fuel)
            == NoReply(ChecksumMismatch)
  {
    var f := ResponseFrame(id, error, params);
    var g := f[i := x];
    var s := g + tail;
    var L := |params| + 2;
    assert s[..4] == f[..4];
    var body := s[4..][..L];
    assert body == g[4..];
    assert [id, L] + body[..L - 1] == g[2..|g| - 1];
    if i < |f| - 1 {
      assert g[2..|g| - 1] == f[2..|f| - 1][i - 2 := x];
      SumUpdate(f[2..|f| - 1], i - 2, x);
      ResidueShifts(Sum(f[2..|f| - 1]), x - f[i]);
      assert body[L - 1] == f[|f| - 1];
    } else {
      assert g[2..|g| - 1] == f[2..|f| - 1];
    }
    assert !BodyChecks(id, body);
  }

  // ---------------------------------------------------------------------
  // Where chunked reading misses a well-formed reply.

  /** The reply a servo sends to a ping or a write: no parameters, error 0. */
  lemma {:induction false} EmptyReplyBytes(id: byte)
    ensures ResponseFrame(id, 0, []) == [0xFF, 0xFF, id, 2, 0, 255 - (id + 2) % 256]
  {
    var f := ResponseFrame(id, 0, []);
    assert f[2..5] == [id, 2, 0];
    assert Sum([id, 2, 0]) == id + 2 by {
      assert [id, 2, 0][1..] == [2, 0];
      assert [2, 0][1..] == [0];
      assert [0][1..] == [];
    }
  }

  /** A complete reply from servo 7 followed by a complete reply from servo
      1: only the 4 header bytes of the first are dropped, its 2 remaining
      bytes shift the chunk boundaries, and servo 1's reply is never seen,
      although on its own it is accepted. */
  lemma ForeignReplyHidesExpectedReply(fuel: nat)
    ensures ReadPacket(ResponseFrame(1, 0, []), 1, 1) == Got(Reply(0, []))
    ensures ReadPacket(ResponseFrame(7, 0, []) + ResponseFrame(1, 0, []), 1, fuel)
            == NoReply(TimedOut)
  {
    ReadPacketRoundTrip(1, 0, [], [], 1);
    assert ResponseFrame(1, 0, []) + [] == ResponseFrame(1, 0, []);
    EmptyReplyBytes(7);
    EmptyReplyBytes(1);
    var s := ResponseFrame(7, 0, []) + ResponseFrame(1, 0, []);
    assert s == [0xFF, 0xFF, 7, 2, 0, 246, 0xFF, 0xFF, 1, 2, 0, 252];
    assert s[0..] == s;
    assert s[4..][0] == 0;
    assert s[8..][0] == 1;
    forall m | 0 <= m < fuel
      ensures !HeaderFor(s, m, 1)
    {
    }
    ReadPacketTimedOut(s, 1, fuel);
  }

  /** A single stray byte before a reply shifts the chunk boundaries so that
      the reply's header is never read as a header. */
  lemma StrayByteHidesReply(fuel: nat)
    ensures ReadPacket([0] + ResponseFrame(1, 0, []), 1, fuel) == NoReply(TimedOut)
  {
    EmptyReplyBytes(1);
    var s := [0] + ResponseFrame(1, 0, []);
    assert s == [0, 0xFF, 0xFF, 1, 2, 0, 252];
    assert s[0..] == s;
    assert |s[4..]| == 3;
    forall m | 0 <= m < fuel
      ensures !HeaderFor(s, m, 1)
    {
    }
    ReadPacketTimedOut(s, 1, fuel);
  }

  /** A reply from servo 7 whose length is a multiple of 4 is dropped in
      whole chunks (its header, then its body), so servo 1's reply after it
      is still found, two reads later. */
  lemma WholeChunkForeignReplyIsSkipped(fuel: nat)
    requires fuel >= 1
    ensures ReadPacket(ResponseFrame(7, 0, [1, 2]) + ResponseFrame(1, 0, []), 1, fuel + 2)
            == Got(Reply(0, []))
  {
    var noise := ResponseFrame(7, 0, [1, 2]);
    assert |noise| == 8 && noise[2] == 7 && noise[4] == 0;
    assert noise[0..] == noise;
    assert noise[4..][0] == 0;
    ReadPacketSkipsChunks(noise, ResponseFrame(1, 0, []), 1, fuel);
    ReadPacketRoundTrip(1, 0, [], [], fuel);
    assert ResponseFrame(1, 0, []) + [] == ResponseFrame(1, 0, []);
  }
}
