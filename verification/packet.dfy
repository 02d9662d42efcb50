/** The Feetech/SCS packet codec: instruction and register constants, the
    checksum, and the framing of an instruction packet
    `FF FF id len instr params... cksum`. */
module Packet {
  import opened Bytes

  // Instruction codes.
  const INST_PING := 1
  const INST_READ := 2
  const INST_WRITE := 3
  const INST_REG_WRITE := 4
  const INST_ACTION := 5
  const INST_SYNC_READ := 130
  const INST_SYNC_WRITE := 131

  // Register addresses of the STS series servos.
  const ADDR_ID := 5
  const ADDR_BAUD_RATE := 6
  const ADDR_MIN_POSITION := 9
  const ADDR_MAX_POSITION := 11
  const ADDR_HOMING_OFFSET := 31
  const ADDR_TORQUE_ENABLE := 40
  const ADDR_GOAL_POSITION := 42
  const ADDR_LOCK := 55
  const ADDR_PRESENT_POSITION := 56

  /** The frame header, two 0xFF bytes. */
  const HEADER := 0xFF

  /** `(~sum(data)) & 0xFF`: the byte that brings the sum of `data` up to
      255 modulo 256. */
  function Checksum(data: seq<int>): (c: byte)
    ensures c == 255 - Sum(data) % 256
    ensures (Sum(data) + c) % 256 == 255
  {
    var s := Sum(data);
    var q := s / 256;
    assert BitNot(s) == 256 * (-q - 1) + (255 - s % 256);
    Mask8(BitNot(s))
  }

  /** The list `_write_packet` builds: header, id, length byte, instruction,
      parameters and the trailing checksum over everything after the header.
      Responses share this layout with the error byte in the instruction slot. */
  function Frame(motorId: int, instruction: int, params: seq<int>): (p: seq<int>)
    ensures |p| == |params| + 6
    ensures p[0] == HEADER && p[1] == HEADER
    ensures p[2] == motorId && p[3] == |params| + 2 && p[4] == instruction
    ensures p[5..|p| - 1] == params
    ensures p[|p| - 1] == Checksum(p[2..|p| - 1])
    ensures Sum(p[2..]) % 256 == 255
    ensures IsByte(motorId) && IsByte(instruction) && AllBytes(params) && |params| <= 253
            ==> AllBytes(p)
  {
    var packet := [HEADER, HEADER, motorId, |params| + 2, instruction] + params;
    var p := packet + [Checksum(packet[2..])];
    assert p[2..] == packet[2..] + [Checksum(packet[2..])];
    assert p[2..|p| - 1] == packet[2..];
    SumConcat(packet[2..], [Checksum(packet[2..])]);
    p
  }

  /** `bytearray(packet)`: the bytes put on the wire, or None where Python
      raises ValueError because an element is outside [0, 255]. */
  function Wire(packet: seq<int>): (r: Option<seq<byte>>)
    ensures r.Some? <==> AllBytes(packet)
    ensures r.Some? ==> r.value == packet
  {
    if AllBytes(packet) then Some(packet) else None
  }

  /** The bytes `_write_packet` sends, or None when it raises ValueError. */
  function EncodeRequest(motorId: int, instruction: int, params: seq<int>): (r: Option<seq<byte>>)
    ensures r.Some? <==> IsByte(motorId) && IsByte(instruction) && AllBytes(params) && |params| <= 253
    ensures r.Some? ==> r.value == Frame(motorId, instruction, params)
  {
    var p := Frame(motorId, instruction, params);
    assert AllBytes(p) ==> IsByte(p[2]) && IsByte(p[3]) && IsByte(p[4]);
    assert AllBytes(p) ==> AllBytes(p[5..|p| - 1]);
    Wire(p)
  }

  /** An instruction packet as a record. */
  datatype Request = Request(motorId: byte, instruction: byte, params: seq<byte>)

  /** Reads a complete instruction packet back: header, a length byte that
      matches the parameter count, and a checksum that matches. */
  function ParseRequest(p: seq<int>): (r: Option<Request>)
  {
    if |p| < 6 || !AllBytes(p) then None
    else if p[0] != HEADER || p[1] != HEADER || p[3] != |p| - 4 then None
    else if p[|p| - 1] != Checksum(p[2..|p| - 1]) then None
    else Some(Request(p[2], p[4], p[5..|p| - 1]))
  }

  /** Decoding an encoded request recovers the id, the instruction and the
      parameters. */
  lemma EncodeThenParse(motorId: byte, instruction: byte, params: seq<byte>)
    requires |params| <= 253
    ensures ParseRequest(Frame(motorId, instruction, params))
            == Some(Request(motorId, instruction, params))
  {
    var p := Frame(motorId, instruction, params);
    assert AllBytes(p);
  }

  /** Every packet that parses is exactly the encoding of what it parses to. */
  lemma ParseThenEncode(p: seq<int>)
    requires ParseRequest(p).Some?
    ensures var q := ParseRequest(p).value;
            Frame(q.motorId, q.instruction, q.params) == p
  {
    var q := ParseRequest(p).value;
    var f := Frame(q.motorId, q.instruction, q.params);
    assert |f| == |p|;
    assert f[..5] == p[..5];
    assert f[5..|f| - 1] == p[5..|p| - 1];
    assert f[2..|f| - 1] == p[2..|p| - 1] by {
      assert f[2..|f| - 1] == f[2..5] + f[5..|f| - 1];
      assert p[2..|p| - 1] == p[2..5] + p[5..|p| - 1];
    }
    assert f == f[..5] + f[5..|f| - 1] + [f[|f| - 1]];
    assert p == p[..5] + p[5..|p| - 1] + [p[|p| - 1]];
  }
}
