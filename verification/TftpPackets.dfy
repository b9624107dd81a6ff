/** Packet fields of the TFTP server (tftputils.c), on the bytes that travel in the datagrams. */
module TftpPackets {
  import opened Bytes

  const RRQ: byte := 1
  const WRQ: byte := 2
  const DATA: byte := 3
  const ACK: byte := 4
  const HEADER_LEN := 4
  const DATA_LEN_MAX := 512
  const PACKET_LEN_MAX := HEADER_LEN + DATA_LEN_MAX

  /** Bytes enough for every field the server looks at. */
  type Packet = p: seq<byte> | |p| >= HEADER_LEN witness [0, 0, 0, 0]

  /** What a callback looks at: the datagram, or, where that is too short to hold the fields, the bytes
      at its place in memory, of which the last ones are left over from something else. */
  function Seen(datagram: seq<byte>, behind: seq<byte>): (p: Packet)
    requires |datagram| + |behind| >= HEADER_LEN
    ensures |p| == Max(|datagram|, HEADER_LEN) && datagram <= p
  {
    if |datagram| >= HEADER_LEN then datagram else datagram + behind[..HEADER_LEN - |datagram|]
  }

  /** The conversion to a 16-bit field that happens when an int block number is passed on. */
  function Low16(n: int): (r: nat)
    ensures r < 0x1_0000
    ensures 0 <= n < 0x1_0000 ==> r == n
  {
    n % 0x1_0000
  }

  /** Network byte order of a 16-bit number. */
  function Wire16(n: int): (r: seq<byte>)
    ensures |r| == 2 && (r[0] as int) * 256 + r[1] == Low16(n)
  {
    [Low16(n) / 256, Low16(n) % 256]
  }

  function DecodeOp(p: Packet): byte {
    p[1]
  }

  function ExtractBlock(p: Packet): (r: nat)
    ensures r < 0x1_0000
  {
    (p[2] as int) * 256 + p[3]
  }

  function Payload(p: Packet): seq<byte> {
    p[HEADER_LEN..]
  }

  predicate IsCorrectAck(p: Packet, block: int) {
    DecodeOp(p) == ACK && block == ExtractBlock(p)
  }

  function DataPacket(block: int, payload: seq<byte>): Packet {
    [0, DATA] + Wire16(block) + payload
  }

  function AckPacket(block: int): Packet {
    [0, ACK] + Wire16(block)
  }

  /** The bytes on the wire: an opcode of 3 or 4 in two bytes, the number with its high byte first. */
  lemma WireBytes(block: int, payload: seq<byte>)
    ensures var hi, lo := block / 256 % 256, block % 256;
      && DataPacket(block, payload) == [0, 3, hi, lo] + payload
      && AckPacket(block) == [0, 4, hi, lo]
  {
    Halves(block);
  }

  /** The two bytes of the low 16 bits. */
  lemma Halves(n: int)
    ensures n % 0x1_0000 / 256 == n / 256 % 256 && n % 0x1_0000 % 256 == n % 256
  {
    var q, r := n / 0x1_0000, n % 0x1_0000;
    var hi, lo := r / 256, r % 256;
    assert n == 0x1_0000 * q + 256 * hi + lo;
    assert n == 256 * (256 * q + hi) + lo;
    assert n / 256 == 256 * q + hi && n % 256 == lo;
  }

  /** What the server takes for the ACK of a number: whatever agrees with that packet in the second, third
      and fourth byte; the first one is not looked at, nor is what follows. */
  lemma CorrectAckIff(p: Packet, block: int)
    ensures IsCorrectAck(p, block) <==> 0 <= block <= 65535 && p[1..4] == [4, block / 256 % 256, block % 256]
  {
    assert p[1..4] == [p[1], p[2], p[3]];
    if 0 <= block <= 65535 && p[2] == block / 256 % 256 && p[3] == block % 256 {
      assert block / 256 % 256 == block / 256;
    }
  }

  /** A DATA packet gives back its number, cut to 16 bits, and its payload; it is never taken for an ACK. */
  lemma DataRoundTrip(block: int, payload: seq<byte>)
    ensures DecodeOp(DataPacket(block, payload)) == DATA
    ensures ExtractBlock(DataPacket(block, payload)) == Low16(block)
    ensures Payload(DataPacket(block, payload)) == payload
    ensures |DataPacket(block, payload)| == HEADER_LEN + |payload|
    ensures forall b :: !IsCorrectAck(DataPacket(block, payload), b)
  {
    var p := DataPacket(block, payload);
    assert p[2] == Wire16(block)[0] && p[3] == Wire16(block)[1];
    assert p[4..] == payload;
  }

  /** An ACK built for one int block number acknowledges another one exactly when the
      latter is the former's low 16 bits; an int above 65535 is acknowledged by nothing. */
  lemma AckRoundTrip(block: int, expected: int)
    ensures DecodeOp(AckPacket(block)) == ACK
    ensures ExtractBlock(AckPacket(block)) == Low16(block)
    ensures IsCorrectAck(AckPacket(block), expected) <==> expected == Low16(block)
  {
    var p := AckPacket(block);
    assert p[2] == Wire16(block)[0] && p[3] == Wire16(block)[1];
  }

  /** tftp_set_opcode: the two opcode bytes, nothing else. */
  method SetOpcode(buffer: array<byte>, opcode: byte)
    requires buffer.Length >= 2
    modifies buffer
    ensures buffer[..] == [0, opcode] + old(buffer[2..])
  {
    buffer[0] := 0;
    buffer[1] := opcode;
  }

  /** tftp_set_block: bytes 2 and 3, high byte first. */
  method SetBlock(buffer: array<byte>, block: nat)
    requires buffer.Length >= 4 && block < 0x1_0000
    modifies buffer
    ensures buffer[..] == old(buffer[..2]) + Wire16(block) + old(buffer[4..])
  {
    buffer[2], buffer[3] := block / 256, block % 256;
  }

  /** tftp_set_data_message: memcpy behind the header. */
  method SetDataMessage(buffer: array<byte>, data: seq<byte>)
    requires buffer.Length >= HEADER_LEN + |data|
    modifies buffer
    ensures buffer[..] == old(buffer[..HEADER_LEN]) + data + old(buffer[HEADER_LEN + |data|..])
  {
    forall i | 0 <= i < |data| {
      buffer[HEADER_LEN + i] := data[i];
    }
  }

  /** tftp_send_data_packet: what goes on the wire, from a 516-byte scratch buffer. */
  method SendDataPacket(block: int, data: seq<byte>) returns (wire: Packet)
    requires |data| <= DATA_LEN_MAX
    ensures wire == DataPacket(block, data)
  {
    var packet := new byte[PACKET_LEN_MAX];
    SetOpcode(packet, DATA);
    SetBlock(packet, Low16(block));
    SetDataMessage(packet, data);
    wire := packet[..HEADER_LEN + |data|];
  }

  /** tftp_send_ack_packet: a 4-byte packet. */
  method SendAckPacket(block: int) returns (wire: Packet)
    ensures wire == AckPacket(block)
  {
    var packet := new byte[HEADER_LEN];
    SetOpcode(packet, ACK);
    SetBlock(packet, Low16(block));
    wire := packet[..];
  }
}
