/** The 14-byte sensor packet: a CCSDS primary header (section 4.1.3 of CCSDS 133.0-B-2) and eight payload bytes. */
module Ccsds {
  import opened MachineInts
  import opened Options

  const SENSOR_CONTACT: uint8 := 0x10
  const QUALITY_GOOD: uint8 := 0
  const PAYLOAD_SIZE: nat := 8
  const PACKET_SIZE: nat := 6 + PAYLOAD_SIZE

  datatype SensorPacket = SensorPacket(
    deviceId: uint16, sequence: uint16, sensorType: uint8, quality: uint8, zoneId: uint16, value: int32)

  /** The bits of an `i32`. */
  function Bits32(v: int32): uint32 {
    v % 0x1_0000_0000
  }

  /** The `i32` with these bits. */
  function Signed32(bits: uint32): int32 {
    if bits < 0x8000_0000 then bits else bits - 0x1_0000_0000
  }

  /** Masks and shifts of the source are written as remainders and quotients. */
  function HeaderBytes(deviceId: uint16, sequence: uint16): seq<uint8> {
    var stream, seqBits := deviceId % 0x800, 0xC000 + sequence % 0x4000;
    [stream / 0x100, stream % 0x100, seqBits / 0x100, seqBits % 0x100, 0, PAYLOAD_SIZE - 1]
  }

  /** Little-endian. */
  function ValueBytes(bits: uint32): seq<uint8> {
    var up := bits / 0x100;
    [bits % 0x100, up % 0x100, up / 0x100 % 0x100, up / 0x100 / 0x100]
  }

  function Encode(p: SensorPacket): seq<uint8> {
    HeaderBytes(p.deviceId, p.sequence) + [p.sensorType, p.quality, p.zoneId % 0x100, p.zoneId / 0x100]
    + ValueBytes(Bits32(p.value))
  }

  method EncodeInto(p: SensorPacket, buf: array<uint8>)
    requires buf.Length == PACKET_SIZE
    modifies buf
    ensures buf[..] == Encode(p)
  {
    var stream := p.deviceId % 0x800;
    buf[0] := stream / 0x100;
    buf[1] := stream % 0x100;
    var seqBits := 0xC000 + p.sequence % 0x4000;
    buf[2] := seqBits / 0x100;
    buf[3] := seqBits % 0x100;
    var length := PAYLOAD_SIZE - 1;
    buf[4] := length / 0x100;
    buf[5] := length % 0x100;
    buf[6] := p.sensorType;
    buf[7] := p.quality;
    buf[8] := p.zoneId % 0x100;
    buf[9] := p.zoneId / 0x100;
    var bits := Bits32(p.value);
    buf[10] := bits % 0x100;
    var up := bits / 0x100;
    buf[11] := up % 0x100;
    buf[12] := up / 0x100 % 0x100;
    buf[13] := up / 0x100 / 0x100;
  }

  /** Two bytes, the high one first. */
  function Word(hi: int, lo: int): int {
    hi * 0x100 + lo
  }

  /** Four bytes, the low one first. */
  function Little32(b0: int, b1: int, b2: int, b3: int): int {
    Word(Word(Word(b3, b2), b1), b0)
  }

  /** Header fields in the order of the standard. */
  datatype Header = Header(
    version: nat, packetType: nat, secondaryHeader: nat, apid: nat, sequenceFlags: nat, sequenceCount: nat,
    dataLength: nat)

  function HeaderOf(b: seq<uint8>): Header
    requires |b| >= 6
  {
    Header(b[0] / 0x20, b[0] / 0x10 % 2, b[0] / 8 % 2, Word(b[0] % 8, b[1]),
           b[2] / 0x40, Word(b[2] % 0x40, b[3]), Word(b[4], b[5]) + 1)
  }

  /** The decoder of this layout: an unsegmented telemetry packet, no secondary header, eight data bytes. */
  function Decode(b: seq<uint8>): Option<SensorPacket> {
    if |b| != PACKET_SIZE then None
    else
      var h := HeaderOf(b);
      if h.version != 0 || h.packetType != 0 || h.secondaryHeader != 0 || h.sequenceFlags != 3 ||
         h.dataLength != PAYLOAD_SIZE then None
      else
        Some(SensorPacket(h.apid, h.sequenceCount, b[6], b[7], Word(b[9], b[8]),
                          Signed32(Little32(b[10], b[11], b[12], b[13]))))
  }

  lemma WordDigits(hi: int, lo: uint8)
    ensures Word(hi, lo) / 0x100 == hi && Word(hi, lo) % 0x100 == lo
  {
  }

  lemma DigitsWord(x: int)
    ensures Word(x / 0x100, x % 0x100) == x
  {
  }

  lemma BytesOf32(bits: uint32)
    ensures var b := ValueBytes(bits); Little32(b[0], b[1], b[2], b[3]) == bits
  {
    DigitsWord(bits);
    DigitsWord(bits / 0x100);
    DigitsWord(bits / 0x100 / 0x100);
  }

  lemma BytesTo32(b0: uint8, b1: uint8, b2: uint8, b3: uint8)
    ensures ValueBytes(Little32(b0, b1, b2, b3)) == [b0, b1, b2, b3]
  {
    WordDigits(Word(Word(b3, b2), b1), b0);
    WordDigits(Word(b3, b2), b1);
    WordDigits(b3, b2);
  }

  lemma SignOf32(v: int32)
    ensures Signed32(Bits32(v)) == v
  {
  }

  lemma BitsOf32(bits: uint32)
    ensures Bits32(Signed32(bits)) == bits
  {
  }

  /** An id below 2^11 leaves the version, type and secondary-header bits clear. */
  lemma StreamField(x: uint16)
    requires x < 0x800
    ensures var hi := x / 0x100; hi / 0x20 == 0 && hi / 0x10 % 2 == 0 && hi / 8 % 2 == 0 && hi % 8 == hi
    ensures Word(x / 0x100, x % 0x100) == x
  {
    assert x / 0x100 < 8;
  }

  /** The flag bits do not touch a count below 2^14. */
  lemma SequenceField(x: uint16)
    requires x < 0x4000
    ensures var y := 0xC000 + x; y / 0x100 / 0x40 == 3 && Word(y / 0x100 % 0x40, y % 0x100) == x
  {
    var y := 0xC000 + x;
    DigitsWord(y);
    assert 0xC0 <= y / 0x100 < 0x100;
  }

  lemma HeaderOfBytes(deviceId: uint16, sequence: uint16)
    ensures HeaderOf(HeaderBytes(deviceId, sequence))
            == Header(0, 0, 0, deviceId % 0x800, 3, sequence % 0x4000, PAYLOAD_SIZE)
  {
    StreamField(deviceId % 0x800);
    SequenceField(sequence % 0x4000);
  }

  /** The 14 bytes, read field by field: two big-endian header words, the length, and a little-endian payload. */
  lemma EncodedLayout(p: SensorPacket)
    ensures var b := Encode(p);
            && |b| == 14
            && Word(b[0], b[1]) == p.deviceId % 0x800 && Word(b[2], b[3]) == 0xC000 + p.sequence % 0x4000
            && b[4] == 0 && b[5] == 7 && b[6] == p.sensorType && b[7] == p.quality
            && Word(b[9], b[8]) == p.zoneId
            && Word(b[11], b[10]) + 0x1_0000 * Word(b[13], b[12])
               == if p.value < 0 then p.value + 0x1_0000_0000 else p.value
  {
    DigitsWord(p.deviceId % 0x800);
    DigitsWord(0xC000 + p.sequence % 0x4000);
    DigitsWord(p.zoneId);
    BytesOf32(Bits32(p.value));
    BitsOfSigned(p.value);
  }

  lemma BitsOfSigned(v: int32)
    ensures Bits32(v) == if v < 0 then v + 0x1_0000_0000 else v
  {
  }

  /** What the encoder's masks leave of a packet: an 11-bit id and a 14-bit count. */
  function Narrowed(p: SensorPacket): SensorPacket {
    p.(deviceId := p.deviceId % 0x800, sequence := p.sequence % 0x4000)
  }

  /** Decoding what was encoded gives the packet back, its id cut to 11 bits and its count to 14. */
  lemma DecodeOfEncode(p: SensorPacket)
    ensures Decode(Encode(p)) == Some(Narrowed(p))
  {
    var b, bits := Encode(p), Bits32(p.value);
    assert HeaderOf(b) == HeaderOf(HeaderBytes(p.deviceId, p.sequence));
    HeaderOfBytes(p.deviceId, p.sequence);
    DigitsWord(p.zoneId);
    assert b[10..] == ValueBytes(bits);
    BytesOf32(bits);
    SignOf32(p.value);
  }

  lemma NarrowedIff(p: SensorPacket)
    ensures Narrowed(p) == p <==> p.deviceId <= 0x7FF && p.sequence <= 0x3FFF
  {
  }

  /** So the round trip is the identity exactly on packets whose id and count fit their fields. */
  lemma RoundTripIff(p: SensorPacket)
    ensures Decode(Encode(p)) == Some(p) <==> p.deviceId <= 0x7FF && p.sequence <= 0x3FFF
  {
    var b := Encode(p);
    assert Decode(b) == Some(Narrowed(p)) by {
      DecodeOfEncode(p);
    }
    NarrowedIff(p);
  }

  /** The header bytes of a decodable packet are those the encoder writes for its fields. */
  lemma BytesOfHeader(b: seq<uint8>)
    requires |b| >= 6
    requires var h := HeaderOf(b); h == Header(0, 0, 0, h.apid, 3, h.sequenceCount, PAYLOAD_SIZE)
    ensures var h := HeaderOf(b);
            h.apid < 0x800 && h.sequenceCount < 0x4000 && HeaderBytes(h.apid, h.sequenceCount) == b[..6]
  {
    assert b[0] < 8;
    assert b[2] == 0xC0 + b[2] % 0x40;
    WordDigits(b[0], b[1]);
    WordDigits(b[2], b[3]);
  }

  /** And every byte string the decoder takes is the encoding of what it decodes to. */
  lemma EncodeOfDecode(b: seq<uint8>)
    requires Decode(b).Some?
    ensures Encode(Decode(b).value) == b
  {
    BytesOfHeader(b);
    WordDigits(b[9], b[8]);
    BytesTo32(b[10], b[11], b[12], b[13]);
    BitsOf32(Little32(b[10], b[11], b[12], b[13]));
    assert b == b[..6] + [b[6], b[7], b[8], b[9]] + [b[10], b[11], b[12], b[13]];
  }

  lemma ZeroBytes(b0: uint8, b1: uint8, b2: uint8, b3: uint8)
    ensures 0 <= Little32(b0, b1, b2, b3) <= U32_MAX
    ensures Signed32(Little32(b0, b1, b2, b3)) == 0 <==> b0 == b1 == b2 == b3 == 0
  {
  }

  /** What the decoder makes of the bytes it takes. */
  lemma DecodedFields(b: seq<uint8>)
    requires Decode(b).Some?
    ensures var p := Decode(b).value;
            && |b| == 14 && b[0] < 8
            && p.deviceId == Word(b[0], b[1]) && p.sensorType == b[6]
            && (p.value == 0 <==> b[10] == b[11] == b[12] == b[13] == 0)
  {
    var first: uint8 := b[0];
    assert first < 8 && first % 8 == first;
    ZeroBytes(b[10], b[11], b[12], b[13]);
  }
}
