/** Packet framing and packed payloads (core/codec/packet.py). */
module Packets {
  import opened Base

  const EDONKEY: byte := 0xE3
  const PACKED: byte := 0xD4
  const KAD: byte := 0xE4
  const KADEMLIAPACKED: byte := 0xE5
  const HEADER_SIZE := 6
  const MAX_DECOMPRESSED_SIZE := 16 * 1024 * 1024

  datatype PacketError = TooShort | BadLength | TooLong | BadLevel | EmptyPayload | BadPayload

  datatype Packet = Packet(protocol: byte, opcode: byte, payload: bytes)

  /** zlib (section 2.2 of RFC 1950) is opaque: a table of compressed forms, one
      for each level, and one of the payloads they unpack to. */
  datatype Zlib = Zlib(deflated: imap<(int, bytes), bytes>, inflated: imap<bytes, bytes>)

  function Compress(z: Zlib, level: int, payload: bytes): bytes {
    if (level, payload) in z.deflated then z.deflated[(level, payload)] else payload
  }

  /** Nothing for a malformed or truncated stream. */
  function Inflate(z: Zlib, stream: bytes): Option<bytes> {
    if stream in z.inflated then Some(z.inflated[stream]) else None
  }

  /** A stream unpacks to what was packed, and has at least its header. */
  ghost predicate Inverse(z: Zlib) {
    forall level, payload :: 0 <= level <= 9 ==>
      Compress(z, level, payload) != [] && Inflate(z, Compress(z, level, payload)) == Some(payload)
  }

  /** `decompress_payload` */
  function Decompress(z: Zlib, stream: bytes, maxSize: nat): Option<bytes> {
    var output := Inflate(z, stream);
    if output.Some? && |output.value| > maxSize then None else output
  }

  function EncodePacket(p: Packet): Result<bytes, PacketError> {
    var packetLength := |p.payload| + 1;
    if packetLength > 0xFFFF_FFFF then Failure(TooLong)
    else Success([p.protocol] + ToLittleEndian(packetLength, 4) + [p.opcode] + p.payload)
  }

  /** One packet and the bytes behind it. */
  function DecodePacket(raw: bytes): Result<(Packet, bytes), PacketError> {
    if |raw| < HEADER_SIZE then Failure(TooShort)
    else
      var packetLength := FromLittleEndian(raw[1..5]);
      if packetLength < 1 then Failure(BadLength)
      else
        var end := HEADER_SIZE + (packetLength - 1);
        if |raw| < end then Failure(TooShort)
        else Success((Packet(raw[0], raw[5], raw[HEADER_SIZE..end]), raw[end..]))
  }

  function PackedProtocol(protocol: byte): byte {
    if protocol == KAD then KADEMLIAPACKED else PACKED
  }

  function UnpackedProtocol(packed: byte): byte {
    if packed == KADEMLIAPACKED then KAD else EDONKEY
  }

  function PackPacket(z: Zlib, p: Packet, level: int): Result<bytes, PacketError> {
    if !(0 <= level <= 9) then Failure(BadLevel)
    else
      var compressed := Compress(z, level, p.payload);
      if |compressed| >= |p.payload| then EncodePacket(p)
      else EncodePacket(Packet(PackedProtocol(p.protocol), p.opcode, compressed))
  }

  predicate IsPacked(protocol: byte) {
    protocol == PACKED || protocol == KADEMLIAPACKED
  }

  function UnpackPacket(z: Zlib, data: bytes): Result<(Packet, bytes), PacketError> {
    var decoded :- DecodePacket(data);
    var (p, remainder) := decoded;
    if !IsPacked(p.protocol) then Success((p, remainder))
    else if p.payload == [] then Failure(EmptyPayload)
    else
      match Decompress(z, p.payload, MAX_DECOMPRESSED_SIZE)
      case None => Failure(BadPayload)
      case Some(payload) =>
        if payload == [] then Failure(EmptyPayload)
        else Success((Packet(UnpackedProtocol(p.protocol), p.opcode, payload), remainder))
  }

  // ----- framing -----

  /** The wire form of a packet: protocol, the length of what follows the length, the
      opcode, the payload. */
  lemma {:induction false} PacketLayout(p: Packet)
    ensures EncodePacket(p).Success? <==> |p.payload| < 0xFFFF_FFFF
    ensures EncodePacket(p).Success? ==>
              var raw := EncodePacket(p).value;
              && |raw| == 6 + |p.payload| && raw[0] == p.protocol && raw[5] == p.opcode && raw[6..] == p.payload
              && raw[1] as int + 256 * raw[2] as int + 65_536 * raw[3] as int + 16_777_216 * raw[4] as int == |p.payload| + 1
  {
    if |p.payload| < 0xFFFF_FFFF {
      FourBytes(|p.payload| + 1, ToLittleEndian(|p.payload| + 1, 4));
    }
  }

  /** A packet that can be encoded decodes to itself and what followed. */
  lemma {:induction false} DecodeUndoesEncode(p: Packet, rest: bytes)
    requires EncodePacket(p).Success?
    ensures DecodePacket(EncodePacket(p).value + rest) == Success((p, rest))
  {
    var length := ToLittleEndian(|p.payload| + 1, 4);
    var raw := EncodePacket(p).value + rest;
    assert raw == [p.protocol] + length + [p.opcode] + p.payload + rest;
    assert raw[0] == p.protocol && raw[5] == p.opcode;
    assert raw[1..5] == length;
    WireWidths();
    LittleEndianRoundTrip(|p.payload| + 1, 4);
    var end := 6 + |p.payload|;
    assert raw[6..end] == p.payload && raw[end..] == rest;
  }

  /** What decodes is an encoded packet and what is left: decoding loses nothing. */
  lemma {:induction false} EncodeUndoesDecode(raw: bytes)
    requires DecodePacket(raw).Success?
    ensures var (p, rest) := DecodePacket(raw).value;
            EncodePacket(p).Success? && EncodePacket(p).value + rest == raw
  {
    WireWidths();
    var length := raw[1..5];
    LittleEndianUnique(length);
    var (p, rest) := DecodePacket(raw).value;
    var end := |raw| - |rest|;
    assert raw == [raw[0]] + raw[1..5] + [raw[5]] + raw[6..end] + raw[end..];
  }

  /** Data decodes exactly when it starts with an encoded packet. */
  lemma {:induction false} DecodesIff(raw: bytes, p: Packet, rest: bytes)
    ensures DecodePacket(raw) == Success((p, rest))
            <==> EncodePacket(p).Success? && raw == EncodePacket(p).value + rest
  {
    if EncodePacket(p).Success? && raw == EncodePacket(p).value + rest {
      DecodeUndoesEncode(p, rest);
    }
    if DecodePacket(raw) == Success((p, rest)) {
      EncodeUndoesDecode(raw);
    }
  }

  /** Why data does not decode: it ends before the header or before the length it
      gives, or that length is zero. */
  lemma {:induction false} DecodeFails(raw: bytes)
    ensures DecodePacket(raw).Failure? ==> DecodePacket(raw).error == TooShort || DecodePacket(raw).error == BadLength
    ensures DecodePacket(raw) == Failure(BadLength)
            <==> |raw| >= 6 && raw[1] == 0 && raw[2] == 0 && raw[3] == 0 && raw[4] == 0
    ensures DecodePacket(raw) == Failure(TooShort)
            <==> |raw| < 6
                 || |raw| < 5 + raw[1] as int + 256 * raw[2] as int + 65_536 * raw[3] as int + 16_777_216 * raw[4] as int
  {
    if |raw| >= 6 {
      var length := raw[1..5];
      WireWidths();
      LittleEndianUnique(length);
      FourBytes(FromLittleEndian(length), length);
    }
  }

  // ----- packed payloads -----

  /** Packing never makes a packet longer: the payload is compressed exactly when that
      is shorter, and then the protocol says so. */
  lemma {:induction false} PackedLayout(z: Zlib, p: Packet, level: int)
    ensures var compressed := Compress(z, level, p.payload);
            var shorter := |compressed| < |p.payload|;
            var r := PackPacket(z, p, level);
            && (r.Success? <==> 0 <= level <= 9 && Min(|compressed|, |p.payload|) < 0xFFFF_FFFF)
            && (r.Success? ==>
                  && |r.value| == 6 + Min(|compressed|, |p.payload|)
                  && r.value[6..] == (if shorter then compressed else p.payload)
                  && r.value[0] == (if !shorter then p.protocol else if p.protocol == 0xE4 then 0xE5 else 0xD4)
                  && r.value[5] == p.opcode)
  {
    var compressed := Compress(z, level, p.payload);
    PacketLayout(p);
    PacketLayout(Packet(PackedProtocol(p.protocol), p.opcode, compressed));
  }

  /** What comes back from a packed packet: compressed packets of any family but
      KAD come back as EDONKEY, and those over 16 MiB not at all. */
  lemma {:induction false} UnpackPacked(z: Zlib, p: Packet, level: int, rest: bytes)
    requires Inverse(z) && PackPacket(z, p, level).Success?
    requires |Compress(z, level, p.payload)| < |p.payload|
    ensures UnpackPacket(z, PackPacket(z, p, level).value + rest)
            == if |p.payload| > 16_777_216 then Failure(BadPayload)
               else Success((Packet(if p.protocol == 0xE4 then 0xE4 else 0xE3, p.opcode, p.payload), rest))
  {
    var compressed := Compress(z, level, p.payload);
    DecodeUndoesEncode(Packet(PackedProtocol(p.protocol), p.opcode, compressed), rest);
  }

  /** Packing and unpacking give the packet back exactly when it was sent as it is
      under a protocol that does not say packed, or compressed as KAD or EDONKEY
      and no larger than 16 MiB. */
  lemma {:induction false} PackRoundTrip(z: Zlib, p: Packet, level: int, rest: bytes)
    requires Inverse(z) && PackPacket(z, p, level).Success?
    ensures UnpackPacket(z, PackPacket(z, p, level).value + rest) == Success((p, rest))
            <==> if |Compress(z, level, p.payload)| >= |p.payload| then p.protocol != 0xD4 && p.protocol != 0xE5
                 else (p.protocol == 0xE4 || p.protocol == 0xE3) && |p.payload| <= 16_777_216
  {
    if |Compress(z, level, p.payload)| >= |p.payload| {
      DecodeUndoesEncode(p, rest);
    } else {
      UnpackPacked(z, p, level, rest);
    }
  }

  /** What unpacking gives, for any data: a packet that is not packed as it is, and a
      packed one with the payload it inflates to, which is neither empty nor above
      16 MiB. */
  lemma {:induction false} UnpackedIff(z: Zlib, raw: bytes, p: Packet, rest: bytes, q: Packet)
    requires DecodePacket(raw) == Success((p, rest))
    ensures UnpackPacket(z, raw) == Success((q, rest))
            <==> if p.protocol != 0xD4 && p.protocol != 0xE5 then q == p
                 else && p.payload != [] && Inflate(z, p.payload) == Some(q.payload) && 0 < |q.payload| <= 16_777_216
                      && q.protocol == (if p.protocol == 0xE5 then 0xE4 else 0xE3) && q.opcode == p.opcode
  {
  }
}
