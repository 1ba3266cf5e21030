/** New-format eD2k tags (core/codec/tags.py). */
module Tags {
  import opened Base
  import opened Utf8
  import opened Binary

  const HASH16 := 0x01
  const STRING := 0x02
  const UINT32 := 0x03
  const FLOAT32 := 0x04
  const BOOL := 0x05
  const BOOLARRAY := 0x06
  const BLOB := 0x07
  const UINT16 := 0x08
  const UINT8 := 0x09
  const BSOB := 0x0A
  const UINT64 := 0x0B
  const STR1 := 0x11
  const STR16 := 0x20

  type Float32 = b: bytes | |b| == 4 witness [0, 0, 0, 0]

  /** A tag value: texts as their UTF-8 bytes, floats as their four bytes. */
  datatype Value =
    | Int(n: int)
    | Bool(b: bool)
    | Text(text: Utf8)
    | Raw(raw: bytes)
    | Float(bits: Float32)
    | Nothing

  datatype Ident = Name(name: Utf8) | Id(id: byte)

  datatype Tag = Tag(ident: Ident, kind: int, value: Value)

  /** What `float(value)` packs to, for values that are not floats already. */
  datatype Floats = Floats(packed: imap<Value, Float32>)

  function FloatBits(f: Floats, v: Value): Option<Float32> {
    if v.Float? then Some(v.bits) else if v in f.packed then Some(f.packed[v]) else None
  }

  predicate IsStr(kind: int) {
    STR1 <= kind <= STR16
  }

  predicate IsUint(kind: int) {
    kind == UINT8 || kind == UINT16 || kind == UINT32 || kind == UINT64
  }

  // ----- writing -----

  /** `_encoded_string` */
  function EncodedString(v: Value): Result<bytes, CodecError> {
    match v
    case Text(text) => Success(text)
    case Raw(raw) => Success(raw)
    case _ => Failure(BadTag)
  }

  /** `bytes(value)`, which takes a number as that many zeros. */
  function AsBytes(v: Value): Result<bytes, CodecError> {
    match v
    case Raw(raw) => Success(raw)
    case Int(n) => if n < 0 then Failure(OutOfRange) else Success(seq(n, i => 0))
    case Bool(b) => Success(if b then [0] else [])
    case _ => Failure(BadType)
  }

  /** `_narrow_int`: a negative number falls through to UINT16. */
  function NarrowInt(v: Value): Result<int, CodecError> {
    if !v.Int? then Failure(BadTag)
    else if 0 <= v.n <= 0xFF then Success(UINT8)
    else if v.n <= 0xFFFF then Success(UINT16)
    else if v.n <= 0xFFFF_FFFF then Success(UINT32)
    else if v.n <= 0xFFFF_FFFF_FFFF_FFFF then Success(UINT64)
    else Failure(BadTag)
  }

  function StringWireType(raw: bytes): int {
    if 1 <= |raw| <= 16 then STR1 + |raw| - 1 else STRING
  }

  function WireType(tag: Tag): Result<int, CodecError> {
    if tag.kind == STRING || IsStr(tag.kind) then
      var raw :- EncodedString(tag.value);
      Success(StringWireType(raw))
    else if IsUint(tag.kind) then
      var narrow :- NarrowInt(tag.value);
      Success(if tag.kind == UINT32 then narrow else tag.kind)
    else
      Success(tag.kind)
  }

  /** `kind | 0x80` */
  function Flagged(kind: int): int {
    if 0 <= kind < 0x80 then kind + 0x80 else kind
  }

  function PutHeader(ident: Ident, wire: int): Out {
    match ident
    case Id(id) => Then(PutInt(Flagged(wire), 1), PutInt(id, 1))
    case Name(name) =>
      if |name| > 0xFFFF then Out([], Some(BadTag))
      else Then(PutInt(wire, 1), Then(PutInt(|name|, 2), PutBytes(name)))
  }

  function PutUint(v: Value, width: nat): Out {
    if v.Int? then PutInt(v.n, width) else Out([], Some(BadTag))
  }

  /** A length and the bytes, as BLOB and BSOB are written. */
  function PutSized(v: Value, width: nat): Out {
    if !v.Raw? || |v.raw| >= Pow256(width) then Out([], Some(BadTag))
    else Then(PutInt(|v.raw|, width), PutBytes(v.raw))
  }

  function PutText(v: Value, wire: int): Out {
    match EncodedString(v)
    case Failure(e) => Out([], Some(e))
    case Success(raw) => if IsStr(wire) then PutBytes(raw) else PutString(raw)
  }

  function PutValue(f: Floats, v: Value, wire: int): Out {
    if wire == UINT8 then PutUint(v, 1)
    else if wire == UINT16 then PutUint(v, 2)
    else if wire == UINT32 then PutUint(v, 4)
    else if wire == UINT64 then PutUint(v, 8)
    else if wire == STRING || IsStr(wire) then PutText(v, wire)
    else if wire == FLOAT32 then
      match FloatBits(f, v) {
        case Some(bits) => PutBytes(bits)
        case None => Out([], Some(BadTag))
      }
    else if wire == HASH16 then
      match AsBytes(v) {
        case Success(raw) => PutHash16(raw)
        case Failure(e) => Out([], Some(e))
      }
    else if wire == BOOL then
      if v.Bool? then PutInt(if v.b then 1 else 0, 1) else Out([], Some(BadTag))
    else if wire == BLOB then PutSized(v, 4)
    else if wire == BSOB then PutSized(v, 1)
    else Out([], Some(BadTag))
  }

  function EncodeTag(f: Floats, tag: Tag): Out {
    match WireType(tag)
    case Failure(e) => Out([], Some(e))
    case Success(wire) => Then(PutHeader(tag.ident, wire), PutValue(f, tag.value, wire))
  }

  method WriteHeader(ident: Ident, wire: int, writer: BinaryWriter) returns (r: Result<(), CodecError>)
    modifies writer
    ensures writer.buf == old(writer.buf) + PutHeader(ident, wire).written && r == PutHeader(ident, wire).Outcome()
  {
    WireWidths();
    match ident {
      case Id(id) =>
        var _ :- writer.WriteU8(Flagged(wire));
        r := writer.WriteU8(id);
      case Name(name) =>
        if |name| > 0xFFFF {
          return Failure(BadTag);
        }
        var _ :- writer.WriteU8(wire);
        var _ := writer.WriteU16(|name|);
        writer.WriteBytes(name);
        r := Success(());
    }
  }

  /** `_write_value` */
  method WriteValue(f: Floats, v: Value, wire: int, writer: BinaryWriter) returns (r: Result<(), CodecError>)
    modifies writer
    ensures writer.buf == old(writer.buf) + PutValue(f, v, wire).written && r == PutValue(f, v, wire).Outcome()
  {
    WireWidths();
    if IsUint(wire) {
      if !v.Int? {
        return Failure(BadTag);
      }
      if wire == UINT8 {
        r := writer.WriteU8(v.n);
      } else if wire == UINT16 {
        r := writer.WriteU16(v.n);
      } else if wire == UINT32 {
        r := writer.WriteU32(v.n);
      } else {
        r := writer.WriteU64(v.n);
      }
    } else if wire == STRING || IsStr(wire) {
      var raw :- EncodedString(v);
      if IsStr(wire) {
        writer.WriteBytes(raw);
        r := Success(());
      } else {
        r := writer.WriteString(raw);
      }
    } else if wire == FLOAT32 {
      var bits := FloatBits(f, v);
      if bits.None? {
        return Failure(BadTag);
      }
      writer.WriteBytes(bits.value);
      r := Success(());
    } else if wire == HASH16 {
      var raw :- AsBytes(v);
      r := writer.WriteHash16(raw);
    } else if wire == BOOL {
      if !v.Bool? {
        return Failure(BadTag);
      }
      r := writer.WriteU8(if v.b then 1 else 0);
    } else if wire == BLOB {
      if !v.Raw? || |v.raw| > 0xFFFF_FFFF {
        return Failure(BadTag);
      }
      var _ := writer.WriteU32(|v.raw|);
      writer.WriteBytes(v.raw);
      r := Success(());
    } else if wire == BSOB {
      if !v.Raw? || |v.raw| > 0xFF {
        return Failure(BadTag);
      }
      var _ := writer.WriteU8(|v.raw|);
      writer.WriteBytes(v.raw);
      r := Success(());
    } else {
      r := Failure(BadTag);
    }
  }

  /** `write_new_tag`; when it fails, what was written before stays. */
  method WriteNewTag(f: Floats, tag: Tag, writer: BinaryWriter) returns (r: Result<(), CodecError>)
    modifies writer
    ensures writer.buf == old(writer.buf) + EncodeTag(f, tag).written && r == EncodeTag(f, tag).Outcome()
  {
    var wire :- WireType(tag);
    var _ :- WriteHeader(tag.ident, wire, writer);
    r := WriteValue(f, tag.value, wire, writer);
  }

  // ----- reading -----

  function TakeByte(s: bytes): Got<byte> {
    var g :- TakeBytes(s, 1);
    Got(g.value[0], g.rest)
  }

  /** `_read_identifier`: a name of length one is read as a number, and any other is
      to be UTF-8. */
  function TakeIdent(s: bytes, typeByte: byte): Got<Ident> {
    if typeByte >= 0x80 then
      var id :- TakeByte(s);
      Got(Id(id.value), id.rest)
    else
      var length :- TakeInt(s, 2);
      if length.value == 1 then
        var id :- TakeByte(length.rest);
        Got(Id(id.value), id.rest)
      else
        var name :- TakeBytes(length.rest, length.value);
        if IsUtf8(name.value) then Got(Name(name.value), name.rest) else Stopped(BadTag, name.rest)
  }

  function TakeUint(s: bytes, width: nat): Got<Value> {
    var n :- TakeInt(s, width);
    Got(Int(n.value), n.rest)
  }

  function TakeRaw(s: bytes, n: nat): Got<Value> {
    var raw :- TakeBytes(s, n);
    Got(Raw(raw.value), raw.rest)
  }

  function TakeText(s: bytes, n: nat): Got<Value> {
    var raw :- TakeBytes(s, n);
    Got(Text(Decoded(raw.value)), raw.rest)
  }

  function TakeSized(s: bytes, width: nat): Got<Value> {
    var n :- TakeInt(s, width);
    TakeRaw(n.rest, n.value)
  }

  function TakeValue(s: bytes, kind: int): Got<Value> {
    if IsStr(kind) then TakeText(s, kind - STR1 + 1)
    else if kind == STRING then
      var n :- TakeInt(s, 2);
      TakeText(n.rest, n.value)
    else if kind == HASH16 then TakeRaw(s, 16)
    else if kind == FLOAT32 then
      var bits :- TakeBytes(s, 4);
      Got(Float(bits.value), bits.rest)
    else if kind == BOOL then
      var b :- TakeByte(s);
      Got(Bool(b.value != 0), b.rest)
    else if kind == UINT8 then TakeUint(s, 1)
    else if kind == UINT16 then TakeUint(s, 2)
    else if kind == UINT32 then TakeUint(s, 4)
    else if kind == UINT64 then TakeUint(s, 8)
    else if kind == BLOB then TakeSized(s, 4)
    else if kind == BSOB then TakeSized(s, 1)
    else if kind == BOOLARRAY then
      var n :- TakeInt(s, 2);
      var bits :- TakeBytes(n.rest, n.value / 8 + 1);
      Got(Nothing, bits.rest)
    else Stopped(BadTag, s)
  }

  /** The type `read_new_tag` gives a wire type. */
  function ReadKind(wire: int): int {
    if IsStr(wire) then STRING else if wire == UINT8 || wire == UINT16 then UINT32 else wire
  }

  function TakeTag(s: bytes): Got<Tag> {
    var typeByte :- TakeByte(s);
    var kind := if typeByte.value >= 0x80 then typeByte.value - 0x80 else typeByte.value;
    var ident :- TakeIdent(typeByte.rest, typeByte.value);
    var value :- TakeValue(ident.rest, kind);
    Got(Tag(ident.value, ReadKind(kind), value.value), value.rest)
  }

  method ReadByte(reader: BinaryReader) returns (r: Result<byte, CodecError>)
    requires reader.Valid()
    modifies reader
    ensures reader.Valid()
    ensures var t := TakeByte(old(reader.Rest())); r == t.Outcome() && reader.Rest() == t.rest
  {
    var one :- reader.ReadBytes(1);
    r := Success(one[0]);
  }

  method ReadIdentifier(reader: BinaryReader, typeByte: byte) returns (r: Result<Ident, CodecError>)
    requires reader.Valid()
    modifies reader
    ensures reader.Valid()
    ensures var t := TakeIdent(old(reader.Rest()), typeByte); r == t.Outcome() && reader.Rest() == t.rest
  {
    if typeByte >= 0x80 {
      var id :- ReadByte(reader);
      return Success(Id(id));
    }
    var length :- reader.ReadUint(2);
    if length == 1 {
      var id :- ReadByte(reader);
      return Success(Id(id));
    }
    var name :- reader.ReadBytes(length);
    r := if IsUtf8(name) then Success(Name(name)) else Failure(BadTag);
  }

  method ReadValue(reader: BinaryReader, kind: int) returns (r: Result<Value, CodecError>)
    requires reader.Valid()
    modifies reader
    ensures reader.Valid()
    ensures var t := TakeValue(old(reader.Rest()), kind); r == t.Outcome() && reader.Rest() == t.rest
  {
    if IsStr(kind) {
      var text :- reader.ReadBytes(kind - STR1 + 1);
      r := Success(Text(Decoded(text)));
    } else if kind == STRING {
      var text :- reader.ReadString();
      r := Success(Text(Decoded(text)));
    } else if kind == HASH16 {
      var raw :- reader.ReadBytes(16);
      r := Success(Raw(raw));
    } else if kind == FLOAT32 {
      var bits :- reader.ReadBytes(4);
      r := Success(Float(bits));
    } else if kind == BOOL {
      var b :- ReadByte(reader);
      r := Success(Bool(b != 0));
    } else if IsUint(kind) {
      var n :- reader.ReadUint(if kind == UINT8 then 1 else if kind == UINT16 then 2 else if kind == UINT32 then 4 else 8);
      r := Success(Int(n));
    } else if kind == BLOB || kind == BSOB {
      var n :- reader.ReadUint(if kind == BLOB then 4 else 1);
      var raw :- reader.ReadBytes(n);
      r := Success(Raw(raw));
    } else if kind == BOOLARRAY {
      var n :- reader.ReadUint(2);
      var _ :- reader.ReadBytes(n / 8 + 1);
      r := Success(Nothing);
    } else {
      r := Failure(BadTag);
    }
  }

  /** `read_new_tag` */
  method ReadNewTag(reader: BinaryReader) returns (r: Result<Tag, CodecError>)
    requires reader.Valid()
    modifies reader
    ensures reader.Valid()
    ensures var t := TakeTag(old(reader.Rest())); r == t.Outcome() && reader.Rest() == t.rest
  {
    var typeByte :- ReadByte(reader);
    var kind := if typeByte >= 0x80 then typeByte - 0x80 else typeByte;
    var ident :- ReadIdentifier(reader, typeByte);
    var value :- ReadValue(reader, kind);
    r := Success(Tag(ident, ReadKind(kind), value));
  }

  // ----- which tags can be written -----

  predicate FitsValue(f: Floats, kind: int, v: Value) {
    if kind == STRING || IsStr(kind) then EncodedString(v).Success? && |EncodedString(v).value| <= 0xFFFF
    else if kind == UINT8 then v.Int? && 0 <= v.n <= 0xFF
    else if kind == UINT16 then v.Int? && 0 <= v.n <= 0xFFFF
    else if kind == UINT32 || kind == UINT64 then v.Int? && 0 <= v.n <= 0xFFFF_FFFF_FFFF_FFFF
    else if kind == FLOAT32 then FloatBits(f, v).Some?
    else if kind == HASH16 then v == Int(16) || (v.Raw? && |v.raw| == 16)
    else if kind == BOOL then v.Bool?
    else if kind == BLOB then v.Raw? && |v.raw| <= 0xFFFF_FFFF
    else if kind == BSOB then v.Raw? && |v.raw| <= 0xFF
    else false
  }

  /** A tag can be written exactly when its value suits its type and its name
      has a two-byte length. */
  lemma {:induction false} EncodableIff(f: Floats, tag: Tag)
    ensures EncodeTag(f, tag).error.None?
            <==> FitsValue(f, tag.kind, tag.value) && (tag.ident.Name? ==> |tag.ident.name| <= 0xFFFF)
  {
    WireWidths();
  }

  /** Why a tag cannot be written: what has no bytes is a TypeError when given for a
      hash; data never ends too soon. */
  lemma {:induction false} TypeErrorIff(f: Floats, tag: Tag)
    ensures EncodeTag(f, tag).error != Some(Truncated)
    ensures EncodeTag(f, tag).error == Some(BadType)
            <==> && (tag.ident.Name? ==> |tag.ident.name| <= 65_535)
                 && tag.kind == 0x01 && (tag.value.Text? || tag.value.Float? || tag.value.Nothing?)
  {
    WireWidths();
  }

  /** The value is of the sort its type asks for, but does not fit. */
  predicate Overflows(kind: int, v: Value) {
    if kind == 0x02 || 0x11 <= kind <= 0x20 then EncodedString(v).Success? && |EncodedString(v).value| > 65_535
    else if kind == 0x03 || kind == 0x08 || kind == 0x09 || kind == 0x0B then
      && v.Int? && v.n <= 0xFFFF_FFFF_FFFF_FFFF
      && !(0 <= v.n < if kind == 0x09 then 0x100 else if kind == 0x08 then 0x1_0000 else 0x1_0000_0000_0000_0000)
    else if kind == 0x01 then v.Bool? || (v.Int? && v.n != 16) || (v.Raw? && |v.raw| != 16)
    else !(0 <= kind <= 255)
  }

  /** Texts and numbers that do not fit, hashes that are not 16 bytes and types above
      255 are a ValueError, and everything else is a TagError. */
  lemma {:induction false} RangeErrorIff(f: Floats, tag: Tag)
    ensures EncodeTag(f, tag).error == Some(OutOfRange)
            <==> (tag.ident.Name? ==> |tag.ident.name| <= 65_535) && Overflows(tag.kind, tag.value)
  {
    WireWidths();
  }

  // ----- the layout of a written tag -----

  /** The value of a written tag, behind its header. */
  function Body(f: Floats, tag: Tag): bytes
    requires EncodeTag(f, tag).error.None?
  {
    PutValue(f, tag.value, WireType(tag).value).written
  }

  /** The header: the wire type with its top bit for a numeric identifier, then that
      identifier in one byte, or the length of the name in two and the name. */
  lemma {:induction false} HeaderLayout(f: Floats, tag: Tag)
    requires EncodeTag(f, tag).error.None?
    ensures 0 <= WireType(tag).value < 0x80
    ensures var s, wire, body := EncodeTag(f, tag).written, WireType(tag).value, Body(f, tag);
            match tag.ident
            case Id(id) => s == [wire + 0x80, id] + body
            case Name(name) =>
              && |s| == 3 + |name| + |body| && s[0] == wire && s[1] as int + 256 * s[2] as int == |name|
              && s[3..3 + |name|] == name && s[3 + |name|..] == body
  {
    WireWidths();
    var wire := WireType(tag).value;
    match tag.ident {
      case Id(id) =>
        OneByte(wire + 0x80);
        OneByte(id);
      case Name(name) =>
        OneByte(wire);
        TwoBytes(|name|, ToLittleEndian(|name|, 2));
    }
  }

  /** Texts of 1 to 16 bytes have a type that says their length, all others a length of
      two bytes. */
  lemma {:induction false} TextLayout(f: Floats, tag: Tag)
    requires EncodeTag(f, tag).error.None? && (tag.kind == 0x02 || 0x11 <= tag.kind <= 0x20)
    ensures EncodedString(tag.value).Success?
    ensures var raw, wire, body := EncodedString(tag.value).value, WireType(tag).value, Body(f, tag);
            && |raw| <= 65_535
            && if 1 <= |raw| <= 16 then wire == 0x10 + |raw| && body == raw
               else wire == 0x02 && |body| == 2 + |raw| && body[0] as int + 256 * body[1] as int == |raw| && body[2..] == raw
  {
    WireWidths();
    var raw := EncodedString(tag.value).value;
    if |raw| <= 0xFFFF {
      TwoBytes(|raw|, ToLittleEndian(|raw|, 2));
    }
  }

  /** A number of type UINT32 takes the fewest of 1, 2, 4 and 8 bytes that hold it;
      other numbers take those of their type. */
  lemma {:induction false} NumberLayout(f: Floats, tag: Tag)
    requires EncodeTag(f, tag).error.None? && (tag.kind == 0x03 || tag.kind == 0x08 || tag.kind == 0x09 || tag.kind == 0x0B)
    ensures tag.value.Int? && tag.value.n >= 0
    ensures var n, wire, body := tag.value.n, WireType(tag).value, Body(f, tag);
            && (wire == 0x09 || wire == 0x08 || wire == 0x03 || wire == 0x0B)
            && |body| == (if wire == 0x09 then 1 else if wire == 0x08 then 2 else if wire == 0x03 then 4 else 8)
            && (forall k :: 0 <= k < |body| ==> body[k] == n / Pow256(k) % 256)
            && n < Pow256(|body|)
            && (tag.kind != 0x03 ==> wire == tag.kind)
            && (tag.kind == 0x03 ==> |body| == if n <= 0xFF then 1 else if n <= 0xFFFF then 2 else if n <= 0xFFFF_FFFF then 4 else 8)
  {
    WireWidths();
    var n, body := tag.value.n, Body(f, tag);
    forall k | 0 <= k < |body|
      ensures body[k] == n / Pow256(k) % 256
    {
      LittleEndianAt(n, |body|, k);
    }
  }

  /** The other types, by their numbers. */
  lemma {:induction false} OtherLayout(f: Floats, tag: Tag)
    requires EncodeTag(f, tag).error.None?
    ensures var v, body := tag.value, Body(f, tag);
            && (tag.kind in {0x01, 0x04, 0x05, 0x07, 0x0A} ==> WireType(tag) == Success(tag.kind))
            && (tag.kind == 0x01 ==> |body| == 16 && (v == Raw(body) || (v == Int(16) && forall k :: 0 <= k < 16 ==> body[k] == 0)))
            && (tag.kind == 0x04 ==> Some(body) == FloatBits(f, v))
            && (tag.kind == 0x05 ==> v.Bool? && body == [if v.b then 1 else 0])
            && (tag.kind == 0x07 ==>
                  && v.Raw? && |body| == 4 + |v.raw| && body[4..] == v.raw
                  && body[0] as int + 256 * body[1] as int + 65_536 * body[2] as int + 16_777_216 * body[3] as int == |v.raw|)
            && (tag.kind == 0x0A ==> v.Raw? && |v.raw| <= 255 && body == [|v.raw|] + v.raw)
  {
    WireWidths();
    var v := tag.value;
    if tag.kind == BLOB {
      FourBytes(|v.raw|, ToLittleEndian(|v.raw|, 4));
    } else if tag.kind == BSOB {
      OneByte(|v.raw|);
    } else if tag.kind == BOOL {
      OneByte(if v.b then 1 else 0);
    }
  }

  // ----- reading what was written -----

  /** The tag a reader makes of a written one. */
  function AsRead(f: Floats, tag: Tag): Tag {
    var wide := tag.value.Int? && tag.value.n > 0xFFFF_FFFF;
    Tag(if tag.ident.Name? && |tag.ident.name| == 1 then Id(tag.ident.name[0]) else tag.ident,
        if IsStr(tag.kind) then STRING
        else if tag.kind == UINT8 || tag.kind == UINT16 then UINT32
        else if tag.kind == UINT32 && wide then UINT64
        else tag.kind,
        ValueRead(f, tag.kind, tag.value))
  }

  function ValueRead(f: Floats, kind: int, v: Value): Value {
    if kind == STRING || IsStr(kind) then (if v.Raw? then Text(Decoded(v.raw)) else v)
    else if kind == FLOAT32 && FloatBits(f, v).Some? then Float(FloatBits(f, v).value)
    else if kind == HASH16 && v == Int(16) then Raw(seq(16, i => 0))
    else v
  }

  lemma {:induction false} HeaderReadsBack(ident: Ident, wire: int, rest: bytes)
    requires 0 <= wire < 0x80 && PutHeader(ident, wire).error.None?
    ensures var s := PutHeader(ident, wire).written + rest;
            && TakeByte(s).Got?
            && TakeByte(s).value == (if ident.Id? then wire + 0x80 else wire)
            && TakeIdent(TakeByte(s).rest, TakeByte(s).value)
               == Got(if ident.Name? && |ident.name| == 1 then Id(ident.name[0]) else ident, rest)
  {
    match ident {
      case Id(id) => IdReadsBack(id, wire, rest);
      case Name(name) => NameReadsBack(name, wire, rest);
    }
  }

  lemma {:induction false} IdReadsBack(id: byte, wire: int, rest: bytes)
    requires 0 <= wire < 0x80
    ensures var s := PutHeader(Id(id), wire).written + rest;
            && TakeByte(s).Got? && TakeByte(s).value == wire + 0x80
            && TakeIdent(TakeByte(s).rest, wire + 0x80) == Got(Id(id), rest)
  {
    var first, second := PutInt(wire + 0x80, 1).written, PutInt(id, 1).written;
    OneByte(wire + 0x80);
    OneByte(id);
    ConcatAssoc(first, second, rest);
    BytesReadBack(first, second + rest);
    BytesReadBack(second, rest);
  }

  lemma {:induction false} NameReadsBack(name: Utf8, wire: int, rest: bytes)
    requires 0 <= wire < 0x80 && |name| <= 0xFFFF
    ensures var s := PutHeader(Name(name), wire).written + rest;
            && TakeByte(s).Got? && TakeByte(s).value == wire
            && TakeIdent(TakeByte(s).rest, wire) == Got(if |name| == 1 then Id(name[0]) else Name(name), rest)
  {
    WireWidths();
    var first, length := PutInt(wire, 1).written, PutInt(|name|, 2).written;
    OneByte(wire);
    ConcatAssoc(length, name, rest);
    ConcatAssoc(first, length + name, rest);
    BytesReadBack(first, length + (name + rest));
    IntReadsBack(|name|, 2, name + rest);
    BytesReadBack(name, rest);
  }

  lemma {:induction false} OneByte(n: byte)
    ensures PutInt(n, 1) == Out([n], None)
  {
    WireWidths();
    assert ToLittleEndian(n / 256, 0) == [];
  }

  lemma {:induction false} SizedReadsBack(raw: bytes, width: nat, rest: bytes)
    requires |raw| < Pow256(width)
    ensures TakeSized(PutSized(Raw(raw), width).written + rest, width) == Got(Raw(raw), rest)
  {
    var length := PutInt(|raw|, width).written;
    ConcatAssoc(length, raw, rest);
    IntReadsBack(|raw|, width, raw + rest);
    BytesReadBack(raw, rest);
  }

  lemma {:induction false} UintReadsBack(v: Value, width: nat, rest: bytes)
    requires PutUint(v, width).error.None?
    ensures TakeUint(PutUint(v, width).written + rest, width) == Got(v, rest)
  {
    IntReadsBack(v.n, width, rest);
  }

  lemma {:induction false} TextReadsBack(raw: bytes, rest: bytes)
    requires |raw| <= 0xFFFF
    ensures var wire := StringWireType(raw);
            TakeValue(PutText(Raw(raw), wire).written + rest, wire) == Got(Text(Decoded(raw)), rest)
  {
    if IsStr(StringWireType(raw)) {
      BytesReadBack(raw, rest);
    } else {
      StringReadsBack(raw, rest);
    }
  }

  /** What was written for a value reads back as it, and nothing more is taken. */
  lemma {:induction false} ValueReadsBack(f: Floats, tag: Tag, wire: int, rest: bytes)
    requires WireType(tag) == Success(wire) && PutValue(f, tag.value, wire).error.None?
    ensures TakeValue(PutValue(f, tag.value, wire).written + rest, wire)
            == Got(ValueRead(f, tag.kind, tag.value), rest)
    ensures 0 <= wire < 0x80 && ReadKind(wire) == AsRead(f, tag).kind
  {
    WireWidths();
    var v := tag.value;
    if tag.kind == STRING || IsStr(tag.kind) {
      var raw := EncodedString(v).value;
      assert PutText(v, wire) == PutText(Raw(raw), wire);
      StringReadsBack(raw, rest);
      TextReadsBack(raw, rest);
    } else if IsUint(wire) {
      UintReadsBack(v, if wire == UINT8 then 1 else if wire == UINT16 then 2 else if wire == UINT32 then 4 else 8, rest);
    } else if wire == FLOAT32 {
      BytesReadBack(FloatBits(f, v).value, rest);
    } else if wire == HASH16 {
      BytesReadBack(AsBytes(v).value, rest);
    } else if wire == BOOL {
      OneByte(if v.b then 1 else 0);
      BytesReadBack([if v.b then 1 else 0], rest);
    } else if wire == BLOB {
      SizedReadsBack(v.raw, 4, rest);
    } else {
      SizedReadsBack(v.raw, 1, rest);
    }
  }

  /** Round trip and self-delimitation: every tag that can be written reads back
      with its normalised type and value, and exactly what followed is left. */
  lemma {:induction false} TagRoundTrip(f: Floats, tag: Tag, rest: bytes)
    requires EncodeTag(f, tag).error.None?
    ensures TakeTag(EncodeTag(f, tag).written + rest) == Got(AsRead(f, tag), rest)
  {
    var wire := WireType(tag).value;
    var header, body := PutHeader(tag.ident, wire).written, PutValue(f, tag.value, wire).written;
    ConcatAssoc(header, body, rest);
    ValueReadsBack(f, tag, wire, rest);
    HeaderReadsBack(tag.ident, wire, body + rest);
  }

  /** The identifier survives exactly when it is not a name of one byte. */
  lemma {:induction false} IdentifierKept(f: Floats, tag: Tag, rest: bytes)
    requires EncodeTag(f, tag).error.None?
    ensures var t := TakeTag(EncodeTag(f, tag).written + rest);
            t.Got? && (t.value.ident == tag.ident <==> !(tag.ident.Name? && |tag.ident.name| == 1))
  {
    TagRoundTrip(f, tag, rest);
  }

  // ----- reading what nobody here writes -----

  /** Any byte but zero is true. */
  lemma {:induction false} BoolReads(s: bytes)
    requires s != []
    ensures TakeValue(s, 0x05) == Got(Bool(s[0] != 0), s[1..])
  {
  }

  /** Short texts are also read behind a length of two bytes. */
  lemma {:induction false} TextReads(raw: bytes, rest: bytes)
    requires |raw| <= 0xFFFF
    ensures TakeValue(ToLittleEndian(|raw|, 2) + raw + rest, 0x02) == Got(Text(Decoded(raw)), rest)
    ensures 1 <= |raw| <= 16 ==> TakeValue(raw + rest, 0x10 + |raw|) == Got(Text(Decoded(raw)), rest)
  {
    StringReadsBack(raw, rest);
    BytesReadBack(raw, rest);
  }

  /** Numbers of each width, whether or not a narrower one would do. */
  lemma {:induction false} NumberReads(n: nat, rest: bytes)
    ensures n < 0x100 ==> TakeValue(ToLittleEndian(n, 1) + rest, 0x09) == Got(Int(n), rest)
    ensures n < 0x1_0000 ==> TakeValue(ToLittleEndian(n, 2) + rest, 0x08) == Got(Int(n), rest)
    ensures n < 0x1_0000_0000 ==> TakeValue(ToLittleEndian(n, 4) + rest, 0x03) == Got(Int(n), rest)
    ensures n < 0x1_0000_0000_0000_0000 ==> TakeValue(ToLittleEndian(n, 8) + rest, 0x0B) == Got(Int(n), rest)
  {
    WireWidths();
    if n < 0x1_0000_0000_0000_0000 {
      IntReadsBack(n, 8, rest);
    }
    if n < 0x1_0000_0000 {
      IntReadsBack(n, 4, rest);
    }
    if n < 0x1_0000 {
      IntReadsBack(n, 2, rest);
    }
    if n < 0x100 {
      IntReadsBack(n, 1, rest);
    }
  }

  /** A name that is not UTF-8 is refused once it has been read, unless it is one byte
      long: then it is a number. */
  lemma {:induction false} BadNameReads(name: bytes, typeByte: byte, rest: bytes)
    requires |name| <= 0xFFFF && typeByte < 0x80 && !IsUtf8(name)
    ensures TakeIdent(ToLittleEndian(|name|, 2) + name + rest, typeByte)
            == if |name| == 1 then Got(Id(name[0]), rest) else Stopped(BadTag, rest)
  {
    WireWidths();
    ConcatAssoc(ToLittleEndian(|name|, 2), name, rest);
    IntReadsBack(|name|, 2, name + rest);
    BytesReadBack(name, rest);
  }

  /** Any other type is refused before its value is looked at. */
  lemma {:induction false} UnknownType(s: bytes, wire: byte)
    ensures TakeValue(s, wire) == Stopped(BadTag, s)
            <==> !(1 <= wire <= 0x0B) && !(0x11 <= wire <= 0x20)
  {
  }

  // ----- writing what was read -----

  /** A kind that a reader gives a tag. */
  predicate IsReadKind(kind: int) {
    || kind == STRING || kind == UINT32 || kind == UINT64 || kind == FLOAT32 || kind == HASH16
    || kind == BOOL || kind == BLOB || kind == BSOB || kind == BOOLARRAY
  }

  lemma {:induction false} TakenInt(s: bytes, width: nat)
    requires width <= |s|
    ensures 0 <= TakeInt(s, width).value < Pow256(width)
  {
    LittleEndianUnique(s[..width]);
  }

  /** What was read suits the type it is read as, but for a BOOLARRAY and for a text
      that is longer as UTF-8 than it was. */
  lemma {:induction false} ReadValueFits(f: Floats, s: bytes, wire: byte)
    requires TakeValue(s, wire).Got?
    ensures var kind, v := ReadKind(wire), TakeValue(s, wire).value;
            && IsReadKind(kind) && ValueRead(f, kind, v) == v && (v.Text? <==> kind == STRING)
            && (v.Int? ==> 0 <= v.n <= 0xFFFF_FFFF_FFFF_FFFF && (kind == UINT32 ==> v.n <= 0xFFFF_FFFF))
            && (FitsValue(f, kind, v) <==> kind != BOOLARRAY && (v.Text? ==> |v.text| <= 0xFFFF))
  {
    WireWidths();
    var width := if wire == STRING || wire == UINT16 || wire == BOOLARRAY then 2
                 else if wire == UINT32 || wire == BLOB then 4
                 else if wire == UINT64 then 8
                 else 1;
    if width <= |s| {
      TakenInt(s, width);
    }
  }

  lemma {:induction false} ReadIdentFits(s: bytes, typeByte: byte)
    requires TakeIdent(s, typeByte).Got?
    ensures var ident := TakeIdent(s, typeByte).value;
            ident.Name? ==> |ident.name| <= 0xFFFF && |ident.name| != 1
  {
    WireWidths();
    if typeByte < 0x80 {
      TakenInt(s, 2);
    }
  }

  /** A tag that was read, from any bytes, can be written again unless it is a
      BOOLARRAY or a text of more than 65,535 UTF-8 bytes, and then it reads back
      unchanged. */
  lemma {:induction false} RereadIff(f: Floats, s: bytes, rest: bytes)
    requires TakeTag(s).Got?
    ensures var t := TakeTag(s).value;
            && (EncodeTag(f, t).error.None? <==> t.kind != 0x06 && (t.value.Text? ==> |t.value.text| <= 0xFFFF))
            && (EncodeTag(f, t).error.None? ==> TakeTag(EncodeTag(f, t).written + rest) == Got(t, rest))
  {
    var typeByte := TakeByte(s);
    var ident := TakeIdent(typeByte.rest, typeByte.value);
    var t := TakeTag(s).value;
    ReadIdentFits(typeByte.rest, typeByte.value);
    ReadValueFits(f, ident.rest, if typeByte.value >= 0x80 then typeByte.value - 0x80 else typeByte.value);
    EncodableIff(f, t);
    if EncodeTag(f, t).error.None? {
      TagRoundTrip(f, t, rest);
      assert AsRead(f, t) == t;
    }
  }

  /** A BOOLARRAY reads as its type without a value, which cannot be written. */
  lemma {:induction false} BoolArrayIsLost(f: Floats, id: byte, count: nat, bits: bytes, rest: bytes)
    requires count <= 0xFFFF && |bits| == count / 8 + 1
    ensures var s := [0x86, id] + (ToLittleEndian(count, 2) + (bits + rest));
            TakeTag(s) == Got(Tag(Id(id), 0x06, Nothing), rest)
            && EncodeTag(f, TakeTag(s).value).error == Some(BadTag)
  {
    WireWidths();
    var tail := ToLittleEndian(count, 2) + (bits + rest);
    BytesReadBack([Flagged(BOOLARRAY)], [id] + tail);
    assert [Flagged(BOOLARRAY), id] + tail == [Flagged(BOOLARRAY)] + ([id] + tail);
    BytesReadBack([id], tail);
    IntReadsBack(count, 2, bits + rest);
    BytesReadBack(bits, rest);
  }

  lemma {:induction false} TextTooLong(f: Floats, id: byte, text: Utf8)
    requires |text| > 0xFFFF
    ensures EncodeTag(f, Tag(Id(id), STRING, Text(text))).error == Some(OutOfRange)
  {
    WireWidths();
    assert PutText(Text(text), STRING).error == Some(OutOfRange);
  }

  lemma {:induction false} StringTag(f: Floats, id: byte, raw: bytes, rest: bytes)
    requires |raw| <= 0xFFFF
    ensures var out := EncodeTag(f, Tag(Id(id), STRING, Raw(raw)));
            out.error.None? && TakeTag(out.written + rest) == Got(Tag(Id(id), STRING, Text(Decoded(raw))), rest)
  {
    var tag := Tag(Id(id), STRING, Raw(raw));
    EncodableIff(f, tag);
    TagRoundTrip(f, tag, rest);
  }

  /** Bytes that are not UTF-8 can be written as a string, but as a text of twice
      their length what is read may not. */
  lemma {:induction false} LongLatinIsLost(f: Floats, id: byte, raw: bytes, rest: bytes)
    requires 0x8000 <= |raw| <= 0xFFFF && forall i :: 0 <= i < |raw| ==> raw[i] == 0xFF
    ensures var out := EncodeTag(f, Tag(Id(id), STRING, Raw(raw)));
            && out.error.None? && TakeTag(out.written + rest).Got?
            && EncodeTag(f, TakeTag(out.written + rest).value).error == Some(OutOfRange)
  {
    DecodedDoubles(raw);
    TextTooLong(f, id, Decoded(raw));
    StringTag(f, id, raw, rest);
  }

  // ----- truncated tags -----

  lemma {:induction false} MoreIdent(s: bytes, typeByte: byte, more: bytes)
    ensures TakeIdent(s, typeByte).Got? ==>
              TakeIdent(s + more, typeByte) == Got(TakeIdent(s, typeByte).value, TakeIdent(s, typeByte).rest + more)
    ensures TakeIdent(s, typeByte).Stopped? && TakeIdent(s, typeByte).error != Truncated ==>
              TakeIdent(s + more, typeByte).Stopped?
  {
    var width := if typeByte >= 0x80 then 1 else 2;
    if width <= |s| {
      MoreData(s, width, more);
      var length := TakeInt(s, width);
      if length.value <= |length.rest| {
        MoreData(length.rest, length.value, more);
      }
    }
  }

  lemma {:induction false} MoreValue(s: bytes, kind: int, more: bytes)
    ensures TakeValue(s, kind).Got? ==>
              TakeValue(s + more, kind) == Got(TakeValue(s, kind).value, TakeValue(s, kind).rest + more)
    ensures TakeValue(s, kind).Stopped? && TakeValue(s, kind).error != Truncated ==> TakeValue(s + more, kind).Stopped?
  {
    if TakeValue(s, kind).Stopped? {
      return;
    }
    var width := if IsStr(kind) then kind - STR1 + 1
                 else if kind == STRING || kind == BOOLARRAY || kind == UINT16 then 2
                 else if kind == HASH16 then 16
                 else if kind == FLOAT32 || kind == UINT32 || kind == BLOB then 4
                 else if kind == UINT64 then 8
                 else 1;
    MoreData(s, width, more);
    var n := TakeInt(s, width);
    if kind == STRING || kind == BLOB || kind == BSOB {
      MoreData(n.rest, n.value, more);
    } else if kind == BOOLARRAY {
      MoreData(n.rest, n.value / 8 + 1, more);
    }
  }

  /** Reading a tag looks only at the tag. */
  lemma {:induction false} MoreTag(s: bytes, more: bytes)
    ensures TakeTag(s).Got? ==> TakeTag(s + more) == Got(TakeTag(s).value, TakeTag(s).rest + more)
    ensures TakeTag(s).Stopped? && TakeTag(s).error != Truncated ==> TakeTag(s + more).Stopped?
  {
    if s != [] {
      MoreData(s, 1, more);
      var typeByte := TakeByte(s);
      MoreIdent(typeByte.rest, typeByte.value, more);
      var ident := TakeIdent(typeByte.rest, typeByte.value);
      if ident.Got? {
        MoreValue(ident.rest, if typeByte.value >= 0x80 then typeByte.value - 0x80 else typeByte.value, more);
      }
    }
  }

  lemma {:induction false} CutTagStops(whole: bytes, cut: bytes, more: bytes)
    requires whole == cut + more && more != [] && TakeTag(whole).Got? && TakeTag(whole).rest == []
    ensures TakeTag(cut).Outcome() == Failure(Truncated)
  {
    MoreTag(cut, more);
  }

  /** No proper prefix of a written tag reads as a tag: the data ends too soon. */
  lemma {:induction false} TruncatedTagFails(f: Floats, tag: Tag, k: nat)
    requires EncodeTag(f, tag).error.None? && k < |EncodeTag(f, tag).written|
    ensures TakeTag(EncodeTag(f, tag).written[..k]).Outcome() == Failure(Truncated)
  {
    var whole := EncodeTag(f, tag).written;
    TagRoundTrip(f, tag, []);
    assert whole + [] == whole;
    CutTagStops(whole, whole[..k], whole[k..]);
  }

  // ----- lists of tags -----

  function EncodeTags(f: Floats, tags: seq<Tag>): Out {
    if tags == [] then Out([], None) else Then(EncodeTag(f, tags[0]), EncodeTags(f, tags[1..]))
  }

  function TakeTags(s: bytes, count: nat): Got<seq<Tag>> {
    if count == 0 then Got([], s)
    else
      match TakeTag(s)
      case Stopped(error, rest) => Stopped(error, rest)
      case Got(tag, rest) =>
        var more :- TakeTags(rest, count - 1);
        Got([tag] + more.value, more.rest)
  }

  function AllRead(f: Floats, tags: seq<Tag>): seq<Tag> {
    if tags == [] then [] else [AsRead(f, tags[0])] + AllRead(f, tags[1..])
  }

  lemma {:induction false} TagsRoundTrip(f: Floats, tags: seq<Tag>, rest: bytes)
    requires EncodeTags(f, tags).error.None?
    ensures TakeTags(EncodeTags(f, tags).written + rest, |tags|) == Got(AllRead(f, tags), rest)
  {
    if tags == [] {
      assert [] + rest == rest;
    } else {
      var first, others := EncodeTag(f, tags[0]).written, EncodeTags(f, tags[1..]).written;
      ConcatAssoc(first, others, rest);
      TagRoundTrip(f, tags[0], others + rest);
      TagsRoundTrip(f, tags[1..], rest);
    }
  }
}
