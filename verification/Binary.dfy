/** Little-endian reading and writing over a buffer (core/codec/binary.py). */
module Binary {
  import opened Base

  datatype CodecError =
    | Truncated        // CodecError: the data ends too soon
    | OutOfRange       // ValueError: a number or length does not fit its field
    | BadTag           // TagError
    | BadType          // TypeError: the value has no bytes

  /** What writing appends, and the error that stopped it. */
  datatype Out = Out(written: bytes, error: Option<CodecError>) {
    function Outcome(): Result<(), CodecError> {
      if error.None? then Success(()) else Failure(error.value)
    }
  }

  function Then(a: Out, b: Out): Out {
    if a.error.Some? then a else Out(a.written + b.written, b.error)
  }

  function PutInt(value: int, width: nat): Out {
    if 0 <= value < Pow256(width) then Out(ToLittleEndian(value, width), None) else Out([], Some(OutOfRange))
  }

  function PutBytes(data: bytes): Out {
    Out(data, None)
  }

  function PutHash16(digest: bytes): Out {
    if |digest| != 16 then Out([], Some(OutOfRange)) else PutBytes(digest)
  }

  /** `write_string`: the encoded text behind its two-byte length. */
  function PutString(text: bytes): Out {
    Then(PutInt(|text|, 2), PutBytes(text))
  }

  /** What reading finds, or the error that stopped it, and the bytes not read. */
  datatype Got<+T> = Got(value: T, rest: bytes) | Stopped(error: CodecError, rest: bytes) {
    predicate IsFailure() {
      Stopped?
    }

    function PropagateFailure<U>(): Got<U>
      requires IsFailure()
    {
      Stopped(error, rest)
    }

    function Extract(): Got<T>
      requires !IsFailure()
    {
      this
    }

    function Outcome(): Result<T, CodecError> {
      if Got? then Success(value) else Failure(error)
    }
  }

  function TakeBytes(s: bytes, n: nat): Got<bytes> {
    if n > |s| then Stopped(Truncated, s) else Got(s[..n], s[n..])
  }

  function TakeInt(s: bytes, width: nat): Got<nat> {
    if width > |s| then Stopped(Truncated, s) else Got(FromLittleEndian(s[..width]), s[width..])
  }

  function TakeString(s: bytes): Got<bytes> {
    var length :- TakeInt(s, 2);
    TakeBytes(length.rest, length.value)
  }

  class BinaryWriter {
    var buf: bytes

    constructor ()
      ensures buf == []
    {
      buf := [];
    }

    method WriteU8(value: int) returns (r: Result<(), CodecError>)
      modifies this
      ensures buf == old(buf) + PutInt(value, 1).written && r == PutInt(value, 1).Outcome()
    {
      WireWidths();
      if !(0 <= value <= 0xFF) {
        return Failure(OutOfRange);
      }
      buf := buf + ToLittleEndian(value, 1);
      r := Success(());
    }

    method WriteU16(value: int) returns (r: Result<(), CodecError>)
      modifies this
      ensures buf == old(buf) + PutInt(value, 2).written && r == PutInt(value, 2).Outcome()
    {
      WireWidths();
      if !(0 <= value <= 0xFFFF) {
        return Failure(OutOfRange);
      }
      buf := buf + ToLittleEndian(value, 2);
      r := Success(());
    }

    method WriteU32(value: int) returns (r: Result<(), CodecError>)
      modifies this
      ensures buf == old(buf) + PutInt(value, 4).written && r == PutInt(value, 4).Outcome()
    {
      WireWidths();
      if !(0 <= value <= 0xFFFF_FFFF) {
        return Failure(OutOfRange);
      }
      buf := buf + ToLittleEndian(value, 4);
      r := Success(());
    }

    method WriteU64(value: int) returns (r: Result<(), CodecError>)
      modifies this
      ensures buf == old(buf) + PutInt(value, 8).written && r == PutInt(value, 8).Outcome()
    {
      WireWidths();
      if !(0 <= value <= 0xFFFF_FFFF_FFFF_FFFF) {
        return Failure(OutOfRange);
      }
      buf := buf + ToLittleEndian(value, 8);
      r := Success(());
    }

    method WriteBytes(data: bytes)
      modifies this
      ensures buf == old(buf) + data
    {
      buf := buf + data;
    }

    method WriteHash16(digest: bytes) returns (r: Result<(), CodecError>)
      modifies this
      ensures buf == old(buf) + PutHash16(digest).written && r == PutHash16(digest).Outcome()
    {
      if |digest| != 16 {
        return Failure(OutOfRange);
      }
      buf := buf + digest;
      r := Success(());
    }

    method WriteString(text: bytes) returns (r: Result<(), CodecError>)
      modifies this
      ensures buf == old(buf) + PutString(text).written && r == PutString(text).Outcome()
    {
      ghost var was := buf;
      var _ :- WriteU16(|text|);
      buf := buf + text;
      ConcatAssoc(was, PutInt(|text|, 2).written, text);
      r := Success(());
    }
  }

  class BinaryReader {
    const data: bytes
    var pos: nat

    ghost predicate Valid()
      reads this
    {
      pos <= |data|
    }

    /** The bytes not read yet. */
    ghost function Rest(): bytes
      requires Valid()
      reads this
    {
      data[pos..]
    }

    constructor (data: bytes)
      ensures Valid() && this.data == data && Rest() == data
    {
      this.data := data;
      pos := 0;
    }

    /** `_require` and `unpack_from`; a failed read leaves the position alone. */
    method ReadUint(width: nat) returns (r: Result<nat, CodecError>)
      requires Valid()
      modifies this
      ensures Valid()
      ensures var t := TakeInt(old(Rest()), width); r == t.Outcome() && Rest() == t.rest
    {
      if pos + width > |data| {
        return Failure(Truncated);
      }
      var value := FromLittleEndian(data[pos..pos + width]);
      assert data[pos..][..width] == data[pos..pos + width] && data[pos..][width..] == data[pos + width..];
      pos := pos + width;
      r := Success(value);
    }

    method ReadBytes(n: nat) returns (r: Result<bytes, CodecError>)
      requires Valid()
      modifies this
      ensures Valid()
      ensures var t := TakeBytes(old(Rest()), n); r == t.Outcome() && Rest() == t.rest
    {
      if pos + n > |data| {
        return Failure(Truncated);
      }
      var value := data[pos..pos + n];
      assert data[pos..][..n] == value && data[pos..][n..] == data[pos + n..];
      pos := pos + n;
      r := Success(value);
    }

    method ReadString() returns (r: Result<bytes, CodecError>)
      requires Valid()
      modifies this
      ensures Valid()
      ensures var t := TakeString(old(Rest())); r == t.Outcome() && Rest() == t.rest
    {
      var length :- ReadUint(2);
      r := ReadBytes(length);
    }
  }

  // ----- reading what was written -----

  /** A number written in range reads back, leaving what followed. */
  lemma {:induction false} IntReadsBack(value: int, width: nat, rest: bytes)
    requires PutInt(value, width).error.None?
    ensures value >= 0 && TakeInt(PutInt(value, width).written + rest, width) == Got(value, rest)
  {
    var bs := ToLittleEndian(value, width);
    assert (bs + rest)[..width] == bs && (bs + rest)[width..] == rest;
    LittleEndianRoundTrip(value, width);
  }

  lemma {:induction false} BytesReadBack(data: bytes, rest: bytes)
    ensures TakeBytes(data + rest, |data|) == Got(data, rest)
  {
    assert (data + rest)[..|data|] == data && (data + rest)[|data|..] == rest;
  }

  /** Strings up to 65,535 bytes read back; longer ones are refused. */
  lemma {:induction false} StringReadsBack(text: bytes, rest: bytes)
    ensures PutString(text).error.None? <==> |text| <= 0xFFFF
    ensures PutString(text).error.None? ==>
              TakeString(PutString(text).written + rest) == Got(text, rest)
  {
    WireWidths();
    if |text| <= 0xFFFF {
      var prefix := PutInt(|text|, 2).written;
      ConcatAssoc(prefix, text, rest);
      IntReadsBack(|text|, 2, text + rest);
      BytesReadBack(text, rest);
    }
  }

  /** Reads look only at what they take: more data behind changes nothing. */
  lemma {:induction false} MoreData(s: bytes, width: nat, more: bytes)
    requires width <= |s|
    ensures TakeInt(s, width).Got? && TakeBytes(s, width).Got?
    ensures TakeInt(s + more, width)
            == Got(TakeInt(s, width).value, TakeInt(s, width).rest + more)
    ensures TakeBytes(s + more, width)
            == Got(TakeBytes(s, width).value, TakeBytes(s, width).rest + more)
  {
    assert (s + more)[..width] == s[..width] && (s + more)[width..] == s[width..] + more;
  }
}
