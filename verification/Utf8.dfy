/** Which byte strings are UTF-8, and what becomes of the others. */
module Utf8 {
  import opened Base

  predicate Within(s: bytes, i: nat, lo: int, hi: int) {
    i < |s| && lo <= s[i] <= hi
  }

  predicate Tail(s: bytes, i: nat) {
    Within(s, i, 0x80, 0xBF)
  }

  /** The length of the first character (section 4 of RFC 3629), none if there is
      no such character. */
  function FirstLength(s: bytes): (n: nat)
    ensures n <= |s|
  {
    if Within(s, 0, 0x00, 0x7F) then 1
    else if Within(s, 0, 0xC2, 0xDF) && Tail(s, 1) then 2
    else if Within(s, 0, 0xE0, 0xE0) && Within(s, 1, 0xA0, 0xBF) && Tail(s, 2) then 3
    else if Within(s, 0, 0xED, 0xED) && Within(s, 1, 0x80, 0x9F) && Tail(s, 2) then 3
    else if Within(s, 0, 0xE1, 0xEF) && s[0] != 0xED && Tail(s, 1) && Tail(s, 2) then 3
    else if Within(s, 0, 0xF0, 0xF0) && Within(s, 1, 0x90, 0xBF) && Tail(s, 2) && Tail(s, 3) then 4
    else if Within(s, 0, 0xF1, 0xF3) && Tail(s, 1) && Tail(s, 2) && Tail(s, 3) then 4
    else if Within(s, 0, 0xF4, 0xF4) && Within(s, 1, 0x80, 0x8F) && Tail(s, 2) && Tail(s, 3) then 4
    else 0
  }

  predicate IsUtf8(s: bytes) {
    s == [] || (FirstLength(s) > 0 && IsUtf8(s[FirstLength(s)..]))
  }

  /** A text, as its UTF-8 bytes. */
  type Utf8 = s: bytes | IsUtf8(s) witness []

  /** The UTF-8 bytes of what Latin-1 makes of a byte string. */
  function Latin1(s: bytes): (t: bytes)
    ensures |s| <= |t| <= 2 * |s|
    ensures IsUtf8(t)
  {
    if s == [] then []
    else
      var t := (if s[0] < 0x80 then [s[0]] else [0xC0 + s[0] / 64, 0x80 + s[0] % 64]) + Latin1(s[1..]);
      assert t[if s[0] < 0x80 then 1 else 2..] == Latin1(s[1..]);
      t
  }

  lemma {:induction false} Latin1Doubles(s: bytes)
    requires forall i :: 0 <= i < |s| ==> s[i] >= 0x80
    ensures |Latin1(s)| == 2 * |s|
  {
    if s != [] {
      Latin1Doubles(s[1..]);
    }
  }

  /** `_read_string_value` takes what is not UTF-8 for Latin-1. */
  function Decoded(raw: bytes): (text: Utf8)
    ensures IsUtf8(raw) ==> text == raw
    ensures |text| <= 2 * |raw|
  {
    if IsUtf8(raw) then raw else Latin1(raw)
  }

  lemma {:induction false} DecodedDoubles(raw: bytes)
    requires raw != [] && forall i :: 0 <= i < |raw| ==> raw[i] == 0xFF
    ensures |Decoded(raw)| == 2 * |raw|
  {
    Latin1Doubles(raw);
    assert FirstLength(raw) == 0;
  }

  // ----- characters -----

  /** The code points that UTF-8 encodes: all but the surrogates. */
  predicate Scalar(c: nat) {
    c <= 0x10_FFFF && !(0xD800 <= c <= 0xDFFF)
  }

  /** The bytes of one character (section 3 of RFC 3629). */
  function Encode(c: nat): (s: bytes)
    requires Scalar(c)
    ensures 1 <= |s| <= 4
  {
    if c < 0x80 then [c]
    else if c < 0x800 then [0xC0 + c / 64, 0x80 + c % 64]
    else if c < 0x1_0000 then [0xE0 + c / 4096, 0x80 + c / 64 % 64, 0x80 + c % 64]
    else [0xF0 + c / 262_144, 0x80 + c / 4096 % 64, 0x80 + c / 64 % 64, 0x80 + c % 64]
  }

  predicate Scalars(cs: seq<nat>) {
    forall i :: 0 <= i < |cs| ==> Scalar(cs[i])
  }

  function EncodeText(cs: seq<nat>): bytes
    requires Scalars(cs)
  {
    if cs == [] then [] else Encode(cs[0]) + EncodeText(cs[1..])
  }

  lemma {:induction false} FirstOfEncoded(c: nat, rest: bytes)
    requires Scalar(c)
    ensures FirstLength(Encode(c) + rest) == |Encode(c)|
    ensures (Encode(c) + rest)[|Encode(c)|..] == rest
  {
    var s := Encode(c) + rest;
    assert forall k :: 0 <= k < |Encode(c)| ==> s[k] == Encode(c)[k];
  }

  lemma {:induction false} SixBits(c: nat, high: nat, low: nat)
    requires c == 64 * high + low && low < 64
    ensures c / 64 == high && c % 64 == low
  {
  }

  /** The character of its bits, six to a byte. */
  lemma {:induction false} FromBits(a: nat, x: nat, y: nat, z: nat, c: nat)
    requires x < 64 && y < 64 && z < 64 && c == ((a * 64 + x) * 64 + y) * 64 + z
    ensures c % 64 == z && c / 64 % 64 == y && c / 4096 % 64 == x && c / 262_144 == a
    ensures c / 4096 == a * 64 + x
  {
    SixBits(c, (a * 64 + x) * 64 + y, z);
    SixBits((a * 64 + x) * 64 + y, a * 64 + x, y);
    SixBits(a * 64 + x, a, x);
  }

  lemma {:induction false} ThreeDecode(s: bytes) returns (c: nat)
    requires FirstLength(s) == 3
    ensures Scalar(c) && s[..3] == Encode(c)
  {
    var first: int, y: int, z: int := s[0] - 0xE0, s[1] - 0x80, s[2] - 0x80;
    c := (first * 64 + y) * 64 + z;
    FromBits(0, first, y, z, c);
  }

  lemma {:induction false} FourDecode(s: bytes) returns (c: nat)
    requires FirstLength(s) == 4
    ensures Scalar(c) && s[..4] == Encode(c)
  {
    var first: int, x: int, y: int, z: int := s[0] - 0xF0, s[1] - 0x80, s[2] - 0x80, s[3] - 0x80;
    c := ((first * 64 + x) * 64 + y) * 64 + z;
    FromBits(first, x, y, z, c);
  }

  /** The first character of a text. */
  lemma {:induction false} FirstDecodes(s: bytes) returns (c: nat)
    requires FirstLength(s) > 0
    ensures Scalar(c) && s[..FirstLength(s)] == Encode(c)
  {
    var first: int := s[0];
    if FirstLength(s) == 1 {
      c := first;
    } else if FirstLength(s) == 2 {
      var z: int := s[1] - 0x80;
      c := (first - 0xC0) * 64 + z;
      SixBits(c, first - 0xC0, z);
    } else if FirstLength(s) == 3 {
      c := ThreeDecode(s);
    } else {
      c := FourDecode(s);
    }
  }

  lemma {:induction false} EncodedIsUtf8(cs: seq<nat>)
    requires Scalars(cs)
    ensures IsUtf8(EncodeText(cs))
    decreases |cs|
  {
    if cs != [] {
      EncodedIsUtf8(cs[1..]);
      FirstOfEncoded(cs[0], EncodeText(cs[1..]));
    }
  }

  lemma {:induction false} Utf8IsEncoded(s: bytes) returns (cs: seq<nat>)
    requires IsUtf8(s)
    ensures Scalars(cs) && s == EncodeText(cs)
    decreases |s|
  {
    cs := [];
    if s != [] {
      var c := FirstDecodes(s);
      var rest := Utf8IsEncoded(s[FirstLength(s)..]);
      cs := [c] + rest;
      assert cs[1..] == rest;
    }
  }

  /** A byte string is UTF-8 if and only if it is the encoding of some characters. */
  lemma {:induction false} Utf8Iff(s: bytes)
    ensures IsUtf8(s) <==> exists cs :: Scalars(cs) && s == EncodeText(cs)
  {
    if IsUtf8(s) {
      var cs := Utf8IsEncoded(s);
      assert Scalars(cs) && s == EncodeText(cs);
    }
    if cs :| Scalars(cs) && s == EncodeText(cs) {
      EncodedIsUtf8(cs);
    }
  }

  /** Latin-1 takes every byte for the character of that number. */
  lemma {:induction false} Latin1IsEncoded(s: bytes, cs: seq<nat>)
    requires |cs| == |s| && forall i :: 0 <= i < |s| ==> cs[i] == s[i]
    ensures Scalars(cs) && Latin1(s) == EncodeText(cs)
    decreases |s|
  {
    if s != [] {
      Latin1IsEncoded(s[1..], cs[1..]);
    }
  }
}
