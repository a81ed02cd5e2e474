/** UTF-16 as defined in section 2 of RFC 2781: Rust's `str::encode_utf16`
    and the validation that `String::from_utf16` performs on code units. */
module Utf16 {
  import opened Primitives

  predicate IsHighSurrogate(u: u16) {
    0xD800 <= u < 0xDC00
  }

  predicate IsLowSurrogate(u: u16) {
    0xDC00 <= u < 0xE000
  }

  /** The scalar value a surrogate pair stands for. */
  function Combine(high: u16, low: u16): int {
    0x1_0000 + (high as int - 0xD800) * 0x400 + (low as int - 0xDC00)
  }

  /** One scalar value as one code unit, or as a surrogate pair when it
      lies above U+FFFF. */
  function EncodeChar(c: char): (u: seq<u16>)
    ensures |u| == 1 <==> (c as int) < 0x1_0000
    ensures |u| == 1 ==> !IsHighSurrogate(u[0]) && !IsLowSurrogate(u[0])
    ensures |u| == 2 ==> IsHighSurrogate(u[0]) && IsLowSurrogate(u[1])
  {
    var v := c as int;
    if v < 0x1_0000 then [v]
    else
      var w := v - 0x1_0000;
      [0xD800 + w / 0x400, 0xDC00 + w % 0x400]
  }

  /** The UTF-16 code units of a string (`str::encode_utf16`). */
  function Encode(s: string): (u: seq<u16>)
    ensures |s| <= |u| <= 2 * |s|
  {
    if s == [] then [] else EncodeChar(s[0]) + Encode(s[1..])
  }

  /** `String::from_utf16`: the string the code units encode, or `None`
      when a high surrogate is not followed by a low one or a low
      surrogate stands alone. */
  function Decode(u: seq<u16>): (r: Option<string>)
    ensures r.Some? ==> Encode(r.value) == u
    decreases |u|
  {
    if u == [] then Some([])
    else if !IsHighSurrogate(u[0]) && !IsLowSurrogate(u[0]) then
      match Decode(u[1..])
      case None => None
      case Some(rest) =>
        var c := u[0] as char;
        assert ([c] + rest)[0] == c && ([c] + rest)[1..] == rest;
        assert u == [u[0]] + u[1..];
        Some([c] + rest)
    else if IsHighSurrogate(u[0]) && |u| >= 2 && IsLowSurrogate(u[1]) then
      var v := Combine(u[0], u[1]);
      match Decode(u[2..])
      case None => None
      case Some(rest) =>
        var c := v as char;
        var w := v - 0x1_0000;
        assert w / 0x400 == u[0] - 0xD800 && w % 0x400 == u[1] - 0xDC00;
        assert EncodeChar(c) == u[..2];
        assert ([c] + rest)[0] == c && ([c] + rest)[1..] == rest;
        assert u == u[..2] + u[2..];
        Some([c] + rest)
    else
      None
  }

  /** Round trip: `String::from_utf16` of `s.encode_utf16()` gives `s`. */
  lemma {:induction false} DecodeEncode(s: string)
    ensures Decode(Encode(s)) == Some(s)
  {
    if s != [] {
      var head, tail := EncodeChar(s[0]), Encode(s[1..]);
      var u := head + tail;
      assert Encode(s) == u;
      assert u[|head|..] == tail;
      DecodeEncode(s[1..]);
      if |head| == 2 {
        var w := s[0] as int - 0x1_0000;
        assert Combine(u[0], u[1]) == s[0] as int;
      }
      assert [s[0]] + s[1..] == s;
    }
  }

  /** `Decode` is exactly the inverse of `Encode`. */
  lemma DecodeIff(u: seq<u16>, s: string)
    ensures Decode(u) == Some(s) <==> Encode(s) == u
  {
    if Encode(s) == u { DecodeEncode(s); }
  }

  /** A failed decode means that no string has those code units. */
  lemma DecodeFailure(u: seq<u16>)
    requires Decode(u).None?
    ensures forall s :: Encode(s) != u
  {
    forall s ensures Encode(s) != u { DecodeIff(u, s); }
  }
}
