/** UTF-8 as defined in section 3 of RFC 3629: the encoding that Rust's
    `str::as_bytes` exposes and the validation that `String::from_utf8`
    performs. A Dafny `char` is a Unicode scalar value, so `string` is
    exactly the set of values a Rust `&str` can hold. */
module Utf8 {
  import opened Primitives

  /** The 1 to 4 bytes of one scalar value, lead byte first. */
  function EncodeChar(c: char): (b: seq<byte>)
    ensures 1 <= |b| <= 4
    ensures |b| == 1 <==> (c as int) < 0x80
  {
    var v := c as int;
    if v < 0x80 then [v]
    else if v < 0x800 then [0xC0 + v / 0x40, 0x80 + v % 0x40]
    else if v < 0x1_0000 then [0xE0 + v / 0x1000, 0x80 + (v / 0x40) % 0x40, 0x80 + v % 0x40]
    else [0xF0 + v / 0x4_0000, 0x80 + (v / 0x1000) % 0x40, 0x80 + (v / 0x40) % 0x40, 0x80 + v % 0x40]
  }

  /** The UTF-8 bytes of a string; its length is Rust's `str::len`. */
  function Encode(s: string): (b: seq<byte>)
    ensures |s| <= |b| <= 4 * |s|
  {
    if s == [] then [] else EncodeChar(s[0]) + Encode(s[1..])
  }

  /** The scalar value a well-formed sequence at the head of the input
      stands for, and how many bytes it takes. */
  datatype Decoded = Decoded(c: char, len: nat)

  predicate IsContinuation(b: byte) {
    0x80 <= b < 0xC0
  }

  /** The six payload bits of a continuation byte. */
  function Low6(b: byte): int {
    b - 0x80
  }

  /** Decodes the first character of `b`. It refuses what section 3 of
      RFC 3629 forbids: a stray continuation byte, a lead byte above 0xF7,
      a truncated or broken sequence, an overlong form, a surrogate and a
      value above U+10FFFF. */
  function DecodeOne(b: seq<byte>): (r: Option<Decoded>)
    requires |b| > 0
    ensures r.Some? ==> 1 <= r.value.len <= |b| && r.value.len <= 4
  {
    var lead: int := b[0];
    if lead < 0x80 then
      Some(Decoded(lead as char, 1))
    else if lead < 0xC0 then
      None
    else if lead < 0xE0 then
      if |b| < 2 || !IsContinuation(b[1]) then None
      else
        var v := (lead - 0xC0) * 0x40 + Low6(b[1]);
        if v < 0x80 then None else Some(Decoded(v as char, 2))
    else if lead < 0xF0 then
      if |b| < 3 || !IsContinuation(b[1]) || !IsContinuation(b[2]) then None
      else
        var v := (lead - 0xE0) * 0x1000 + Low6(b[1]) * 0x40 + Low6(b[2]);
        if v < 0x800 || (0xD800 <= v < 0xE000) then None else Some(Decoded(v as char, 3))
    else if lead < 0xF8 then
      if |b| < 4 || !IsContinuation(b[1]) || !IsContinuation(b[2]) || !IsContinuation(b[3]) then None
      else
        var v := (lead - 0xF0) * 0x4_0000 + Low6(b[1]) * 0x1000 + Low6(b[2]) * 0x40 + Low6(b[3]);
        if v < 0x1_0000 || v >= 0x11_0000 then None else Some(Decoded(v as char, 4))
    else
      None
  }

  /** `String::from_utf8`: the string the bytes encode, or `None` when they
      are not well-formed UTF-8. */
  function Decode(b: seq<byte>): (r: Option<string>)
    ensures r.Some? ==> Encode(r.value) == b
    decreases |b|
  {
    if b == [] then Some([])
    else
      match DecodeOne(b)
      case None => None
      case Some(d) =>
        match Decode(b[d.len..])
        case None => None
        case Some(rest) =>
          EncodeCharDecodeOne(b);
          assert ([d.c] + rest)[0] == d.c && ([d.c] + rest)[1..] == rest;
          assert b == b[..d.len] + b[d.len..];
          Some([d.c] + rest)
  }

  // Decoding the encoding of one character, by sequence length.
  lemma DecodeOneEncodeChar2(c: char, rest: seq<byte>)
    requires 0x80 <= c as int < 0x800
    ensures DecodeOne(EncodeChar(c) + rest) == Some(Decoded(c, 2))
  {
  }

  lemma DecodeOneEncodeChar3(c: char, rest: seq<byte>)
    requires 0x800 <= c as int < 0x1_0000
    ensures DecodeOne(EncodeChar(c) + rest) == Some(Decoded(c, 3))
  {
  }

  lemma DecodeOneEncodeChar4(c: char, rest: seq<byte>)
    requires 0x1_0000 <= c as int
    ensures DecodeOne(EncodeChar(c) + rest) == Some(Decoded(c, 4))
  {
  }

  lemma DecodeOneEncodeChar(c: char, rest: seq<byte>)
    ensures DecodeOne(EncodeChar(c) + rest) == Some(Decoded(c, |EncodeChar(c)|))
  {
    var v := c as int;
    if v < 0x80 {
    } else if v < 0x800 {
      DecodeOneEncodeChar2(c, rest);
    } else if v < 0x1_0000 {
      DecodeOneEncodeChar3(c, rest);
    } else {
      DecodeOneEncodeChar4(c, rest);
    }
  }

  /** Round trip: `String::from_utf8(s.as_bytes())` gives `s` back. */
  lemma {:induction false} DecodeEncode(s: string)
    ensures Decode(Encode(s)) == Some(s)
  {
    if s != [] {
      var head, tail := EncodeChar(s[0]), Encode(s[1..]);
      assert Encode(s) == head + tail;
      DecodeOneEncodeChar(s[0], tail);
      assert (head + tail)[|head|..] == tail;
      DecodeEncode(s[1..]);
      assert [s[0]] + s[1..] == s;
    }
  }

  // Re-encoding one decoded character, by sequence length.
  lemma EncodeCharDecodeOne2(b: seq<byte>)
    requires |b| > 0 && DecodeOne(b).Some? && DecodeOne(b).value.len == 2
    ensures b[..2] == EncodeChar(DecodeOne(b).value.c)
  {
  }

  lemma EncodeCharDecodeOne3(b: seq<byte>)
    requires |b| > 0 && DecodeOne(b).Some? && DecodeOne(b).value.len == 3
    ensures b[..3] == EncodeChar(DecodeOne(b).value.c)
  {
  }

  lemma EncodeCharDecodeOne4(b: seq<byte>)
    requires |b| > 0 && DecodeOne(b).Some? && DecodeOne(b).value.len == 4
    ensures b[..4] == EncodeChar(DecodeOne(b).value.c)
  {
    var v := DecodeOne(b).value.c as int;
    assert 0xF0 <= b[0] < 0xF8;
    var q2 := (b[0] - 0xF0) * 0x40 + Low6(b[1]);
    var q := q2 * 0x40 + Low6(b[2]);
    assert v == q * 0x40 + Low6(b[3]);
    assert v / 0x40 == q && v % 0x40 == Low6(b[3]);
    assert q / 0x40 == q2 && q % 0x40 == Low6(b[2]);
    assert q2 / 0x40 == b[0] - 0xF0 && q2 % 0x40 == Low6(b[1]);
    assert v / 0x1000 == q2;
    assert v / 0x4_0000 == q2 / 0x40;
  }

  lemma EncodeCharDecodeOne(b: seq<byte>)
    requires |b| > 0 && DecodeOne(b).Some?
    ensures b[..DecodeOne(b).value.len] == EncodeChar(DecodeOne(b).value.c)
  {
    match DecodeOne(b).value.len
    case 1 =>
    case 2 => EncodeCharDecodeOne2(b);
    case 3 => EncodeCharDecodeOne3(b);
    case 4 => EncodeCharDecodeOne4(b);
  }

  /** `Decode` is exactly the inverse of `Encode`: it succeeds precisely on
      the encodings of strings. */
  lemma DecodeIff(b: seq<byte>, s: string)
    ensures Decode(b) == Some(s) <==> Encode(s) == b
  {
    if Encode(s) == b { DecodeEncode(s); }
  }

  /** A failed decode means that no string has those bytes as its UTF-8. */
  lemma DecodeFailure(b: seq<byte>)
    requires Decode(b).None?
    ensures forall s :: Encode(s) != b
  {
    forall s ensures Encode(s) != b { DecodeIff(b, s); }
  }
}
