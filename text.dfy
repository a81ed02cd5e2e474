/** The space-saving text encoding of advertisements. A `Text` stores one
    flag byte followed by a payload. Bit 0 of the flag says that the
    payload is UTF-16 little-endian rather than UTF-8, and bit 1 says that
    it is snappy-compressed. */
module Text {
  import opened Primitives
  import Utf8
  import Utf16
  import LittleEndian
  import Snappy

  /** Flag bit 0: the payload is UTF-16 little-endian. */
  const UTF_16: byte := 1
  /** Flag bit 1: the payload is compressed. */
  const COMPRESSED: byte := 2

  predicate IsFlagBit(bit: byte) {
    bit == UTF_16 || bit == COMPRESSED
  }

  /** `flag & bit != 0` for a single-bit mask, computed as the parity of
      the flag (bit 0) or of its half (bit 1). */
  predicate HasFlag(flag: byte, bit: byte)
    requires IsFlagBit(bit)
    ensures HasFlag(flag, bit) <==> (flag as bv8) & (bit as bv8) != 0
  {
    if bit == UTF_16 then flag % 2 == 1 else (flag / 2) % 2 == 1
  }

  /** `flag |= bit`: sets that bit and leaves every other bit alone. */
  function SetFlag(flag: byte, bit: byte): (r: byte)
    requires IsFlagBit(bit)
    ensures r as bv8 == (flag as bv8) | (bit as bv8)
    ensures HasFlag(r, bit)
    ensures bit == UTF_16 ==> (HasFlag(r, COMPRESSED) <==> HasFlag(flag, COMPRESSED))
    ensures bit == COMPRESSED ==> (HasFlag(r, UTF_16) <==> HasFlag(flag, UTF_16))
    ensures flag < 4 ==> r < 4
  {
    ((flag as bv8) | (bit as bv8)) as int
  }

  /** The encoded form: flag byte, then payload. */
  datatype Text = Text(encoded: seq<byte>)

  /** Why `as_string` fails. */
  datatype TextError = DecompressFailed | InvalidUtf16 | InvalidUtf8

  /** The UTF-16 little-endian bytes of a string: the buffer that
      `Text::new` fills one code unit at a time. */
  function Utf16Bytes(s: string): (b: seq<byte>)
    ensures |b| == 2 * |Utf16.Encode(s)|
    ensures LittleEndian.Unpack(b) == Utf16.Encode(s)
  {
    LittleEndian.UnpackPack(Utf16.Encode(s));
    LittleEndian.Pack(Utf16.Encode(s))
  }

  /** The bytes `Text::new` stores for `s`. UTF-8 is kept only when it is
      strictly shorter than UTF-16 (so a tie picks UTF-16); the compressed
      form is kept only when it is strictly shorter than the chosen raw
      bytes. */
  function EncodeText(s: string, codec: Snappy.Codec): (e: seq<byte>)
    ensures |e| >= 1 && e[0] < 4
    ensures HasFlag(e[0], UTF_16) <==> |Utf8.Encode(s)| >= |Utf16Bytes(s)|
    ensures var raw := if HasFlag(e[0], UTF_16) then Utf16Bytes(s) else Utf8.Encode(s);
            && (HasFlag(e[0], COMPRESSED) <==> |codec.compress(raw)| < |raw|)
            && e[1..] == if HasFlag(e[0], COMPRESSED) then codec.compress(raw) else raw
    ensures |e| <= 1 + |Utf8.Encode(s)| && |e| <= 1 + |Utf16Bytes(s)|
  {
    var utf8, utf16 := Utf8.Encode(s), Utf16Bytes(s);
    var flag: byte := if |utf8| < |utf16| then 0 else SetFlag(0, UTF_16);
    var raw := if |utf8| < |utf16| then utf8 else utf16;
    var compressed := codec.compress(raw);
    if |compressed| < |raw| then [SetFlag(flag, COMPRESSED)] + compressed else [flag] + raw
  }

  /** `Text::new`: packs the UTF-16 code units into a byte buffer one unit
      at a time, picks the shorter encoding, then compresses if that
      helps. */
  method New(s: string, codec: Snappy.Codec) returns (t: Text)
    ensures t.encoded == EncodeText(s, codec)
  {
    var flag: byte := 0;
    var units := Utf16.Encode(s);
    var utf16encoded: seq<byte> := [];
    for i := 0 to |units|
      invariant utf16encoded == LittleEndian.Pack(units[..i])
    {
      LittleEndian.PackAppend(units[..i], [units[i]]);
      assert units[..i + 1] == units[..i] + [units[i]];
      utf16encoded := utf16encoded + LittleEndian.UnitBytes(units[i]);
    }
    assert units[..|units|] == units;
    var utf8 := Utf8.Encode(s);
    var data: seq<byte>;
    if |utf8| < |utf16encoded| {
      data := utf8;
    } else {
      flag := SetFlag(flag, UTF_16);
      data := utf16encoded;
    }
    var compressed := codec.compress(data);
    if |compressed| < |data| {
      flag := SetFlag(flag, COMPRESSED);
      data := compressed;
    }
    t := Text([flag] + data);
  }

  /** `Text::from_encoded`: stores a copy of the given bytes without
      checking them. */
  function FromEncoded(encoded: seq<byte>): (t: Text)
    ensures t.encoded == encoded
  {
    Text(encoded)
  }

  /** `Text::as_bytes`: the stored bytes, from which `from_encoded`
      rebuilds the same text. */
  function AsBytes(t: Text): (b: seq<byte>)
    ensures FromEncoded(b) == t
  {
    t.encoded
  }

  /** `Text::encoding`: the flag byte, which is the first stored byte. */
  function Encoding(t: Text): (flag: byte)
    requires |t.encoded| >= 1
    ensures flag == AsBytes(t)[0]
  {
    t.encoded[0]
  }

  /** The payload after decompression, if the compressed bit asks for it;
      `None` when the decompressor fails. */
  function Payload(e: seq<byte>, codec: Snappy.Codec): (r: Option<seq<byte>>)
    requires |e| >= 1
    ensures !HasFlag(e[0], COMPRESSED) ==> r == Some(e[1..])
    ensures HasFlag(e[0], COMPRESSED) && Snappy.Inverts(codec) ==>
              forall raw :: codec.compress(raw) == e[1..] ==> r == Some(raw)
  {
    if HasFlag(e[0], COMPRESSED) then codec.decompress(e[1..]) else Some(e[1..])
  }

  /** What `Text::as_string` returns for the stored bytes `e`. Bits of the
      flag other than 0 and 1 are ignored; in UTF-16 mode a trailing odd
      byte of the payload is ignored. */
  function DecodeText(e: seq<byte>, codec: Snappy.Codec): (r: Result<string, TextError>)
    requires |e| >= 1
    ensures r == Failure(DecompressFailed) <==> Payload(e, codec).None?
    ensures r.Success? && HasFlag(e[0], UTF_16) ==>
              Utf16.Encode(r.value) == LittleEndian.Unpack(Payload(e, codec).value)
    ensures r.Success? && !HasFlag(e[0], UTF_16) ==>
              Utf8.Encode(r.value) == Payload(e, codec).value
    ensures r == Failure(InvalidUtf16) <==>
              && Payload(e, codec).Some? && HasFlag(e[0], UTF_16)
              && forall s :: Utf16.Encode(s) != LittleEndian.Unpack(Payload(e, codec).value)
    ensures r == Failure(InvalidUtf8) <==>
              && Payload(e, codec).Some? && !HasFlag(e[0], UTF_16)
              && forall s :: Utf8.Encode(s) != Payload(e, codec).value
  {
    match Payload(e, codec)
    case None => Failure(DecompressFailed)
    case Some(data) =>
      if HasFlag(e[0], UTF_16) then
        var units := LittleEndian.Unpack(data);
        match Utf16.Decode(units)
        case None => Utf16.DecodeFailure(units); Failure(InvalidUtf16)
        case Some(s) => Success(s)
      else
        match Utf8.Decode(data)
        case None => Utf8.DecodeFailure(data); Failure(InvalidUtf8)
        case Some(s) => Success(s)
  }

  /** The cursor loop of `Text::as_string`: reads little-endian `u16`
      values until fewer than two bytes remain. */
  method ReadUnits(data: seq<byte>) returns (utf16points: seq<u16>)
    ensures utf16points == LittleEndian.Unpack(data)
  {
    utf16points := [];
    var cursor := 0;
    while cursor + 2 <= |data|
      invariant 0 <= cursor <= |data|
      invariant utf16points + LittleEndian.Unpack(data[cursor..]) == LittleEndian.Unpack(data)
      decreases |data| - cursor
    {
      assert data[cursor..][2..] == data[cursor + 2..];
      utf16points := utf16points + [data[cursor] as int + 0x100 * (data[cursor + 1] as int)];
      cursor := cursor + 2;
    }
    assert LittleEndian.Unpack(data[cursor..]) == [];
  }

  /** `Text::as_string`: decompresses if bit 1 is set, then either reads
      little-endian byte pairs into code units with a cursor and decodes
      them as UTF-16, or decodes the payload as UTF-8. */
  method AsString(t: Text, codec: Snappy.Codec) returns (r: Result<string, TextError>)
    requires |t.encoded| >= 1
    ensures r == DecodeText(t.encoded, codec)
  {
    var flag := t.encoded[0];
    var data: seq<byte>;
    ghost var payload := Payload(t.encoded, codec);
    if HasFlag(flag, COMPRESSED) {
      var buffer := codec.decompress(t.encoded[1..]);
      if buffer.None? {
        return Failure(DecompressFailed);
      }
      data := buffer.value;
    } else {
      data := t.encoded[1..];
    }
    assert payload == Some(data);
    if HasFlag(flag, UTF_16) {
      var utf16points := ReadUnits(data);
      var decoded := Utf16.Decode(utf16points);
      if decoded.None? {
        r := Failure(InvalidUtf16);
      } else {
        r := Success(decoded.value);
      }
    } else {
      var decoded := Utf8.Decode(data);
      if decoded.None? {
        r := Failure(InvalidUtf8);
      } else {
        r := Success(decoded.value);
      }
    }
  }

  /** Round trip: decoding what `Text::new` stored gives the string back,
      whichever encoding and compression were chosen. */
  lemma RoundTrip(s: string, codec: Snappy.Codec)
    requires Snappy.Inverts(codec)
    ensures DecodeText(EncodeText(s, codec), codec) == Success(s)
  {
    var e := EncodeText(s, codec);
    var raw := if HasFlag(e[0], UTF_16) then Utf16Bytes(s) else Utf8.Encode(s);
    assert Payload(e, codec) == Some(raw);
    if HasFlag(e[0], UTF_16) {
      LittleEndian.UnpackPack(Utf16.Encode(s));
      Utf16.DecodeEncode(s);
    } else {
      Utf8.DecodeEncode(s);
    }
  }

  /** The unit test: `Text::new(example).as_string()` succeeds and equals
      the example. */
  method NewThenAsString(s: string, codec: Snappy.Codec) returns (r: Result<string, TextError>)
    requires Snappy.Inverts(codec)
    ensures r == Success(s)
  {
    var t := New(s, codec);
    r := AsString(t, codec);
    RoundTrip(s, codec);
  }
}
