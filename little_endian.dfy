/** Little-endian packing of 16-bit code units into bytes, as the
    `byteorder` crate's `write_u16::<LittleEndian>` and
    `read_u16::<LittleEndian>` do (the byte order of UTF-16LE in section
    3.1 of RFC 2781). */
module LittleEndian {
  import opened Primitives

  /** The two bytes of one unit, low byte first. */
  function UnitBytes(u: u16): (b: seq<byte>)
    ensures |b| == 2 && b[0] as int + 0x100 * (b[1] as int) == u
  {
    [u % 0x100, u / 0x100]
  }

  /** The bytes of a sequence of units, each low byte first. */
  function Pack(units: seq<u16>): (b: seq<byte>)
    ensures |b| == 2 * |units|
  {
    if units == [] then [] else UnitBytes(units[0]) + Pack(units[1..])
  }

  /** Reads whole byte pairs as units, low byte first, until fewer than
      two bytes remain; a trailing odd byte is not read. */
  function Unpack(b: seq<byte>): (units: seq<u16>)
    ensures |units| == |b| / 2
  {
    if |b| < 2 then [] else [b[0] as int + 0x100 * (b[1] as int)] + Unpack(b[2..])
  }

  /** Packing distributes over concatenation, so a buffer filled one unit
      at a time holds the packing of all units so far. */
  lemma {:induction false} PackAppend(a: seq<u16>, b: seq<u16>)
    ensures Pack(a + b) == Pack(a) + Pack(b)
  {
    if a != [] {
      assert (a + b)[1..] == a[1..] + b;
      PackAppend(a[1..], b);
    } else {
      assert a + b == b;
    }
  }

  /** Unpacking the packed units gives them back. */
  lemma {:induction false} UnpackPack(units: seq<u16>)
    ensures Unpack(Pack(units)) == units
  {
    if units != [] {
      var b := Pack(units);
      assert b[2..] == Pack(units[1..]);
      UnpackPack(units[1..]);
      assert units == [units[0]] + units[1..];
    }
  }

  /** Packing what was unpacked gives back the input without its trailing
      odd byte, if it has one. */
  lemma {:induction false} PackUnpack(b: seq<byte>)
    ensures Pack(Unpack(b)) == b[..|b| - |b| % 2]
  {
    if |b| >= 2 {
      var u := Unpack(b);
      assert u[1..] == Unpack(b[2..]);
      PackUnpack(b[2..]);
      assert b[..|b| - |b| % 2] == b[..2] + b[2..][..|b[2..]| - |b[2..]| % 2];
    }
  }

  /** A trailing odd byte is ignored. */
  lemma {:induction false} UnpackIgnoresOddByte(b: seq<byte>, x: byte)
    requires |b| % 2 == 0
    ensures Unpack(b + [x]) == Unpack(b)
  {
    if |b| >= 2 {
      assert (b + [x])[2..] == b[2..] + [x];
      UnpackIgnoresOddByte(b[2..], x);
    }
  }
}
