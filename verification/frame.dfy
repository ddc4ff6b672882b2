/**
  The AHT10 measurement frame: six bytes, a status byte followed by a
  40-bit payload that packs two unsigned 20-bit fields, humidity first.

    byte 1        byte 2        byte 3            byte 4        byte 5
    h19 .. h12    h11 .. h4     h3..h0 t19..t16   t15 .. t8     t7 .. t0
 */
module Frame {
  import opened Bus

  /** 2^20: every raw field is strictly below this. */
  const FieldLimit: bv32 := 0x10_0000

  /** The two raw fields of one measurement, as the driver's uint32_t values. */
  datatype Raw = Raw(humidity: bv32, temperature: bv32)

  predicate Valid(raw: Raw) {
    raw.humidity < FieldLimit && raw.temperature < FieldLimit
  }

  /** Humidity from byte 1 (bits 19..12), byte 2 (bits 11..4) and the high
      nibble of byte 3 (bits 3..0). */
  function HumidityField(b1: Byte, b2: Byte, b3: Byte): (h: bv32)
    ensures h < FieldLimit
    ensures h >> 12 == b1 as bv32
    ensures (h >> 4) & 0xFF == b2 as bv32
    ensures h & 0xF == (b3 >> 4) as bv32
  {
    ((b1 as bv32) << 12) | ((b2 as bv32) << 4) | ((b3 as bv32) >> 4)
  }

  /** Temperature from the low nibble of byte 3 (bits 19..16), byte 4
      (bits 15..8) and byte 5 (bits 7..0). */
  function TemperatureField(b3: Byte, b4: Byte, b5: Byte): (t: bv32)
    ensures t < FieldLimit
    ensures t >> 16 == (b3 & 0x0F) as bv32
    ensures (t >> 8) & 0xFF == b4 as bv32
    ensures t & 0xFF == b5 as bv32
  {
    (((b3 as bv32) & 0x0F) << 16) | ((b4 as bv32) << 8) | (b5 as bv32)
  }

  /** The two raw fields of a six-byte frame. */
  function Decode(f: seq<Byte>): (raw: Raw)
    requires |f| == 6
    ensures Valid(raw)
  {
    Raw(HumidityField(f[1], f[2], f[3]), TemperatureField(f[3], f[4], f[5]))
  }

  /** The frame a sensor sends for `raw` after the status byte `status`:
      the inverse of Decode. */
  function Pack(status: Byte, raw: Raw): (f: seq<Byte>)
    requires Valid(raw)
    ensures |f| == 6 && f[0] == status
  {
    var h := raw.humidity;
    var t := raw.temperature;
    [ status,
      (h >> 12) as bv8,
      ((h >> 4) & 0xFF) as bv8,
      (((h & 0xF) << 4) | (t >> 16)) as bv8,
      ((t >> 8) & 0xFF) as bv8,
      (t & 0xFF) as bv8 ]
  }

  /** Packing two 20-bit fields and decoding gives them back. */
  lemma DecodePack(status: Byte, raw: Raw)
    requires Valid(raw)
    ensures Decode(Pack(status, raw)) == raw
  {
    FieldsOfPackedBytes(raw.humidity, raw.temperature);
  }

  /** Decoding a frame and packing it again behind the same status byte
      gives the frame back: the decode loses no bit of bytes 1..5. */
  lemma PackDecode(f: seq<Byte>)
    requires |f| == 6
    ensures Pack(f[0], Decode(f)) == f
  {
    BytesOfFields(f[1], f[2], f[3], f[4], f[5]);
  }

  /** Bit-level core of DecodePack, on plain values. */
  lemma FieldsOfPackedBytes(h: bv32, t: bv32)
    requires h < FieldLimit && t < FieldLimit
    ensures var b3 := (((h & 0xF) << 4) | (t >> 16)) as bv8;
      && HumidityField((h >> 12) as bv8, ((h >> 4) & 0xFF) as bv8, b3) == h
      && TemperatureField(b3, ((t >> 8) & 0xFF) as bv8, (t & 0xFF) as bv8) == t
  {
  }

  /** Bit-level core of PackDecode, on plain values. */
  lemma BytesOfFields(b1: Byte, b2: Byte, b3: Byte, b4: Byte, b5: Byte)
    ensures var h, t := HumidityField(b1, b2, b3), TemperatureField(b3, b4, b5);
      && (h >> 12) as bv8 == b1
      && ((h >> 4) & 0xFF) as bv8 == b2
      && (((h & 0xF) << 4) | (t >> 16)) as bv8 == b3
      && ((t >> 8) & 0xFF) as bv8 == b4
      && (t & 0xFF) as bv8 == b5
  {
  }

  /** The decode is one-to-one on payloads: frames that decode alike differ
      at most in the status byte. */
  lemma DecodeInjective(f: seq<Byte>, g: seq<Byte>)
    requires |f| == 6 && |g| == 6
    requires Decode(f) == Decode(g)
    ensures f[1..] == g[1..]
  {
    PackDecode(f);
    PackDecode(g);
    assert Pack(f[0], Decode(f))[1..] == Pack(g[0], Decode(g))[1..];
  }

  /** The status byte takes no part in the decode. */
  lemma DecodeIgnoresStatus(f: seq<Byte>, status: Byte)
    requires |f| == 6
    ensures Decode(f[0 := status]) == Decode(f)
  {
  }

  /** Byte 3 is split between the fields: its high nibble reaches humidity
      only, its low nibble reaches temperature only. */
  lemma SharedByteSplit(f: seq<Byte>, b: Byte)
    requires |f| == 6
    ensures (b >> 4 == f[3] >> 4) ==> Decode(f[3 := b]).humidity == Decode(f).humidity
    ensures (b & 0x0F == f[3] & 0x0F) ==> Decode(f[3 := b]).temperature == Decode(f).temperature
  {
    var g := f[3 := b];
    assert Decode(g) == Raw(HumidityField(f[1], f[2], b), TemperatureField(b, f[4], f[5]));
    NibbleRouting(f[1], f[2], f[4], f[5], f[3], b);
  }

  /** Bit-level core of SharedByteSplit, on plain values. */
  lemma NibbleRouting(b1: Byte, b2: Byte, b4: Byte, b5: Byte, c: Byte, b: Byte)
    ensures b >> 4 == c >> 4 ==> HumidityField(b1, b2, b) == HumidityField(b1, b2, c)
    ensures b & 0x0F == c & 0x0F ==> TemperatureField(b, b4, b5) == TemperatureField(c, b4, b5)
  {
  }

  /** The worked example: frame 00 19 99 9A 66 66. */
  lemma WorkedExample()
    ensures Decode([0x00, 0x19, 0x99, 0x9A, 0x66, 0x66]) == Raw(0x19999, 0xA6666)
  {
  }
}
