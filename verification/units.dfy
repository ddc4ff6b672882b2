/**
  Conversion of the raw 20-bit fields to physical units, over exact reals:
  relative humidity in percent and temperature in degrees Celsius.
 */
module Units {
  import Frame

  /** 2^20, the full scale of a raw field. */
  const FullScale: real := 1048576.0

  /** A raw field as a number. */
  type RawValue = n: nat | n < 0x10_0000

  /** The number a raw bit-vector field stands for. */
  function Number(x: bv32): RawValue
    requires x < Frame.FieldLimit
  {
    x as int
  }

  /** A measurement in physical units. */
  datatype Reading = Reading(temperature: real, humidity: real)

  /** raw / 2^20 * 100 percent. */
  function Humidity(raw: RawValue): (h: real)
    ensures 0.0 <= h < 100.0
    ensures raw == 0 <==> h == 0.0
  {
    raw as real / FullScale * 100.0
  }

  /** raw / 2^20 * 200 - 50 degrees Celsius. */
  function Temperature(raw: RawValue): (t: real)
    ensures -50.0 <= t < 150.0
    ensures raw == 0 <==> t == -50.0
  {
    raw as real / FullScale * 200.0 - 50.0
  }

  function ToReading(raw: Frame.Raw): (r: Reading)
    requires Frame.Valid(raw)
    ensures -50.0 <= r.temperature < 150.0 && 0.0 <= r.humidity < 100.0
  {
    Reading(Temperature(Number(raw.temperature)), Humidity(Number(raw.humidity)))
  }

  /** The raw humidity field a percentage came from: the inverse of Humidity. */
  function RawOfHumidity(h: real): real {
    h * FullScale / 100.0
  }

  /** The raw temperature field a temperature came from: the inverse of Temperature. */
  function RawOfTemperature(t: real): real {
    (t + 50.0) * FullScale / 200.0
  }

  /** Each conversion is undone exactly by its inverse, so no raw value is
      lost on the way to physical units. */
  lemma ConversionsInvert(raw: RawValue)
    ensures RawOfHumidity(Humidity(raw)) == raw as real
    ensures RawOfTemperature(Temperature(raw)) == raw as real
  {
  }

  /** Both conversions are strictly increasing in the raw value. */
  lemma ConversionsMonotone(a: RawValue, b: RawValue)
    ensures a < b ==> Humidity(a) < Humidity(b)
    ensures a < b ==> Temperature(a) < Temperature(b)
  {
  }

  /** The largest raw field, 2^20 - 1, sits one step below full scale. */
  lemma FullScaleReading()
    ensures Humidity(0xF_FFFF) == 100.0 - 100.0 / FullScale
    ensures Temperature(0xF_FFFF) == 150.0 - 200.0 / FullScale
  {
  }
}
