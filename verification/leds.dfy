/**
  The LED indication of one reading: red for a high temperature, blue for
  a low one, green for high humidity, all three cleared before any is set.
  Temperatures and humidities are exact reals; the thresholds are the
  firmware's.
 */
module Leds {

  datatype Led = Red | Green | Blue

  /** Degrees Celsius and percent relative humidity. */
  const TempLow: real := 20.0
  const TempHigh: real := 25.0
  const HumidityHigh: real := 60.0

  /** One pin write: the LED and the level it is set to. */
  datatype PinWrite = PinWrite(led: Led, on: bool)

  /** The status lines the classification prints. */
  datatype Message = HighTemperature | LowTemperature | HighHumidity | AllOff

  /** Everything one classification does, in order. */
  datatype Control = Control(writes: seq<PinWrite>, messages: seq<Message>)

  const ClearAll: seq<PinWrite> := [PinWrite(Red, false), PinWrite(Green, false), PinWrite(Blue, false)]

  /** Clear all three LEDs, then light them by the reading; print "All OFF"
      when the reading is within every threshold. */
  function ControlLeds(temperature: real, humidity: real): (c: Control)
    ensures |c.writes| >= 3 && c.writes[..3] == ClearAll
    ensures forall j :: 3 <= j < |c.writes| ==> c.writes[j].on
    ensures PinWrite(Red, true) in c.writes <==> temperature > TempHigh
    ensures PinWrite(Blue, true) in c.writes <==> temperature < TempLow
    ensures PinWrite(Green, true) in c.writes <==> humidity > HumidityHigh
    ensures AllOff in c.messages <==> |c.writes| == 3
  {
    var (tw, tm) :=
      if temperature > TempHigh then ([PinWrite(Red, true)], [HighTemperature])
      else if temperature < TempLow then ([PinWrite(Blue, true)], [LowTemperature])
      else ([], []);
    var (hw, hm) :=
      if humidity > HumidityHigh then ([PinWrite(Green, true)], [HighHumidity])
      else ([], []);
    var normal :=
      if temperature >= TempLow && temperature <= TempHigh && humidity <= HumidityHigh then [AllOff]
      else [];
    Control(ClearAll + tw + hw, tm + hm + normal)
  }

  /** The LEDs lit after a sequence of pin writes, from the lit set `lit`. */
  function Apply(lit: set<Led>, writes: seq<PinWrite>): set<Led>
    decreases |writes|
  {
    if |writes| == 0 then lit
    else
      var w := writes[0];
      Apply(if w.on then lit + {w.led} else lit - {w.led}, writes[1..])
  }

  /** The reference classification: whether a reading calls for an LED. */
  predicate Calls(led: Led, temperature: real, humidity: real) {
    match led
    case Red => temperature > TempHigh
    case Blue => temperature < TempLow
    case Green => humidity > HumidityHigh
  }

  /** The LEDs lit after a classification: exactly those the reading calls
      for, whatever was lit before. */
  function Lit(prior: set<Led>, temperature: real, humidity: real): (lit: set<Led>)
    ensures forall led :: led in lit <==> Calls(led, temperature, humidity)
  {
    LitByWrites(prior, ControlLeds(temperature, humidity).writes);
    Apply(prior, ControlLeds(temperature, humidity).writes)
  }

  /** Clearing all three LEDs and then switching some on lights exactly
      the ones switched on, whatever was lit before. */
  lemma LitByWrites(prior: set<Led>, writes: seq<PinWrite>)
    requires |writes| >= 3 && writes[..3] == ClearAll
    requires forall j :: 3 <= j < |writes| ==> writes[j].on
    ensures forall led :: led in Apply(prior, writes) <==> PinWrite(led, true) in writes
  {
    var rest := writes[3..];
    ApplyClearAll(prior);
    ApplyOnly(rest);
    assert writes == ClearAll + rest;
    ApplyAppend(prior, ClearAll, rest);
    forall led
      ensures PinWrite(led, true) in writes <==> PinWrite(led, true) in rest
    {
      assert PinWrite(led, true) !in ClearAll;
    }
  }

  lemma {:induction false} ApplyAppend(lit: set<Led>, a: seq<PinWrite>, b: seq<PinWrite>)
    ensures Apply(lit, a + b) == Apply(Apply(lit, a), b)
    decreases |a|
  {
    if |a| == 0 {
      assert a + b == b;
    } else {
      var w := a[0];
      assert (a + b)[1..] == a[1..] + b;
      ApplyAppend(if w.on then lit + {w.led} else lit - {w.led}, a[1..], b);
    }
  }

  lemma ApplyClearAll(lit: set<Led>)
    ensures Apply(lit, ClearAll) == {}
  {
    var t := ClearAll;
    assert t[1..] == [PinWrite(Green, false), PinWrite(Blue, false)];
    assert t[1..][1..] == [PinWrite(Blue, false)];
    assert t[1..][1..][1..] == [];
    calc {
      Apply(lit, t);
      Apply(lit - {Red}, t[1..]);
      Apply(lit - {Red} - {Green}, t[1..][1..]);
      Apply(lit - {Red} - {Green} - {Blue}, t[1..][1..][1..]);
    }
    assert lit - {Red} - {Green} - {Blue} == {} by {
      forall led ensures led !in lit - {Red} - {Green} - {Blue} {
        assert led == Red || led == Green || led == Blue;
      }
    }
  }

  /** Writes that only switch LEDs on, applied to nothing lit, light
      exactly the LEDs they name. */
  lemma {:induction false} ApplyOnly(writes: seq<PinWrite>)
    requires forall j :: 0 <= j < |writes| ==> writes[j].on
    ensures forall led :: led in Apply({}, writes) <==> PinWrite(led, true) in writes
  {
    ApplyOn({}, writes);
  }

  lemma {:induction false} ApplyOn(lit: set<Led>, writes: seq<PinWrite>)
    requires forall j :: 0 <= j < |writes| ==> writes[j].on
    ensures forall led :: led in Apply(lit, writes) <==> led in lit || PinWrite(led, true) in writes
    decreases |writes|
  {
    if |writes| > 0 {
      var w := writes[0];
      ApplyOn(lit + {w.led}, writes[1..]);
      forall led
        ensures PinWrite(led, true) in writes <==> led == w.led || PinWrite(led, true) in writes[1..]
      {
        assert writes == [w] + writes[1..];
      }
    }
  }

  /** Red and blue are never lit together: 20 < 25. */
  lemma NeverRedAndBlue(prior: set<Led>, temperature: real, humidity: real)
    ensures !(Red in Lit(prior, temperature, humidity) && Blue in Lit(prior, temperature, humidity))
  {
  }

  /** The comparisons are strict: exactly 25 and exactly 20 degrees light
      neither red nor blue, and exactly 60 percent does not light green. */
  lemma ThresholdsAreStrict(prior: set<Led>)
    ensures Lit(prior, TempHigh, HumidityHigh) == {}
    ensures Lit(prior, TempLow, HumidityHigh) == {}
  {
    assert forall led :: !Calls(led, TempHigh, HumidityHigh);
    assert forall led :: !Calls(led, TempLow, HumidityHigh);
  }

  /** Green follows the humidity alone, whatever the temperature. */
  lemma GreenIndependent(prior: set<Led>, t1: real, t2: real, humidity: real)
    ensures Green in Lit(prior, t1, humidity) <==> Green in Lit(prior, t2, humidity)
  {
  }

  /** "All OFF" is printed exactly when the classification leaves every
      LED dark. */
  lemma AllOffIffDark(prior: set<Led>, temperature: real, humidity: real)
    ensures AllOff in ControlLeds(temperature, humidity).messages <==> Lit(prior, temperature, humidity) == {}
  {
    var lit := Lit(prior, temperature, humidity);
    if lit == {} {
      assert !Calls(Red, temperature, humidity);
      assert !Calls(Blue, temperature, humidity);
      assert !Calls(Green, temperature, humidity);
    } else {
      var led :| led in lit;
      assert Calls(led, temperature, humidity);
    }
  }
}
