/** Temperature units and the Magnus-type absolute-humidity formula
    (`computeAbsoluteHumidity`).

    The exponential is a parameter: any function with positive values.  The
    model proves only facts that hold for every such function, never numeric
    values. */
module HumidityMath {

  /** A stand-in for `exp`: all that is assumed is that it is positive. */
  type PositiveFn = f: real -> real | forall x :: f(x) > 0.0 witness (x: real) => 1.0

  datatype TemperatureUnit = Celsius | Fahrenheit

  /** A `Measurement<UnitTemperature>`. */
  datatype Temperature = Temperature(value: real, unit: TemperatureUnit)

  /* Foundation converts through kelvin, the base unit of UnitTemperature. */

  function ToKelvin(t: Temperature): real {
    match t.unit
    case Celsius => t.value + 273.15
    case Fahrenheit => (t.value + 459.67) * 5.0 / 9.0
  }

  function FromKelvin(k: real, unit: TemperatureUnit): real {
    match unit
    case Celsius => k - 273.15
    case Fahrenheit => k * 9.0 / 5.0 - 459.67
  }

  /** `t.converted(to: unit).value` */
  function Convert(t: Temperature, unit: TemperatureUnit): (v: real)
    ensures unit == t.unit ==> v == t.value
    ensures t.unit == Fahrenheit && unit == Celsius ==> v == (t.value - 32.0) * 5.0 / 9.0
    ensures t.unit == Celsius && unit == Fahrenheit ==> v == t.value * 9.0 / 5.0 + 32.0
  {
    FromKelvin(ToKelvin(t), unit)
  }

  /** Converting there and back gives the original value. */
  lemma ConvertRoundTrip(t: Temperature, unit: TemperatureUnit)
    ensures Convert(Temperature(Convert(t, unit), unit), t.unit) == t.value
  {
  }

  /** The points where the formula divides by zero (and Swift's `Double`
      produces an infinity or NaN) are excluded. */
  predicate MagnusDefined(celsius: real) {
    celsius + 243.5 != 0.0 && celsius + 273.15 != 0.0
  }

  /** Saturation vapour pressure in hPa over water, Magnus form. */
  function VapourPressure(exp: PositiveFn, celsius: real): (e: real)
    requires celsius + 243.5 != 0.0
    ensures e > 0.0
  {
    6.112 * exp((17.67 * celsius) / (celsius + 243.5))
  }

  /** Absolute humidity in g/m³ from a Celsius temperature and a relative
      humidity in percent. */
  function AbsoluteHumidity(exp: PositiveFn, celsius: real, rh: real): (ah: real)
    requires MagnusDefined(celsius)
  {
    (VapourPressure(exp, celsius) * rh * 2.1674) / (celsius + 273.15)
  }

  /** Dry air holds no water, whatever the temperature. */
  lemma DryAirHoldsNoWater(exp: PositiveFn, celsius: real)
    requires MagnusDefined(celsius)
    ensures AbsoluteHumidity(exp, celsius, 0.0) == 0.0
  {
    AbsoluteHumidityLinear(exp, celsius, 0.0);
  }

  /** Above absolute zero the result has the sign of the relative humidity. */
  lemma AbsoluteHumiditySign(exp: PositiveFn, celsius: real, rh: real)
    requires MagnusDefined(celsius) && celsius > -273.15
    ensures AbsoluteHumidity(exp, celsius, rh) > 0.0 <==> rh > 0.0
    ensures AbsoluteHumidity(exp, celsius, rh) == 0.0 <==> rh == 0.0
  {
    AbsoluteHumidityLinear(exp, celsius, rh);
    var unit := AbsoluteHumidity(exp, celsius, 1.0);
    var e := VapourPressure(exp, celsius);
    assert e * 1.0 * 2.1674 > 0.0;
    PositiveDivision(e * 1.0 * 2.1674, celsius + 273.15);
    if rh > 0.0 {
      assert rh * unit > 0.0;
    } else if rh < 0.0 {
      assert rh * unit < 0.0;
    }
  }

  lemma PositiveDivision(a: real, d: real)
    requires a > 0.0 && d > 0.0
    ensures a / d > 0.0
  {
  }

  /** For a fixed temperature the formula is linear in the relative humidity. */
  lemma AbsoluteHumidityLinear(exp: PositiveFn, celsius: real, rh: real)
    requires MagnusDefined(celsius)
    ensures AbsoluteHumidity(exp, celsius, rh) == rh * AbsoluteHumidity(exp, celsius, 1.0)
  {
    var e := VapourPressure(exp, celsius);
    var d := celsius + 273.15;
    calc {
      AbsoluteHumidity(exp, celsius, rh);
      (e * rh * 2.1674) / d;
      rh * ((e * 2.1674) / d);
      rh * ((e * 1.0 * 2.1674) / d);
    }
  }

  /** Above absolute zero, more relative humidity means strictly more
      absolute humidity. */
  lemma AbsoluteHumidityIncreasing(exp: PositiveFn, celsius: real, rh1: real, rh2: real)
    requires MagnusDefined(celsius) && celsius > -273.15
    requires rh1 < rh2
    ensures AbsoluteHumidity(exp, celsius, rh1) < AbsoluteHumidity(exp, celsius, rh2)
  {
    AbsoluteHumidityLinear(exp, celsius, rh1);
    AbsoluteHumidityLinear(exp, celsius, rh2);
    AbsoluteHumiditySign(exp, celsius, 1.0);
    var unit := AbsoluteHumidity(exp, celsius, 1.0);
    assert rh1 * unit < rh2 * unit;
  }
}
