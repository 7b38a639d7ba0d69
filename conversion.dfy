/** The unit conversion and display range chosen in `main`, over exact reals. */
module Conversion {

  /** Degrees Celsius from the raw reading in millidegrees. */
  function Celsius(raw: nat): real {
    raw as real / 1000.0
  }

  function ToFahrenheit(celsius: real): real {
    celsius * 1.8 + 32.0
  }

  /** The temperature shown, in the unit chosen. */
  function Degrees(raw: nat, fahrenheit: bool): real {
    var celsius := Celsius(raw);
    if fahrenheit then ToFahrenheit(celsius) else celsius
  }

  /** The bottom and top of the bar, and the unit letter shown after the value. */
  datatype Scale = Scale(minTemp: real, maxTemp: real, unit: char)

  function ScaleFor(fahrenheit: bool): (s: Scale)
    ensures s.minTemp < s.maxTemp
    ensures s.unit == if fahrenheit then 'F' else 'C'
  {
    if fahrenheit then Scale(32.0, 185.0, 'F') else Scale(0.0, 85.0, 'C')
  }

  /** Converting the temperature shown back to millidegrees Celsius gives the
      raw reading again, in either unit. */
  lemma DegreesRecoverRaw(raw: nat, fahrenheit: bool)
    ensures var t := Degrees(raw, fahrenheit);
      (if fahrenheit then (t - 32.0) * 5.0 / 9.0 else t) * 1000.0 == raw as real
  {
  }

  /** The reading's distance above the bottom of the range. */
  function BarCurrent(fahrenheit: bool, raw: nat): real {
    Degrees(raw, fahrenheit) - ScaleFor(fahrenheit).minTemp
  }

  /** The width of the range. */
  function BarTotal(fahrenheit: bool): (total: real)
    ensures 0.0 < total
  {
    ScaleFor(fahrenheit).maxTemp - ScaleFor(fahrenheit).minTemp
  }

  /** Fahrenheit and back gives the Celsius value again. */
  lemma FahrenheitInverse(celsius: real)
    ensures (ToFahrenheit(celsius) - 32.0) / 1.8 == celsius
  {
  }

  /** The Fahrenheit range is the Celsius range, 0 to 85 degrees, converted. */
  lemma ScalesAgree()
    ensures ScaleFor(true).minTemp == ToFahrenheit(ScaleFor(false).minTemp)
    ensures ScaleFor(true).maxTemp == ToFahrenheit(ScaleFor(false).maxTemp)
  {
  }

  /** How far the bar is filled does not depend on the unit: in both units the
      reading's place in the range is its Celsius value over 85. */
  lemma FillRatioUnitIndependent(raw: nat, fahrenheit: bool)
    ensures BarCurrent(fahrenheit, raw) / BarTotal(fahrenheit) == raw as real / 85000.0
  {
  }

  /** 45000 millidegrees are 45.0 degrees Celsius and 113.0 degrees Fahrenheit;
      52300 are 52.3 degrees Celsius. */
  lemma ConversionSamples()
    ensures Degrees(45000, false) == 45.0 && Degrees(45000, true) == 113.0
    ensures Degrees(52300, false) == 52.3
  {
  }
}
