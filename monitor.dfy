/** One refresh of `main`: read the sensor file, convert the reading and
    build the display bar for it. */
module Monitor {
  import opened Process
  import opened DisplayBar
  import opened Reading
  import opened Conversion

  /** The command-line settings, after parsing. */
  datatype Arguments = Arguments(fahrenheit: bool, length: int, interval: real, filePath: string)

  const DefaultArguments: Arguments :=
    Arguments(false, 60, 1.0, "/sys/class/thermal/thermal_zone0/temp")

  /** Fractions of the bar drawn cyan and yellow. */
  const CyanThreshold: real := 0.5
  const YellowThreshold: real := 0.725

  /** What a refresh prints besides the bar: the temperature and its unit letter. */
  datatype Frame = Frame(temperature: real, unit: char)

  /** The raw reading of a readable sensor file. */
  function RawReading(content: string): nat
    requires Readable(content)
  {
    GetReading(Some(content)).value
  }

  /** The cut-offs `createDisplayBar` computes for a raw reading. */
  function BarCutoffs(fahrenheit: bool, length: int, raw: nat): Cutoffs {
    ComputeCutoffs(length, BarCurrent(fahrenheit, raw), BarTotal(fahrenheit),
                   CyanThreshold, YellowThreshold)
  }

  /** One pass of the refresh loop. `file` is the content of the file at
      `args.filePath`, or None when it cannot be opened. */
  method Sample(args: Arguments, file: Option<string>, tempBar: CharBuffer)
    returns (r: Outcome<Frame>)
    requires tempBar.Valid()
    requires file.Some? ==>
      Readable(file.value) &&
      Size(Bar(tempBar.text, args.length,
               BarCutoffs(args.fahrenheit, args.length, RawReading(file.value))))
      < tempBar.capacity
    modifies tempBar
    ensures tempBar.Valid()
    ensures file.None? ==>
      r == Exit(ExitFailure, UnsupportedMessage) && tempBar.text == old(tempBar.text)
    ensures file.Some? ==>
      (var raw := RawReading(file.value);
       r == Ok(Frame(Degrees(raw, args.fahrenheit), if args.fahrenheit then 'F' else 'C')) &&
       tempBar.text == Bar(old(tempBar.text), args.length,
                           BarCutoffs(args.fahrenheit, args.length, raw)))
  {
    var scale := ScaleFor(args.fahrenheit);
    var reading := GetReading(file);
    if reading.Exit? {
      return Exit(reading.code, reading.message);
    }
    var temp := reading.value;
    var formattedTemp := Celsius(temp);
    if args.fahrenheit {
      formattedTemp := ToFahrenheit(formattedTemp);
    }
    var barCurrent := formattedTemp - scale.minTemp;
    var barTotal := scale.maxTemp - scale.minTemp;
    assert temp == RawReading(file.value);
    assert formattedTemp == Degrees(temp, args.fahrenheit);
    assert barCurrent == BarCurrent(args.fahrenheit, temp);
    assert barTotal == BarTotal(args.fahrenheit);
    var status := CreateDisplayBar(tempBar, barCurrent, barTotal, args.length,
                                   CyanThreshold, YellowThreshold);
    match status
    case Exit(code, message) =>
      r := Exit(code, message);
    case Ok(_) =>
      r := Ok(Frame(formattedTemp, scale.unit));
  }

  /** The bar looks the same whichever unit the temperature is shown in. */
  lemma BarUnitIndependent(length: int, raw: nat)
    ensures BarCutoffs(true, length, raw) == BarCutoffs(false, length, raw)
  {
    FillRatioUnitIndependent(raw, true);
    FillRatioUnitIndependent(raw, false);
    CutoffsByRatio(length, BarCurrent(true, raw), BarTotal(true),
                   BarCurrent(false, raw), BarTotal(false), CyanThreshold, YellowThreshold);
  }

  /** No cell is lit exactly when the reading is under half a cell's worth of
      the 0 to 85 degree range. */
  lemma EmptyBar(fahrenheit: bool, length: nat, raw: nat)
    ensures BarCutoffs(fahrenheit, length, raw).filled <= 0 <==> 2 * length * raw < 85000
  {
    BarUnitIndependent(length, raw);
    var current := raw as real / 1000.0;
    assert BarCurrent(false, raw) == current;
    FilledLengthRange(length, current, 85.0, CyanThreshold, YellowThreshold);
    var product := (2 * length * raw) as real;
    assert 2.0 * length as real * current == product / 1000.0;
    assert product / 1000.0 < 85.0 <==> product < 85000.0;
  }

  /** With the default length of 60, a reading of at least 709 millidegrees
      lights the first cell, the bar replaces whatever the buffer held, and
      it fits the 2048-byte buffer. */
  lemma DefaultBarFits(prior: seq<Glyph>, fahrenheit: bool, raw: nat)
    requires 709 <= raw
    ensures var k := BarCutoffs(fahrenheit, DefaultArguments.length, raw);
      Bar(prior, DefaultArguments.length, k) == Cells(DefaultArguments.length, k) &&
      Size(Bar(prior, DefaultArguments.length, k)) < BarBufferBytes
  {
    var k := BarCutoffs(fahrenheit, 60, raw);
    EmptyBar(fahrenheit, 60, raw);
    DestOverwrite(prior, 60, k);
    FitsBarBuffer(prior, 60, k);
  }

  /** A sensor file holding "52300" is shown as 52.3 degrees Celsius or 126.14
      degrees Fahrenheit. */
  lemma SampleFile()
    ensures Readable("52300\n") && RawReading("52300\n") == 52300
    ensures Degrees(RawReading("52300\n"), false) == 52.3
    ensures Degrees(RawReading("52300\n"), true) == 126.14
  {
    ReadingOfSample();
  }
}
