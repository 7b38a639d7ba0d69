# pi-temp-monitor in Dafny

PiTempMonitor is a small C program for the Raspberry Pi. Once per interval it
does three things:

- reads the CPU temperature in millidegrees Celsius from a sysfs file (by
  default `/sys/class/thermal/thermal_zone0/temp`);
- converts the reading to Celsius or Fahrenheit;
- redraws a coloured bar of `length` cells. The cells are cyan up to half of the
  bar, yellow up to 72.5 % of it, and red beyond; cells above the current
  temperature are dark.

This project models that refresh and proves properties of it:

| file | module | models |
|---|---|---|
| `process.dfy` | `Process` | the `EXIT_FAILURE` exits and their messages, as an `Outcome` value |
| `cmath.dfy` | `CMath` | C's `round` (half away from zero) and float-to-int truncation (toward zero), over exact reals |
| `display_bar.dfy` | `DisplayBar` | `createDisplayBar` |
| `reading.dfy` | `Reading` | `getReading`: the first line as `fgets` stores it, `atoi`, and conversion to `unsigned long` |
| `conversion.dfy` | `Conversion` | the unit conversion and the choice of the 0–85 °C or 32–185 °F range in `main` |
| `monitor.dfy` | `Monitor` | one pass of `main`'s refresh loop, composed from the three parts above |

The bar's destination buffer, `char tempBar[2048]`, is the class
`DisplayBar.CharBuffer`.

- Its text is a sequence of glyphs. A glyph is either a raw non-NUL byte or one
  coloured cell.
- A cell occupies 14 bytes under a UTF-8 locale: a 7-byte colour escape, the
  3-byte block U+2588, and a 4-byte reset. `Size` counts these bytes, and
  `Valid` says that the text plus its terminating NUL fits.
- `Copy` is `strcpy` and `Concat` is `strcat`.
- The loop of `createDisplayBar` is the method `WriteCells` with loop
  invariants. Its body is `WriteCell`. It is proved against the specification
  function `Bar(prior, length, k)`, where `prior` is whatever the buffer held
  before.

The buffer is declared inside `main`'s loop and never initialised. `strcpy`
runs only when cell 0 is filled. So when the first cell is dark, the cells are
appended after the buffer's old contents. The model keeps this behaviour as
written: `Bar` takes the old contents as an input, and `DestOverwrite` states
exactly when the result is the bar alone.

## Model

| member | source | states |
|---|---|---|
| CMath.Trunc | main.c:89-90 | the integer kept by a float-to-int conversion lies within one of the value, on the side of zero |
| CMath.Round | main.c:88 | the rounded integer lies within one half of the value; ties go away from zero |
| CMath.TruncMonotone | main.c:89-90 | truncation is monotone |
| CMath.RoundMonotone | main.c:88 | rounding is monotone |
| CMath.RoundHalfway | main.c:88 | a value exactly halfway between integers rounds away from zero |
| CMath.RoundBounds | main.c:88 | a value rounds to at most 0 exactly when it is below one half; a value at or above an integer n rounds to at least n; a value in [0, n] rounds into [0, n] |
| DisplayBar.Cells | main.c:93-122 | a loop over `0 <= i <= length - 1` yields `length` cells, or none when `length <= 0` |
| DisplayBar.ComputeCutoffs | main.c:88-90 | the definition of the cut-offs: `filledLength` is `round(length * current / total)`, the zone lengths are `length * threshold` truncated, and each zone is on only for a positive threshold; `FilledLengthRange`, `CutoffsOrdered`, `NonPositiveThreshold` and `CutoffsByRatio` state its properties |
| DisplayBar.CellColour | main.c:95-120 | the definition of the colour chosen for index `i`; `FilledPrefix`, `FilledColour` and `ZonesInOrder` state its properties on the bar |
| DisplayBar.Bar | main.c:93-122 | the definition of the text the loop leaves in `dest`, given the old text (the uninitialised buffer of main.c:174); `WriteCells` is proved to produce it, and `BarStep`, `DestOverwrite`, `BarBytes` and `FitsBarBuffer` state its properties |
| DisplayBar.CharBuffer.constructor | main.c:174 | a buffer of the given capacity, holding text that fits |
| DisplayBar.CharBuffer.Copy | main.c:101 | `strcpy`: the buffer then holds the one cell, and it fits |
| DisplayBar.CharBuffer.Concat | main.c:120 | `strcat`: the cell is appended to the old text, and it fits |
| DisplayBar.BarStep | main.c:93-122 | one turn of the loop appends cell `i`; only a filled cell 0 first discards the old text |
| DisplayBar.CellsSize | main.c:99-100 | `n` cells occupy `14 * n` bytes |
| DisplayBar.BarSizeGrows | main.c:93-122 | once one cell is written, later turns never shorten the text, so the final size bounds every intermediate one |
| DisplayBar.WriteStep | main.c:95-120 | a turn writes either the lone first cell or one more appended cell, and when the whole bar fits the buffer, so does that turn |
| DisplayBar.WriteCell | main.c:95-121 | the loop body for index `i` takes the buffer from the bar after `i` turns to the bar after `i + 1` turns |
| DisplayBar.WriteCells | main.c:92-122 | the loop leaves exactly `Bar(old text, length, cut-offs)` in the buffer, and the buffer stays valid |
| DisplayBar.CreateDisplayBar | main.c:79-123 | misordered thresholds exit with `EXIT_FAILURE` and the message before any cell is written; otherwise the buffer ends holding the bar for the rounded and truncated cut-offs |
| DisplayBar.CellsAt | main.c:93-122 | there is exactly one cell per index, and cell `i` has the colour chosen for index `i` |
| DisplayBar.DestOverwrite | main.c:95-120 | `length <= 0` leaves `dest` untouched; otherwise `dest` holds only the cells exactly when cell 0 is filled or `dest` was empty, and else the cells follow the old text |
| DisplayBar.FilledPrefix | main.c:95-120 | cell `j` is lit exactly when `j < filledLength`, and a lit cell has only lit cells before it |
| DisplayBar.FillExtremes | main.c:88-120 | `filledLength <= 0` gives an all-dark bar; `filledLength >= length` gives no dark cell |
| DisplayBar.FilledColour | main.c:97-114 | a filled cell is cyan iff below the cyan cut-off with a positive cyan threshold; otherwise yellow iff below the yellow cut-off with a positive yellow threshold; otherwise red |
| DisplayBar.ZonesInOrder | main.c:97-120 | along the bar, cyan cells come before yellow, yellow before red, and red before dark |
| DisplayBar.NonPositiveThreshold | main.c:97-108 | a threshold of 0 or less means no cell of that colour |
| DisplayBar.CutoffsOrdered | main.c:82-90 | thresholds that pass the check give a cyan cut-off no larger than the yellow one |
| DisplayBar.ScaledFill | main.c:88 | `length * current / total` is under one half exactly when `2 * length * current < total`; it is at least `length` when `current >= total`; and it is in `[0, length]` when `current` is in `[0, total]` |
| DisplayBar.FilledLengthRange | main.c:88 | no cell is lit exactly when `2 * length * current < total`; all are lit when `current >= total`; and between none and all are lit for `current` in `[0, total]` |
| DisplayBar.CutoffsByRatio | main.c:88-90 | the cut-offs depend on `current` and `total` only through their ratio |
| DisplayBar.BarBytes | main.c:99-120 | the bar occupies `14 * length` bytes, plus the old text when cell 0 is dark |
| DisplayBar.FitsBarBuffer | main.c:174 | a bar that replaces the old text fits the 2048-byte buffer exactly when `length <= 146` |
| Reading.TakeLine | main.c:72 | `fgets` stores a prefix of the file of at most 127 characters, with no newline before its last character, and stops at the end of the file, at the size limit, or just after a newline |
| Reading.FirstLine | main.c:71-72 | the definition of the line `fgets` stores in the 128-byte buffer; `TakeLine`'s contract, `FirstLineWhole` and `FirstLineCut` state its properties |
| Reading.DigitsValue | main.c:75 | the definition of the value of a string of decimal digits; `DecimalValue` proves it inverts writing a numeral |
| Reading.SignedValue | main.c:75 | the definition of an optional sign followed by digits; `SignedValueOf` states its value |
| Reading.Strtol | main.c:75 | the definition of `atoi` within `int` range, as `strtol` base 10; `StrtolOfDecimal`, `StrtolNoDigits` and `DigitsBeyondBuffer` state its properties |
| Reading.SkipSpace | main.c:75 | the text left is a suffix of the input; everything removed is white space; and it does not start with white space |
| Reading.DigitRun | main.c:75 | the digits read are a prefix made only of digits, and they end at the first character that is not a digit |
| Reading.ToULong | main.c:75 | the `unsigned long` value is below 2^64 and congruent to the `int` modulo 2^64, and a non-negative value is unchanged |
| Reading.GetReading | main.c:61-77 | a missing file, and only a missing file, exits with the "not supported" message; otherwise the reading is `atoi` of the first line, wrapped into `unsigned long` when it is negative |
| Reading.DecimalValue | main.c:75 | parsing a numeral's digits gives back the number |
| Reading.DigitRunStops | main.c:75 | the digits are read up to the first character that is not a digit |
| Reading.SkipSpaceOver | main.c:75 | any amount of leading white space is skipped |
| Reading.SignedValueOf | main.c:75 | an optional sign followed by digits reads as the signed value of the digits |
| Reading.StrtolOfDecimal | main.c:75 | white space, then an optional sign, then a numeral, then anything that does not start with a digit reads as the signed number |
| Reading.StrtolNoDigits | main.c:75 | a line with no digit after its white space and optional sign reads as 0 |
| Reading.FirstLineWhole | main.c:71-72 | a first line shorter than the buffer is read whole, with its newline, and nothing after it is read |
| Reading.FirstLineCut | main.c:71-72 | a longer first line is cut after 127 characters |
| Reading.ReadingOfSample | main.c:71-76 | the file "52300\n" reads as 52300 |
| Reading.ReadingOfNumeral | main.c:71-76 | a file holding the numeral of any non-negative `int` followed by a newline reads as that number |
| Reading.NegativeReadingWraps | main.c:75-76 | a file holding `-n` reads as 2^64 - n |
| Reading.NumeralLine | main.c:71-75 | the first line of a file holding an optionally negated `int` numeral and a newline parses to that number |
| Reading.NumeralFits | main.c:71-72 | an `int` numeral with its sign has no newline and leaves room in the line buffer |
| Reading.DigitsBeyondBuffer | main.c:71-75 | digits placed after 127 or more blanks are never read, and the reading is 0 |
| Conversion.DegreesRecoverRaw | main.c:163-168 | converting the displayed temperature back to millidegrees Celsius gives the raw reading, in either unit |
| Conversion.Celsius | main.c:163 | the definition of the reading in degrees Celsius, millidegrees over 1000; `DegreesRecoverRaw` and `ConversionSamples` state its properties |
| Conversion.ToFahrenheit | main.c:167 | the definition of `*1.8 + 32`; `FahrenheitInverse` and `ScalesAgree` state its properties |
| Conversion.Degrees | main.c:163-168 | the definition of the temperature shown in the chosen unit; `DegreesRecoverRaw` proves it converts back to the raw reading |
| Conversion.BarCurrent | main.c:171 | the definition of `barCurrent`, the shown temperature minus the range's bottom; `FillRatioUnitIndependent` states its ratio to `BarTotal` |
| Conversion.ScaleFor | main.c:146-157 | the range's bottom is below its top, and the unit letter is 'F' for Fahrenheit and 'C' otherwise |
| Conversion.BarTotal | main.c:172 | the width of the range is positive, so the division in `createDisplayBar` is defined |
| Conversion.FahrenheitInverse | main.c:167 | the Fahrenheit formula is invertible: subtracting 32 and dividing by 1.8 gives the Celsius value back |
| Conversion.ScalesAgree | main.c:146-157 | 32–185 °F is 0–85 °C converted |
| Conversion.FillRatioUnitIndependent | main.c:163-172 | in both units, `barCurrent / barTotal` is the Celsius value over 85 |
| Conversion.ConversionSamples | main.c:163-168 | 45000 is shown as 45.0 °C or 113.0 °F, and 52300 as 52.3 °C |
| Monitor.Sample | main.c:159-182 | a missing file exits with the "not supported" message and leaves the bar buffer unchanged; otherwise the frame shows the converted temperature and its unit letter, and the buffer holds the bar for that reading; an exit from the bar builder would be passed on, and it never happens because the thresholds 0.5 and 0.725 are ordered |
| Monitor.RawReading | main.c:161 | the definition of the value `getReading` returns for a readable file; `ReadingOfNumeral`, `NegativeReadingWraps` and `SampleFile` state its value |
| Monitor.BarCutoffs | main.c:171-182 | the definition of the cut-offs `main` passes to `createDisplayBar` for a reading; `BarUnitIndependent`, `EmptyBar` and `DefaultBarFits` state its properties |
| Monitor.BarUnitIndependent | main.c:171-182 | the bar is the same whether the temperature is shown in Celsius or Fahrenheit |
| Monitor.EmptyBar | main.c:171-182 | no cell is lit exactly when `2 * length * raw < 85000` |
| Monitor.DefaultBarFits | main.c:133-174 | with the default length of 60, any reading of at least 709 millidegrees lights cell 0, so the bar replaces the buffer's old contents and fits in 2048 bytes |
| Monitor.SampleFile | main.c:161-168 | a sensor file holding "52300" is shown as 52.3 °C or 126.14 °F |

## Left out

- Argument parsing with `argp` (main.c:12-57, 138) is a library callback that only stores `atoi`/`atof` results. `Monitor.Arguments` holds the parsed values, with their defaults.
- Terminal output and timing are I/O: `setlocale`, the `printf` of the frame with `%.1f` and `%lc`, `fflush` and `usleep`. The `printf` of an exit message becomes the message carried by `Exit`.
- The endless `while (1)` loop has no final state. `Monitor.Sample` models one pass of it.
- Floating point: `float` arithmetic, its rounding error, and the precision lost when a large `unsigned long` becomes a `float` are not modelled. Every computation uses exact reals.
- A float-to-int conversion whose result does not fit in an `int` is undefined in C. The model gives it the mathematical truncation or rounding.
- The exact ANSI escape bytes are left out. A cell is an abstract coloured glyph of 14 bytes, the size it has under a UTF-8 locale; other locales are not modelled.
- The `minTemp` and `maxTemp` parameters of `createDisplayBar` are never read, so `DisplayBar.CreateDisplayBar` does not take them.
- Reading.ToULong: it assumes an LP64 target such as 64-bit Raspberry Pi OS, where `unsigned long` has 64 bits. On 32-bit Raspberry Pi OS (ILP32) `unsigned long` has 32 bits, so a line "-n" reads as 2^32 - n, not 2^64 - n, and `Reading.NegativeReadingWraps` states the 64-bit result. The width of the wrapped value also decides whether `round` overflows `int` in `createDisplayBar`; that overflow is one of the float-to-int cases above.
- Reading.GetReading: it requires a readable file, because two cases are undefined in C and are excluded. An empty file leaves the line buffer uninitialised. A first line whose value does not fit in an `int` makes `atoi` undefined.
- DisplayBar.CreateDisplayBar: it requires the resulting bar and its NUL to fit the buffer, because an overflow of `dest` is undefined behaviour.
- Monitor.Sample: it has the same buffer requirement as `CreateDisplayBar`.
- The uninitialised buffer is modelled as some NUL-terminated text. A buffer with no NUL at all makes `strcat` undefined and is not modelled.
- The loop of `createDisplayBar` is split into `WriteCells` and a body method `WriteCell`. The C loop is a single statement.
- The file contents are passed to `Monitor.Sample` as an input. Opening the file at `filePath` is not modelled.
