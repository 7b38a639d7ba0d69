/** `getReading`: the sensor file's first line, as `fgets` reads it into a
    128-byte buffer, parsed by `atoi` and converted to `unsigned long`. */
module Reading {
  import opened Process

  /** The size of the line buffer; `fgets` stores at most one byte less, plus a NUL. */
  const LineBufferBytes: nat := 128

  /** The range of a 32-bit `int`, the result type of `atoi`. */
  const IntMin: int := -0x8000_0000
  const IntMax: int := 0x7fff_ffff

  /** `unsigned long` on an LP64 target such as 64-bit Raspberry Pi OS is 64
      bits wide: conversion to it is reduction modulo 2^64. */
  const ULongModulus: nat := 0x1_0000_0000_0000_0000

  /** The sensor file: its content when it can be opened, `None` when it cannot. */
  datatype Option<+T> = None | Some(value: T)

  /** The characters `fgets` stores: up to `room` characters of `s`, stopping
      after the first newline. */
  function TakeLine(s: string, room: nat): (line: string)
    ensures line <= s && |line| <= room
    ensures forall i :: 0 <= i < |line| - 1 ==> line[i] != '\n'
    ensures line == s || |line| == room || (line != [] && line[|line| - 1] == '\n')
  {
    if s == [] || room == 0 then []
    else if s[0] == '\n' then [s[0]]
    else [s[0]] + TakeLine(s[1..], room - 1)
  }

  /** The first line of the file as it stands in the line buffer. */
  function FirstLine(content: string): string {
    TakeLine(content, LineBufferBytes - 1)
  }

  /** `isspace` for single bytes: space, and tab through carriage return. The
      program selects the environment's locale, and in glibc's locales these
      ASCII characters are the only single bytes counted as space. */
  predicate IsSpace(c: char) {
    c == ' ' || '\t' <= c <= '\r'
  }

  predicate IsDigit(c: char) {
    '0' <= c <= '9'
  }

  predicate AllDigits(s: string) {
    forall i :: 0 <= i < |s| ==> IsDigit(s[i])
  }

  /** `s` with its leading white space removed. */
  function SkipSpace(s: string): (t: string)
    ensures |t| <= |s| && t == s[|s| - |t|..]
    ensures forall i :: 0 <= i < |s| - |t| ==> IsSpace(s[i])
    ensures t == [] || !IsSpace(t[0])
  {
    if s != [] && IsSpace(s[0]) then SkipSpace(s[1..]) else s
  }

  /** The longest prefix of `s` made of decimal digits. */
  function DigitRun(s: string): (d: string)
    ensures d <= s && AllDigits(d)
    ensures d == s || !IsDigit(s[|d|])
  {
    if s != [] && IsDigit(s[0]) then [s[0]] + DigitRun(s[1..]) else []
  }

  function DigitValue(c: char): nat
    requires IsDigit(c)
  {
    c as int - '0' as int
  }

  /** The value of a string of decimal digits, most significant first. */
  function DigitsValue(d: string): nat
    requires AllDigits(d)
  {
    if d == [] then 0 else DigitsValue(d[..|d| - 1]) * 10 + DigitValue(d[|d| - 1])
  }

  /** The value `strtol(s, NULL, 10)` computes before any range check (ISO C11
      section 7.22.1.4): leading white space is skipped, an optional sign is
      accepted, the digits that follow are read and the rest is ignored; with
      no digits the result is 0. */
  function Strtol(s: string): int {
    SignedValue(SkipSpace(s))
  }

  /** The value of an optional sign followed by digits, at the start of `t`. */
  function SignedValue(t: string): int {
    if t != [] && t[0] == '-' then -(DigitsValue(DigitRun(t[1..])) as int)
    else if t != [] && t[0] == '+' then DigitsValue(DigitRun(t[1..]))
    else DigitsValue(DigitRun(t))
  }

  /** What the source leaves undefined is excluded: an empty file, on which
      `fgets` leaves the line buffer uninitialised, and a first line whose
      value does not fit in an `int`, on which `atoi` is undefined (ISO C11
      section 7.22.1.2). */
  predicate Readable(content: string) {
    content != [] && IntMin <= Strtol(FirstLine(content)) <= IntMax
  }

  /** The conversion of an `int` to `unsigned long`: reduction modulo 2^64. */
  function ToULong(v: int): (u: nat)
    requires IntMin <= v <= IntMax
    ensures u < ULongModulus && (u - v) % ULongModulus == 0
    ensures 0 <= v ==> u == v
  {
    if 0 <= v then v else ULongModulus + v
  }

  /** `getReading`: a file that cannot be opened ends the program with the
      "not supported" message; otherwise the reading is `atoi` of the file's
      first line, taken as `unsigned long`. */
  function GetReading(file: Option<string>): (r: Outcome<nat>)
    requires file.Some? ==> Readable(file.value)
    ensures file.None? <==> r == Exit(ExitFailure, UnsupportedMessage)
    ensures file.Some? ==> r.Ok? && r.value < ULongModulus
    ensures file.Some? && 0 <= Strtol(FirstLine(file.value)) ==>
      r.value == Strtol(FirstLine(file.value))
    ensures file.Some? && Strtol(FirstLine(file.value)) < 0 ==>
      r.value == ULongModulus + Strtol(FirstLine(file.value))
  {
    match file
    case None => Exit(ExitFailure, UnsupportedMessage)
    case Some(content) => Ok(ToULong(Strtol(FirstLine(content))))
  }

  // Properties of the parse

  /** The decimal numeral of `n`, without leading zeros: the text a sensor writes. */
  function Decimal(n: nat): (d: string)
    ensures d != [] && AllDigits(d)
  {
    var last := ('0' as int + n % 10) as char;
    if n < 10 then [last] else Decimal(n / 10) + [last]
  }

  /** Reading a numeral back gives the number it was written from. */
  lemma {:induction false} DecimalValue(n: nat)
    ensures DigitsValue(Decimal(n)) == n
  {
    var d := Decimal(n);
    if n >= 10 {
      assert d[..|d| - 1] == Decimal(n / 10);
      DecimalValue(n / 10);
    }
  }

  /** The digit run stops at the first character that is not a digit. */
  lemma {:induction false} DigitRunStops(d: string, rest: string)
    requires AllDigits(d) && (rest == [] || !IsDigit(rest[0]))
    ensures DigitRun(d + rest) == d
  {
    if d != [] {
      assert (d + rest)[1..] == d[1..] + rest;
      DigitRunStops(d[1..], rest);
    } else {
      assert d + rest == rest;
    }
  }

  /** Leading white space is skipped, whatever its length. */
  lemma {:induction false} SkipSpaceOver(w: string, s: string)
    requires forall i :: 0 <= i < |w| ==> IsSpace(w[i])
    requires s == [] || !IsSpace(s[0])
    ensures SkipSpace(w + s) == s
  {
    if w != [] {
      assert (w + s)[1..] == w[1..] + s;
      SkipSpaceOver(w[1..], s);
    } else {
      assert w + s == s;
    }
  }

  /** Digits, optionally signed, are read up to the first character that is not one. */
  lemma SignedValueOf(sign: string, d: string, rest: string)
    requires sign == "" || sign == "+" || sign == "-"
    requires d != [] && AllDigits(d) && (rest == [] || !IsDigit(rest[0]))
    ensures SignedValue(sign + (d + rest))
         == if sign == "-" then -(DigitsValue(d) as int) else DigitsValue(d)
  {
    DigitRunStops(d, rest);
    var t := sign + (d + rest);
    if sign == "" {
      assert t == d + rest && IsDigit(t[0]);
    } else {
      assert t[1..] == d + rest;
    }
  }

  /** Regrouping a four-part concatenation; a lemma of its own keeps the
      sequence reasoning out of `StrtolOfDecimal`. */
  lemma Regroup(a: string, b: string, c: string, d: string)
    ensures a + b + c + d == a + (b + (c + d))
  {
  }

  /** `strtol` reads back any numeral written after white space and an optional
      sign, and ignores whatever follows the digits. */
  lemma StrtolOfDecimal(w: string, sign: string, n: nat, rest: string)
    requires forall i :: 0 <= i < |w| ==> IsSpace(w[i])
    requires sign == "" || sign == "+" || sign == "-"
    requires rest == [] || !IsDigit(rest[0])
    ensures Strtol(w + sign + Decimal(n) + rest) == if sign == "-" then -(n as int) else n
  {
    var d := Decimal(n);
    DecimalValue(n);
    var t := sign + (d + rest);
    Regroup(w, sign, d, rest);
    assert t[0] == if sign == "" then d[0] else sign[0];
    SkipSpaceOver(w, t);
    SignedValueOf(sign, d, rest);
  }

  /** A line with no digits after its white space and optional sign reads as 0. */
  lemma StrtolNoDigits(s: string)
    requires var t := SkipSpace(s);
      var u := if t != [] && (t[0] == '-' || t[0] == '+') then t[1..] else t;
      u == [] || !IsDigit(u[0])
    ensures Strtol(s) == 0
  {
  }

  /** A first line shorter than the buffer is read whole, newline included,
      and nothing after it is read. */
  lemma {:induction false} FirstLineWhole(line: string, rest: string)
    requires '\n' !in line && |line| < LineBufferBytes - 1
    ensures FirstLine(line + "\n" + rest) == line + "\n"
  {
    TakeLineWhole(line, rest, LineBufferBytes - 1);
  }

  lemma {:induction false} TakeLineWhole(line: string, rest: string, room: nat)
    requires '\n' !in line && |line| < room
    ensures TakeLine(line + "\n" + rest, room) == line + "\n"
  {
    if line != [] {
      assert (line + "\n" + rest)[1..] == line[1..] + "\n" + rest;
      TakeLineWhole(line[1..], rest, room - 1);
    }
  }

  /** A first line longer than the buffer is cut after 127 characters. */
  lemma {:induction false} FirstLineCut(content: string)
    requires |content| >= LineBufferBytes - 1 && '\n' !in content[..LineBufferBytes - 1]
    ensures FirstLine(content) == content[..LineBufferBytes - 1]
  {
    TakeLineCut(content, LineBufferBytes - 1);
  }

  lemma {:induction false} TakeLineCut(s: string, room: nat)
    requires |s| >= room && '\n' !in s[..room]
    ensures TakeLine(s, room) == s[..room]
  {
    if room > 0 {
      assert s[0] == s[..room][0];
      assert s[1..][..room - 1] == s[..room][1..];
      TakeLineCut(s[1..], room - 1);
    }
  }

  lemma SampleNumeral()
    ensures Decimal(52300) == "52300"
  {
    assert Decimal(5) == "5";
    assert Decimal(52) == Decimal(5) + "2";
    assert Decimal(523) == Decimal(52) + "3";
    assert Decimal(5230) == Decimal(523) + "0";
    assert Decimal(52300) == Decimal(5230) + "0";
  }

  /** The file "52300\n" gives the reading 52300. */
  lemma ReadingOfSample()
    ensures Readable("52300\n") && GetReading(Some("52300\n")) == Ok(52300)
  {
    var content := Decimal(52300) + "\n";
    ReadingOfNumeral(52300);
    SampleNumeral();
    assert content == "52300\n";
  }

  /** A file holding a numeral and a newline, as the kernel writes it, reads
      as that number. */
  lemma ReadingOfNumeral(n: nat)
    requires n <= IntMax
    ensures var content := Decimal(n) + "\n";
      Readable(content) && GetReading(Some(content)) == Ok(n)
  {
    NumeralLine("", n);
    assert "" + Decimal(n) == Decimal(n);
  }

  /** A negative value wraps around when it is converted to `unsigned long`. */
  lemma NegativeReadingWraps(n: nat)
    requires 1 <= n <= -IntMin
    ensures var content := "-" + Decimal(n) + "\n";
      Readable(content) && GetReading(Some(content)) == Ok(ULongModulus - n)
  {
    NumeralLine("-", n);
  }

  /** The first line of a file holding an optionally negated numeral and a
      newline reads as that number. */
  lemma NumeralLine(sign: string, n: nat)
    requires sign == "" || sign == "-"
    requires n <= -IntMin
    ensures Strtol(FirstLine(sign + Decimal(n) + "\n")) == if sign == "-" then -(n as int) else n
  {
    var line := sign + Decimal(n);
    NumeralFits(sign, n);
    FirstLineWhole(line, "");
    StrtolOfDecimal("", sign, n, "\n");
    assert "" + sign + Decimal(n) + "\n" == line + "\n" + "";
  }

  /** A numeral of an `int` magnitude, with its sign, fits the line buffer
      with room for the newline. */
  lemma NumeralFits(sign: string, n: nat)
    requires sign == "" || sign == "-"
    requires n <= -IntMin
    ensures var line := sign + Decimal(n);
      '\n' !in line && |line| < LineBufferBytes - 1
  {
    var line := sign + Decimal(n);
    IntFitsTenDigits();
    DecimalLength(n, 10);
    assert forall i :: 0 <= i < |line| ==> line[i] == '-' || IsDigit(line[i]) by {
      assert forall i :: 0 <= i < |Decimal(n)| ==> IsDigit(Decimal(n)[i]);
    }
  }

  /** Every `int` magnitude has at most ten decimal digits. */
  lemma IntFitsTenDigits()
    ensures -IntMin < Pow10(10)
  {
    assert Pow10(1) == 10;
    assert Pow10(2) == 100;
    assert Pow10(3) == 1000;
    assert Pow10(4) == 10_000;
    assert Pow10(5) == 100_000;
    assert Pow10(6) == 1_000_000;
    assert Pow10(7) == 10_000_000;
    assert Pow10(8) == 100_000_000;
    assert Pow10(9) == 1_000_000_000;
  }

  function Pow10(k: nat): nat {
    if k == 0 then 1 else 10 * Pow10(k - 1)
  }

  /** A number below 10^k has at most k digits. */
  lemma {:induction false} DecimalLength(n: nat, k: nat)
    requires 1 <= k && n < Pow10(k)
    ensures |Decimal(n)| <= k
  {
    if n >= 10 {
      assert k != 1;
      DecimalLength(n / 10, k - 1);
    }
  }

  /** Digits that start beyond the 127th character of the line are never read:
      a line of 127 or more blanks reads as 0. */
  lemma DigitsBeyondBuffer(w: string, rest: string)
    requires |w| >= LineBufferBytes - 1 && forall i :: 0 <= i < |w| ==> IsSpace(w[i]) && w[i] != '\n'
    ensures Readable(w + rest) && GetReading(Some(w + rest)) == Ok(0)
  {
    var content := w + rest;
    var line := content[..LineBufferBytes - 1];
    assert line == w[..LineBufferBytes - 1];
    assert forall i :: 0 <= i < |line| ==> IsSpace(line[i]) && line[i] != '\n';
    FirstLineCut(content);
    assert line + [] == line;
    SkipSpaceOver(line, []);
    assert Strtol(line) == SignedValue([]) == 0;
  }
}
