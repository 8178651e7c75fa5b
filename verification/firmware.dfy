/** The line the firmware's `loop` (src/main.cpp) writes to the serial port on
    each iteration, and how the host parser reads it back.

    Sensor reads are inputs: `None` stands for a read that returned NaN.
    A successful read is given in hundredths, the precision at which
    `Serial.print(float)` prints it by default. */
module Firmware {
  import opened Wrappers
  import opened Text
  import opened LineParser

  const FailureMessage: string := "Failed to read from DHT sensor!"
  const TemperatureText: string := "Temperature: "
  const HumidityText: string := "°C  |  Humidity: "
  const PercentText: string := "%"
  /** `Serial.println` ends a line with carriage return and line feed. */
  const LineEnd: string := "\r\n"

  /** How `Serial.print` renders a non-negative value with its default two
      fraction digits: integer part, a dot, two digits. */
  function PrintUnsigned(v: nat): (s: string)
    ensures |s| >= 4 && OnlyNumChars(s) && IsDigit(s[0])
    ensures ParseDecimal(s) == Some(v as real / 100.0)
  {
    var whole := NatToDigits(v / 100);
    var frac := [DigitChar(v % 100 / 10), DigitChar(v % 100 % 10)];
    ParseFraction(whole, frac);
    HundredthsValue(v, whole, frac);
    whole + "." + frac
  }

  lemma {:induction false} HundredthsValue(v: nat, whole: string, frac: string)
    requires whole == NatToDigits(v / 100)
    requires frac == [DigitChar(v % 100 / 10), DigitChar(v % 100 % 10)]
    ensures DecimalValue(whole, frac) == v as real / 100.0
  {
    TwoDigitsValue(v % 100, frac);
    assert Pow10(|frac|) == 100;
    RealHundredths(v, DigitsValue(whole), DigitsValue(frac));
  }

  /** Two digit characters denote the number below 100 they were made from. */
  lemma {:induction false} TwoDigitsValue(r: nat, frac: string)
    requires r < 100 && frac == [DigitChar(r / 10), DigitChar(r % 10)]
    ensures DigitsValue(frac) == r
  {
    assert frac[..1] == [DigitChar(r / 10)];
    assert frac[..1][..0] == [];
    assert DigitsValue(frac[..1]) == r / 10;
  }

  lemma {:induction false} RealHundredths(v: nat, q: nat, r: nat)
    requires q == v / 100 && r == v % 100
    ensures q as real + r as real / 100 as real == v as real / 100.0
  {
    assert v == 100 * q + r;
  }

  /** `Serial.print(float)`: a negative value gets a leading minus sign. */
  function PrintHundredths(v: int): (s: string)
    ensures v >= 0 ==> ParseDecimal(s) == Some(v as real / 100.0) && IsDigit(s[0])
    ensures v < 0 ==> |s| > 1 && s[0] == '-' && s[1..] == PrintUnsigned(-v)
  {
    if v < 0 then "-" + PrintUnsigned(-v) else PrintUnsigned(v)
  }

  /** The reading line, without its terminator. */
  function ReadingLine(temperature: string, humidity: string): (line: string)
    ensures |line| == |temperature| + |humidity| + 31
  {
    TemperatureText + temperature + HumidityText + humidity + PercentText
  }

  /** Where the host finds things in a reading line: the temperature label
      at the start with the temperature text after it, the humidity label
      seven characters (`°C  |  `) after that, then the humidity text and `%`. */
  lemma {:induction false} ReadingLineLayout(temperature: string, humidity: string)
    ensures var line := ReadingLine(temperature, humidity);
            && TagAt(line, TemperatureLabel, 0)
            && line[|TemperatureLabel|..|TemperatureLabel| + |temperature|] == temperature
            && TagAt(line, HumidityLabel, |TemperatureLabel| + |temperature| + 7)
            && line[|line| - |humidity| - 1..|line| - 1] == humidity
            && line[|line| - 1] == '%'
  {
    var line := ReadingLine(temperature, humidity);
    var k := |TemperatureLabel| + |temperature|;
    assert line[..|TemperatureLabel|] == TemperatureLabel;
    assert line[|TemperatureLabel|..k] == temperature;
    assert line[k..k + |HumidityText|] == HumidityText;
    assert HumidityText[7..] == HumidityLabel;
    assert line[k + 7..k + 7 + |HumidityLabel|] == HumidityText[7..];
    assert line[|line| - |humidity| - 1..|line| - 1] == humidity;
  }

  /** Everything one iteration of `loop` writes: the failure line when
      either read failed, the labelled reading line otherwise. */
  function LoopOutput(humidity: Option<int>, temperature: Option<int>): (out: string)
    ensures |out| > |LineEnd| && out[|out| - |LineEnd|..] == LineEnd
    ensures '\n' !in out[..|out| - |LineEnd|]
  {
    if humidity.None? || temperature.None? then
      assert '\n' !in FailureMessage;
      Terminated(FailureMessage);
      FailureMessage + LineEnd
    else
      var line := ReadingLine(PrintHundredths(temperature.value), PrintHundredths(humidity.value));
      ReadingLineHasNoBreak(temperature.value, humidity.value);
      Terminated(line);
      line + LineEnd
  }

  lemma {:induction false} ReadingLineHasNoBreak(t: int, h: int)
    ensures '\n' !in ReadingLine(PrintHundredths(t), PrintHundredths(h))
  {
    PrintedHasNoBreak(t);
    PrintedHasNoBreak(h);
    TextsHaveNoBreak(PrintHundredths(t), PrintHundredths(h));
  }

  lemma {:induction false} PrintedHasNoBreak(v: int)
    ensures '\n' !in PrintHundredths(v)
  {
  }

  lemma {:induction false} TextsHaveNoBreak(t: string, h: string)
    requires '\n' !in t && '\n' !in h
    ensures '\n' !in ReadingLine(t, h)
  {
    assert '\n' !in TemperatureText && '\n' !in HumidityText && '\n' !in PercentText;
  }

  lemma {:induction false} Terminated(line: string)
    ensures (line + LineEnd)[|line + LineEnd| - |LineEnd|..] == LineEnd
    ensures (line + LineEnd)[..|line + LineEnd| - |LineEnd|] == line
  {
  }

  /** What the host sees of one iteration's output after `.strip()`. */
  lemma {:induction false} StrippedOutput(humidity: Option<int>, temperature: Option<int>)
    ensures humidity.None? || temperature.None? ==> Strip(LoopOutput(humidity, temperature)) == FailureMessage
    ensures humidity.Some? && temperature.Some? ==>
      Strip(LoopOutput(humidity, temperature))
        == ReadingLine(PrintHundredths(temperature.value), PrintHundredths(humidity.value))
  {
    if humidity.None? || temperature.None? {
      StrippedFailure(humidity, temperature);
    } else {
      StrippedReading(humidity.value, temperature.value);
    }
  }

  lemma {:induction false} StrippedFailure(humidity: Option<int>, temperature: Option<int>)
    requires humidity.None? || temperature.None?
    ensures Strip(LoopOutput(humidity, temperature)) == FailureMessage
  {
    StripTerminated(FailureMessage, LineEnd);
  }

  lemma {:induction false} StrippedReading(h: int, t: int)
    ensures Strip(LoopOutput(Some(h), Some(t))) == ReadingLine(PrintHundredths(t), PrintHundredths(h))
  {
    var line := ReadingLine(PrintHundredths(t), PrintHundredths(h));
    ReadingLineEnds(PrintHundredths(t), PrintHundredths(h));
    LineEndIsSpace();
    StripTerminated(line, LineEnd);
    assert LoopOutput(Some(h), Some(t)) == line + LineEnd;
  }

  lemma {:induction false} ReadingLineEnds(temperature: string, humidity: string)
    ensures var line := ReadingLine(temperature, humidity);
            |line| > 0 && !IsSpace(line[0]) && !IsSpace(line[|line| - 1])
  {
    var line := ReadingLine(temperature, humidity);
    assert line[0] == TemperatureText[0] == 'T';
    assert line[|line| - 1] == '%';
  }

  lemma {:induction false} LineEndIsSpace()
    ensures forall i :: 0 <= i < |LineEnd| ==> IsSpace(LineEnd[i])
  {
    assert LineEnd[0] == '\r' && LineEnd[1] == '\n';
  }

  /** In a reading line whose temperature text holds no `H`, the humidity
      capture is exactly the humidity text. */
  lemma {:induction false} HumidityFound(temperature: string, humidity: string)
    requires 'H' !in temperature
    requires |humidity| > 0 && OnlyNumChars(humidity)
    ensures IsFirstMatch(ReadingLine(temperature, humidity), HumidityLabel,
                         Match(|TemperatureText| + |temperature| + 7, humidity))
  {
    var pre := TemperatureText + temperature + "°C  |  ";
    assert HumidityText == "°C  |  " + HumidityLabel;
    assert ReadingLine(temperature, humidity) == pre + HumidityLabel + humidity + PercentText;
    assert 'H' !in pre;
    MatchAfterPrefix(pre, HumidityLabel, humidity, PercentText);
  }

  /** In a reading line whose temperature text is a `[\d\.]` run, the
      temperature capture is exactly that text. */
  lemma {:induction false} TemperatureFound(num: string, humidity: string)
    requires |num| > 0 && OnlyNumChars(num)
    ensures IsFirstMatch(ReadingLine(num, humidity), TemperatureLabel, Match(0, num))
  {
    var rest := HumidityText + humidity + PercentText;
    assert ReadingLine(num, humidity) == [] + TemperatureLabel + num + rest;
    assert rest[0] == HumidityText[0] == '°';
    MatchAfterPrefix([], TemperatureLabel, num, rest);
  }

  lemma {:induction false} NoLetters(v: int)
    ensures 'H' !in PrintHundredths(v) && 'T' !in PrintHundredths(v)
  {
  }

  /** A reading line carrying two plain decimal texts is read back as
      their values by both host variants. */
  lemma {:induction false} ReadBack(num: string, hum: string, t: real, h: real)
    requires |num| > 0 && OnlyNumChars(num) && ParseDecimal(num) == Some(t)
    requires |hum| > 0 && OnlyNumChars(hum) && ParseDecimal(hum) == Some(h)
    ensures ParseGui(ReadingLine(num, hum)) == Some(Sample(t, h))
    ensures ParseMonitor(ReadingLine(num, hum)) == Fields(Some(t), Some(h))
  {
    TemperatureFound(num, hum);
    assert 'H' !in num;
    HumidityFound(num, hum);
    ParseBothFromMatches(ReadingLine(num, hum), Match(0, num), Match(|TemperatureText| + |num| + 7, hum), t, h);
  }

  /** Round trip: a non-negative reading printed by the firmware is parsed
      back, by either host variant, to the value that was printed. */
  lemma {:induction false} RoundTrip(t: nat, h: nat)
    ensures ParseGui(Strip(LoopOutput(Some(h), Some(t))))
         == Some(Sample(t as real / 100.0, h as real / 100.0))
    ensures ParseMonitor(Strip(LoopOutput(Some(h), Some(t))))
         == Fields(Some(t as real / 100.0), Some(h as real / 100.0))
  {
    StrippedReading(h, t);
    PrintedReadBack(t, h);
  }

  /** The reading line of two non-negative readings is read back exactly. */
  lemma {:induction false} PrintedReadBack(t: nat, h: nat)
    ensures ParseGui(ReadingLine(PrintHundredths(t), PrintHundredths(h)))
         == Some(Sample(t as real / 100.0, h as real / 100.0))
    ensures ParseMonitor(ReadingLine(PrintHundredths(t), PrintHundredths(h)))
         == Fields(Some(t as real / 100.0), Some(h as real / 100.0))
  {
    var num, hum := PrintHundredths(t), PrintHundredths(h);
    assert |num| > 0 && OnlyNumChars(num) && ParseDecimal(num) == Some(t as real / 100.0) by {
      UnsignedPrinted(t);
    }
    assert |hum| > 0 && OnlyNumChars(hum) && ParseDecimal(hum) == Some(h as real / 100.0) by {
      UnsignedPrinted(h);
    }
    ReadBack(num, hum, t as real / 100.0, h as real / 100.0);
  }

  /** A negative temperature is printed with a minus sign, which the host's
      `[\d\.]+` does not accept: the GUI drops the line, the monitor keeps
      only the humidity. */
  lemma {:induction false} NegativeTemperatureDropped(t: int, h: nat)
    requires t < 0
    ensures ParseGui(Strip(LoopOutput(Some(h), Some(t)))) == None
    ensures ParseMonitor(Strip(LoopOutput(Some(h), Some(t)))) == Fields(None, Some(h as real / 100.0))
  {
    var num, hum := PrintHundredths(t), PrintHundredths(h);
    SignedPrinted(t);
    NoLetters(t);
    UnsignedPrinted(h);
    SignedLineFields(num, hum, h as real / 100.0);
    StrippedReading(h, t);
  }

  lemma {:induction false} UnsignedPrinted(v: nat)
    ensures |PrintHundredths(v)| > 0 && OnlyNumChars(PrintHundredths(v))
    ensures ParseDecimal(PrintHundredths(v)) == Some(v as real / 100.0)
  {
  }

  lemma {:induction false} SignedPrinted(t: int)
    requires t < 0
    ensures |PrintHundredths(t)| > 1 && PrintHundredths(t)[0] == '-'
  {
  }

  /** The fields of a reading line whose temperature text is signed. */
  lemma {:induction false} SignedLineFields(num: string, hum: string, h: real)
    requires |num| > 1 && num[0] == '-' && 'T' !in num && 'H' !in num
    requires |hum| > 0 && OnlyNumChars(hum) && ParseDecimal(hum) == Some(h)
    ensures ParseGui(ReadingLine(num, hum)) == None
    ensures ParseMonitor(ReadingLine(num, hum)) == Fields(None, Some(h))
  {
    var line := ReadingLine(num, hum);
    assert 'T' !in hum;
    SignedTemperatureLine(num, hum);
    HumidityFound(num, hum);
    MonitorKeepsLoneHumidity(line, Match(|TemperatureText| + |num| + 7, hum));
  }

  /** A reading line whose temperature text starts with `-` has no
      temperature match: the only `T` in it starts the label. */
  lemma {:induction false} SignedTemperatureLine(num: string, humidity: string)
    requires |num| > 0 && num[0] == '-' && 'T' !in num && 'T' !in humidity
    ensures !HasMatch(ReadingLine(num, humidity), TemperatureLabel)
  {
    var line := ReadingLine(num, humidity);
    SingleT(num, humidity);
    forall i | TagAt(line, TemperatureLabel, i) && i + |TemperatureLabel| < |line|
      ensures line[i + |TemperatureLabel|] == '-'
    {
      OnlyTagAtStart(line, TemperatureLabel, i);
    }
    SignedTemperatureRejected(line);
  }

  /** The only `T` of such a line is its first character, and the value
      text follows the label. */
  lemma {:induction false} SingleT(num: string, humidity: string)
    requires |num| > 0 && 'T' !in num && 'T' !in humidity
    ensures var line := ReadingLine(num, humidity);
            && |line| > |TemperatureLabel| && line[0] == TemperatureLabel[0]
            && TemperatureLabel[0] !in line[1..] && line[|TemperatureLabel|] == num[0]
  {
    var line := ReadingLine(num, humidity);
    var tail := TemperatureText[1..] + num + HumidityText + humidity + PercentText;
    assert 'T' !in TemperatureText[1..] && 'T' !in HumidityText && 'T' !in PercentText;
    NotInConcat('T', TemperatureText[1..], num);
    NotInConcat('T', TemperatureText[1..] + num, HumidityText);
    NotInConcat('T', TemperatureText[1..] + num + HumidityText, humidity);
    NotInConcat('T', TemperatureText[1..] + num + HumidityText + humidity, PercentText);
    assert line == [TemperatureText[0]] + tail;
    assert line[1..] == tail;
    assert line[|TemperatureLabel|] == num[0];
  }

  lemma {:induction false} NotInConcat(c: char, a: string, b: string)
    requires c !in a && c !in b
    ensures c !in a + b
  {
  }

  lemma {:induction false} OnlyTagAtStart(line: string, tag: string, i: int)
    requires |tag| > 0 && |line| > 0 && line[0] == tag[0] && tag[0] !in line[1..]
    requires TagAt(line, tag, i)
    ensures i == 0
  {
    assert line[i..i + |tag|][0] == line[i];
    assert forall j :: 1 <= j < |line| ==> line[j] == line[1..][j - 1] && line[j] != tag[0];
  }

  /** The failure line carries neither label, so neither host variant gets
      a value from it. */
  lemma {:induction false} FailureLineDropped(humidity: Option<int>, temperature: Option<int>)
    requires humidity.None? || temperature.None?
    ensures ParseGui(Strip(LoopOutput(humidity, temperature))) == None
    ensures ParseMonitor(Strip(LoopOutput(humidity, temperature))) == Fields(None, None)
  {
    StrippedOutput(humidity, temperature);
    FailureMessageUnlabelled();
    var line := Strip(LoopOutput(humidity, temperature));
    assert line == FailureMessage;
    assert Search(line, TemperatureLabel) == None && Search(line, HumidityLabel) == None;
  }

  lemma {:induction false} FailureMessageUnlabelled()
    ensures !HasMatch(FailureMessage, TemperatureLabel) && !HasMatch(FailureMessage, HumidityLabel)
  {
    assert TemperatureLabel[11] == ':' && HumidityLabel[8] == ':';
    assert ':' !in FailureMessage;
    AbsentCharNoMatch(FailureMessage, TemperatureLabel, 11);
    AbsentCharNoMatch(FailureMessage, HumidityLabel, 8);
  }
}
