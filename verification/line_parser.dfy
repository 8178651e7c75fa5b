/** The host's line protocol parser: the two `parse_data` variants
    (python/main_gui.py and python/live_monitor.py). Both run
    `re.search(r"Temperature: ([\d\.]+)", line)` and
    `re.search(r"Humidity: ([\d\.]+)", line)` and convert each captured group
    with `float()`. `\d` is taken as the ASCII digits. */
module LineParser {
  import opened Wrappers
  import opened Text

  const TemperatureLabel: string := "Temperature: "
  const HumidityLabel: string := "Humidity: "

  /** A character of the class `[\d\.]`. */
  predicate IsNumChar(c: char) {
    IsDigit(c) || c == '.'
  }

  predicate OnlyNumChars(s: string) {
    forall i :: 0 <= i < |s| ==> IsNumChar(s[i])
  }

  /** The literal text `tag` occurs at index `i`. */
  predicate TagAt(line: string, tag: string, i: int) {
    0 <= i && i + |tag| <= |line| && line[i..i + |tag|] == tag
  }

  /** The pattern `tag([\d\.]+)` can start matching at index `i`: the tag
      is there and at least one `[\d\.]` character follows it. */
  predicate MatchAt(line: string, tag: string, i: int) {
    TagAt(line, tag, i) && i + |tag| < |line| && IsNumChar(line[i + |tag|])
  }

  ghost predicate HasMatch(line: string, tag: string) {
    exists i :: MatchAt(line, tag, i)
  }

  /** `g` is the greedy `[\d\.]+` run of `line` starting at index `k`. */
  predicate IsMaximalRun(line: string, k: nat, g: string) {
    && k + |g| <= |line|
    && line[k..k + |g|] == g
    && OnlyNumChars(g)
    && (k + |g| == |line| || !IsNumChar(line[k + |g|]))
  }

  /** A regex match object: where the match starts and its group 1. */
  datatype Match = Match(start: nat, group: string)

  /** `m` is what `re.search` returns: the leftmost match, with the greedy capture. */
  ghost predicate IsFirstMatch(line: string, tag: string, m: Match) {
    && MatchAt(line, tag, m.start)
    && (forall j :: 0 <= j < m.start ==> !MatchAt(line, tag, j))
    && IsMaximalRun(line, m.start + |tag|, m.group)
  }

  /** End index of the `[\d\.]` run starting at `k`. */
  function RunEnd(line: string, k: nat): (e: nat)
    requires k <= |line|
    ensures k <= e <= |line|
    ensures forall j :: k <= j < e ==> IsNumChar(line[j])
    ensures e == |line| || !IsNumChar(line[e])
    decreases |line| - k
  {
    if k == |line| || !IsNumChar(line[k]) then k else RunEnd(line, k + 1)
  }

  /** Leftmost index at or after `i` where the pattern matches. */
  function FindFrom(line: string, tag: string, i: nat): (r: Option<nat>)
    ensures r.Some? ==> i <= r.value && MatchAt(line, tag, r.value)
    ensures r.Some? ==> forall j :: i <= j < r.value ==> !MatchAt(line, tag, j)
    ensures r.None? ==> forall j :: i <= j ==> !MatchAt(line, tag, j)
    decreases |line| - i
  {
    if i + |tag| >= |line| then None
    else if MatchAt(line, tag, i) then Some(i)
    else FindFrom(line, tag, i + 1)
  }

  /** `re.search(tag + r"([\d\.]+)", line)`. */
  function Search(line: string, tag: string): (r: Option<Match>)
    ensures r.Some? ==> IsFirstMatch(line, tag, r.value) && |r.value.group| >= 1
    ensures r.None? <==> !HasMatch(line, tag)
  {
    match FindFrom(line, tag, 0)
    case None => None
    case Some(i) =>
      var k := i + |tag|;
      Some(Match(i, line[k..RunEnd(line, k)]))
  }

  /** The leftmost-greedy match is unique, so `IsFirstMatch` pins down the
      result of `Search`. */
  lemma {:induction false} FirstMatchUnique(line: string, tag: string, m1: Match, m2: Match)
    requires IsFirstMatch(line, tag, m1) && IsFirstMatch(line, tag, m2)
    ensures m1 == m2
  {
    assert m1.start == m2.start;
    var k := m1.start + |tag|;
    RunIsNumChars(line, k, m1.group);
    RunIsNumChars(line, k, m2.group);
    assert |m1.group| == |m2.group|;
  }

  lemma {:induction false} RunIsNumChars(line: string, k: nat, g: string)
    requires IsMaximalRun(line, k, g)
    ensures forall j :: k <= j < k + |g| ==> IsNumChar(line[j])
  {
    assert forall j :: k <= j < k + |g| ==> line[j] == g[j - k];
  }

  lemma {:induction false} SearchIsFirstMatch(line: string, tag: string, m: Match)
    requires IsFirstMatch(line, tag, m)
    ensures Search(line, tag) == Some(m)
  {
    var r := Search(line, tag);
    assert HasMatch(line, tag);
    FirstMatchUnique(line, tag, r.value, m);
  }

  /** The text before the first occurrence of a dot (all of `s` when there is none). */
  function FirstDot(s: string): (k: nat)
    ensures k <= |s|
    ensures k < |s| ==> s[k] == '.'
    ensures forall j :: 0 <= j < k ==> s[j] != '.'
  {
    if |s| == 0 || s[0] == '.' then 0
    else
      var k := 1 + FirstDot(s[1..]);
      assert forall j :: 1 <= j < k ==> s[j] == s[1..][j - 1];
      k
  }

  /** Python's `float()` on a string. Only strings built of `[\d\.]` are
      ever passed to it here (regex captures), and on those `float()`
      accepts exactly one optional dot with at least one digit around it. */
  function ParseDecimal(s: string): (r: Option<real>)
    ensures r.Some? ==> OnlyNumChars(s) && r.value >= 0.0
    ensures OnlyNumChars(s) ==> (r.Some? <==> Count(s, '.') <= 1 && Count(s, '.') < |s|)
  {
    var k := FirstDot(s);
    var whole := s[..k];
    var frac := if k < |s| then s[k + 1..] else [];
    DecimalShape(s, k, whole, frac);
    if AllDigits(whole) && AllDigits(frac) && |whole| + |frac| > 0 then
      Some(DecimalValue(whole, frac))
    else None
  }

  /** The number `whole.frac` denotes. */
  function DecimalValue(whole: string, frac: string): real
    requires AllDigits(whole) && AllDigits(frac)
  {
    DigitsValue(whole) as real + DigitsValue(frac) as real / Pow10(|frac|) as real
  }

  /** Among `[\d\.]` strings, the all-digit ones are those without a dot. */
  lemma {:induction false} DigitsIffNoDot(x: string)
    requires OnlyNumChars(x)
    ensures AllDigits(x) <==> Count(x, '.') == 0
  {
    CountZero(x, '.');
  }

  /** How the split at the first dot relates to the dot count. */
  lemma {:induction false} DecimalShape(s: string, k: nat, whole: string, frac: string)
    requires k <= |s| && (k < |s| ==> s[k] == '.') && (forall j :: 0 <= j < k ==> s[j] != '.')
    requires whole == s[..k] && frac == (if k < |s| then s[k + 1..] else [])
    ensures AllDigits(whole) && AllDigits(frac) ==> OnlyNumChars(s)
    ensures OnlyNumChars(s) ==>
      (AllDigits(whole) && AllDigits(frac) && |whole| + |frac| > 0 <==> Count(s, '.') <= 1 && Count(s, '.') < |s|)
  {
    var dot: string := if k < |s| then [s[k]] else [];
    SplitAtDot(s, k, whole, dot, frac);
    if OnlyNumChars(s) {
      PartsAreNumChars(s, whole, dot, frac);
      DigitsIffNoDot(whole);
      DigitsIffNoDot(frac);
    }
    if AllDigits(whole) && AllDigits(frac) {
      assert forall j :: 0 <= j < |s| ==> s[j] == (whole + dot + frac)[j];
    }
  }

  /** The split at the first dot, and how it counts dots. */
  lemma {:induction false} SplitAtDot(s: string, k: nat, whole: string, dot: string, frac: string)
    requires k <= |s| && (k < |s| ==> s[k] == '.') && (forall j :: 0 <= j < k ==> s[j] != '.')
    requires whole == s[..k] && frac == (if k < |s| then s[k + 1..] else [])
    requires dot == if k < |s| then [s[k]] else []
    ensures s == whole + dot + frac
    ensures Count(s, '.') == |dot| + Count(frac, '.') && |s| == |whole| + |dot| + |frac|
  {
    if k < |s| {
      assert s == s[..k] + [s[k]] + s[k + 1..];
    } else {
      assert s == s[..k];
    }
    CountParts(whole, dot, frac);
  }

  lemma {:induction false} CountParts(whole: string, dot: string, frac: string)
    requires (forall j :: 0 <= j < |whole| ==> whole[j] != '.')
    requires dot == [] || dot == ['.']
    ensures Count(whole + dot + frac, '.') == |dot| + Count(frac, '.')
  {
    CountAppend(whole + dot, frac, '.');
    CountAppend(whole, dot, '.');
    CountZero(whole, '.');
    assert Count(dot, '.') == |dot|;
  }

  lemma {:induction false} PartsAreNumChars(s: string, whole: string, dot: string, frac: string)
    requires s == whole + dot + frac && OnlyNumChars(s)
    ensures OnlyNumChars(whole) && OnlyNumChars(frac)
  {
    assert forall j :: 0 <= j < |whole| ==> whole[j] == s[j];
    assert forall j :: 0 <= j < |frac| ==> frac[j] == s[|whole| + |dot| + j];
  }

  /** A digit string denotes its integer value. */
  lemma {:induction false} ParseDigits(ds: string)
    requires |ds| > 0 && AllDigits(ds)
    ensures ParseDecimal(ds) == Some(DigitsValue(ds) as real)
  {
    var k := FirstDot(ds);
    assert forall j :: 0 <= j < |ds| ==> ds[j] != '.';
    assert k == |ds|;
    assert ds[..k] == ds;
    assert DecimalValue(ds, []) == DigitsValue(ds) as real;
  }

  /** `whole.frac` denotes `whole + frac / 10^|frac|`. */
  lemma {:induction false} ParseFraction(whole: string, frac: string)
    requires AllDigits(whole) && AllDigits(frac) && |whole| + |frac| > 0
    ensures ParseDecimal(whole + "." + frac) == Some(DecimalValue(whole, frac))
  {
    var s := whole + "." + frac;
    var k := FirstDot(s);
    assert forall j :: 0 <= j < |whole| ==> s[j] == whole[j] && s[j] != '.';
    assert s[|whole|] == '.';
    assert k == |whole|;
    assert s[..k] == whole;
    assert s[k + 1..] == frac;
  }

  /** The reading pair both variants produce. */
  datatype Sample = Sample(temperature: real, humidity: real)

  /** `SensorApp.parse_data` (python/main_gui.py): any missing match
      (`AttributeError`) or rejected capture (`ValueError`) gives `(None, None)`. */
  function ParseGui(line: string): (r: Option<Sample>)
    ensures r.Some? ==> HasMatch(line, TemperatureLabel) && HasMatch(line, HumidityLabel)
    ensures r.Some? ==> r.value.temperature >= 0.0 && r.value.humidity >= 0.0
  {
    var tm := Search(line, TemperatureLabel);
    var hm := Search(line, HumidityLabel);
    if tm.None? || hm.None? then None
    else
      match (ParseDecimal(tm.value.group), ParseDecimal(hm.value.group))
      case (Some(t), Some(h)) => Some(Sample(t, h))
      case _ => None
  }

  /** Given the two leftmost matches, the GUI parser returns their converted
      captures exactly when both convert, and nothing otherwise. */
  lemma {:induction false} ParseGuiFromMatches(line: string, mt: Match, mh: Match)
    requires IsFirstMatch(line, TemperatureLabel, mt)
    requires IsFirstMatch(line, HumidityLabel, mh)
    ensures ParseGui(line).Some? <==> ParseDecimal(mt.group).Some? && ParseDecimal(mh.group).Some?
    ensures ParseGui(line).Some? ==>
      ParseGui(line).value == Sample(ParseDecimal(mt.group).value, ParseDecimal(mh.group).value)
  {
    SearchIsFirstMatch(line, TemperatureLabel, mt);
    SearchIsFirstMatch(line, HumidityLabel, mh);
  }

  /** Both variants return the converted captures of the two leftmost matches. */
  lemma {:induction false} ParseBothFromMatches(line: string, mt: Match, mh: Match, t: real, h: real)
    requires IsFirstMatch(line, TemperatureLabel, mt) && ParseDecimal(mt.group) == Some(t)
    requires IsFirstMatch(line, HumidityLabel, mh) && ParseDecimal(mh.group) == Some(h)
    ensures ParseGui(line) == Some(Sample(t, h))
    ensures ParseMonitor(line) == Fields(Some(t), Some(h))
  {
    SearchIsFirstMatch(line, TemperatureLabel, mt);
    SearchIsFirstMatch(line, HumidityLabel, mh);
  }

  /** A temperature written with a leading `-` never matches `[\d\.]+`: if
      every occurrence of the temperature tag is followed by `-`, there is
      no reading. */
  lemma {:induction false} SignedTemperatureRejected(line: string)
    requires forall i :: TagAt(line, TemperatureLabel, i) && i + |TemperatureLabel| < |line|
               ==> line[i + |TemperatureLabel|] == '-'
    ensures !HasMatch(line, TemperatureLabel)
    ensures ParseGui(line) == None
  {
  }

  /** What `parse_data` in python/live_monitor.py returns: each field is
      converted on its own, but a `ValueError` from either conversion
      turns the whole result into `(None, None)`. */
  datatype Fields = Fields(temperature: Option<real>, humidity: Option<real>)

  function ParseMonitor(line: string): (r: Fields)
    ensures r.temperature.Some? ==> HasMatch(line, TemperatureLabel) && r.temperature.value >= 0.0
    ensures r.humidity.Some? ==> HasMatch(line, HumidityLabel) && r.humidity.value >= 0.0
  {
    var tm := Search(line, TemperatureLabel);
    var hm := Search(line, HumidityLabel);
    var t := if tm.Some? then ParseDecimal(tm.value.group) else None;
    var h := if hm.Some? then ParseDecimal(hm.value.group) else None;
    if (tm.Some? && t.None?) || (hm.Some? && h.None?) then Fields(None, None)
    else Fields(t, h)
  }

  /** The two variants agree whenever a full reading is present: the GUI
      parser yields a pair exactly when the monitor parser yields both fields,
      and then the same values. */
  lemma {:induction false} GuiAgreesWithMonitor(line: string)
    ensures ParseGui(line).Some?
        <==> ParseMonitor(line).temperature.Some? && ParseMonitor(line).humidity.Some?
    ensures ParseGui(line).Some? ==>
      ParseMonitor(line) == Fields(Some(ParseGui(line).value.temperature), Some(ParseGui(line).value.humidity))
  {
  }

  /** Where the variants differ: a line with a valid temperature and no
      humidity match gives the monitor a half reading and the GUI nothing. */
  lemma {:induction false} MonitorKeepsLoneTemperature(line: string, mt: Match)
    requires IsFirstMatch(line, TemperatureLabel, mt) && ParseDecimal(mt.group).Some?
    requires !HasMatch(line, HumidityLabel)
    ensures ParseMonitor(line) == Fields(Some(ParseDecimal(mt.group).value), None)
    ensures ParseGui(line) == None
  {
    SearchIsFirstMatch(line, TemperatureLabel, mt);
  }

  /** Symmetric case: a valid humidity and no temperature match. */
  lemma {:induction false} MonitorKeepsLoneHumidity(line: string, mh: Match)
    requires IsFirstMatch(line, HumidityLabel, mh) && ParseDecimal(mh.group).Some?
    requires !HasMatch(line, TemperatureLabel)
    ensures ParseMonitor(line) == Fields(None, Some(ParseDecimal(mh.group).value))
    ensures ParseGui(line) == None
  {
    SearchIsFirstMatch(line, HumidityLabel, mh);
  }

  /** A leftmost capture that `float()` rejects (`.`, `1.2.3`) under either
      tag empties both variants' results: never a half reading. */
  lemma {:induction false} RejectedCaptureEmptiesBoth(line: string, tag: string, m: Match)
    requires tag == TemperatureLabel || tag == HumidityLabel
    requires IsFirstMatch(line, tag, m) && ParseDecimal(m.group).None?
    ensures ParseMonitor(line) == Fields(None, None)
    ensures ParseGui(line) == None
  {
    SearchIsFirstMatch(line, tag, m);
  }

  /** If some character of the tag never occurs in the line, nothing matches. */
  lemma {:induction false} AbsentCharNoMatch(line: string, tag: string, k: nat)
    requires k < |tag| && tag[k] !in line
    ensures !HasMatch(line, tag)
  {
    forall i: int
      ensures !TagAt(line, tag, i)
    {
      if 0 <= i && i + |tag| <= |line| {
        assert line[i..i + |tag|][k] == line[i + k];
      }
    }
  }

  /** A line `pre + tag + num + rest` in which `pre` cannot start a tag
      and `rest` does not continue the number has its leftmost match right
      after `pre`, capturing exactly `num`. */
  lemma {:induction false} MatchAfterPrefix(pre: string, tag: string, num: string, rest: string)
    requires |tag| > 0 && tag[0] !in pre
    requires |num| > 0 && OnlyNumChars(num)
    requires rest == [] || !IsNumChar(rest[0])
    ensures IsFirstMatch(pre + tag + num + rest, tag, Match(|pre|, num))
  {
    var line := pre + tag + num + rest;
    var k := |pre| + |tag|;
    assert line[|pre|..k] == tag;
    assert line[k..k + |num|] == num;
    assert line[k] == num[0];
    if k + |num| < |line| {
      assert line[k + |num|] == rest[0];
    }
    forall j | 0 <= j < |pre|
      ensures line[j] != tag[0]
    {
      assert line[j] == pre[j];
    }
    forall j | TagAt(line, tag, j)
      ensures line[j] == tag[0]
    {
      assert line[j..j + |tag|][0] == line[j];
    }
  }
}
