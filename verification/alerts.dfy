/** The temperature alert of `SensorApp` (python/main_gui.py): `check_alerts`
    and the status bar updates it asks for through `update_status`. */
module Alerts {
  import opened Wrappers
  import opened Text
  import opened LineParser

  const AlertStatus: string := "Status: !!! TEMPERATURE ALERT !!!"
  const MonitoringStatus: string := "Status: Connected and Monitoring..."
  const InvalidThresholdStatus: string := "Status: Invalid alert threshold!"

  /** Python's `float()` on the text of a threshold entry: surrounding
      whitespace, an optional sign, then a plain decimal number. */
  function ParseThreshold(text: string): (r: Option<real>)
    ensures r.Some? ==> Strip(text) != []
  {
    ParseSigned(Strip(text))
  }

  /** An optional sign, then a plain decimal number. */
  function ParseSigned(s: string): (r: Option<real>)
    ensures r.Some? ==> s != []
    ensures |s| > 0 && s[0] == '-' ==> r == (if ParseDecimal(s[1..]).Some? then Some(-ParseDecimal(s[1..]).value) else None)
    ensures |s| > 0 && s[0] == '+' ==> r == ParseDecimal(s[1..])
    ensures |s| == 0 || (s[0] != '-' && s[0] != '+') ==> r == ParseDecimal(s)
  {
    if |s| > 0 && s[0] == '-' then
      match ParseDecimal(s[1..])
      case Some(v) => Some(-v)
      case None => None
    else if |s| > 0 && s[0] == '+' then ParseDecimal(s[1..])
    else ParseDecimal(s)
  }

  /** Like `float()`, an entry ignores whitespace around its number. */
  lemma {:induction false} ThresholdIgnoresPadding(pre: string, t: string, post: string)
    requires forall j :: 0 <= j < |pre| ==> IsSpace(pre[j])
    requires forall j :: 0 <= j < |post| ==> IsSpace(post[j])
    requires |t| > 0 && !IsSpace(t[0]) && !IsSpace(t[|t| - 1])
    ensures ParseThreshold(pre + t + post) == ParseSigned(t)
  {
    StripPadded(pre, t, post);
  }

  /** A plain decimal number is read as itself. */
  lemma {:induction false} PlainThreshold(text: string)
    requires ParseDecimal(text).Some?
    ensures ParseThreshold(text) == ParseDecimal(text)
  {
    assert |text| > 0 && IsNumChar(text[0]) && IsNumChar(text[|text| - 1]);
    assert text + [] == text;
    StripTerminated(text, []);
  }

  /** A minus sign in front of a plain decimal negates it. */
  lemma {:induction false} NegativeThreshold(digits: string)
    requires ParseDecimal(digits).Some?
    ensures ParseThreshold("-" + digits) == Some(-ParseDecimal(digits).value)
  {
    var text := "-" + digits;
    assert text[0] == '-' && text[1..] == digits;
    SignedIsStripped(digits);
    assert ParseThreshold(text) == ParseSigned(text);
  }

  lemma {:induction false} SignedIsStripped(digits: string)
    requires ParseDecimal(digits).Some?
    ensures Strip("-" + digits) == "-" + digits
  {
    var text := "-" + digits;
    assert |digits| > 0 && IsNumChar(digits[|digits| - 1]);
    assert text[|text| - 1] == digits[|digits| - 1];
    assert text + [] == text;
    StripTerminated(text, []);
  }

  /** The entries start out as "0" and "40". */
  lemma {:induction false} DefaultMinimum()
    ensures ParseThreshold("0") == Some(0.0)
  {
    ParseDigits("0");
    PlainThreshold("0");
  }

  lemma {:induction false} DefaultMaximum()
    ensures ParseThreshold("40") == Some(40.0)
  {
    var t := "40";
    assert t[..1] == "4" && t[..1][..0] == [];
    assert DigitsValue(t) == 40;
    ParseDigits(t);
    PlainThreshold(t);
  }

  /** The alert predicate `not (min_val <= current_temp <= max_val)`: the
      band is inclusive at both ends. */
  function IsAlert(temp: real, lo: real, hi: real): (r: bool)
    ensures r <==> temp < lo || temp > hi
  {
    !(lo <= temp <= hi)
  }

  /** A call `update_status(text, once)`. */
  datatype StatusRequest = StatusRequest(text: string, once: bool)

  /** What one `check_alerts` call leaves behind: the new `alert_active` and
      the status update it requested, if any. */
  datatype AlertStep = AlertStep(alertActive: bool, request: Option<StatusRequest>)

  /** The alert band, once `float()` has accepted both entries. */
  datatype Band = Band(lo: real, hi: real)

  function ReadBand(minText: string, maxText: string): (r: Option<Band>)
    ensures r.Some? <==> ParseThreshold(minText).Some? && ParseThreshold(maxText).Some?
    ensures r.Some? ==> r.value == Band(ParseThreshold(minText).value, ParseThreshold(maxText).value)
  {
    match (ParseThreshold(minText), ParseThreshold(maxText))
    case (Some(lo), Some(hi)) => Some(Band(lo, hi))
    case _ => None
  }

  /** The decision of `check_alerts` once the entries have been read. */
  function Evaluate(alertActive: bool, temp: real, band: Option<Band>): (r: AlertStep)
    ensures band.None? ==> r == AlertStep(alertActive, Some(StatusRequest(InvalidThresholdStatus, true)))
    ensures band.Some? ==>
      && r.alertActive == IsAlert(temp, band.value.lo, band.value.hi)
      && (r.request.Some? <==> r.alertActive != alertActive)
      && (r.request.Some? ==>
            r.request.value == StatusRequest(if r.alertActive then AlertStatus else MonitoringStatus, false))
  {
    match band
    case None => AlertStep(alertActive, Some(StatusRequest(InvalidThresholdStatus, true)))
    case Some(b) =>
      var isAlert := IsAlert(temp, b.lo, b.hi);
      if isAlert == alertActive then AlertStep(alertActive, None)
      else AlertStep(isAlert, Some(StatusRequest(if isAlert then AlertStatus else MonitoringStatus, false)))
  }

  /** `check_alerts(current_temp)` with the two entry texts read at that moment. */
  function CheckAlerts(alertActive: bool, temp: real, minText: string, maxText: string): (r: AlertStep)
    ensures ParseThreshold(minText).None? || ParseThreshold(maxText).None? ==>
      r == AlertStep(alertActive, Some(StatusRequest(InvalidThresholdStatus, true)))
    ensures ParseThreshold(minText).Some? && ParseThreshold(maxText).Some? ==>
      && r.alertActive == IsAlert(temp, ParseThreshold(minText).value, ParseThreshold(maxText).value)
      && (r.request.Some? <==> r.alertActive != alertActive)
      && (r.request.Some? ==>
            r.request.value == StatusRequest(if r.alertActive then AlertStatus else MonitoringStatus, false))
  {
    Evaluate(alertActive, temp, ReadBand(minText, maxText))
  }

  /** A second reading on the same side of the band as the first changes
      nothing and asks for no status update. */
  lemma {:induction false} SameSideIsQuiet(alertActive: bool, t1: real, t2: real, minText: string, maxText: string)
    requires ParseThreshold(minText).Some? && ParseThreshold(maxText).Some?
    requires var lo, hi := ParseThreshold(minText).value, ParseThreshold(maxText).value;
             IsAlert(t1, lo, hi) == IsAlert(t2, lo, hi)
    ensures var s1 := CheckAlerts(alertActive, t1, minText, maxText);
            CheckAlerts(s1.alertActive, t2, minText, maxText) == AlertStep(s1.alertActive, None)
  {
  }

  /** Feeding readings one by one with fixed entries: the final
      `alert_active` and the status updates asked for on the way. */
  function CheckAll(alertActive: bool, temps: seq<real>, band: Option<Band>): (r: (bool, seq<StatusRequest>))
    decreases |temps|
  {
    if |temps| == 0 then (alertActive, [])
    else
      var step := Evaluate(alertActive, temps[0], band);
      var rest := CheckAll(step.alertActive, temps[1..], band);
      (rest.0, (if step.request.Some? then [step.request.value] else []) + rest.1)
  }

  /** Number of times the alert predicate flips along `temps`, starting from `prev`. */
  function Flips(prev: bool, temps: seq<real>, lo: real, hi: real): nat
    decreases |temps|
  {
    if |temps| == 0 then 0
    else (if IsAlert(temps[0], lo, hi) != prev then 1 else 0) + Flips(IsAlert(temps[0], lo, hi), temps[1..], lo, hi)
  }

  /** With valid thresholds, one status update is asked for per flip of the
      predicate (entering or clearing the alert), and none otherwise; the
      final state is the predicate on the last reading. */
  lemma {:induction false} OneUpdatePerFlip(alertActive: bool, temps: seq<real>, lo: real, hi: real)
    ensures |CheckAll(alertActive, temps, Some(Band(lo, hi))).1| == Flips(alertActive, temps, lo, hi)
    ensures |temps| > 0 ==> CheckAll(alertActive, temps, Some(Band(lo, hi))).0 == IsAlert(temps[|temps| - 1], lo, hi)
    decreases |temps|
  {
    if |temps| > 0 {
      var step := Evaluate(alertActive, temps[0], Some(Band(lo, hi)));
      OneUpdatePerFlip(step.alertActive, temps[1..], lo, hi);
      if |temps| > 1 {
        assert temps[1..][|temps[1..]| - 1] == temps[|temps| - 1];
      }
    }
  }

  /** With valid thresholds the only updates asked for are the alert and
      the back-to-monitoring texts, never with `once`. */
  lemma {:induction false} OnlyAlertUpdates(alertActive: bool, temps: seq<real>, b: Band)
    ensures forall q :: q in CheckAll(alertActive, temps, Some(b)).1 ==>
      q.text in {AlertStatus, MonitoringStatus} && !q.once
    decreases |temps|
  {
    if |temps| > 0 {
      var step := Evaluate(alertActive, temps[0], Some(b));
      OnlyAlertUpdates(step.alertActive, temps[1..], b);
    }
  }

  /** With an invalid threshold nothing changes but the status request. */
  lemma {:induction false} InvalidThresholdFreezes(alertActive: bool, temps: seq<real>)
    ensures CheckAll(alertActive, temps, None).0 == alertActive
    ensures forall q :: q in CheckAll(alertActive, temps, None).1 ==>
      q == StatusRequest(InvalidThresholdStatus, true)
    decreases |temps|
  {
    if |temps| > 0 {
      InvalidThresholdFreezes(alertActive, temps[1..]);
    }
  }

  /** `update_status(text, once)` once it runs on the GUI thread. `shown`
      lists every text the status bar has been set to, the displayed one
      last; an update with `once` set is skipped when its text is already
      displayed. */
  function UpdateStatus(shown: seq<string>, req: StatusRequest): (r: seq<string>)
    requires |shown| > 0
    ensures |r| > 0 && r[|r| - 1] == req.text
    ensures shown <= r && |r| <= |shown| + 1
    ensures |r| == |shown| <==> req.once && shown[|shown| - 1] == req.text
    ensures r == shown || r == shown + [req.text]
  {
    if req.once && shown[|shown| - 1] == req.text then shown else shown + [req.text]
  }

  /** A repeated `once` update writes the status bar only the first time. */
  lemma {:induction false} OnceIsIdempotent(shown: seq<string>, req: StatusRequest)
    requires |shown| > 0 && req.once
    ensures UpdateStatus(UpdateStatus(shown, req), req) == UpdateStatus(shown, req)
  {
  }
}
