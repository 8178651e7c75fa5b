/** The state of the desktop application `SensorApp` (python/main_gui.py):
    start and stop, the readings the serial thread accepts, the bounded
    live series, the temperature alert with its status bar, and the CSV
    ledger.

    The serial thread and the GUI thread are flattened into one sequence of
    events: work the serial thread hands to the GUI thread with
    `root.after(0, ...)` happens at once. The clock, the timestamp text,
    whether the ledger could be opened, and the `.2f` formatting of a value
    are inputs of each event. */
module SensorApp {
  import opened Wrappers
  import opened Text
  import opened LineParser
  import opened LiveWindow
  import opened Alerts
  import opened Ledger

  const IdleStatus: string := "Status: Idle. Press 'Start Monitoring' to begin."
  const StartingStatus: string := "Status: Connecting to Arduino..."
  const StoppedStatus: string := "Status: Monitoring stopped."
  const ConnectingStatus: string := "Status: Connecting to /dev/ttyUSB0..."
  const LostStatus: string := "Status: Connection Lost! Reconnecting..."

  /** `timestamps`, `temps` and `hums` are the three bounded deques; a time
      is a clock reading. `minText` and `maxText` are the threshold entries,
      `shown` the texts the status bar has displayed, the current one last. */
  datatype App = App(
    monitoring: bool,
    alertActive: bool,
    timestamps: seq<int>,
    temps: seq<real>,
    hums: seq<real>,
    minText: string,
    maxText: string,
    shown: seq<string>)

  predicate Valid(a: App) {
    && |a.timestamps| == |a.temps| == |a.hums|
    && |a.temps| <= MaxDataPoints
    && |a.shown| > 0
  }

  /** `SensorApp.__init__`: idle, no alert, empty series, entries "0" and "40". */
  function Init(): (a: App)
    ensures Valid(a) && !a.monitoring && !a.alertActive
    ensures a.temps == [] && a.shown == [IdleStatus]
    ensures ParseThreshold(a.minText) == Some(0.0) && ParseThreshold(a.maxText) == Some(40.0)
  {
    DefaultMinimum();
    DefaultMaximum();
    App(false, false, [], [], [], "0", "40", [IdleStatus])
  }

  /** `start_monitoring`: the series are cleared, but `alert_active` keeps
      the value the previous session left. */
  function StartMonitoring(a: App): (r: App)
    requires Valid(a)
    ensures Valid(r) && r.monitoring
    ensures r.timestamps == [] && r.temps == [] && r.hums == []
    ensures r.alertActive == a.alertActive && r.minText == a.minText && r.maxText == a.maxText
    ensures a.shown <= r.shown && r.shown[|r.shown| - 1] == StartingStatus
  {
    App(true, a.alertActive, [], [], [], a.minText, a.maxText,
        UpdateStatus(a.shown, StatusRequest(StartingStatus, false)))
  }

  /** `stop_monitoring`: the series stay as they are for the last graph. */
  function StopMonitoring(a: App): (r: App)
    requires Valid(a)
    ensures Valid(r) && !r.monitoring
    ensures r.timestamps == a.timestamps && r.temps == a.temps && r.hums == a.hums
    ensures r.alertActive == a.alertActive
    ensures a.shown <= r.shown && r.shown[|r.shown| - 1] == StoppedStatus
  {
    a.(monitoring := false, shown := UpdateStatus(a.shown, StatusRequest(StoppedStatus, false)))
  }

  /** What the serial thread sees: a line read from the port (with the clock
      and timestamp text at that moment, and whether the ledger could be
      opened), or a change of the connection. */
  datatype Event =
    | Received(raw: string, clock: int, stamp: string, ok: bool)
    | Connecting
    | Connected
    | Lost

  /** The two application objects a reading touches. */
  datatype State = State(app: App, file: CsvFile)

  /** `line = ....strip()`, `if line:`, then `parse_data(line)`. */
  function ParseLine(raw: string): (r: Option<Sample>)
    ensures r.Some? ==> Strip(raw) != [] && r == ParseGui(Strip(raw))
    ensures ParseGui(Strip(raw)).Some? ==> r.Some?
  {
    var line := Strip(raw);
    if line == [] then None else ParseGui(line)
  }

  /** The three `append` calls of `process_sensor_data`. */
  function PushReading(a: App, clock: int, temp: real, hum: real): (r: App)
    requires Valid(a)
    ensures Valid(r)
    ensures r.temps == Last(a.temps + [temp], MaxDataPoints)
    ensures r.hums == Last(a.hums + [hum], MaxDataPoints)
    ensures r.timestamps == Last(a.timestamps + [clock], MaxDataPoints)
    ensures r.(timestamps := a.timestamps, temps := a.temps, hums := a.hums) == a
  {
    a.(timestamps := Append(a.timestamps, clock, MaxDataPoints),
       temps := Append(a.temps, temp, MaxDataPoints),
       hums := Append(a.hums, hum, MaxDataPoints))
  }

  /** `check_alerts(temp)` on the GUI thread, with the status update it asks for. */
  function ApplyAlert(a: App, temp: real): (r: App)
    requires Valid(a)
    ensures Valid(r)
    ensures r.alertActive == Evaluate(a.alertActive, temp, ReadBand(a.minText, a.maxText)).alertActive
    ensures a.shown <= r.shown
    ensures r.(alertActive := a.alertActive, shown := a.shown) == a
    ensures var st := Evaluate(a.alertActive, temp, ReadBand(a.minText, a.maxText));
            && (st.request.None? ==> r.shown == a.shown)
            && (st.request.Some? ==> r.shown == UpdateStatus(a.shown, st.request.value))
  {
    var step := Evaluate(a.alertActive, temp, ReadBand(a.minText, a.maxText));
    var shown := if step.request.Some? then UpdateStatus(a.shown, step.request.value) else a.shown;
    a.(alertActive := step.alertActive, shown := shown)
  }

  /** What the status bar shows after `check_alerts`: the alert text when
      the alert starts, the monitoring text when it clears, nothing new while
      the state stays, and the invalid-threshold text unless it is already
      displayed. */
  lemma {:induction false} AlertStatusShown(a: App, temp: real)
    requires Valid(a)
    ensures var r := ApplyAlert(a, temp);
            r.alertActive != a.alertActive ==>
              r.shown == a.shown + [if r.alertActive then AlertStatus else MonitoringStatus]
    ensures var r := ApplyAlert(a, temp);
            ReadBand(a.minText, a.maxText).Some? && r.alertActive == a.alertActive ==> r.shown == a.shown
    ensures ReadBand(a.minText, a.maxText).None? ==>
      ApplyAlert(a, temp).shown
        == (if a.shown[|a.shown| - 1] == InvalidThresholdStatus then a.shown else a.shown + [InvalidThresholdStatus])
  {
    var band := ReadBand(a.minText, a.maxText);
    var st := Evaluate(a.alertActive, temp, band);
    var r := ApplyAlert(a, temp);
    if band.None? {
      assert st.request == Some(StatusRequest(InvalidThresholdStatus, true));
      assert r.shown == UpdateStatus(a.shown, StatusRequest(InvalidThresholdStatus, true));
    } else if st.request.Some? {
      assert r.shown == UpdateStatus(a.shown, st.request.value);
      assert !st.request.value.once;
    }
  }

  /** `process_sensor_data(temp, humidity)` together with the `check_alerts`
      it schedules: the reading goes into the three deques, the alert is
      re-evaluated against the entries, and the row
      `(timestamp, f"{temp:.2f}", f"{humidity:.2f}")` is logged. */
  function ProcessSensorData(s: State, temp: real, hum: real, clock: int, stamp: string,
                             ok: bool, fixed2: real -> string): (r: State)
    requires Valid(s.app)
    ensures Valid(r.app) && r.app.monitoring == s.app.monitoring
    ensures r.app.minText == s.app.minText && r.app.maxText == s.app.maxText
    ensures r.app.temps == Last(s.app.temps + [temp], MaxDataPoints)
    ensures r.app.hums == Last(s.app.hums + [hum], MaxDataPoints)
    ensures r.app.timestamps == Last(s.app.timestamps + [clock], MaxDataPoints)
    ensures s.app.shown <= r.app.shown
    ensures var st := Evaluate(s.app.alertActive, temp, ReadBand(s.app.minText, s.app.maxText));
            && r.app.alertActive == st.alertActive
            && (st.request.None? ==> r.app.shown == s.app.shown)
            && (st.request.Some? ==> r.app.shown == UpdateStatus(s.app.shown, st.request.value))
    ensures r.file == LogToCsv(s.file, [stamp, fixed2(temp), fixed2(hum)], ok)
  {
    State(ApplyAlert(PushReading(s.app, clock, temp, hum), temp),
          LogToCsv(s.file, [stamp, fixed2(temp), fixed2(hum)], ok))
  }

  /** One iteration of `serial_worker`'s loop. While monitoring is off the
      thread has ended and nothing happens. */
  function Step(s: State, ev: Event, fixed2: real -> string): (r: State)
    requires Valid(s.app)
    ensures Valid(r.app) && r.app.monitoring == s.app.monitoring
    ensures r.app.minText == s.app.minText && r.app.maxText == s.app.maxText
    ensures !s.app.monitoring ==> r == s
    ensures ev.Received? && ParseLine(ev.raw).None? ==> r == s
    ensures !(ev.Received? && ParseLine(ev.raw).Some?) ==>
      && r.app.temps == s.app.temps && r.app.hums == s.app.hums && r.app.timestamps == s.app.timestamps
      && r.app.alertActive == s.app.alertActive && r.file == s.file
    ensures s.app.monitoring && ev.Received? && ParseLine(ev.raw).Some? ==>
      var x := ParseLine(ev.raw).value;
      r == ProcessSensorData(s, x.temperature, x.humidity, ev.clock, ev.stamp, ev.ok, fixed2)
  {
    if !s.app.monitoring then s
    else
      match ev
      case Received(raw, clock, stamp, ok) =>
        (match ParseLine(raw)
         case None => s
         case Some(sample) =>
           ProcessSensorData(s, sample.temperature, sample.humidity, clock, stamp, ok, fixed2))
      case Connecting =>
        s.(app := s.app.(shown := UpdateStatus(s.app.shown, StatusRequest(ConnectingStatus, false))))
      case Connected =>
        s.(app := s.app.(shown := UpdateStatus(s.app.shown, StatusRequest(MonitoringStatus, false))))
      case Lost =>
        s.(app := s.app.(shown := UpdateStatus(s.app.shown, StatusRequest(LostStatus, false))))
  }

  /** `serial_worker` over a sequence of events; once monitoring is off the
      thread is gone and the events change nothing. */
  function Run(s: State, evs: seq<Event>, fixed2: real -> string): (r: State)
    requires Valid(s.app)
    ensures Valid(r.app) && r.app.monitoring == s.app.monitoring
    ensures r.app.minText == s.app.minText && r.app.maxText == s.app.maxText
    ensures !s.app.monitoring ==> r == s
    decreases |evs|
  {
    if |evs| == 0 then s else Run(Step(s, evs[0], fixed2), evs[1..], fixed2)
  }

  /** An accepted line: its reading and the inputs of the event it came in. */
  datatype Reading = Reading(sample: Sample, clock: int, stamp: string, ok: bool)

  function Accepted(ev: Event): (r: Option<Reading>)
    ensures r.Some? <==> ev.Received? && ParseLine(ev.raw).Some?
    ensures r.Some? ==> r.value == Reading(ParseLine(ev.raw).value, ev.clock, ev.stamp, ev.ok)
  {
    if ev.Received? && ParseLine(ev.raw).Some? then
      Some(Reading(ParseLine(ev.raw).value, ev.clock, ev.stamp, ev.ok))
    else None
  }

  /** The readings the events carry, in order. */
  function Readings(evs: seq<Event>): seq<Reading>
    decreases |evs|
  {
    if |evs| == 0 then []
    else (if Accepted(evs[0]).Some? then [Accepted(evs[0]).value] else []) + Readings(evs[1..])
  }

  /** `process_sensor_data` on each reading in turn. */
  function Feed(s: State, rs: seq<Reading>, fixed2: real -> string): (r: State)
    requires Valid(s.app)
    ensures Valid(r.app)
    ensures r.app.minText == s.app.minText && r.app.maxText == s.app.maxText
    decreases |rs|
  {
    if |rs| == 0 then s
    else
      var x := rs[0];
      Feed(ProcessSensorData(s, x.sample.temperature, x.sample.humidity, x.clock, x.stamp, x.ok, fixed2),
           rs[1..], fixed2)
  }

  /** The parts of the state the readings determine. */
  predicate SameData(s: State, t: State) {
    && s.app.temps == t.app.temps && s.app.hums == t.app.hums && s.app.timestamps == t.app.timestamps
    && s.app.alertActive == t.app.alertActive && s.file == t.file
  }

  /** While monitoring, the series, the alert and the ledger depend only on
      the accepted readings: connection changes and rejected lines leave
      them alone. */
  lemma {:induction false} RunIsFeed(s: State, evs: seq<Event>, fixed2: real -> string)
    requires Valid(s.app) && s.app.monitoring
    ensures SameData(Run(s, evs, fixed2), Feed(s, Readings(evs), fixed2))
    decreases |evs|
  {
    if |evs| > 0 {
      var ev := evs[0];
      var s' := Step(s, ev, fixed2);
      RunIsFeed(s', evs[1..], fixed2);
      if Accepted(ev).Some? {
        var x := Accepted(ev).value;
        assert Readings(evs) == [x] + Readings(evs[1..]);
        assert ([x] + Readings(evs[1..]))[1..] == Readings(evs[1..]);
      } else {
        assert Readings(evs) == Readings(evs[1..]);
        FeedSameData(s, s', Readings(evs[1..]), fixed2);
      }
    }
  }

  /** States that agree on their data and thresholds stay in agreement
      under the same readings. */
  lemma {:induction false} FeedSameData(s: State, t: State, rs: seq<Reading>, fixed2: real -> string)
    requires Valid(s.app) && Valid(t.app) && SameData(s, t)
    requires s.app.minText == t.app.minText && s.app.maxText == t.app.maxText
    ensures SameData(Feed(s, rs, fixed2), Feed(t, rs, fixed2))
    decreases |rs|
  {
    if |rs| > 0 {
      var x := rs[0];
      FeedSameData(
        ProcessSensorData(s, x.sample.temperature, x.sample.humidity, x.clock, x.stamp, x.ok, fixed2),
        ProcessSensorData(t, x.sample.temperature, x.sample.humidity, x.clock, x.stamp, x.ok, fixed2),
        rs[1..], fixed2);
    }
  }

  function Temps(rs: seq<Reading>): (r: seq<real>)
    ensures |r| == |rs| && forall i :: 0 <= i < |rs| ==> r[i] == rs[i].sample.temperature
  {
    seq(|rs|, i requires 0 <= i < |rs| => rs[i].sample.temperature)
  }

  function Hums(rs: seq<Reading>): (r: seq<real>)
    ensures |r| == |rs| && forall i :: 0 <= i < |rs| ==> r[i] == rs[i].sample.humidity
  {
    seq(|rs|, i requires 0 <= i < |rs| => rs[i].sample.humidity)
  }

  function Clocks(rs: seq<Reading>): (r: seq<int>)
    ensures |r| == |rs| && forall i :: 0 <= i < |rs| ==> r[i] == rs[i].clock
  {
    seq(|rs|, i requires 0 <= i < |rs| => rs[i].clock)
  }

  /** The `log_to_csv` calls the readings make, in order. */
  function Writes(rs: seq<Reading>, fixed2: real -> string): (r: seq<Write>)
    ensures |r| == |rs|
    ensures forall i :: 0 <= i < |rs| ==>
      r[i] == Write([rs[i].stamp, fixed2(rs[i].sample.temperature), fixed2(rs[i].sample.humidity)], rs[i].ok)
  {
    seq(|rs|, i requires 0 <= i < |rs| =>
      Write([rs[i].stamp, fixed2(rs[i].sample.temperature), fixed2(rs[i].sample.humidity)], rs[i].ok))
  }

  lemma {:induction false} WritesTail(rs: seq<Reading>, fixed2: real -> string)
    requires |rs| > 0
    ensures Writes(rs[1..], fixed2) == Writes(rs, fixed2)[1..]
    ensures Writes(rs, fixed2)[0].row == [rs[0].stamp, fixed2(rs[0].sample.temperature), fixed2(rs[0].sample.humidity)]
    ensures Writes(rs, fixed2)[0].ok == rs[0].ok
  {
  }

  /** Appending after the first element of a window is appending the rest. */
  lemma {:induction false} SlideOne<T>(d: seq<T>, xs: seq<T>)
    requires |xs| > 0
    ensures Last(Last(d + [xs[0]], MaxDataPoints) + xs[1..], MaxDataPoints) == Last(d + xs, MaxDataPoints)
  {
    LastOfLast(d + [xs[0]], xs[1..], MaxDataPoints);
    assert d + [xs[0]] + xs[1..] == d + xs;
  }

  /** The temperature series holds exactly the last 30 temperatures fed,
      appended to what it held before; likewise below for humidity and the
      time axis. */
  lemma {:induction false} FeedKeepsLastTemps(s: State, rs: seq<Reading>, fixed2: real -> string)
    requires Valid(s.app)
    ensures Feed(s, rs, fixed2).app.temps == Last(s.app.temps + Temps(rs), MaxDataPoints)
    decreases |rs|
  {
    if |rs| == 0 {
      assert s.app.temps + Temps(rs) == s.app.temps;
    } else {
      var x := rs[0];
      var s' := ProcessSensorData(s, x.sample.temperature, x.sample.humidity, x.clock, x.stamp, x.ok, fixed2);
      var xs := Temps(rs);
      assert Temps(rs[1..]) == xs[1..];
      calc {
        Feed(s, rs, fixed2).app.temps;
        Feed(s', rs[1..], fixed2).app.temps;
        { FeedKeepsLastTemps(s', rs[1..], fixed2); }
        Last(s'.app.temps + xs[1..], MaxDataPoints);
        Last(Last(s.app.temps + [xs[0]], MaxDataPoints) + xs[1..], MaxDataPoints);
        { SlideOne(s.app.temps, xs); }
        Last(s.app.temps + xs, MaxDataPoints);
      }
    }
  }

  lemma {:induction false} FeedKeepsLastHums(s: State, rs: seq<Reading>, fixed2: real -> string)
    requires Valid(s.app)
    ensures Feed(s, rs, fixed2).app.hums == Last(s.app.hums + Hums(rs), MaxDataPoints)
    decreases |rs|
  {
    if |rs| == 0 {
      assert s.app.hums + Hums(rs) == s.app.hums;
    } else {
      var x := rs[0];
      var s' := ProcessSensorData(s, x.sample.temperature, x.sample.humidity, x.clock, x.stamp, x.ok, fixed2);
      var xs := Hums(rs);
      assert Hums(rs[1..]) == xs[1..];
      calc {
        Feed(s, rs, fixed2).app.hums;
        Feed(s', rs[1..], fixed2).app.hums;
        { FeedKeepsLastHums(s', rs[1..], fixed2); }
        Last(s'.app.hums + xs[1..], MaxDataPoints);
        Last(Last(s.app.hums + [xs[0]], MaxDataPoints) + xs[1..], MaxDataPoints);
        { SlideOne(s.app.hums, xs); }
        Last(s.app.hums + xs, MaxDataPoints);
      }
    }
  }

  lemma {:induction false} FeedKeepsLastClocks(s: State, rs: seq<Reading>, fixed2: real -> string)
    requires Valid(s.app)
    ensures Feed(s, rs, fixed2).app.timestamps == Last(s.app.timestamps + Clocks(rs), MaxDataPoints)
    decreases |rs|
  {
    if |rs| == 0 {
      assert s.app.timestamps + Clocks(rs) == s.app.timestamps;
    } else {
      var x := rs[0];
      var s' := ProcessSensorData(s, x.sample.temperature, x.sample.humidity, x.clock, x.stamp, x.ok, fixed2);
      var xs := Clocks(rs);
      assert Clocks(rs[1..]) == xs[1..];
      calc {
        Feed(s, rs, fixed2).app.timestamps;
        Feed(s', rs[1..], fixed2).app.timestamps;
        { FeedKeepsLastClocks(s', rs[1..], fixed2); }
        Last(s'.app.timestamps + xs[1..], MaxDataPoints);
        Last(Last(s.app.timestamps + [xs[0]], MaxDataPoints) + xs[1..], MaxDataPoints);
        { SlideOne(s.app.timestamps, xs); }
        Last(s.app.timestamps + xs, MaxDataPoints);
      }
    }
  }

  /** The alert state is the one `check_alerts` reaches over the readings fed. */
  lemma {:induction false} FeedAlerts(s: State, rs: seq<Reading>, fixed2: real -> string)
    requires Valid(s.app)
    ensures Feed(s, rs, fixed2).app.alertActive
         == CheckAll(s.app.alertActive, Temps(rs), ReadBand(s.app.minText, s.app.maxText)).0
    decreases |rs|
  {
    if |rs| > 0 {
      var x := rs[0];
      var s' := ProcessSensorData(s, x.sample.temperature, x.sample.humidity, x.clock, x.stamp, x.ok, fixed2);
      var ts := Temps(rs);
      var band := ReadBand(s.app.minText, s.app.maxText);
      var step := Evaluate(s.app.alertActive, ts[0], band);
      assert s'.app.alertActive == step.alertActive;
      assert Temps(rs[1..]) == ts[1..];
      assert CheckAll(s.app.alertActive, ts, band).0 == CheckAll(step.alertActive, ts[1..], band).0;
      FeedAlerts(s', rs[1..], fixed2);
    }
  }

  /** The ledger receives one `log_to_csv` call per reading fed. */
  lemma {:induction false} FeedLogs(s: State, rs: seq<Reading>, fixed2: real -> string)
    requires Valid(s.app)
    ensures Feed(s, rs, fixed2).file == LogAll(s.file, Writes(rs, fixed2))
    decreases |rs|
  {
    if |rs| > 0 {
      var x := rs[0];
      var s' := ProcessSensorData(s, x.sample.temperature, x.sample.humidity, x.clock, x.stamp, x.ok, fixed2);
      var ws := Writes(rs, fixed2);
      WritesTail(rs, fixed2);
      assert s'.file == LogToCsv(s.file, ws[0].row, ws[0].ok);
      calc {
        Feed(s, rs, fixed2).file;
        Feed(s', rs[1..], fixed2).file;
        { FeedLogs(s', rs[1..], fixed2); }
        LogAll(s'.file, ws[1..]);
        LogAll(s.file, ws);
      }
    }
  }

  /** A monitoring session from start: the graph shows the last 30 readings
      of this session only, the alert follows `check_alerts` over them from
      the state the previous session left, and on a ledger that was missing
      or empty the header is written once, ahead of every logged row. */
  lemma {:induction false} Session(a: App, f: CsvFile, evs: seq<Event>, fixed2: real -> string)
    requires Valid(a)
    ensures var r := Run(State(StartMonitoring(a), f), evs, fixed2);
            var rs := Readings(evs);
            && r.app.temps == Last(Temps(rs), MaxDataPoints)
            && r.app.hums == Last(Hums(rs), MaxDataPoints)
            && r.app.timestamps == Last(Clocks(rs), MaxDataPoints)
            && r.app.alertActive == CheckAll(a.alertActive, Temps(rs), ReadBand(a.minText, a.maxText)).0
            && Rows(r.file) == (if MissingOrEmpty(f) && |Written(Writes(rs, fixed2))| > 0 then [Header] else [])
                               + Rows(f) + Written(Writes(rs, fixed2))
  {
    var s := State(StartMonitoring(a), f);
    var rs := Readings(evs);
    RunIsFeed(s, evs, fixed2);
    FeedKeepsLastTemps(s, rs, fixed2);
    FeedKeepsLastHums(s, rs, fixed2);
    FeedKeepsLastClocks(s, rs, fixed2);
    FeedAlerts(s, rs, fixed2);
    FeedLogs(s, rs, fixed2);
    assert [] + Temps(rs) == Temps(rs);
    assert [] + Hums(rs) == Hums(rs);
    assert [] + Clocks(rs) == Clocks(rs);
    LogAllAppends(f, Writes(rs, fixed2));
  }
}
