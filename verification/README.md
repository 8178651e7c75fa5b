# Sensor monitoring system — a Dafny model of the host data path

The system is an Arduino sketch that reads a DHT temperature/humidity
sensor and writes one text line per reading to the serial port. Python host
scripts read those lines. The desktop application `SensorApp` shows a live
graph of the last 30 readings and raises a temperature alert outside a
user-set band. It also appends every reading to the CSV ledger
`data/data.csv`. A stand-alone live monitor logs and plots the same stream.
A report generator selects ledger rows for a date range.

This project models that data path as pure functions over immutable values:

| file | module | models |
|---|---|---|
| `wrappers.dfy` | `Wrappers` | `Option` and `Result` |
| `text.dfy` | `Text` | decimal digits, character counts, Python's `str.strip()` |
| `line_parser.dfy` | `LineParser` | both `parse_data` variants: `re.search(r"Temperature: ([\d\.]+)")` / `Humidity: …` with leftmost-first, greedy semantics, and `float()` on the capture |
| `firmware.dfy` | `Firmware` | the line `loop` prints, the failure line, and how the host reads both back |
| `live_window.dfy` | `LiveWindow` | `deque(maxlen=30)` and `tail(30)` |
| `alerts.dfy` | `Alerts` | `check_alerts` (threshold parsing, inclusive band, transitions) and the `once` rule of `update_status` |
| `ledger.dfy` | `Ledger` | `log_to_csv` and its header rule |
| `live_monitor.dfy` | `LiveMonitor` | start-up ledger initialisation, the "log only when both values parse" rule, the plotted rows |
| `sensor_app.dfy` | `SensorApp` | the application state: start/stop, accepted readings, series, alert, status bar, ledger |
| `report.dfy` | `Report` | the read/filter/empty checks and the period of `generate_report` |

Numbers are exact `real`s. The firmware's readings are integer hundredths.
Two digits is the precision at which `Serial.print(float)` prints them: an
optional `-`, the integer part, a dot, two digits. The program's inputs are
parameters. These are the sensor results, the clock, the timestamp text,
whether the ledger could be opened, and the text rendering of a float.

The host regular expressions read every non-negative reading back exactly.
They cannot read a negative temperature, because the firmware prints it with
a leading `-`, which `[\d\.]+` does not match. The GUI then drops the whole
line. The live monitor keeps only the humidity, and so logs nothing.
`Firmware.NegativeTemperatureDropped` states this.

Two behaviours of the code are easy to miss:
- `start_monitoring` clears the three series but does not reset
  `alert_active` (python/main_gui.py:197-210). An alert from the previous session carries over, and the
  first reading of a new session on the same side announces nothing.
  `SensorApp.StartMonitoring` and `SensorApp.Session` state this.
- A failed ledger write (`IOError`) is only printed (python/main_gui.py:330). No status is shown.
  When the ledger cannot be opened the file is unchanged; `Ledger.LogToCsv` states this for `ok == false`.

## Model

| member | source | states |
|---|---|---|
| LineParser.Search | python/main_gui.py:307-308 | `Some(m)` exactly when the tag occurs immediately followed by a `[0-9.]` character; `m` is then the leftmost such occurrence with the maximal `[0-9.]` run captured; `None` exactly when there is no such occurrence |
| LineParser.FirstMatchUnique | python/main_gui.py:307-308 | the leftmost, greedy match of a tag is unique, so "the first match" is well defined |
| LineParser.SearchIsFirstMatch | python/main_gui.py:307-308 | any match meeting the leftmost/greedy description is the one the search returns |
| LineParser.MatchAfterPrefix | python/main_gui.py:307-308 | if the tag's first letter does not occur before it and the run is followed by a non-`[0-9.]` character (or the end), the first match is at the tag with exactly that run |
| LineParser.AbsentCharNoMatch | python/main_gui.py:307-308 | a line lacking some character of the tag has no match |
| LineParser.ParseDecimal | python/main_gui.py:309 | `float()` on a `[0-9.]` capture succeeds exactly when it holds at most one dot and at least one digit; any value it gives is non-negative |
| LineParser.ParseDigits | python/main_gui.py:309 | a run of digits is read as its integer value |
| LineParser.ParseFraction | python/main_gui.py:309 | `whole.frac` is read as `whole + frac / 10^len(frac)` |
| LineParser.ParseGui | python/main_gui.py:305-310 | a reading is returned only when both labels match; both values are non-negative |
| LineParser.ParseGuiFromMatches | python/main_gui.py:307-310 | given the two first matches, a reading is returned exactly when `float()` accepts both captures, and it holds their two values; otherwise `(None, None)` |
| LineParser.ParseBothFromMatches | python/main_gui.py:305-310 | when both first matches parse, both parser variants return exactly those two values |
| LineParser.SignedTemperatureRejected | python/main_gui.py:307 | if every `Temperature: ` is followed by `-`, there is no temperature match and no reading |
| LineParser.ParseMonitor | python/live_monitor.py:51-62 | a field is present only when its own label matched, and is then non-negative |
| LineParser.GuiAgreesWithMonitor | python/live_monitor.py:51-62 | the GUI parser gives a reading exactly when the monitor parser gives both fields, and then with the same values |
| LineParser.MonitorKeepsLoneTemperature | python/live_monitor.py:54-58 | with only a temperature match, the monitor gives `(t, None)` while the GUI gives nothing |
| LineParser.MonitorKeepsLoneHumidity | python/live_monitor.py:54-58 | with only a humidity match, the monitor gives `(None, h)` while the GUI gives nothing |
| LineParser.RejectedCaptureEmptiesBoth | python/live_monitor.py:57-62 | a capture that `float()` rejects, in either field, makes both results `None` in both variants |
| Text.StripLeft | python/main_gui.py:255 | the result is a suffix, starts with a non-space, and only whitespace was removed |
| Text.StripRight | python/main_gui.py:255 | the result is a prefix, ends with a non-space, and only whitespace was removed |
| Text.Strip | python/main_gui.py:255 | `strip()` never lengthens the line; its result is empty or starts and ends with a visible character |
| Text.StripIsInfix | python/main_gui.py:255 | `strip()` removes exactly the leading and trailing whitespace: the result is a contiguous slice of the line, and only whitespace lies before and after it |
| Text.StripPadded | python/main_gui.py:255 | a text with visible ends, padded with any whitespace on both sides, strips back to the text |
| Text.StripEmptyIffBlank | python/main_gui.py:255-256 | `if line:` rejects a line exactly when it is all whitespace |
| Text.StripTerminated | python/main_gui.py:255 | `strip()` of a line with non-space ends followed by whitespace gives back the line |
| Text.NatToDigits | src/main.cpp:32 | the integer part is printed as decimal digits without leading zeros, denoting the number |
| Firmware.ReadingLine | src/main.cpp:31-35 | the reading line is the two value texts plus 31 characters of fixed text |
| Firmware.ReadingLineLayout | src/main.cpp:31-35 | the temperature label opens the line with the temperature text after it; the humidity label starts 7 characters (`°C  \|  `) after that text, followed by the humidity text and a final `%` |
| Firmware.PrintUnsigned | src/main.cpp:32 | a non-negative value prints as a digit-led `[0-9.]` text that `float()` reads back as the value |
| Firmware.PrintHundredths | src/main.cpp:32-34 | non-negative values read back exactly; negative ones are printed as `-` followed by the unsigned form |
| Firmware.LoopOutput | src/main.cpp:16-36 | each iteration writes exactly one line: it ends in `\r\n` and holds no other line break |
| Firmware.StrippedOutput | src/main.cpp:25-35 | after `strip()`, the host sees the failure message when either read failed, and the labelled reading line otherwise |
| Firmware.FailureLineDropped | src/main.cpp:25-28 | the failure line carries neither label, so neither parser variant gets a value from it |
| Firmware.RoundTrip | src/main.cpp:31-35 | for non-negative readings both parser variants return exactly the printed values |
| Firmware.PrintedReadBack | src/main.cpp:31-35 | the reading line of two non-negative readings, before the line end, is read back exactly by both parser variants |
| Firmware.ReadBack | src/main.cpp:31-35 | a reading line carrying any two texts that `float()` accepts is read back as their values |
| Firmware.TemperatureFound | src/main.cpp:31-32 | in a reading line the temperature capture is exactly the printed temperature text |
| Firmware.HumidityFound | src/main.cpp:33-34 | in a reading line the humidity capture is exactly the printed humidity text |
| Firmware.SignedTemperatureLine | src/main.cpp:31-32 | a reading line whose temperature text starts with `-` has no temperature match |
| Firmware.NegativeTemperatureDropped | src/main.cpp:31-35 | a negative temperature line gives no reading in the GUI, and only the humidity in the live monitor |
| LiveWindow.Last | python/live_monitor.py:93 | `tail(n)`: the last `min(n, len)` elements, as a suffix in order |
| LiveWindow.Append | python/main_gui.py:277-279 | `deque.append` with `maxlen`: the last `maxlen` elements of the deque followed by the new element |
| LiveWindow.AppendAllKeepsLast | python/main_gui.py:43-45 | after any number of appends, the deque holds exactly the last `maxlen` elements ever appended, oldest first |
| LiveWindow.LastOfLast | python/main_gui.py:43-45 | trimming a prefix to its last `n` elements before appending more does not change the last `n` overall |
| Alerts.ParseThreshold | python/main_gui.py:289-290 | an entry reads as a number only if it is not blank after stripping (the values are fixed by the lemmas below) |
| Alerts.ThresholdIgnoresPadding | python/main_gui.py:289-290 | whitespace around an entry is ignored, as by `float()`: the padded entry reads as the signed number inside it |
| Alerts.ParseSigned | python/main_gui.py:289-290 | a leading `-` negates the decimal after it, a leading `+` keeps it, and without a sign the text must be a plain decimal |
| Alerts.PlainThreshold | python/main_gui.py:289-290 | an entry holding a plain decimal is read as that decimal |
| Alerts.NegativeThreshold | python/main_gui.py:289-290 | a leading minus sign negates the entry's value |
| Alerts.DefaultMinimum | python/main_gui.py:78 | the initial minimum entry "0" reads as 0 |
| Alerts.DefaultMaximum | python/main_gui.py:79 | the initial maximum entry "40" reads as 40 |
| Alerts.ReadBand | python/main_gui.py:288-291 | a band exists exactly when `float()` accepts both entries, and it holds their two values |
| Alerts.IsAlert | python/main_gui.py:295 | alert exactly when the temperature is below the minimum or above the maximum; the band is inclusive |
| Alerts.Evaluate | python/main_gui.py:292-303 | with no valid band: state unchanged, the invalid-threshold status requested once; otherwise the new state is the predicate, and a status update is requested exactly when it changed: the alert text on entry, the monitoring text on exit |
| Alerts.CheckAlerts | python/main_gui.py:287-303 | the same, stated on the entry texts: any unreadable entry freezes the state, and both readable entries give the band |
| Alerts.SameSideIsQuiet | python/main_gui.py:296-303 | a second reading on the same side of the band changes nothing and requests nothing |
| Alerts.OneUpdatePerFlip | python/main_gui.py:296-303 | over any readings, one status update is requested per flip of the predicate and none otherwise; the final state is the predicate on the last reading |
| Alerts.OnlyAlertUpdates | python/main_gui.py:300-303 | with a valid band, only the alert and back-to-monitoring texts are requested, never with `once` |
| Alerts.InvalidThresholdFreezes | python/main_gui.py:288-293 | with an unreadable entry, no reading changes `alert_active`, and only the invalid-threshold status is requested, with `once` |
| Alerts.UpdateStatus | python/main_gui.py:315-320 | the displayed text becomes the requested one; the status bar is written again unless `once` is set and the text is already shown |
| Alerts.OnceIsIdempotent | python/main_gui.py:315-320 | repeating a `once` update adds nothing |
| Ledger.MissingOrEmpty | python/main_gui.py:323-327 | a missing file and a zero-length file are exactly the files with no rows |
| Ledger.LogToCsv | python/main_gui.py:322-330 | if the file cannot be opened it is unchanged; otherwise the old rows stay as a prefix, the header is added exactly when the file was missing or empty, and the new row comes last |
| Ledger.LogAllAppends | python/main_gui.py:322-330 | over any sequence of appends, the file is its old rows plus every written row in order, preceded by one header when it started missing or empty |
| Ledger.HeaderExactlyOnce | python/main_gui.py:322-329 | starting from a missing or empty file, the header is row 0 and occurs exactly once |
| LiveMonitor.InitCsv | python/live_monitor.py:34-45 | the script survives start-up exactly when the size check and the header write succeed; a missing or empty ledger then becomes the header alone, and any other ledger is left untouched, never truncated |
| LiveMonitor.RowOf | python/live_monitor.py:69-80 | a row exists exactly when the waiting line, after `strip()`, carries a full reading, and it is `[timestamp, temp, humidity]` |
| LiveMonitor.Animate | python/live_monitor.py:64-80 | a row `[timestamp, temp, humidity]` is appended exactly when a waiting line gives a full reading and the file opens; otherwise the file is unchanged |
| LiveMonitor.AnimateRow | python/live_monitor.py:75-80 | on an existing ledger one frame appends exactly the row it logs, if any |
| LiveMonitor.AnimateAllAppends | python/live_monitor.py:75-80 | once the ledger exists, a run of frames appends exactly the rows it logs, in order |
| LiveMonitor.PlotRows | python/live_monitor.py:85-93 | plots only a ledger with a header and data rows; the plotted rows are its last at most 30 rows, in file order |
| LiveMonitor.SessionPlot | python/live_monitor.py:34-93 | after a successful start-up on a missing or empty ledger, the file is the header plus the logged rows, and the plot shows the last 30 of them, or nothing when none was logged |
| SensorApp.Init | python/main_gui.py:33-45 | idle, no alert, empty series, idle status, thresholds reading as 0 and 40 |
| SensorApp.StartMonitoring | python/main_gui.py:197-210 | monitoring on, the three series emptied, `alert_active` and the entries kept, the connecting status shown |
| SensorApp.StopMonitoring | python/main_gui.py:212-219 | monitoring off, series and alert kept, the stopped status shown |
| SensorApp.ParseLine | python/main_gui.py:255-258 | a line is accepted only if it is non-empty after `strip()`, and then exactly when `parse_data` gives a reading |
| SensorApp.PushReading | python/main_gui.py:277-279 | each series becomes its last 30 values with the new one appended; nothing else changes |
| SensorApp.ApplyAlert | python/main_gui.py:283-303 | `alert_active` becomes what `check_alerts` decides; the status bar gets exactly the update `check_alerts` requests, through `update_status`, and nothing when it requests none; nothing else changes |
| SensorApp.AlertStatusShown | python/main_gui.py:292-303 | the alert text is appended when the alert starts and the monitoring text when it clears; nothing while the state stays inside a valid band; with an unreadable entry the invalid-threshold text is shown unless it is already displayed |
| SensorApp.ProcessSensorData | python/main_gui.py:273-285 | the reading enters all three series, `alert_active` and the status bar follow `check_alerts`, and the row `(timestamp, temp.2f, humidity.2f)` is logged |
| SensorApp.Step | python/main_gui.py:242-264 | while not monitoring nothing changes; a rejected line changes nothing; an accepted line is processed; connection events touch only the status |
| SensorApp.Run | python/main_gui.py:242-264 | the loop keeps the state valid and leaves the monitoring flag and the entries alone; once monitoring is off, events change nothing |
| SensorApp.RunIsFeed | python/main_gui.py:255-259 | while monitoring, series, alert and ledger depend only on the accepted readings in order |
| SensorApp.FeedKeepsLastTemps | python/main_gui.py:278 | the temperature series holds exactly the last 30 temperatures fed |
| SensorApp.FeedKeepsLastHums | python/main_gui.py:279 | the humidity series holds exactly the last 30 humidities fed |
| SensorApp.FeedKeepsLastClocks | python/main_gui.py:277 | the time axis holds exactly the last 30 reading times |
| SensorApp.FeedAlerts | python/main_gui.py:283 | `alert_active` is what `check_alerts` reaches over the readings fed |
| SensorApp.FeedLogs | python/main_gui.py:285 | the ledger receives exactly one `log_to_csv` call per reading, in order |
| SensorApp.Session | python/main_gui.py:197-210 | after start, the series are the last 30 readings of this session only; the alert continues from the previous session's state; a missing or empty ledger gets one header ahead of all rows |
| Report.Filter | python/generate_report.py:51-52 | exactly the rows with `start <= time <= end`, each as often as in the log, in their original order |
| Report.MinTime | python/generate_report.py:73 | the smallest timestamp, which occurs in the rows |
| Report.MaxTime | python/generate_report.py:74 | the largest timestamp, which occurs in the rows |
| Report.SelectReportData | python/generate_report.py:40-61 | missing file, zero-length file and header-only file are errors before any bound is looked at; a selection is a non-empty subsequence of the log, with the period bounded by its min and max time |
| Report.MissingBoundKeepsAll | python/generate_report.py:47 | a missing or empty bound disables filtering: all rows are kept |
| Report.BothBoundsSelectRange | python/generate_report.py:47-52 | with both bounds, the rows are exactly the filtered ones and `start <= periodStart <= periodEnd <= end` |
| Report.EmptyRangeIffNoRowInside | python/generate_report.py:54-55 | with both bounds on a non-empty log, "No data found" is raised exactly when no row lies in the range |
| Report.BoundsReadOnlyWhenBothGiven | python/generate_report.py:42-50 | an unreadable bound, on either side, is ignored when the other bound is missing and fails for any given other bound; an empty log fails first whatever the bounds |

## Left out

- The serial link: opening the port, `readline`, the UTF-8 decode, the reconnect loop with its sleeps (`serial_worker`), and the live monitor's `in_waiting` check. Each line read is an input event. A decode failure counts as no line.
- Threads and `root.after`: the serial thread and the GUI thread are flattened into one ordered event sequence. `check_alerts` and the status updates take effect at once, not when the GUI loop runs them.
- Presentation: tkinter widgets, label styles, the history window, the report dialog, and all matplotlib drawing. The live monitor's plot is modelled as the rows it would draw.
- `SensorApp.Session`, `SensorApp.FeedKeepsLastClocks`: `datetime.now()` is an integer clock input. The ledger's timestamp text and its ordering come in as given (`Report.Record.time`).
- Float details: IEEE rounding, `str(float)` in the live monitor's rows, and `f"{x:.2f}"` in the GUI's rows are parameters (`render`, `fixed2`). The values themselves are exact reals.
- Firmware: the DHT driver, and how `isnan` detects a failed read (a failed read is `None`). Also `Serial.print(float)` rounding and its `ovf`/`nan`/`inf` outputs. Readings are exact hundredths.
- Alerts.ParseThreshold: reads only an optional sign and a plain decimal inside whitespace. Python's `float()` also accepts exponents, `inf`/`nan` and underscores, which the model reports as unreadable.
- LineParser.Search: `\d` is restricted to ASCII digits. Python's `\d` also matches other Unicode decimal digits, which `float()` would accept.
- LiveMonitor.PlotRows: a ledger whose first row is not exactly the header is treated as having no `Timestamp` column. pandas would still find the columns if their names appeared in another order.
- Report: `pd.to_datetime` on the ledger's timestamps is assumed to succeed, and the ledger is assumed to start with its header. The live monitor can recreate a vanished ledger without a header (`LiveMonitor.Animate`); `generate_report` would then fail on `data['Timestamp']` with a `KeyError` (python/generate_report.py:45), which `Report.Log` cannot represent. Timezone handling (`tz_localize`) is not modelled. The statistics, the graph image and the PDF are left out.
- SensorApp.Run: the event sequence carries no edit of the threshold entries, so a run reads the same entries throughout. The user may edit them at any time; `SensorApp.ApplyAlert` reads them afresh at every reading, as `check_alerts` does, so a session with edits is a chain of runs with the entries changed between them.
- Ledger.LogToCsv: `ok` stands for opening the file; a write that fails after the open (a full disk during `writerow`) can leave a partial row, or a file that the open created empty, and is not modelled.
- `python/read_serial.py` and `python/visualize_data.py`: stand-alone logging and plotting scripts outside the data path.
