/** The stand-alone plotting logger python/live_monitor.py: it initialises
    the CSV ledger once at start-up, then on every animation frame logs the
    line waiting on the serial port, if both values parse, and plots the last
    30 logged rows.

    The timestamp text, whether the file could be opened, and how a value is
    rendered into a CSV cell (`str(float)`) are inputs. */
module LiveMonitor {
  import opened Wrappers
  import opened Text
  import opened LineParser
  import opened LiveWindow
  import opened Ledger

  /** Start-up: a missing or zero-length ledger is (re)created holding just
      the header; any other ledger is left as it is. `ok` is false when
      `os.path.getsize` fails with anything but `FileNotFoundError`, or when
      opening the file for the header fails: neither is caught, and the
      script ends before any frame (`None`). */
  function InitCsv(f: CsvFile, ok: bool): (r: Option<CsvFile>)
    ensures r.Some? <==> ok
    ensures r.Some? ==> r.value.Present? && |r.value.rows| > 0
    ensures r.Some? && MissingOrEmpty(f) ==> r.value.rows == [Header]
    ensures r.Some? && !MissingOrEmpty(f) ==> r.value == f
  {
    if !ok then None
    else if MissingOrEmpty(f) then Some(Present([Header]))
    else Some(f)
  }

  /** One animation frame. `line` is the decoded line waiting on the port,
      `None` when nothing was waiting or reading it failed. */
  datatype Frame = Frame(line: Option<string>, stamp: string, ok: bool)

  /** The data row `[timestamp, temp, humidity]` for a frame, when its line
      carries both values. */
  function RowOf(fr: Frame, render: real -> string): (r: Option<seq<string>>)
    ensures r.Some? <==> fr.line.Some? && ParseGui(Strip(fr.line.value)).Some?
    ensures r.Some? ==>
      var s := ParseGui(Strip(fr.line.value)).value;
      r.value == [fr.stamp, render(s.temperature), render(s.humidity)]
  {
    if fr.line.None? then None
    else
      GuiAgreesWithMonitor(Strip(fr.line.value));
      var fields := ParseMonitor(Strip(fr.line.value));
      if fields.temperature.Some? && fields.humidity.Some? then
        Some([fr.stamp, render(fields.temperature.value), render(fields.humidity.value)])
      else None
  }

  /** The logging half of `animate`: the row is appended in mode `'a'`, which
      creates the file, without a header, when it has gone missing. */
  function Animate(f: CsvFile, fr: Frame, render: real -> string): (r: CsvFile)
    ensures fr.line.None? || !fr.ok ==> r == f
    ensures fr.line.Some? && ParseGui(Strip(fr.line.value)).None? ==> r == f
    ensures fr.line.Some? && fr.ok && ParseGui(Strip(fr.line.value)).Some? ==>
      var s := ParseGui(Strip(fr.line.value)).value;
      r.Present? && Rows(r) == Rows(f) + [[fr.stamp, render(s.temperature), render(s.humidity)]]
  {
    if fr.line.None? then f
    else
      GuiAgreesWithMonitor(Strip(fr.line.value));
      match RowOf(fr, render)
      case None => f
      case Some(row) =>
        if !fr.ok then f
        else if f.Missing? then Present([row])
        else Present(f.rows + [row])
  }

  function AnimateAll(f: CsvFile, frames: seq<Frame>, render: real -> string): CsvFile
    decreases |frames|
  {
    if |frames| == 0 then f else AnimateAll(Animate(f, frames[0], render), frames[1..], render)
  }

  /** The rows the frames log, in order. */
  function Logged(frames: seq<Frame>, render: real -> string): seq<seq<string>>
    decreases |frames|
  {
    if |frames| == 0 then []
    else
      LoggedRow(frames[0], render) + Logged(frames[1..], render)
  }

  /** The row one frame logs: none, or its data row when the file opened. */
  function LoggedRow(fr: Frame, render: real -> string): seq<seq<string>>
  {
    if fr.ok && RowOf(fr, render).Some? then [RowOf(fr, render).value] else []
  }

  /** Once the ledger exists, the frames append exactly the rows they log. */
  lemma {:induction false} AnimateAllAppends(f: CsvFile, frames: seq<Frame>, render: real -> string)
    requires f.Present?
    ensures AnimateAll(f, frames, render).Present?
    ensures Rows(AnimateAll(f, frames, render)) == Rows(f) + Logged(frames, render)
    decreases |frames|
  {
    if |frames| > 0 {
      var fr := frames[0];
      var g := Animate(f, fr, render);
      var rest := Logged(frames[1..], render);
      assert g.Present? && Rows(g) == Rows(f) + LoggedRow(fr, render) by {
        AnimateRow(f, fr, render);
      }
      assert Logged(frames, render) == LoggedRow(fr, render) + rest;
      AnimateAllAppends(g, frames[1..], render);
      ConcatAssoc(Rows(f), LoggedRow(fr, render), rest);
    }
  }

  /** One frame on an existing ledger appends the row it logs, if any. */
  lemma {:induction false} AnimateRow(f: CsvFile, fr: Frame, render: real -> string)
    requires f.Present?
    ensures Animate(f, fr, render).Present?
    ensures Rows(Animate(f, fr, render)) == Rows(f) + LoggedRow(fr, render)
  {
    if fr.ok && RowOf(fr, render).Some? {
      assert Animate(f, fr, render) == Present(f.rows + [RowOf(fr, render).value]);
    } else {
      assert Animate(f, fr, render) == f;
    }
  }

  /** The plotting half of `animate`: the data rows of the last 30 entries.
      A missing file, a zero-length file (`EmptyDataError`), a file whose
      first row is not the header (no `Timestamp` column) and a file with no
      data rows (`data.empty`) all leave the plot as it was. */
  function PlotRows(f: CsvFile): (r: Option<seq<seq<string>>>)
    ensures r.Some? ==> |Rows(f)| > 1 && Rows(f)[0] == Header
    ensures r.Some? ==> 0 < |r.value| <= MaxDataPoints && |r.value| < |Rows(f)|
    ensures r.Some? ==> r.value == Rows(f)[|Rows(f)| - |r.value|..]
    ensures |Rows(f)| > 1 && Rows(f)[0] == Header ==> r.Some?
  {
    if f.Missing? || |f.rows| <= 1 || f.rows[0] != Header then None
    else Some(Last(f.rows[1..], MaxDataPoints))
  }

  /** A run of the monitor: after a successful start-up on a missing or
      empty ledger, the plot shows the last 30 rows the session logged, or
      nothing at all when it logged none. */
  lemma {:induction false} SessionPlot(f: CsvFile, frames: seq<Frame>, render: real -> string)
    requires MissingOrEmpty(f)
    ensures var g := AnimateAll(InitCsv(f, true).value, frames, render);
            && Rows(g) == [Header] + Logged(frames, render)
            && (|Logged(frames, render)| == 0 ==> PlotRows(g).None?)
            && (|Logged(frames, render)| > 0 ==> PlotRows(g) == Some(Last(Logged(frames, render), MaxDataPoints)))
  {
    AnimateAllAppends(InitCsv(f, true).value, frames, render);
    var g := AnimateAll(InitCsv(f, true).value, frames, render);
    assert Rows(g)[1..] == Logged(frames, render);
  }
}
