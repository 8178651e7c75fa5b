/** The data selection of `generate_report` (python/generate_report.py):
    reading the ledger, the optional date range, the empty checks, and the
    reported period. Timestamps are given as ordered integers (the ledger's
    `%Y-%m-%d %H:%M:%S` text orders the same way). */
module Report {
  import opened Wrappers

  /** A ledger row with its timestamp already converted by `pd.to_datetime`. */
  datatype Record = Record(time: int, temperature: real, humidity: real)

  /** What `pd.read_csv` finds: no file, a zero-length file, or a table
      (empty when the file holds only the header). */
  datatype Log = NotFound | ZeroLength | Table(records: seq<Record>)

  /** A date-range bound as typed: missing or empty (falsy), a text
      `pd.to_datetime` accepts, or one it rejects. */
  datatype Bound = NoBound | At(time: int) | Unparseable

  datatype ReportError =
    | FileMissing      // FileNotFoundError, re-raised with the file name
    | EmptyDataFile    // pandas' EmptyDataError on a zero-length file
    | EmptyLog         // "The data file is empty. No report can be generated."
    | BadBound         // a bound `pd.to_datetime` cannot read
    | EmptyRange       // "No data found in the selected date range."

  /** The rows the report is built from and the period it states. */
  datatype Selection = Selection(rows: seq<Record>, periodStart: int, periodEnd: int)

  predicate InRange(x: Record, lo: int, hi: int) {
    lo <= x.time <= hi
  }

  /** `a` is `b` with some elements left out, the rest in their order. */
  predicate IsSubsequence<T(==)>(a: seq<T>, b: seq<T>)
    decreases |b|
  {
    if |a| == 0 then true
    else if |b| == 0 then false
    else if a[0] == b[0] then IsSubsequence(a[1..], b[1..])
    else IsSubsequence(a, b[1..])
  }

  lemma {:induction false} SubsequenceOfItself<T>(xs: seq<T>)
    ensures IsSubsequence(xs, xs)
    decreases |xs|
  {
    if |xs| > 0 {
      SubsequenceOfItself(xs[1..]);
    }
  }

  /** `data.loc[(data['Timestamp'] >= start) & (data['Timestamp'] <= end)]`:
      exactly the rows inside the closed range, in their original order. */
  function Filter(rs: seq<Record>, lo: int, hi: int): (r: seq<Record>)
    ensures IsSubsequence(r, rs)
    ensures forall x :: multiset(r)[x] == if InRange(x, lo, hi) then multiset(rs)[x] else 0
    decreases |rs|
  {
    if |rs| == 0 then []
    else
      var rest := Filter(rs[1..], lo, hi);
      assert rs == [rs[0]] + rs[1..];
      if InRange(rs[0], lo, hi) then [rs[0]] + rest else rest
  }

  /** `data['Timestamp'].min()` */
  function MinTime(rs: seq<Record>): (t: int)
    requires |rs| > 0
    ensures exists i :: 0 <= i < |rs| && rs[i].time == t
    ensures forall i :: 0 <= i < |rs| ==> t <= rs[i].time
    decreases |rs|
  {
    if |rs| == 1 then rs[0].time
    else
      var m := MinTime(rs[1..]);
      if rs[0].time <= m then rs[0].time else m
  }

  /** `data['Timestamp'].max()` */
  function MaxTime(rs: seq<Record>): (t: int)
    requires |rs| > 0
    ensures exists i :: 0 <= i < |rs| && rs[i].time == t
    ensures forall i :: 0 <= i < |rs| ==> rs[i].time <= t
    decreases |rs|
  {
    if |rs| == 1 then rs[0].time
    else
      var m := MaxTime(rs[1..]);
      if rs[0].time >= m then rs[0].time else m
  }

  /** Steps 1 and 2 of `generate_report(start_date, end_date)` up to the
      period strings: the range is applied only when both bounds are truthy,
      and only then are they converted. */
  function SelectReportData(log: Log, start: Bound, end: Bound): (r: Result<Selection, ReportError>)
    ensures log.NotFound? ==> r == Failure(FileMissing)
    ensures log.ZeroLength? ==> r == Failure(EmptyDataFile)
    ensures log == Table([]) ==> r == Failure(EmptyLog)
    ensures r.Success? ==>
      && log.Table? && |r.value.rows| > 0 && IsSubsequence(r.value.rows, log.records)
      && r.value.periodStart <= r.value.periodEnd
      && (forall i :: 0 <= i < |r.value.rows| ==>
            r.value.periodStart <= r.value.rows[i].time <= r.value.periodEnd)
      && (exists i :: 0 <= i < |r.value.rows| && r.value.rows[i].time == r.value.periodStart)
      && (exists i :: 0 <= i < |r.value.rows| && r.value.rows[i].time == r.value.periodEnd)
    ensures r.Failure? && r.error == BadBound ==> start.Unparseable? || end.Unparseable?
  {
    match log
    case NotFound => Failure(FileMissing)
    case ZeroLength => Failure(EmptyDataFile)
    case Table(rs) =>
      if |rs| == 0 then Failure(EmptyLog)
      else if start.NoBound? || end.NoBound? then
        SubsequenceOfItself(rs);
        Success(Selection(rs, MinTime(rs), MaxTime(rs)))
      else if start.Unparseable? || end.Unparseable? then Failure(BadBound)
      else
        var rows := Filter(rs, start.time, end.time);
        if |rows| == 0 then Failure(EmptyRange)
        else Success(Selection(rows, MinTime(rows), MaxTime(rows)))
  }

  /** A missing or empty bound turns the range off: every row is kept,
      whatever the other bound says. */
  lemma {:induction false} MissingBoundKeepsAll(rs: seq<Record>, start: Bound, end: Bound)
    requires |rs| > 0 && (start.NoBound? || end.NoBound?)
    ensures SelectReportData(Table(rs), start, end).Success?
    ensures SelectReportData(Table(rs), start, end).value.rows == rs
  {
  }

  /** With both bounds given, the report covers exactly the rows inside the
      closed range, and its period lies within the range. */
  lemma {:induction false} BothBoundsSelectRange(rs: seq<Record>, lo: int, hi: int)
    requires SelectReportData(Table(rs), At(lo), At(hi)).Success?
    ensures var sel := SelectReportData(Table(rs), At(lo), At(hi)).value;
            && sel.rows == Filter(rs, lo, hi)
            && lo <= sel.periodStart <= sel.periodEnd <= hi
  {
    var sel := SelectReportData(Table(rs), At(lo), At(hi)).value;
    var i :| 0 <= i < |sel.rows| && sel.rows[i].time == sel.periodStart;
    var j :| 0 <= j < |sel.rows| && sel.rows[j].time == sel.periodEnd;
    InFilterInRange(rs, lo, hi, sel.rows[i]);
    InFilterInRange(rs, lo, hi, sel.rows[j]);
  }

  lemma {:induction false} InFilterInRange(rs: seq<Record>, lo: int, hi: int, x: Record)
    requires x in Filter(rs, lo, hi)
    ensures InRange(x, lo, hi) && x in rs
  {
    assert multiset(Filter(rs, lo, hi))[x] > 0;
  }

  /** With both bounds given on a non-empty log, the report fails for lack of
      data exactly when no row lies inside the range. */
  lemma {:induction false} EmptyRangeIffNoRowInside(rs: seq<Record>, lo: int, hi: int)
    requires |rs| > 0
    ensures SelectReportData(Table(rs), At(lo), At(hi)) == Failure(EmptyRange)
        <==> forall i :: 0 <= i < |rs| ==> !InRange(rs[i], lo, hi)
  {
    var f := Filter(rs, lo, hi);
    if |f| == 0 {
      forall i | 0 <= i < |rs|
        ensures !InRange(rs[i], lo, hi)
      {
        assert multiset(rs)[rs[i]] > 0;
        assert multiset(f)[rs[i]] == 0;
      }
    } else {
      InFilterInRange(rs, lo, hi, f[0]);
    }
  }

  /** An unreadable bound is reported only when the other bound is given
      too; an empty log is reported before the bounds are looked at. */
  lemma {:induction false} BoundsReadOnlyWhenBothGiven(rs: seq<Record>, t: int, start: Bound, end: Bound)
    requires |rs| > 0
    ensures SelectReportData(Table(rs), Unparseable, NoBound).Success?
    ensures SelectReportData(Table(rs), NoBound, Unparseable).Success?
    ensures SelectReportData(Table(rs), Unparseable, At(t)) == Failure(BadBound)
    ensures SelectReportData(Table(rs), At(t), Unparseable) == Failure(BadBound)
    ensures SelectReportData(Table([]), start, end) == Failure(EmptyLog)
  {
  }
}
