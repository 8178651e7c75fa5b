/** The CSV ledger `data/data.csv` and `SensorApp.log_to_csv`
    (python/main_gui.py). A file is a sequence of rows, each a sequence of
    cells; a zero-length file is a present file with no rows. */
module Ledger {

  const Header: seq<string> := ["Timestamp", "Temperature_C", "Humidity_Percent"]

  datatype CsvFile = Missing | Present(rows: seq<seq<string>>)

  function Rows(f: CsvFile): seq<seq<string>>
  {
    if f.Missing? then [] else f.rows
  }

  /** `not os.path.isfile(CSV_FILE) or os.path.getsize(CSV_FILE) == 0` */
  predicate MissingOrEmpty(f: CsvFile)
    ensures MissingOrEmpty(f) <==> Rows(f) == []
  {
    f.Missing? || f.rows == []
  }

  /** `log_to_csv(row_data)`. `ok` says whether `open(CSV_FILE, 'a')`
      succeeded; when it raises `IOError` the error is only printed and the
      file is left as it was. Otherwise the header goes first when the file
      was missing or empty, then the data row. */
  function LogToCsv(f: CsvFile, row: seq<string>, ok: bool): (r: CsvFile)
    ensures !ok ==> r == f
    ensures ok ==> r.Present? && |r.rows| == |Rows(f)| + (if MissingOrEmpty(f) then 2 else 1)
    ensures ok ==> Rows(f) <= r.rows && r.rows[|r.rows| - 1] == row
    ensures ok && MissingOrEmpty(f) ==> r.rows[0] == Header
  {
    if !ok then f
    else if MissingOrEmpty(f) then Present([Header, row])
    else Present(f.rows + [row])
  }

  /** One call of `log_to_csv`: the row and whether the file could be opened. */
  datatype Write = Write(row: seq<string>, ok: bool)

  function LogAll(f: CsvFile, ws: seq<Write>): CsvFile
    decreases |ws|
  {
    if |ws| == 0 then f else LogAll(LogToCsv(f, ws[0].row, ws[0].ok), ws[1..])
  }

  /** The rows of the writes that could open the file, in order. */
  function Written(ws: seq<Write>): seq<seq<string>>
    decreases |ws|
  {
    if |ws| == 0 then [] else (if ws[0].ok then [ws[0].row] else []) + Written(ws[1..])
  }

  /** Over any sequence of appends, in one session or across restarts, the
      file is its old rows, then every written row in order, preceded by a
      single header when the file started out missing or empty. */
  lemma {:induction false} LogAllAppends(f: CsvFile, ws: seq<Write>)
    ensures Rows(LogAll(f, ws))
         == (if MissingOrEmpty(f) && |Written(ws)| > 0 then [Header] else []) + Rows(f) + Written(ws)
    ensures |Written(ws)| == 0 ==> LogAll(f, ws) == f
    decreases |ws|
  {
    if |ws| > 0 {
      var w := ws[0];
      var f' := LogToCsv(f, w.row, w.ok);
      var rest := Written(ws[1..]);
      var now := if w.ok then [w.row] else [];
      assert Written(ws) == now + rest;
      LogAllAppends(f', ws[1..]);
      assert LogAll(f, ws) == LogAll(f', ws[1..]);
      if !w.ok {
        assert f' == f;
      } else if MissingOrEmpty(f) {
        assert Rows(f) == [] && Rows(f') == [Header] + now && !MissingOrEmpty(f');
        ConcatAssoc([Header], now, rest);
      } else {
        assert Rows(f') == Rows(f) + now && !MissingOrEmpty(f');
        ConcatAssoc(Rows(f), now, rest);
      }
    }
  }

  lemma ConcatAssoc<T>(a: seq<T>, b: seq<T>, c: seq<T>)
    ensures a + b + c == a + (b + c)
  {
  }

  /** Hence, starting from a missing or empty file, the header is row 0 and
      appears exactly once, as long as no data row looks like it. */
  lemma {:induction false} HeaderExactlyOnce(f: CsvFile, ws: seq<Write>)
    requires MissingOrEmpty(f) && |Written(ws)| > 0 && Header !in Written(ws)
    ensures |Rows(LogAll(f, ws))| > 0 && Rows(LogAll(f, ws))[0] == Header
    ensures multiset(Rows(LogAll(f, ws)))[Header] == 1
  {
    LogAllAppends(f, ws);
    assert Rows(LogAll(f, ws)) == [Header] + Written(ws);
    assert multiset(Written(ws))[Header] == 0;
  }
}
