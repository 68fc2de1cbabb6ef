/** src/google/sheets.ts after the Sheets API has returned the cell values of
    the range A1:E: `getTaskSheet` checks the header row and turns every data
    row into a record keyed by the lower-cased headers, and `santizeTaskSheet`
    keeps the rows that are named, dated and not hidden and parses their dates.

    Cells are strings. The locale-dependent lower-casing and the date parser
    are parameters: `lower` stands for `toLocaleLowerCase`, and `parseDate`
    either yields a date of the unspecified type `D` or yields none. */
module Sheets {
  import opened Wrappers
  import Seqs

  /** The column names a task sheet must have. */
  const RowTitles: seq<string> := ["name", "list", "date", "notes", "hide"]

  /** A data row as a record from header name to cell text. */
  type Record = map<string, string>

  /** The two TypeErrors of `getTaskSheet`. `found` lists the lower-cased
      headers in column order. */
  datatype SheetError = InvalidSpreadsheet | InvalidHeaders(found: seq<string>)

  /** The lower-cased header of each column, in column order. */
  function HeaderNames(header: seq<string>, lower: string -> string): (names: seq<string>)
    ensures |names| == |header|
    ensures forall i :: 0 <= i < |header| ==> names[i] == lower(header[i])
  {
    seq(|header|, i requires 0 <= i < |header| => lower(header[i]))
  }

  /** The `headers` map of the source: column index to lower-cased header. */
  function HeaderMap(header: seq<string>, lower: string -> string): (headers: map<nat, string>)
    ensures forall i: nat :: i in headers <==> i < |header|
    ensures forall i: nat :: i < |header| ==> headers[i] == lower(header[i])
  {
    map i: nat | i < |header| :: lower(header[i])
  }

  /** Every required column name is among `names`; other names may occur too. */
  predicate HasRequiredHeaders(names: seq<string>) {
    forall t :: t in RowTitles ==> t in names
  }

  /** The `forEach` over the header row that fills `headers` and `headersSet`. */
  method ReadHeaders(header: seq<string>, lower: string -> string)
    returns (headers: map<nat, string>, headersSet: set<string>)
    ensures headers == HeaderMap(header, lower)
    ensures forall name :: name in headersSet <==> name in HeaderNames(header, lower)
  {
    headers, headersSet := map[], {};
    var index := 0;
    while index < |header|
      invariant 0 <= index <= |header|
      invariant headers == HeaderMap(header[..index], lower)
      invariant forall name :: name in headersSet <==> name in HeaderNames(header[..index], lower)
    {
      var name := lower(header[index]);
      ghost var before := HeaderNames(header[..index], lower);
      assert HeaderNames(header[..index + 1], lower) == before + [name];
      headers := headers[index := name];
      headersSet := headersSet + {name};
      index := index + 1;
    }
    assert header[..index] == header;
  }

  /** The property key a column's cell is stored under: its header, or, for a
      column past the end of the header row, the key that JavaScript makes of
      `undefined`. */
  function ColumnKey(headers: map<nat, string>, index: nat): string {
    if index in headers then headers[index] else "undefined"
  }

  /** The `reduce` over a row's cells: each cell is stored under its column's
      key, left to right, so a later column overwrites an earlier one with the
      same header. */
  function RowRecord(headers: map<nat, string>, columns: seq<string>): Record
    decreases |columns|
  {
    if columns == [] then map[]
    else
      var n := |columns| - 1;
      RowRecord(headers, columns[..n])[ColumnKey(headers, n) := columns[n]]
  }

  /** The keys of a row's record are the keys of its columns, and each key
      holds the cell of the last column that has it. */
  lemma {:induction false} RowRecordLastColumnWins(headers: map<nat, string>, columns: seq<string>)
    ensures forall k :: k in RowRecord(headers, columns) <==>
              exists i: nat :: i < |columns| && ColumnKey(headers, i) == k
    ensures forall i: nat ::
              (i < |columns| && forall j: nat :: i < j < |columns| ==> ColumnKey(headers, j) != ColumnKey(headers, i))
              ==> RowRecord(headers, columns)[ColumnKey(headers, i)] == columns[i]
    decreases |columns|
  {
    if columns != [] {
      var n := |columns| - 1;
      RowRecordLastColumnWins(headers, columns[..n]);
      assert forall i :: 0 <= i < n ==> columns[..n][i] == columns[i];
    }
  }

  /** `getTaskSheet` once `values` has been fetched (`None` when the response
      has no values at all). */
  method GetTaskSheet(values: Option<seq<seq<string>>>, lower: string -> string)
    returns (r: Result<seq<Record>, SheetError>)
    ensures values.None? || values.value == [] ==> r == Failure(InvalidSpreadsheet)
    ensures values.Some? && values.value != [] ==>
              var names := HeaderNames(values.value[0], lower);
              && (r.Failure? <==> !HasRequiredHeaders(names))
              && (r.Failure? ==> r.error == InvalidHeaders(names))
    ensures r.Success? ==>
              && values.Some? && |r.value| == |values.value| - 1
              && forall j :: 0 <= j < |r.value| ==>
                   r.value[j] == RowRecord(HeaderMap(values.value[0], lower), values.value[j + 1])
  {
    if values.None? || |values.value| == 0 {
      return Failure(InvalidSpreadsheet);
    }
    var rows := values.value;
    var headers, headersSet := ReadHeaders(rows[0], lower);
    if !(forall t :: t in RowTitles ==> t in headersSet) {
      var found := seq(|rows[0]|, i requires 0 <= i < |rows[0]| => headers[i]);
      assert found == HeaderNames(rows[0], lower);
      return Failure(InvalidHeaders(found));
    }
    var entries := seq(|rows| - 1, j requires 0 <= j < |rows| - 1 => RowRecord(headers, rows[j + 1]));
    r := Success(entries);
  }

  /** The filter of `santizeTaskSheet`: a non-empty `name`, a non-empty
      `date`, and `hide` not exactly `"TRUE"` (an absent `hide` passes). */
  predicate Keep(task: Record) {
    && "name" in task && task["name"] != ""
    && "date" in task && task["date"] != ""
    && !("hide" in task && task["hide"] == "TRUE")
  }

  /** A `CleanWantedTask`: the record's other fields, the parsed date, and the
      `hide` flag as a boolean. */
  datatype CleanTask<D> = CleanTask(fields: Record, date: D, hidden: bool)

  /** The TypeError thrown for a kept row whose date does not parse. */
  datatype DateError = InvalidTaskDate(task: Record)

  /** The map callback of `santizeTaskSheet`. */
  function Clean<D>(parseDate: string -> Option<D>, task: Record): (r: Result<CleanTask<D>, DateError>)
    ensures r.Success? <==> "date" in task && parseDate(task["date"]).Some?
    ensures r.Success? ==> r.value.fields.Keys == task.Keys - {"date", "hide"} && r.value.fields == task - {"date", "hide"}
    ensures r.Success? ==> parseDate(task["date"]) == Some(r.value.date)
    ensures r.Success? ==> (r.value.hidden <==> "hide" in task && task["hide"] == "TRUE")
    ensures r.Failure? ==> r.error == InvalidTaskDate(task)
  {
    var hidden := "hide" in task && task["hide"] == "TRUE";
    if "date" in task then
      match parseDate(task["date"])
      case Some(d) => Success(CleanTask(task - {"date", "hide"}, d, hidden))
      case None => Failure(InvalidTaskDate(task))
    else Failure(InvalidTaskDate(task))
  }

  /** `santizeTaskSheet`. */
  function SanitizeTaskSheet<D>(tasks: seq<Record>, parseDate: string -> Option<D>): (r: Result<seq<CleanTask<D>>, DateError>)
    ensures r.Success? ==> |r.value| <= |tasks|
    ensures r.Failure? ==> exists i :: 0 <= i < |tasks| && Keep(tasks[i]) && r.error == InvalidTaskDate(tasks[i])
  {
    var kept := Seqs.Filter(tasks, Keep);
    var f := (task: Record) => Clean(parseDate, task);
    var r := Seqs.MapOrFail(kept, f);
    assert r.Failure? ==> exists i :: 0 <= i < |tasks| && Keep(tasks[i]) && r.error == InvalidTaskDate(tasks[i]) by {
      if r.Failure? {
        var j :| 0 <= j < |kept| && f(kept[j]).Failure? && f(kept[j]).error == r.error;
        assert kept[j] in kept;
        var i :| 0 <= i < |tasks| && tasks[i] == kept[j];
      }
    }
    r
  }

  /** On success the output is exactly the kept records, in order and no more
      of them than the input has; each keeps its other fields, carries its
      parsed date, and has `hide` false, since the rows whose `hide` is
      `"TRUE"` were filtered out before the flag was computed. */
  lemma SanitizeSuccess<D>(tasks: seq<Record>, parseDate: string -> Option<D>)
    requires SanitizeTaskSheet(tasks, parseDate).Success?
    ensures var out, ks := SanitizeTaskSheet(tasks, parseDate).value, Seqs.KeptIndices(tasks, Keep);
      && |out| == |ks| <= |tasks|
      && (forall j, k :: 0 <= j < k < |ks| ==> ks[j] < ks[k])
      && (forall i :: 0 <= i < |tasks| ==> (i in ks <==> Keep(tasks[i])))
      && (forall j :: 0 <= j < |ks| ==>
            && out[j].fields == tasks[ks[j]] - {"date", "hide"}
            && parseDate(tasks[ks[j]]["date"]) == Some(out[j].date)
            && !out[j].hidden)
  {
    var f := (task: Record) => Clean(parseDate, task);
    Seqs.FilterMapSuccess(tasks, Keep, f);
    var out, ks := SanitizeTaskSheet(tasks, parseDate).value, Seqs.KeptIndices(tasks, Keep);
    forall j | 0 <= j < |ks|
      ensures && out[j].fields == tasks[ks[j]] - {"date", "hide"}
              && parseDate(tasks[ks[j]]["date"]) == Some(out[j].date)
              && !out[j].hidden
    {
      var t := tasks[ks[j]];
      assert Keep(t) && f(t) == Clean(parseDate, t) && f(t).value == out[j];
    }
  }

  /** A failing run names the first kept record, `tasks[i]`, whose date does not parse. */
  lemma SanitizeFailure<D>(tasks: seq<Record>, parseDate: string -> Option<D>) returns (i: nat)
    requires SanitizeTaskSheet(tasks, parseDate).Failure?
    ensures i < |tasks| && Keep(tasks[i]) && parseDate(tasks[i]["date"]).None?
    ensures SanitizeTaskSheet(tasks, parseDate).error == InvalidTaskDate(tasks[i])
    ensures forall j :: 0 <= j < i && Keep(tasks[j]) ==> parseDate(tasks[j]["date"]).Some?
  {
    i := Seqs.FilterMapFailure(tasks, Keep, (task: Record) => Clean(parseDate, task));
  }

  /** The run fails exactly when some kept record's date does not parse. */
  lemma SanitizeFailsIff<D>(tasks: seq<Record>, parseDate: string -> Option<D>)
    ensures SanitizeTaskSheet(tasks, parseDate).Failure? <==>
              exists i :: 0 <= i < |tasks| && Keep(tasks[i]) && parseDate(tasks[i]["date"]).None?
  {
    Seqs.FilterMapFailsIff(tasks, Keep, (task: Record) => Clean(parseDate, task));
  }
}
