/** The part of `parse` in src/csv.ts that runs once the CSV stream has been
    read: drop the rows that are unnamed or hidden, then turn each remaining
    row's `date` text into a date, failing on the first one that does not parse.

    A row is what the CSV reader produced for one line: a record from the
    lower-cased header names to the cell texts. A column the file does not
    have is a key the map does not hold (`undefined` in the source). Dates are
    of an unspecified type `D`, and the date parser is a parameter that either
    yields a date or yields none. */
module Csv {
  import opened Wrappers
  import Seqs

  type Row = map<string, string>

  /** The filter of src/csv.ts: a non-empty `name`, and either no `hide`
      column or an empty one. */
  predicate Keep(row: Row) {
    && "name" in row && row["name"] != ""
    && ("hide" !in row || row["hide"] == "")
  }

  /** The row's `date` text is present and the parser recognises it. */
  predicate DateParses<D>(parseDate: string -> Option<D>, row: Row) {
    "date" in row && parseDate(row["date"]).Some?
  }

  /** An output record: every field of the row except `date`, plus the parsed date. */
  datatype Task<D> = Task(fields: map<string, string>, date: D)

  /** The TypeError thrown for a kept row whose date does not parse. */
  datatype DateError = InvalidDate(row: Row)

  /** The map callback of src/csv.ts: parse the date or throw. */
  function Convert<D>(parseDate: string -> Option<D>, row: Row): (r: Result<Task<D>, DateError>)
    ensures r.Success? <==> DateParses(parseDate, row)
    ensures r.Success? ==> "date" !in r.value.fields && (forall k :: k in row && k != "date" ==> k in r.value.fields && r.value.fields[k] == row[k])
    ensures r.Success? ==> r.value.fields.Keys == row.Keys - {"date"} && parseDate(row["date"]) == Some(r.value.date)
    ensures r.Failure? ==> r.error == InvalidDate(row)
  {
    if "date" in row then
      match parseDate(row["date"])
      case Some(d) => Success(Task(row - {"date"}, d))
      case None => Failure(InvalidDate(row))
    else Failure(InvalidDate(row))
  }

  /** `parse` after the rows have been read. */
  function Parse<D>(rows: seq<Row>, parseDate: string -> Option<D>): (r: Result<seq<Task<D>>, DateError>)
    ensures r.Success? ==> |r.value| <= |rows|
    ensures r.Failure? ==> exists i :: 0 <= i < |rows| && Keep(rows[i]) && r.error == InvalidDate(rows[i])
  {
    var kept := Seqs.Filter(rows, Keep);
    var f := (row: Row) => Convert(parseDate, row);
    var r := Seqs.MapOrFail(kept, f);
    assert r.Failure? ==> exists i :: 0 <= i < |rows| && Keep(rows[i]) && r.error == InvalidDate(rows[i]) by {
      if r.Failure? {
        var j :| 0 <= j < |kept| && f(kept[j]).Failure? && f(kept[j]).error == r.error;
        assert kept[j] in kept;
        var i :| 0 <= i < |rows| && rows[i] == kept[j];
      }
    }
    r
  }

  /** On success the output is the kept rows, in their input order (read at
      the increasing positions `ks`, which are exactly the kept positions),
      each with all its fields and only `date` replaced by the parsed value. */
  lemma ParseSuccess<D>(rows: seq<Row>, parseDate: string -> Option<D>)
    requires Parse(rows, parseDate).Success?
    ensures var out, ks := Parse(rows, parseDate).value, Seqs.KeptIndices(rows, Keep);
      && |out| == |ks| <= |rows|
      && (forall j, k :: 0 <= j < k < |ks| ==> ks[j] < ks[k])
      && (forall i :: 0 <= i < |rows| ==> (i in ks <==> Keep(rows[i])))
      && (forall j :: 0 <= j < |ks| ==>
            && out[j].fields == rows[ks[j]] - {"date"}
            && "date" in rows[ks[j]] && parseDate(rows[ks[j]]["date"]) == Some(out[j].date))
  {
    var f := (row: Row) => Convert(parseDate, row);
    Seqs.FilterMapSuccess(rows, Keep, f);
    var out, ks := Parse(rows, parseDate).value, Seqs.KeptIndices(rows, Keep);
    forall j | 0 <= j < |ks|
      ensures && out[j].fields == rows[ks[j]] - {"date"}
              && "date" in rows[ks[j]] && parseDate(rows[ks[j]]["date"]) == Some(out[j].date)
    {
      var row := rows[ks[j]];
      assert f(row) == Convert(parseDate, row) && f(row).value == out[j];
    }
  }

  /** A failing run names the first kept row, `rows[i]`, whose date does not parse. */
  lemma ParseFailure<D>(rows: seq<Row>, parseDate: string -> Option<D>) returns (i: nat)
    requires Parse(rows, parseDate).Failure?
    ensures i < |rows| && Keep(rows[i]) && !DateParses(parseDate, rows[i])
    ensures Parse(rows, parseDate).error == InvalidDate(rows[i])
    ensures forall j :: 0 <= j < i && Keep(rows[j]) ==> DateParses(parseDate, rows[j])
  {
    i := Seqs.FilterMapFailure(rows, Keep, (row: Row) => Convert(parseDate, row));
  }

  /** The run fails exactly when some kept row has a date that does not
      parse; a dropped row never causes a date error. */
  lemma ParseFailsIff<D>(rows: seq<Row>, parseDate: string -> Option<D>)
    ensures Parse(rows, parseDate).Failure? <==>
              exists i :: 0 <= i < |rows| && Keep(rows[i]) && !DateParses(parseDate, rows[i])
  {
    Seqs.FilterMapFailsIff(rows, Keep, (row: Row) => Convert(parseDate, row));
  }

  /** Filtering happens before date parsing: inserting a dropped row
      anywhere, whatever its date, changes nothing. */
  lemma ParseIgnoresDropped<D>(a: seq<Row>, x: Row, b: seq<Row>, parseDate: string -> Option<D>)
    requires !Keep(x)
    ensures Parse(a + [x] + b, parseDate) == Parse(a + b, parseDate)
  {
    Seqs.FilterSkipsRejected(a, x, b, Keep);
  }
}
