/** The row rules and the result bookkeeping of `import_from_csv`
    (database.py:310-406). The parsed CSV is given as its column names and its
    records; the contacts already stored are given as rows; which inserts
    raise, and with what message, is a map from record index to message. */
module CsvImport {
  import opened Wrappers
  import opened Text
  import opened Records

  const RequiredColumns: seq<string> := ["name", "designation", "company", "phone", "email", "website", "address"]

  datatype ImportResult = ImportResult(
    successCount: nat,
    errorCount: nat,
    totalCount: nat,
    errors: seq<string>,
    message: string)

  /** What happened to one CSV record. */
  datatype Disposition = SkippedBlank | SkippedDuplicate | Failed(message: string) | Inserted(row: Row)

  // ---------------------------------------------------------------------------
  // Early exits

  /** The required columns the file lacks, in the required order. */
  function MissingColumns(columns: seq<string>): (r: seq<string>)
    ensures forall c :: c in r <==> c in RequiredColumns && c !in columns
    ensures IsSubsequence(r, RequiredColumns)
  {
    Missing(RequiredColumns, columns)
  }

  function Missing(required: seq<string>, columns: seq<string>): (r: seq<string>)
    ensures forall c :: c in r <==> c in required && c !in columns
    ensures IsSubsequence(r, required)
    ensures |r| <= |required|
  {
    if |required| == 0 then []
    else
      assert forall c :: c in required <==> c == required[0] || c in required[1..];
      var rest := Missing(required[1..], columns);
      if required[0] in columns then
        rest
      else
        assert ([required[0]] + rest)[1..] == rest;
        [required[0]] + rest
  }

  const ConnectionFailedResult: ImportResult :=
    ImportResult(0, 0, 0, ["Database connection failed"], "Import failed: Database connection failed")

  const EmptyFileResult: ImportResult := ImportResult(0, 0, 0, [], "CSV file is empty")

  function MissingColumnsResult(missing: seq<string>, total: nat): ImportResult {
    ImportResult(0, 0, total, ["Missing required columns: " + Join(missing, ", ")], "CSV file missing required columns")
  }

  // ---------------------------------------------------------------------------
  // One record

  /** Every cell `str(...).strip()`-ed. */
  function CleanRow(r: Row): Row {
    Row(Strip(r.name), Strip(r.designation), Strip(r.company), Strip(r.phone),
        Strip(r.email), Strip(r.website), Strip(r.address))
  }

  /** The records as the loop reads them, each cleaned. */
  function CleanRows(rows: seq<Row>): (r: seq<Row>)
    ensures |r| == |rows|
  {
    seq(|rows|, k requires 0 <= k < |rows| => CleanRow(rows[k]))
  }

  /** A cleaned record has every cell stripped, and its name (company) is
      empty exactly when the original one is blank. */
  lemma CleanRowSpec(r: Row)
    ensures var c := CleanRow(r);
      IsStripped(c.name) && IsStripped(c.designation) && IsStripped(c.company) && IsStripped(c.phone)
      && IsStripped(c.email) && IsStripped(c.website) && IsStripped(c.address)
      && (c.name == "" <==> IsBlank(r.name))
      && (c.company == "" <==> IsBlank(r.company))
  {
  }

  predicate IsBlankRow(r: Row) {
    r.name == "" && r.company == ""
  }

  /** The duplicate query: same name and company, or the same non-empty email. */
  predicate Clashes(r: Row, stored: Row) {
    (stored.name == r.name && stored.company == r.company) || (stored.email == r.email && stored.email != "")
  }

  predicate IsDuplicate(r: Row, table: seq<Row>) {
    exists k :: 0 <= k < |table| && Clashes(r, table[k])
  }

  function RowError(index: nat, message: string): string {
    "Row " + NatToDecimal(index + 1) + ": " + message
  }

  /** The fate of the cleaned record `r` at `index` against the table as it stands. */
  function Decide(r: Row, index: nat, table: seq<Row>, skipDuplicates: bool, insertFailures: map<nat, string>): Disposition {
    if IsBlankRow(r) then SkippedBlank
    else if skipDuplicates && IsDuplicate(r, table) then SkippedDuplicate
    else if index in insertFailures then Failed(RowError(index, insertFailures[index]))
    else Inserted(r)
  }

  /** A record is skipped as blank exactly when its name and company are
      empty, and as a duplicate exactly when skipping is on and it clashes
      with a row of the table; otherwise it fails exactly when its insert
      raises, with the message numbered from 1, and is inserted as it is
      when it does not. */
  lemma DecideCases(r: Row, index: nat, table: seq<Row>, skipDuplicates: bool, insertFailures: map<nat, string>)
    ensures var d := Decide(r, index, table, skipDuplicates, insertFailures);
      && (d == SkippedBlank <==> IsBlankRow(r))
      && (d == SkippedDuplicate <==> !IsBlankRow(r) && skipDuplicates && IsDuplicate(r, table))
      && (d.Failed? <==> !IsBlankRow(r) && !(skipDuplicates && IsDuplicate(r, table)) && index in insertFailures)
      && (d.Failed? ==> index in insertFailures && d.message == RowError(index, insertFailures[index]))
      && (d.Inserted? <==> !IsBlankRow(r) && !(skipDuplicates && IsDuplicate(r, table)) && index !in insertFailures)
      && (d.Inserted? ==> d.row == r)
  {
  }

  /** The row an insert adds to the table, if any. */
  function AddedRow(d: Disposition): seq<Row> {
    if d.Inserted? then [d.row] else []
  }

  /** The message a failed insert adds to `errors`, if any. */
  function AddedError(d: Disposition): seq<string> {
    if d.Failed? then [d.message] else []
  }

  function InsertedRows(ds: seq<Disposition>): (r: seq<Row>)
    ensures |r| <= |ds|
  {
    if |ds| == 0 then []
    else InsertedRows(ds[..|ds| - 1]) + AddedRow(ds[|ds| - 1])
  }

  function Errors(ds: seq<Disposition>): (r: seq<string>)
    ensures |r| <= |ds|
  {
    if |ds| == 0 then []
    else Errors(ds[..|ds| - 1]) + AddedError(ds[|ds| - 1])
  }

  /** Reference definition: the cleaned records decided in order, each
      against the stored rows plus the records inserted before it. */
  function Dispositions(records: seq<Row>, existing: seq<Row>, skipDuplicates: bool, insertFailures: map<nat, string>): (ds: seq<Disposition>)
    ensures |ds| == |records|
  {
    if |records| == 0 then []
    else
      var prev := Dispositions(records[..|records| - 1], existing, skipDuplicates, insertFailures);
      var k := |records| - 1;
      prev + [Decide(records[k], k, existing + InsertedRows(prev), skipDuplicates, insertFailures)]
  }

  function SuccessMessage(n: nat): string {
    "Successfully imported " + NatToDecimal(n) + " contacts"
  }

  // ---------------------------------------------------------------------------
  // The import

  lemma DispositionsPrefix(records: seq<Row>, existing: seq<Row>, skipDuplicates: bool, insertFailures: map<nat, string>, i: nat)
    requires i < |records|
    ensures Dispositions(records[..i + 1], existing, skipDuplicates, insertFailures)
         == Dispositions(records[..i], existing, skipDuplicates, insertFailures)
            + [Decide(records[i], i, existing + InsertedRows(Dispositions(records[..i], existing, skipDuplicates, insertFailures)), skipDuplicates, insertFailures)]
  {
    var p := records[..i + 1];
    assert p[..|p| - 1] == records[..i];
    assert p[|p| - 1] == records[i];
  }

  lemma InsertedRowsSnoc(ds: seq<Disposition>, d: Disposition)
    ensures InsertedRows(ds + [d]) == InsertedRows(ds) + AddedRow(d)
    ensures Errors(ds + [d]) == Errors(ds) + AddedError(d)
  {
    assert (ds + [d])[..|ds|] == ds;
  }

  /** The loop's bookkeeping after the first `i` records: the decisions so
      far, the table they left, and the counts and messages they produced. */
  ghost predicate Progress(records: seq<Row>, existing: seq<Row>, skipDuplicates: bool, insertFailures: map<nat, string>,
                           i: nat, ds: seq<Disposition>, table: seq<Row>, successCount: nat, errorCount: nat, errors: seq<string>)
  {
    && i <= |records|
    && ds == Dispositions(records[..i], existing, skipDuplicates, insertFailures)
    && table == existing + InsertedRows(ds)
    && successCount == |InsertedRows(ds)|
    && errors == Errors(ds)
    && errorCount == |errors|
  }

  lemma ProgressStep(records: seq<Row>, existing: seq<Row>, skipDuplicates: bool, insertFailures: map<nat, string>,
                     i: nat, ds: seq<Disposition>, table: seq<Row>, successCount: nat, errorCount: nat, errors: seq<string>)
    requires i < |records|
    requires Progress(records, existing, skipDuplicates, insertFailures, i, ds, table, successCount, errorCount, errors)
    ensures var d := Decide(records[i], i, table, skipDuplicates, insertFailures);
      Progress(records, existing, skipDuplicates, insertFailures, i + 1, ds + [d], table + AddedRow(d),
               successCount + |AddedRow(d)|, errorCount + |AddedError(d)|, errors + AddedError(d))
  {
    var d := Decide(records[i], i, table, skipDuplicates, insertFailures);
    DispositionsPrefix(records, existing, skipDuplicates, insertFailures, i);
    InsertedRowsSnoc(ds, d);
    SeqAssoc(existing, InsertedRows(ds), AddedRow(d));
  }

  lemma ProgressStart(records: seq<Row>, existing: seq<Row>, skipDuplicates: bool, insertFailures: map<nat, string>)
    ensures Progress(records, existing, skipDuplicates, insertFailures, 0, [], existing, 0, 0, [])
  {
    assert records[..0] == [];
    assert existing + [] == existing;
  }

  lemma ProgressDone(records: seq<Row>, existing: seq<Row>, skipDuplicates: bool, insertFailures: map<nat, string>,
                     ds: seq<Disposition>, table: seq<Row>, successCount: nat, errorCount: nat, errors: seq<string>)
    requires Progress(records, existing, skipDuplicates, insertFailures, |records|, ds, table, successCount, errorCount, errors)
    ensures ds == Dispositions(records, existing, skipDuplicates, insertFailures)
    ensures successCount == |InsertedRows(ds)|
    ensures errors == Errors(ds) && errorCount == |errors|
  {
    TakeAll(records);
  }

  /** One pass of the per-record loop: record `i` is decided against the
      table as it stands and counted. */
  method ImportRecord(records: seq<Row>, existing: seq<Row>, skipDuplicates: bool, insertFailures: map<nat, string>,
                      i: nat, ds: seq<Disposition>, table: seq<Row>, successCount: nat, errorCount: nat, errors: seq<string>)
    returns (ds': seq<Disposition>, table': seq<Row>, successCount': nat, errorCount': nat, errors': seq<string>)
    requires i < |records|
    requires Progress(records, existing, skipDuplicates, insertFailures, i, ds, table, successCount, errorCount, errors)
    ensures Progress(records, existing, skipDuplicates, insertFailures, i + 1, ds', table', successCount', errorCount', errors')
  {
    ProgressStep(records, existing, skipDuplicates, insertFailures, i, ds, table, successCount, errorCount, errors);
    var d := Decide(records[i], i, table, skipDuplicates, insertFailures);
    var added, failed := AddedRow(d), AddedError(d);
    successCount' := successCount + |added|;
    errorCount' := errorCount + |failed|;
    errors' := errors + failed;
    table' := table + added;
    ds' := ds + [d];
  }

  /** The per-record loop of `import_from_csv` over the cleaned records. */
  method ImportRows(records: seq<Row>, existing: seq<Row>, skipDuplicates: bool, insertFailures: map<nat, string>)
    returns (successCount: nat, errorCount: nat, errors: seq<string>, ds: seq<Disposition>)
    ensures ds == Dispositions(records, existing, skipDuplicates, insertFailures)
    ensures successCount == |InsertedRows(ds)|
    ensures errors == Errors(ds) && errorCount == |errors|
  {
    ds := [];
    successCount, errorCount, errors := 0, 0, [];
    var table := existing;
    var i := 0;
    ProgressStart(records, existing, skipDuplicates, insertFailures);
    while i < |records|
      invariant Progress(records, existing, skipDuplicates, insertFailures, i, ds, table, successCount, errorCount, errors)
    {
      ds, table, successCount, errorCount, errors :=
        ImportRecord(records, existing, skipDuplicates, insertFailures, i, ds, table, successCount, errorCount, errors);
      i := i + 1;
    }
    ProgressDone(records, existing, skipDuplicates, insertFailures, ds, table, successCount, errorCount, errors);
  }

  /** `import_from_csv`: the connection test, the empty-file and missing-column
      exits, then one decision per record. */
  method ImportFromCsv(connected: bool, columns: seq<string>, rows: seq<Row>, existing: seq<Row>,
                       skipDuplicates: bool, insertFailures: map<nat, string>)
    returns (result: ImportResult, ds: seq<Disposition>)
    ensures !connected ==> result == ConnectionFailedResult
    ensures connected && rows == [] ==> result == EmptyFileResult
    ensures connected && rows != [] && MissingColumns(columns) != []
            ==> result == MissingColumnsResult(MissingColumns(columns), |rows|)
    ensures connected && rows != [] && MissingColumns(columns) == [] ==>
              ds == Dispositions(CleanRows(rows), existing, skipDuplicates, insertFailures)
              && result.successCount == |InsertedRows(ds)|
              && result.errors == Errors(ds)
              && result.totalCount == |rows|
              && result.message == SuccessMessage(result.successCount)
              && result.errorCount == |result.errors|
  {
    ds := [];
    if !connected {
      return ConnectionFailedResult, ds;
    }
    if |rows| == 0 {
      return EmptyFileResult, ds;
    }
    var missing := MissingColumns(columns);
    if missing != [] {
      return MissingColumnsResult(missing, |rows|), ds;
    }
    var successCount, errorCount, errors;
    successCount, errorCount, errors, ds := ImportRows(CleanRows(rows), existing, skipDuplicates, insertFailures);
    result := ImportResult(successCount, errorCount, |rows|, errors, SuccessMessage(successCount));
  }

  // ---------------------------------------------------------------------------
  // Properties

  /** Earlier records are decided the same whatever follows them. */
  lemma {:induction false} DispositionsStable(records: seq<Row>, existing: seq<Row>, skipDuplicates: bool,
                                              insertFailures: map<nat, string>, n: nat)
    requires n <= |records|
    ensures Dispositions(records[..n], existing, skipDuplicates, insertFailures)
         == Dispositions(records, existing, skipDuplicates, insertFailures)[..n]
    decreases |records|
  {
    if n == |records| {
      assert records[..n] == records;
    } else {
      var init := records[..|records| - 1];
      var prev := Dispositions(init, existing, skipDuplicates, insertFailures);
      var all := Dispositions(records, existing, skipDuplicates, insertFailures);
      assert all[..|records| - 1] == prev;
      TakeTake(all, |records| - 1, n);
      TakeTake(records, |records| - 1, n);
      DispositionsStable(init, existing, skipDuplicates, insertFailures, n);
    }
  }

  /** Record `k` is decided against the stored records plus the records inserted before it. */
  lemma DispositionAt(records: seq<Row>, existing: seq<Row>, skipDuplicates: bool, insertFailures: map<nat, string>, k: nat)
    requires k < |records|
    ensures var ds := Dispositions(records, existing, skipDuplicates, insertFailures);
      ds[k] == Decide(records[k], k, existing + InsertedRows(ds[..k]), skipDuplicates, insertFailures)
  {
    DispositionsStable(records, existing, skipDuplicates, insertFailures, k + 1);
    DispositionsStable(records, existing, skipDuplicates, insertFailures, k);
    DispositionsPrefix(records, existing, skipDuplicates, insertFailures, k);
    var ds := Dispositions(records, existing, skipDuplicates, insertFailures);
    assert ds[..k + 1][k] == ds[k];
  }

  /** A record whose name and company are both blank is skipped: neither a success nor an error. */
  lemma BlankRecordSkipped(rows: seq<Row>, existing: seq<Row>, skipDuplicates: bool, insertFailures: map<nat, string>, k: nat)
    requires k < |rows| && IsBlank(rows[k].name) && IsBlank(rows[k].company)
    ensures Dispositions(CleanRows(rows), existing, skipDuplicates, insertFailures)[k] == SkippedBlank
  {
    CleanRowSpec(rows[k]);
    DispositionAt(CleanRows(rows), existing, skipDuplicates, insertFailures, k);
  }

  /** With duplicate skipping on, no record is inserted that clashes with a
      stored row or with a record inserted before it. */
  lemma InsertedAreFresh(records: seq<Row>, existing: seq<Row>, insertFailures: map<nat, string>, k: nat)
    requires k < |records|
    requires Dispositions(records, existing, true, insertFailures)[k].Inserted?
    ensures var ds := Dispositions(records, existing, true, insertFailures);
      !IsDuplicate(ds[k].row, existing + InsertedRows(ds[..k])) && !IsBlankRow(ds[k].row)
  {
    DispositionAt(records, existing, true, insertFailures, k);
  }

  /** Every error is reported against its record number, counted from 1. */
  lemma {:induction false} ErrorsAreRowErrors(ds: seq<Disposition>, records: seq<Row>, existing: seq<Row>,
                                              skipDuplicates: bool, insertFailures: map<nat, string>)
    requires ds == Dispositions(records, existing, skipDuplicates, insertFailures)
    ensures forall e :: e in Errors(ds) ==> exists k :: k in insertFailures && e == RowError(k, insertFailures[k])
    decreases |records|
  {
    if |records| > 0 {
      var n := |records| - 1;
      var prev := Dispositions(records[..n], existing, skipDuplicates, insertFailures);
      var d := Decide(records[n], n, existing + InsertedRows(prev), skipDuplicates, insertFailures);
      assert ds == prev + [d];
      InsertedRowsSnoc(prev, d);
      ErrorsAreRowErrors(prev, records[..n], existing, skipDuplicates, insertFailures);
      forall e | e in Errors(ds) ensures exists k :: k in insertFailures && e == RowError(k, insertFailures[k]) {
        if e !in Errors(prev) {
          assert d.Failed? && e == d.message;
          assert n in insertFailures && e == RowError(n, insertFailures[n]);
        }
      }
    }
  }

  /** Successes and errors together never exceed the record count; the rest were skipped. */
  lemma {:induction false} CountsBounded(ds: seq<Disposition>)
    ensures |InsertedRows(ds)| + |Errors(ds)| + |Skipped(ds)| == |ds|
  {
    if |ds| > 0 {
      CountsBounded(ds[..|ds| - 1]);
    }
  }

  function Skipped(ds: seq<Disposition>): seq<Disposition> {
    if |ds| == 0 then []
    else Skipped(ds[..|ds| - 1]) + (if ds[|ds| - 1] == SkippedBlank || ds[|ds| - 1] == SkippedDuplicate then [ds[|ds| - 1]] else [])
  }

  /** The early exits report one message in `errors` while `error_count` stays 0. */
  lemma EarlyExitErrorCount(columns: seq<string>, total: nat)
    requires MissingColumns(columns) != []
    ensures var r := MissingColumnsResult(MissingColumns(columns), total);
      r.errorCount == 0 && |r.errors| == 1 && r.successCount == 0 && r.totalCount == total
    ensures ConnectionFailedResult.errorCount == 0 && |ConnectionFailedResult.errors| == 1
  {
  }

  /** Without insert failures and without duplicate skipping, every non-blank record is inserted. */
  lemma AllNonBlankInserted(rows: seq<Row>, existing: seq<Row>, k: nat)
    requires k < |rows| && !(IsBlank(rows[k].name) && IsBlank(rows[k].company))
    ensures Dispositions(CleanRows(rows), existing, false, map[])[k] == Inserted(CleanRow(rows[k]))
  {
    CleanRowSpec(rows[k]);
    DispositionAt(CleanRows(rows), existing, false, map[], k);
  }
}
