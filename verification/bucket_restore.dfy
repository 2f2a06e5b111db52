/** `restoreFromBucket` (restoreFromBucket.js): a password-guarded restore
    from an archive in the storage bucket, either of every table of a fixed
    five-table list ("full") or of one named table ("table"). Restoring a
    table decodes its member, deletes the rows whose id is not 0, and inserts
    the decoded rows in one call; a failed insert aborts the run. */
module BucketRestore {
  import opened Wrappers
  import opened Js
  import opened CsvEncode
  import opened CsvDecode
  import opened Store

  /** The password the request must carry. */
  const Password := "faizanyounus"

  /** The tables a full restore visits, in order (`sale_returns` is absent). */
  const RestoreTables: seq<string> := ["sales", "purchases", "items", "customers", "app_users"]

  /** The fields of `req.body` the function reads; `None` is undefined. */
  datatype Request = Request(password: Option<Value>, fileName: Option<Value>,
                             mode: Option<Value>, table: Option<Value>)

  /** What downloading and extracting the named archive produced: the storage
      call failed or returned no data, the extraction threw, or the extracted
      members by file name. */
  datatype Download = DownloadFailed | ExtractFailed(message: string) | Extracted(files: map<string, string>)

  /** The store calls that fail: deletes (ignored by the code), and bulk
      inserts by table with the `error.message` each one returns. */
  datatype Faults = Faults(deleteFails: set<string>, insertFails: map<string, string>)

  datatype Failure =
    | InvalidPassword      // "Invalid password"
    | FileNameMissing      // "File name missing"
    | DownloadError        // "Failed to download backup zip"
    | ExtractError(message: string)  // the extraction's own error message
    | TableFileNotFound    // "Table file not found in backup"
    | InsertError(message: string)   // the insert's error message, rethrown

  /** The JSON the handler answers with: `{success: true}` or `{success: false, error}`. */
  datatype Reply = Success | Failed(why: Failure)

  datatype TableOutcome = TableOutcome(db: Db, inserted: bool)

  /** The rows of `t` after the delete: all of them when the delete failed. */
  function Kept(db: Db, t: string, faults: Faults): seq<Record> {
    AfterDelete(db, t, t in faults.deleteFails)
  }

  /** The rows of `t` after a successful restore from `text`. */
  function Replaced(db: Db, t: string, text: string, faults: Faults): seq<Record> {
    Kept(db, t, faults) + DecodeTable(text)
  }

  /** `restoreTable(table, file)`: decode, delete, then one bulk insert that
      either adds every decoded row or none. */
  function RestoreTable(db: Db, t: string, text: string, faults: Faults): (o: TableOutcome)
    ensures o.inserted <==> t !in faults.insertFails
    ensures Rows(o.db, t) == if o.inserted then Replaced(db, t, text, faults) else Kept(db, t, faults)
    ensures forall u | u != t :: Rows(o.db, u) == Rows(db, u)
  {
    var kept := Kept(db, t, faults);
    if t in faults.insertFails then TableOutcome(db[t := kept], false)
    else TableOutcome(db[t := kept + DecodeTable(text)], true)
  }

  datatype FullOutcome = FullOutcome(db: Db, failedAt: Option<nat>)

  /** Index one past the last table of `tables` a full restore touches. */
  function Reach(tables: seq<string>, o: FullOutcome): nat {
    if o.failedAt.Some? then o.failedAt.value + 1 else |tables|
  }

  /** The loop `for (const tbl of TABLES)` of the full restore over `tables`
      (the handler passes `RestoreTables`), from index `i`: a table without a
      member is skipped, and the first failing insert stops the loop,
      reporting the index of its table. */
  function RestoreFrom(tables: seq<string>, i: nat, files: map<string, string>, db: Db, faults: Faults): (o: FullOutcome)
    requires i <= |tables|
    ensures o.failedAt.Some? ==> i <= o.failedAt.value < |tables| && tables[o.failedAt.value] in faults.insertFails
    decreases |tables| - i
  {
    if i == |tables| then FullOutcome(db, None)
    else
      var t := tables[i];
      if MemberName(t) !in files then RestoreFrom(tables, i + 1, files, db, faults)
      else
        var step := RestoreTable(db, t, files[MemberName(t)], faults);
        if !step.inserted then FullOutcome(step.db, Some(i))
        else RestoreFrom(tables, i + 1, files, step.db, faults)
  }

  lemma RestoreTablesDistinct()
    ensures Distinct(RestoreTables)
  {
  }

  /** The run stops at a table that has a member and whose insert fails; that
      table keeps only the rows the delete spared. */
  lemma {:induction false} RestoreFromFailure(tables: seq<string>, i: nat, files: map<string, string>, db: Db, faults: Faults)
    requires i <= |tables| && Distinct(tables)
    ensures var o := RestoreFrom(tables, i, files, db, faults);
      o.failedAt.Some? ==>
        var t := tables[o.failedAt.value];
        && MemberName(t) in files
        && t in faults.insertFails
        && Rows(o.db, t) == Kept(db, t, faults)
    decreases |tables| - i
  {
    if i < |tables| {
      var t := tables[i];
      if MemberName(t) !in files {
        RestoreFromFailure(tables, i + 1, files, db, faults);
      } else {
        var step := RestoreTable(db, t, files[MemberName(t)], faults);
        if step.inserted {
          var o := RestoreFrom(tables, i + 1, files, step.db, faults);
          RestoreFromFailure(tables, i + 1, files, step.db, faults);
          if o.failedAt.Some? {
            var f := o.failedAt.value;
            assert tables[f] != t;
            assert Rows(step.db, tables[f]) == Rows(db, tables[f]);
          }
        }
      }
    }
  }

  /** Tables outside the visited stretch of the list are untouched. */
  lemma {:induction false} RestoreFromUntouched(tables: seq<string>, i: nat, files: map<string, string>, db: Db, faults: Faults)
    requires i <= |tables|
    ensures var o := RestoreFrom(tables, i, files, db, faults);
      forall t | t !in tables[i..Reach(tables, o)] :: Rows(o.db, t) == Rows(db, t)
    decreases |tables| - i
  {
    if i < |tables| {
      var t := tables[i];
      var o := RestoreFrom(tables, i, files, db, faults);
      var r := Reach(tables, o);
      if MemberName(t) in files && !RestoreTable(db, t, files[MemberName(t)], faults).inserted {
        assert r == i + 1;
      } else {
        var mid := if MemberName(t) in files then RestoreTable(db, t, files[MemberName(t)], faults).db else db;
        assert o == RestoreFrom(tables, i + 1, files, mid, faults);
        assert tables[i..r] == [t] + tables[i + 1..r];
        forall u | u !in tables[i..r]
          ensures Rows(o.db, u) == Rows(db, u)
        {
          assert u != t && u !in tables[i + 1..r];
          assert Rows(mid, u) == Rows(db, u);
          RestoreFromUntouched(tables, i + 1, files, mid, faults);
        }
      }
    }
  }

  /** Index of the table a full restore from some start stopped at, or the
      list's length when it ran to the end. */
  function Stop(tables: seq<string>, o: FullOutcome): nat {
    if o.failedAt.Some? then o.failedAt.value else |tables|
  }

  /** Table `tables[j]` went from `before` to `after` as a passed table
      should: replaced by its member's rows when it has a member, untouched
      otherwise. */
  predicate Passed(tables: seq<string>, j: nat, files: map<string, string>, before: Db, after: Db, faults: Faults)
    requires j < |tables|
  {
    var t := tables[j];
    if MemberName(t) in files
    then t !in faults.insertFails && Rows(after, t) == Replaced(before, t, files[MemberName(t)], faults)
    else Rows(after, t) == Rows(before, t)
  }

  /** Every table the run passes before it stops is replaced by its member's
      rows when it has a member, and untouched otherwise. */
  lemma {:induction false} RestoreFromReplaced(tables: seq<string>, i: nat, files: map<string, string>, db: Db, faults: Faults)
    requires i <= |tables| && Distinct(tables)
    ensures var o := RestoreFrom(tables, i, files, db, faults);
      forall j | i <= j < |tables| && j < Stop(tables, o) :: Passed(tables, j, files, db, o.db, faults)
    decreases |tables| - i
  {
    if i < |tables| {
      var t := tables[i];
      var o := RestoreFrom(tables, i, files, db, faults);
      var mid := if MemberName(t) in files then RestoreTable(db, t, files[MemberName(t)], faults).db else db;
      if MemberName(t) !in files || RestoreTable(db, t, files[MemberName(t)], faults).inserted {
        assert o == RestoreFrom(tables, i + 1, files, mid, faults);
        RestoreFromReplaced(tables, i + 1, files, mid, faults);
        RestoreFromUntouched(tables, i + 1, files, mid, faults);
        assert t !in tables[i + 1..Reach(tables, o)];
        forall j | i <= j < |tables| && j < Stop(tables, o)
          ensures Passed(tables, j, files, db, o.db, faults)
        {
          if j > i {
            var u := tables[j];
            assert u != t;
            assert Rows(mid, u) == Rows(db, u);
            assert Kept(mid, u, faults) == Kept(db, u, faults);
            assert Passed(tables, j, files, mid, o.db, faults);
          }
        }
      }
    }
  }

  /** The handler: password, then file name, then download and extraction,
      then the mode. A mode other than "full" or "table" changes nothing and
      still answers success. */
  function RestoreFromBucket(req: Request, download: Download, db: Db, faults: Faults): (r: (Reply, Db))
    ensures req.password != Some(Str(Password)) ==> r == (Failed(InvalidPassword), db)
    ensures req.password == Some(Str(Password)) && !Truthy(req.fileName) ==> r == (Failed(FileNameMissing), db)
    ensures !download.Extracted? ==> r.1 == db
    ensures req.mode != Some(Str("full")) && req.mode != Some(Str("table")) ==> r.1 == db
    ensures r.0 == Success ==> req.password == Some(Str(Password)) && Truthy(req.fileName) && download.Extracted?
  {
    if req.password != Some(Str(Password)) then (Failed(InvalidPassword), db)
    else if !Truthy(req.fileName) then (Failed(FileNameMissing), db)
    else match download
      case DownloadFailed => (Failed(DownloadError), db)
      case ExtractFailed(message) => (Failed(ExtractError(message)), db)
      case Extracted(files) =>
        if req.mode == Some(Str("full")) then
          var o := RestoreFrom(RestoreTables, 0, files, db, faults);
          if o.failedAt.Some? then (Failed(InsertError(faults.insertFails[RestoreTables[o.failedAt.value]])), o.db)
          else (Success, o.db)
        else if req.mode == Some(Str("table")) then
          var t := ToJsString(req.table);
          if MemberName(t) !in files then (Failed(TableFileNotFound), db)
          else
            var o := RestoreTable(db, t, files[MemberName(t)], faults);
            if o.inserted then (Success, o.db) else (Failed(InsertError(faults.insertFails[t])), o.db)
        else (Success, db)
  }

  /** A valid request that reaches the extracted archive. */
  predicate Admitted(req: Request, download: Download) {
    req.password == Some(Str(Password)) && Truthy(req.fileName) && download.Extracted?
  }

  /** A full restore: on success every listed table with a member is replaced
      and the others are untouched; on failure it answers with the insert
      error message of the first listed table with a member whose insert
      failed, the tables before it are as on success, that table keeps only
      the rows the delete spared, and the tables after it are untouched. `sale_returns`, and every other table
      off the list, is never touched. */
  lemma FullRestore(req: Request, download: Download, db: Db, faults: Faults)
    requires Admitted(req, download) && req.mode == Some(Str("full"))
    ensures var (reply, after) := RestoreFromBucket(req, download, db, faults);
      var files := download.files;
      && (forall t | t !in RestoreTables :: Rows(after, t) == Rows(db, t))
      && (reply == Success ==> forall j | 0 <= j < |RestoreTables| :: Passed(RestoreTables, j, files, db, after, faults))
      && (reply != Success ==>
            exists f | 0 <= f < |RestoreTables| ::
              && MemberName(RestoreTables[f]) in files
              && RestoreTables[f] in faults.insertFails
              && reply == Failed(InsertError(faults.insertFails[RestoreTables[f]]))
              && Rows(after, RestoreTables[f]) == Kept(db, RestoreTables[f], faults)
              && (forall j | 0 <= j < f :: Passed(RestoreTables, j, files, db, after, faults))
              && (forall j | f < j < |RestoreTables| :: Rows(after, RestoreTables[j]) == Rows(db, RestoreTables[j])))
  {
    var files := download.files;
    var ts := RestoreTables;
    var o := RestoreFrom(ts, 0, files, db, faults);
    RestoreTablesDistinct();
    RestoreFromUntouched(ts, 0, files, db, faults);
    RestoreFromReplaced(ts, 0, files, db, faults);
    RestoreFromFailure(ts, 0, files, db, faults);
    if o.failedAt.Some? {
      var f := o.failedAt.value;
      forall j | f < j < |ts|
        ensures Rows(o.db, ts[j]) == Rows(db, ts[j])
      {
        assert ts[j] !in ts[0..f + 1];
      }
    }
  }

  /** A single-table restore: a missing member is reported and changes
      nothing; otherwise only the requested table changes, replaced when the
      insert succeeds. The name is not checked against the five-table list. */
  lemma TableRestore(req: Request, download: Download, db: Db, faults: Faults)
    requires Admitted(req, download) && req.mode == Some(Str("table"))
    ensures var (reply, after) := RestoreFromBucket(req, download, db, faults);
      var t := ToJsString(req.table);
      && (MemberName(t) !in download.files ==> reply == Failed(TableFileNotFound) && after == db)
      && (forall u | u != t :: Rows(after, u) == Rows(db, u))
      && (MemberName(t) in download.files ==>
            if t in faults.insertFails
            then reply == Failed(InsertError(faults.insertFails[t])) && Rows(after, t) == Kept(db, t, faults)
            else reply == Success && Rows(after, t) == Replaced(db, t, download.files[MemberName(t)], faults))
  {
  }

  /** A second identical restore of a table leaves it as the first one did
      exactly when every decoded row has an id the delete selects (not 0 and
      not null); otherwise the rows it spares are duplicated. */
  lemma RestoreTwice(db: Db, t: string, text: string)
    ensures var once := RestoreTable(db, t, text, Faults({}, map[])).db;
      Rows(RestoreTable(once, t, text, Faults({}, map[])).db, t) == Rows(once, t)
      <==> forall i | 0 <= i < |DecodeTable(text)| :: MatchesNeqIdZero(DecodeTable(text)[i])
  {
    TwiceRows(db, t, text);
    SparedTwice(SurvivingRows(Rows(db, t)), DecodeTable(text));
  }

  /** Rows `k + d` stay as they are under a second delete-and-insert of `d`
      exactly when the delete removes every row of `d`. */
  lemma SparedTwice(k: seq<Record>, d: seq<Record>)
    ensures k + SurvivingRows(d) + d == k + d <==> forall i | 0 <= i < |d| :: MatchesNeqIdZero(d[i])
  {
    var spared := SurvivingRows(d);
    SurvivingRowsEmpty(d);
    if spared == [] {
      assert k + spared == k;
    } else {
      assert |k + spared + d| != |k + d|;
    }
  }

  /** The rows of a table after one and after two fault-free restores. */
  lemma TwiceRows(db: Db, t: string, text: string)
    ensures var none := Faults({}, map[]);
      var once := RestoreTable(db, t, text, none).db;
      var k := SurvivingRows(Rows(db, t));
      && Rows(once, t) == k + DecodeTable(text)
      && Rows(RestoreTable(once, t, text, none).db, t) == k + SurvivingRows(DecodeTable(text)) + DecodeTable(text)
  {
    var none := Faults({}, map[]);
    var d := DecodeTable(text);
    var once := RestoreTable(db, t, text, none).db;
    var k := SurvivingRows(Rows(db, t));
    assert Rows(once, t) == k + d;
    assert Rows(RestoreTable(once, t, text, none).db, t) == SurvivingRows(k + d) + d;
    SurvivingRowsAppend(k, d);
    SurvivingRowsSpec(Rows(db, t));
  }
}
