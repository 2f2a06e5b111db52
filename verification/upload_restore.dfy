/** `restoreBackup` (restore.js): a password-guarded restore from an uploaded
    archive. For each of six tables whose member the archive holds, the rows
    whose id is not 0 are deleted and every line of the trimmed member text
    after the header is inserted on its own, split on raw commas with one
    surrounding quote stripped from each token. No store result is
    inspected. A progress value is written after each restored table and set
    to 100 at the end. */
module UploadRestore {
  import opened Wrappers
  import opened Text
  import opened Js
  import opened CsvEncode
  import opened Store
  import Progress

  /** The password the upload must carry. */
  const RestorePassword := "faizanyounus"

  /** The tables visited, in order (`sale_returns` included). */
  const UploadTables: seq<string> := ["sales", "purchases", "items", "customers", "app_users", "sale_returns"]

  /** What unzipping the upload produced: the extracted members by file
      name, or the error the extraction threw. */
  datatype Upload = Unzipped(files: map<string, string>) | Unreadable(message: string)

  /** `req.body.password` and `req.file`; `None` is undefined. */
  datatype Request = Request(password: Option<Value>, file: Option<Upload>)

  /** The store calls that fail, which the code never notices: deletes by
      table, and inserts by table and line index. */
  datatype Faults = Faults(deleteFails: set<string>, insertFails: set<(string, nat)>)

  /** The HTTP status and the JSON body `{ok, message}`. */
  datatype Reply = Reply(status: nat, ok: bool, message: string)

  /** The reply, the store afterwards and the values written to the progress
      reference, in order. */
  datatype Outcome = Outcome(reply: Reply, db: Db, progress: seq<nat>)

  // ---------------------------------------------------------------------------
  // decoding one member
  // ---------------------------------------------------------------------------

  /** `val?.startsWith('"')` and `val?.endsWith('"')`, each dropping one quote;
      undefined stays undefined. */
  function StripQuotes(val: Option<string>): Option<string> {
    match val
    case None => None
    case Some(s) =>
      var a := if |s| > 0 && s[0] == '"' then s[1..] else s;
      Some(if |a| > 0 && a[|a| - 1] == '"' then a[..|a| - 1] else a)
  }

  /** `cols[j]`: undefined past the end of the line. */
  function Token(cols: seq<string>, j: nat): Option<string> {
    if j < |cols| then Some(cols[j]) else None
  }

  /** `headers.forEach((h, j) => { obj[h] = val })`: a repeated header name
      keeps its first position and its last value. */
  function LineObject(headers: seq<string>, cols: seq<string>): Object<Option<string>>
    decreases |headers|
  {
    if |headers| == 0 then []
    else
      var n := |headers| - 1;
      Assign(LineObject(headers[..n], cols), headers[n], StripQuotes(Token(cols, n)))
  }

  /** The row the insert sends: serialising the object drops the properties
      holding undefined, and every other value is a string. */
  function Sent(o: Object<Option<string>>): Record
    decreases |o|
  {
    if |o| == 0 then []
    else (if o[0].1.Some? then [(o[0].0, Str(o[0].1.value))] else []) + Sent(o[1..])
  }

  /** The row inserted for one line. */
  function LineRow(headers: seq<string>, line: string): Record {
    Sent(LineObject(headers, Split(line, ',')))
  }

  /** `text.trim().split("\n")` */
  function MemberLines(text: string): (lines: seq<string>)
    ensures |lines| >= 1
  {
    Split(Trim(text), '\n')
  }

  /** `raw[0].split(",")` */
  function Headers(text: string): seq<string> {
    Split(MemberLines(text)[0], ',')
  }

  /** The rows inserted for lines `i` onwards, skipping those whose insert fails. */
  function InsertedFrom(t: string, lines: seq<string>, headers: seq<string>, i: nat, faults: Faults): seq<Record>
    requires i <= |lines|
    decreases |lines| - i
  {
    if i == |lines| then []
    else
      (if (t, i) in faults.insertFails then [] else [LineRow(headers, lines[i])])
      + InsertedFrom(t, lines, headers, i + 1, faults)
  }

  /** The rows the loop `for (let i = 1; i < raw.length; i++)` adds to `t`. */
  function Inserted(t: string, text: string, faults: Faults): seq<Record> {
    InsertedFrom(t, MemberLines(text), Headers(text), 1, faults)
  }

  /** The rows of `t` once its member is restored: the delete comes first,
      so the inserted rows follow what the delete left. */
  function RestoredRows(db: Db, t: string, text: string, faults: Faults): seq<Record> {
    AfterDelete(db, t, t in faults.deleteFails) + Inserted(t, text, faults)
  }

  // ---------------------------------------------------------------------------
  // the handler
  // ---------------------------------------------------------------------------

  /** `Math.floor((step / totalSteps) * 100)` with six steps. The floating
      point quotient is an exact integer only for 0, 3 and 6 steps, and lies
      well away from one otherwise, so the floor agrees with integer division. */
  function Percent(step: nat): nat {
    Progress.Percent(step, TotalSteps)
  }

  /** `TABLES.length`, as a literal so that progress arithmetic stays linear. */
  const TotalSteps: nat := 6

  /** The number of tables from index `i` on whose member is present. */
  function Present(files: map<string, string>, i: nat): nat
    requires i <= |UploadTables|
    decreases |UploadTables| - i
  {
    if i == |UploadTables| then 0
    else (if MemberName(UploadTables[i]) in files then 1 else 0) + Present(files, i + 1)
  }

  /** The store after the loop `for (const table of TABLES)` from index `i`. */
  function RestoreEach(i: nat, files: map<string, string>, db: Db, faults: Faults): Db
    requires i <= |UploadTables|
    decreases |UploadTables| - i
  {
    if i == |UploadTables| then db
    else
      var t := UploadTables[i];
      if MemberName(t) !in files then RestoreEach(i + 1, files, db, faults)
      else RestoreEach(i + 1, files, db[t := RestoredRows(db, t, files[MemberName(t)], faults)], faults)
  }

  /** The values the same loop writes to `progressRef.value`, with `step`
      tables restored before index `i`. */
  function ProgressFrom(i: nat, files: map<string, string>, step: nat): (ps: seq<nat>)
    requires i <= |UploadTables|
    ensures |ps| == Present(files, i)
    decreases |UploadTables| - i
  {
    if i == |UploadTables| then []
    else if MemberName(UploadTables[i]) !in files then ProgressFrom(i + 1, files, step)
    else [Percent(step + 1)] + ProgressFrom(i + 1, files, step + 1)
  }

  /** `restoreBackup(req, res, progressRef)` */
  function RestoreBackup(req: Request, db: Db, faults: Faults): (o: Outcome)
    ensures req.password != Some(Str(RestorePassword)) ==>
      o == Outcome(Reply(403, false, "\U{274C} Restore password incorrect"), db, [])
    ensures req.password == Some(Str(RestorePassword)) && req.file.None? ==>
      o == Outcome(Reply(200, false, "\U{274C} No backup file provided"), db, [])
    ensures req.password == Some(Str(RestorePassword)) && req.file.Some? && req.file.value.Unreadable? ==>
      o == Outcome(Reply(500, false, "\U{274C} Restore Failed: " + req.file.value.message), db, [])
    ensures o.reply.ok <==> req.password == Some(Str(RestorePassword)) && req.file.Some? && req.file.value.Unzipped?
    ensures o.reply.ok ==> o.reply.status == 200 && |o.progress| >= 1 && o.progress[|o.progress| - 1] == 100
  {
    if req.password != Some(Str(RestorePassword)) then
      Outcome(Reply(403, false, "\U{274C} Restore password incorrect"), db, [])
    else
      match req.file
      case None => Outcome(Reply(200, false, "\U{274C} No backup file provided"), db, [])
      case Some(Unreadable(msg)) => Outcome(Reply(500, false, "\U{274C} Restore Failed: " + msg), db, [])
      case Some(Unzipped(files)) =>
        Outcome(Reply(200, true, "\U{2714} Restore completed successfully"),
                RestoreEach(0, files, db, faults), ProgressFrom(0, files, 0) + [100])
  }

  // ---------------------------------------------------------------------------
  // properties of the decoding
  // ---------------------------------------------------------------------------

  /** Stripping undoes one pair of surrounding quotes, whatever is inside. */
  lemma StripQuotesUnwraps(c: string)
    ensures StripQuotes(Some("\"" + c + "\"")) == Some(c)
  {
    var s := "\"" + c + "\"";
    assert s[1..] == c + "\"";
    assert (c + "\"")[..|c|] == c;
  }

  /** A token with a quote at one end only loses that quote, and a token
      with none at either end is kept as it is. */
  lemma StripQuotesOneSided(c: string)
    ensures (|c| == 0 || c[|c| - 1] != '"') ==> StripQuotes(Some("\"" + c)) == Some(c)
    ensures (|c| == 0 || c[0] != '"') ==> StripQuotes(Some(c + "\"")) == Some(c)
    ensures (|c| == 0 || (c[0] != '"' && c[|c| - 1] != '"')) ==> StripQuotes(Some(c)) == Some(c)
  {
    assert ("\"" + c)[1..] == c;
    assert (c + "\"")[..|c|] == c;
    if |c| > 0 {
      assert (c + "\"")[0] == c[0];
    }
  }

  lemma {:induction false} SentAppend(a: Object<Option<string>>, b: Object<Option<string>>)
    ensures Sent(a + b) == Sent(a) + Sent(b)
    decreases |a|
  {
    if |a| == 0 {
      assert a + b == b;
    } else {
      var c := a + b;
      var h := if a[0].1.Some? then [(a[0].0, Str(a[0].1.value))] else [];
      assert c[0] == a[0] && c[1..] == a[1..] + b;
      assert Sent(c) == h + Sent(a[1..] + b);
      assert Sent(a) == h + Sent(a[1..]);
      SentAppend(a[1..], b);
    }
  }

  /** The object for a line under distinct headers: the headers in order,
      each holding its stripped token or undefined. */
  lemma {:induction false} LineObjectDistinct(headers: seq<string>, cols: seq<string>)
    requires Distinct(headers)
    ensures LineObject(headers, cols) == Tokens(headers, cols)
    decreases |headers|
  {
    if |headers| > 0 {
      var n := |headers| - 1;
      var k := headers[n];
      var v := StripQuotes(Token(cols, n));
      var o := Tokens(headers[..n], cols);
      assert LineObject(headers[..n], cols) == o by {
        LineObjectDistinct(headers[..n], cols);
      }
      assert LineObject(headers, cols) == Assign(o, k, v);
      assert Lookup(o, k).None? by {
        assert Keys(o) == headers[..n];
        LookupSomeIffKey(o, k);
      }
      AssignAppends(o, k, v);
      TokensSnoc(headers, cols);
    }
  }

  /** The object for a line under distinct headers, as a sequence. */
  function Tokens(headers: seq<string>, cols: seq<string>): Object<Option<string>> {
    seq(|headers|, j requires 0 <= j < |headers| => (headers[j], StripQuotes(Token(cols, j))))
  }

  lemma TokensSnoc(headers: seq<string>, cols: seq<string>)
    requires |headers| > 0
    ensures var n := |headers| - 1;
      Tokens(headers, cols) == Tokens(headers[..n], cols) + [(headers[n], StripQuotes(Token(cols, n)))]
  {
  }

  /** The row that object serialises to: the headers that have a token. */
  function Strings(headers: seq<string>, cols: seq<string>): Record {
    var m := if |cols| < |headers| then |cols| else |headers|;
    seq(m, j requires 0 <= j < m => (headers[j], Str(StripQuotes(Some(cols[j])).value)))
  }

  lemma {:induction false} SentTokens(headers: seq<string>, cols: seq<string>)
    ensures Sent(Tokens(headers, cols)) == Strings(headers, cols)
    decreases |headers|
  {
    if |headers| > 0 {
      var n := |headers| - 1;
      var last := (headers[n], StripQuotes(Token(cols, n)));
      SentTokens(headers[..n], cols);
      TokensSnoc(headers, cols);
      SentAppend(Tokens(headers[..n], cols), [last]);
      assert Sent([last]) == (if n < |cols| then [(headers[n], Str(StripQuotes(Some(cols[n])).value))] else []) by {
        var one: Object<Option<string>> := [last];
        assert one[1..] == [];
      }
      if n < |cols| {
        assert Strings(headers, cols) == Strings(headers[..n], cols) + [(headers[n], Str(StripQuotes(Some(cols[n])).value))];
      } else {
        assert Strings(headers, cols) == Strings(headers[..n], cols);
      }
    }
  }

  /** Under distinct headers, the inserted row has one string property per
      token the line holds, up to the number of headers, each holding the
      token stripped of its surrounding quotes; headers past the line's
      last token are absent from the row. */
  lemma LineRowDistinct(headers: seq<string>, line: string)
    requires Distinct(headers)
    ensures LineRow(headers, line) == Strings(headers, Split(line, ','))
  {
    LineObjectDistinct(headers, Split(line, ','));
    SentTokens(headers, Split(line, ','));
  }

  /** The number of lines in `[i, k)` whose insert succeeds. */
  function Oks(t: string, i: nat, k: nat, faults: Faults): nat
    decreases k
  {
    if k <= i then 0 else Oks(t, i, k - 1, faults) + (if (t, k - 1) in faults.insertFails then 0 else 1)
  }

  lemma {:induction false} OksFirst(t: string, i: nat, k: nat, faults: Faults)
    requires i < k
    ensures Oks(t, i, k, faults) == (if (t, i) in faults.insertFails then 0 else 1) + Oks(t, i + 1, k, faults)
    decreases k
  {
    if k > i + 1 {
      OksFirst(t, i, k - 1, faults);
    }
  }

  /** One row per line whose insert succeeds. */
  lemma {:induction false} InsertedFromCount(t: string, lines: seq<string>, headers: seq<string>, i: nat, faults: Faults)
    requires i <= |lines|
    ensures |InsertedFrom(t, lines, headers, i, faults)| == Oks(t, i, |lines|, faults)
    decreases |lines| - i
  {
    if i < |lines| {
      var h := if (t, i) in faults.insertFails then [] else [LineRow(headers, lines[i])];
      assert InsertedFrom(t, lines, headers, i, faults) == h + InsertedFrom(t, lines, headers, i + 1, faults);
      InsertedFromCount(t, lines, headers, i + 1, faults);
      OksFirst(t, i, |lines|, faults);
    }
  }

  /** An insert error is ignored and the loop goes on: the row of a line `k`
      whose insert succeeds comes right after the rows of the successful
      lines before it. */
  lemma {:induction false} InsertedFromAt(t: string, lines: seq<string>, headers: seq<string>, i: nat, faults: Faults, k: nat)
    requires i <= k < |lines| && (t, k) !in faults.insertFails
    ensures var ins := InsertedFrom(t, lines, headers, i, faults);
      Oks(t, i, k, faults) < |ins| && ins[Oks(t, i, k, faults)] == LineRow(headers, lines[k])
    decreases k - i
  {
    var h := if (t, i) in faults.insertFails then [] else [LineRow(headers, lines[i])];
    var rest := InsertedFrom(t, lines, headers, i + 1, faults);
    var ins := InsertedFrom(t, lines, headers, i, faults);
    assert ins == h + rest;
    if k == i {
      assert Oks(t, i, k, faults) == 0;
    } else {
      var c := Oks(t, i + 1, k, faults);
      assert c < |rest| && rest[c] == LineRow(headers, lines[k]) by {
        InsertedFromAt(t, lines, headers, i + 1, faults, k);
      }
      assert Oks(t, i, k, faults) == |h| + c by {
        OksFirst(t, i, k, faults);
      }
      assert ins[|h| + c] == rest[c];
    }
  }

  /** The lines inserted are the lines after the header whose insert
      succeeds, in order; without insert failures there is one row per line,
      blank lines included. */
  lemma InsertedFromSpec(t: string, lines: seq<string>, headers: seq<string>, i: nat, faults: Faults)
    requires i <= |lines|
    ensures |InsertedFrom(t, lines, headers, i, faults)| <= |lines| - i
    ensures var ins := InsertedFrom(t, lines, headers, i, faults);
      && |ins| == Oks(t, i, |lines|, faults)
      && forall k | i <= k < |lines| && (t, k) !in faults.insertFails ::
           Oks(t, i, k, faults) < |ins| && ins[Oks(t, i, k, faults)] == LineRow(headers, lines[k])
    ensures (forall k | i <= k < |lines| :: (t, k) !in faults.insertFails) ==>
      InsertedFrom(t, lines, headers, i, faults)
        == seq(|lines| - i, k requires 0 <= k < |lines| - i => LineRow(headers, lines[i + k]))
    ensures (forall k | i <= k < |lines| :: (t, k) in faults.insertFails) ==>
      InsertedFrom(t, lines, headers, i, faults) == []
    ensures forall r | r in InsertedFrom(t, lines, headers, i, faults) ::
      exists k | i <= k < |lines| :: (t, k) !in faults.insertFails && r == LineRow(headers, lines[k])
  {
    InsertedFromBound(t, lines, headers, i, faults);
    if forall k | i <= k < |lines| :: (t, k) !in faults.insertFails {
      InsertedFromAll(t, lines, headers, i, faults);
    }
    if forall k | i <= k < |lines| :: (t, k) in faults.insertFails {
      InsertedFromNone(t, lines, headers, i, faults);
    }
    InsertedFromLines(t, lines, headers, i, faults);
    InsertedFromCount(t, lines, headers, i, faults);
    forall k | i <= k < |lines| && (t, k) !in faults.insertFails
      ensures var ins := InsertedFrom(t, lines, headers, i, faults);
        Oks(t, i, k, faults) < |ins| && ins[Oks(t, i, k, faults)] == LineRow(headers, lines[k])
    {
      InsertedFromAt(t, lines, headers, i, faults, k);
    }
  }

  lemma {:induction false} InsertedFromBound(t: string, lines: seq<string>, headers: seq<string>, i: nat, faults: Faults)
    requires i <= |lines|
    ensures |InsertedFrom(t, lines, headers, i, faults)| <= |lines| - i
    decreases |lines| - i
  {
    if i < |lines| {
      var head := if (t, i) in faults.insertFails then [] else [LineRow(headers, lines[i])];
      assert InsertedFrom(t, lines, headers, i, faults) == head + InsertedFrom(t, lines, headers, i + 1, faults);
      InsertedFromBound(t, lines, headers, i + 1, faults);
    }
  }

  lemma {:induction false} InsertedFromAll(t: string, lines: seq<string>, headers: seq<string>, i: nat, faults: Faults)
    requires i <= |lines|
    requires forall k | i <= k < |lines| :: (t, k) !in faults.insertFails
    ensures InsertedFrom(t, lines, headers, i, faults)
        == seq(|lines| - i, k requires 0 <= k < |lines| - i => LineRow(headers, lines[i + k]))
    decreases |lines| - i
  {
    if i < |lines| {
      assert InsertedFrom(t, lines, headers, i, faults)
          == [LineRow(headers, lines[i])] + InsertedFrom(t, lines, headers, i + 1, faults);
      InsertedFromAll(t, lines, headers, i + 1, faults);
      LineRowsCons(lines, headers, i);
    }
  }

  lemma LineRowsCons(lines: seq<string>, headers: seq<string>, i: nat)
    requires i < |lines|
    ensures seq(|lines| - i, k requires 0 <= k < |lines| - i => LineRow(headers, lines[i + k]))
         == [LineRow(headers, lines[i])]
            + seq(|lines| - (i + 1), k requires 0 <= k < |lines| - (i + 1) => LineRow(headers, lines[i + 1 + k]))
  {
    var xs := seq(|lines| - i, k requires 0 <= k < |lines| - i => LineRow(headers, lines[i + k]));
    var ys := seq(|lines| - (i + 1), k requires 0 <= k < |lines| - (i + 1) => LineRow(headers, lines[i + 1 + k]));
    forall k | 0 <= k < |ys|
      ensures xs[k + 1] == ys[k]
    {
      assert i + (k + 1) == i + 1 + k;
    }
    assert xs == [xs[0]] + ys;
  }

  lemma {:induction false} InsertedFromNone(t: string, lines: seq<string>, headers: seq<string>, i: nat, faults: Faults)
    requires i <= |lines|
    requires forall k | i <= k < |lines| :: (t, k) in faults.insertFails
    ensures InsertedFrom(t, lines, headers, i, faults) == []
    decreases |lines| - i
  {
    if i < |lines| {
      assert InsertedFrom(t, lines, headers, i, faults) == [] + InsertedFrom(t, lines, headers, i + 1, faults);
      InsertedFromNone(t, lines, headers, i + 1, faults);
    }
  }

  lemma {:induction false} InsertedFromLines(t: string, lines: seq<string>, headers: seq<string>, i: nat, faults: Faults)
    requires i <= |lines|
    ensures forall r | r in InsertedFrom(t, lines, headers, i, faults) ::
      exists k | i <= k < |lines| :: (t, k) !in faults.insertFails && r == LineRow(headers, lines[k])
    decreases |lines| - i
  {
    if i < |lines| {
      var head := if (t, i) in faults.insertFails then [] else [LineRow(headers, lines[i])];
      var tail := InsertedFrom(t, lines, headers, i + 1, faults);
      assert InsertedFrom(t, lines, headers, i, faults) == head + tail;
      InsertedFromLines(t, lines, headers, i + 1, faults);
      forall r | r in head + tail
        ensures exists k | i <= k < |lines| :: (t, k) !in faults.insertFails && r == LineRow(headers, lines[k])
      {
        if r in head {
          assert (t, i) !in faults.insertFails && r == LineRow(headers, lines[i]);
        } else {
          assert r in tail;
        }
      }
    }
  }

  // ---------------------------------------------------------------------------
  // properties of the handler
  // ---------------------------------------------------------------------------

  lemma UploadTablesDistinct()
    ensures forall j, k | 0 <= j < k < |UploadTables| :: UploadTables[j] != UploadTables[k]
  {
  }

  /** The rows of a table after the loop from index `i`. */
  predicate Restored(j: nat, files: map<string, string>, before: Db, after: Db, faults: Faults)
    requires j < |UploadTables|
  {
    var t := UploadTables[j];
    if MemberName(t) in files
    then Rows(after, t) == RestoredRows(before, t, files[MemberName(t)], faults)
    else Rows(after, t) == Rows(before, t)
  }

  /** Each table from index `i` on is restored from the state before the
      loop, since no table is visited twice; no other table changes. */
  lemma RestoreEachEffect(i: nat, files: map<string, string>, db: Db, faults: Faults)
    requires i <= |UploadTables|
    ensures var after := RestoreEach(i, files, db, faults);
      && (forall t | t !in UploadTables[i..] :: Rows(after, t) == Rows(db, t))
      && (forall j | i <= j < |UploadTables| :: Restored(j, files, db, after, faults))
  {
    RestoreEachUntouched(i, files, db, faults);
    RestoreEachRestored(i, files, db, faults);
  }

  /** The store after visiting table `UploadTables[i]`. */
  function Visit(i: nat, files: map<string, string>, db: Db, faults: Faults): Db
    requires i < |UploadTables|
  {
    var t := UploadTables[i];
    if MemberName(t) in files then db[t := RestoredRows(db, t, files[MemberName(t)], faults)] else db
  }

  lemma {:induction false} RestoreEachUntouched(i: nat, files: map<string, string>, db: Db, faults: Faults)
    requires i <= |UploadTables|
    ensures forall u | u !in UploadTables[i..] :: Rows(RestoreEach(i, files, db, faults), u) == Rows(db, u)
    decreases |UploadTables| - i
  {
    if i < |UploadTables| {
      var mid := Visit(i, files, db, faults);
      assert RestoreEach(i, files, db, faults) == RestoreEach(i + 1, files, mid, faults);
      RestoreEachUntouched(i + 1, files, mid, faults);
      assert UploadTables[i..] == [UploadTables[i]] + UploadTables[i + 1..];
    }
  }

  lemma {:induction false} RestoreEachRestored(i: nat, files: map<string, string>, db: Db, faults: Faults)
    requires i <= |UploadTables|
    ensures forall j | i <= j < |UploadTables| :: Restored(j, files, db, RestoreEach(i, files, db, faults), faults)
    decreases |UploadTables| - i
  {
    if i < |UploadTables| {
      var t := UploadTables[i];
      var mid := Visit(i, files, db, faults);
      var after := RestoreEach(i, files, db, faults);
      assert after == RestoreEach(i + 1, files, mid, faults);
      RestoreEachRestored(i + 1, files, mid, faults);
      RestoreEachUntouched(i + 1, files, mid, faults);
      UploadTablesDistinct();
      forall j | i <= j < |UploadTables|
        ensures Restored(j, files, db, after, faults)
      {
        if j == i {
          assert t !in UploadTables[i + 1..];
        } else {
          assert Restored(j, files, mid, after, faults);
          assert UploadTables[j] != t;
        }
      }
    }
  }

  /** The progress values of the loop from index `i`: one per present table,
      counting up from `step + 1`. */
  lemma ProgressFromSteps(i: nat, files: map<string, string>, step: nat)
    requires i <= |UploadTables|
    ensures var ps := ProgressFrom(i, files, step);
      forall k | 0 <= k < |ps| :: ps[k] == Percent(step + k + 1)
  {
    ProgressRamp(i, files, step);
    Progress.RampValues(step, Present(files, i), TotalSteps);
  }

  lemma {:induction false} ProgressRamp(i: nat, files: map<string, string>, step: nat)
    requires i <= |UploadTables|
    ensures ProgressFrom(i, files, step) == Progress.Ramp(step, Present(files, i), TotalSteps)
    decreases |UploadTables| - i
  {
    if i < |UploadTables| {
      var rest := Present(files, i + 1);
      if MemberName(UploadTables[i]) in files {
        ProgressRamp(i + 1, files, step + 1);
        assert Present(files, i) == 1 + rest;
        assert ProgressFrom(i, files, step) == [Percent(step + 1)] + ProgressFrom(i + 1, files, step + 1);
        assert Progress.Ramp(step, 1 + rest, TotalSteps)
            == [Progress.Percent(step + 1, TotalSteps)] + Progress.Ramp(step + 1, rest, TotalSteps);
      } else {
        ProgressRamp(i + 1, files, step);
        assert Present(files, i) == rest;
        assert ProgressFrom(i, files, step) == ProgressFrom(i + 1, files, step);
      }
    }
  }

  lemma PresentBound(files: map<string, string>, i: nat)
    requires i <= |UploadTables|
    ensures Present(files, i) <= |UploadTables| - i
    decreases |UploadTables| - i
  {
  }

  /** The progress values an accepted upload writes: one per restored table
      and a final 100, never decreasing and never above 100. */
  lemma ProgressRises(files: map<string, string>)
    ensures var ps := ProgressFrom(0, files, 0) + [100];
      && |ps| == 1 + Present(files, 0)
      && (forall a, b | 0 <= a <= b < |ps| :: ps[a] <= ps[b])
      && (forall a | 0 <= a < |ps| :: ps[a] <= 100)
      && ps[|ps| - 1] == 100
  {
    var ups := ProgressFrom(0, files, 0);
    var n := Present(files, 0);
    assert |ups| == n <= TotalSteps && forall a | 0 <= a < n :: ups[a] == Percent(a + 1) by {
      ProgressFromSteps(0, files, 0);
      PresentBound(files, 0);
    }
    StepsRise(ups);
  }

  /** Step values `Percent(1) .. Percent(n)` followed by the final 100 rise
      and stay at most 100. */
  lemma StepsRise(ups: seq<nat>)
    requires |ups| <= TotalSteps
    requires forall a | 0 <= a < |ups| :: ups[a] == Percent(a + 1)
    ensures var ps := ups + [100];
      && (forall a, b | 0 <= a <= b < |ps| :: ps[a] <= ps[b])
      && (forall a | 0 <= a < |ps| :: ps[a] <= 100)
  {
    var ps := ups + [100];
    var n := |ups|;
    assert Percent(TotalSteps) == 100;
    forall a | 0 <= a < |ps|
      ensures ps[a] <= 100
    {
      if a < n {
        Progress.PercentMonotone(a + 1, TotalSteps, TotalSteps);
      }
    }
    forall a, b | 0 <= a <= b < |ps|
      ensures ps[a] <= ps[b]
    {
      if b < n {
        Progress.PercentMonotone(a + 1, b + 1, TotalSteps);
      }
    }
  }

  /** An accepted upload restores every table whose member it holds from the
      state before the request and leaves every other table alone; the
      progress values written are one per restored table, never decrease,
      never exceed 100, and end with 100. */
  lemma UploadRestore(req: Request, db: Db, faults: Faults)
    requires req.password == Some(Str(RestorePassword)) && req.file.Some? && req.file.value.Unzipped?
    ensures var files := req.file.value.files;
      var o := RestoreBackup(req, db, faults);
      && (forall t | t !in UploadTables :: Rows(o.db, t) == Rows(db, t))
      && (forall j | 0 <= j < |UploadTables| :: Restored(j, files, db, o.db, faults))
      && |o.progress| == 1 + Present(files, 0)
      && (forall a, b | 0 <= a <= b < |o.progress| :: o.progress[a] <= o.progress[b])
      && (forall a | 0 <= a < |o.progress| :: o.progress[a] <= 100)
  {
    var files := req.file.value.files;
    var after := RestoreEach(0, files, db, faults);
    var ps := ProgressFrom(0, files, 0) + [100];
    assert RestoreBackup(req, db, faults).db == after && RestoreBackup(req, db, faults).progress == ps;
    assert forall t | t !in UploadTables :: Rows(after, t) == Rows(db, t) by {
      RestoreEachEffect(0, files, db, faults);
      assert UploadTables[0..] == UploadTables;
    }
    assert forall j | 0 <= j < |UploadTables| :: Restored(j, files, db, after, faults) by {
      RestoreEachEffect(0, files, db, faults);
    }
    assert |ps| == 1 + Present(files, 0)
        && (forall a, b | 0 <= a <= b < |ps| :: ps[a] <= ps[b])
        && (forall a | 0 <= a < |ps| :: ps[a] <= 100) by {
      ProgressRises(files);
    }
  }
}
