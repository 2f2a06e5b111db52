/** `doBackup` (backup.js): export six tables to CSV members, pack the
    members into an archive named after the current time, and upload it to
    the `backups` bucket, replacing any object of the same name. A table
    whose fetch fails is skipped; the upload's result is never inspected;
    only a failing archive step makes the job report failure. */
module Backup {
  import opened Wrappers
  import opened Js
  import opened CsvEncode
  import opened Store
  import opened Naming
  import Progress

  /** The tables exported, in order. */
  const BackupTables: seq<string> := ["sales", "purchases", "items", "customers", "app_users", "sale_returns"]

  /** `TABLES.length + 2`: one step per table, one for the archive, one for
      the upload. Written as a literal so that progress arithmetic stays
      linear. */
  const TotalSteps: nat := 8

  /** One archive member: its file name and its text. */
  datatype Member = Member(name: string, text: string)

  /** The objects of the bucket by name; an archive is its list of members. */
  type Bucket = map<string, seq<Member>>

  /** The collaborator calls that fail: fetches by table, the archive step
      (with the error message it rejects with) and the upload. */
  datatype Faults = Faults(fetchFails: set<string>, zipError: Option<string>, uploadFails: bool)

  /** `{ success, message }` */
  datatype Result = Result(success: bool, message: string)

  /** The result, the bucket afterwards and the values written to the
      progress reference, in order. */
  datatype Outcome = Outcome(result: Result, bucket: Bucket, progress: seq<nat>)

  /** `Math.floor((step / totalSteps) * 100)`; with eight steps the quotient
      is an exact binary fraction, so the floor is integer division. */
  function Percent(step: nat): nat {
    Progress.Percent(step, TotalSteps)
  }

  /** The member for table `t`: `${t}.csv` holding the encoded rows. */
  function TableMember(db: Db, t: string): Member {
    Member(MemberName(t), EncodeTable(Rows(db, t)))
  }

  /** The members the loop `for (const table of TABLES)` writes from index
      `i` of `tables` on (the job passes `BackupTables`): a table whose fetch
      fails is skipped. */
  function ExportFrom(tables: seq<string>, i: nat, db: Db, faults: Faults): seq<Member>
    requires i <= |tables|
    decreases |tables| - i
  {
    if i == |tables| then []
    else if tables[i] in faults.fetchFails then ExportFrom(tables, i + 1, db, faults)
    else [TableMember(db, tables[i])] + ExportFrom(tables, i + 1, db, faults)
  }

  /** The progress values the same loop writes, `step` tables exported before `i`. */
  function ExportProgress(tables: seq<string>, i: nat, faults: Faults, step: nat): seq<nat>
    requires i <= |tables|
    decreases |tables| - i
  {
    if i == |tables| then []
    else if tables[i] in faults.fetchFails then ExportProgress(tables, i + 1, faults, step)
    else [Percent(step + 1)] + ExportProgress(tables, i + 1, faults, step + 1)
  }

  /** `doBackup(progressRef)` at civil time `now`. */
  function DoBackup(now: Timestamp, db: Db, bucket: Bucket, faults: Faults): (o: Outcome)
    ensures faults.zipError.Some? ==> o.result == Result(false, faults.zipError.value) && o.bucket == bucket
    ensures faults.zipError.None? ==> o.result == Result(true, "Backup completed successfully")
    ensures o.bucket != bucket ==> !faults.uploadFails && faults.zipError.None?
  {
    var members := ExportFrom(BackupTables, 0, db, faults);
    var exported := ExportProgress(BackupTables, 0, faults, 0);
    match faults.zipError
    case Some(msg) => Outcome(Result(false, msg), bucket, exported)
    case None =>
      var progress := exported + [Percent(|exported| + 1), 100];
      var bucket' := if faults.uploadFails then bucket else bucket[ArchiveName(now) := members];
      Outcome(Result(true, "Backup completed successfully"), bucket', progress)
  }

  // ---------------------------------------------------------------------------
  // properties
  // ---------------------------------------------------------------------------

  /** The tables of `tables` whose fetch succeeds, from index `i` on, in order. */
  function Exportable(tables: seq<string>, i: nat, faults: Faults): (ts: seq<string>)
    requires i <= |tables|
    decreases |tables| - i
  {
    if i == |tables| then []
    else (if tables[i] in faults.fetchFails then [] else [tables[i]]) + Exportable(tables, i + 1, faults)
  }

  /** The exported tables are exactly the listed tables whose fetch succeeds. */
  lemma {:induction false} ExportableSpec(tables: seq<string>, i: nat, faults: Faults)
    requires i <= |tables|
    ensures forall t | t in Exportable(tables, i, faults) :: t in tables[i..] && t !in faults.fetchFails
    ensures forall t | t in tables[i..] && t !in faults.fetchFails :: t in Exportable(tables, i, faults)
    ensures |Exportable(tables, i, faults)| <= |tables| - i
    decreases |tables| - i
  {
    ExportableBound(tables, i, faults);
    if i < |tables| {
      ExportableSpec(tables, i + 1, faults);
      assert tables[i..] == [tables[i]] + tables[i + 1..];
    }
  }

  /** Exporting from index `i` is exporting the suffix that starts there. */
  lemma {:induction false} ExportableSuffix(tables: seq<string>, i: nat, faults: Faults)
    requires i <= |tables|
    ensures Exportable(tables, i, faults) == Exportable(tables[i..], 0, faults)
    decreases |tables| - i
  {
    if i < |tables| {
      ExportableSuffix(tables, i + 1, faults);
      var rest := tables[i..];
      assert rest[0] == tables[i];
      ExportableSuffix(rest, 1, faults);
      assert rest[1..] == tables[i + 1..];
    }
  }

  /** Exporting a concatenation of two lists exports the first list's tables,
      then the second's: together with the one-table case this fixes both the
      list order and the single occurrence of each exported table. */
  lemma {:induction false} ExportableAppend(a: seq<string>, b: seq<string>, faults: Faults)
    ensures Exportable(a + b, 0, faults) == Exportable(a, 0, faults) + Exportable(b, 0, faults)
    ensures Exportable([], 0, faults) == []
    ensures forall t :: Exportable([t], 0, faults) == if t in faults.fetchFails then [] else [t]
  {
    ExportableAppendFrom(a, b, 0, faults);
    forall t
      ensures Exportable([t], 0, faults) == if t in faults.fetchFails then [] else [t]
    {
      assert Exportable([t], 1, faults) == [];
    }
  }

  lemma {:induction false} ExportableAppendFrom(a: seq<string>, b: seq<string>, i: nat, faults: Faults)
    requires i <= |a|
    ensures Exportable(a + b, i, faults) == Exportable(a, i, faults) + Exportable(b, 0, faults)
    decreases |a| - i
  {
    if i == |a| {
      ExportableSuffix(a + b, i, faults);
      assert (a + b)[i..] == b;
    } else {
      ExportableAppendFrom(a, b, i + 1, faults);
      assert (a + b)[i] == a[i];
    }
  }

  lemma {:induction false} ExportableBound(tables: seq<string>, i: nat, faults: Faults)
    requires i <= |tables|
    ensures |Exportable(tables, i, faults)| <= |tables| - i
    decreases |tables| - i
  {
    if i < |tables| {
      ExportableBound(tables, i + 1, faults);
    }
  }

  /** The members of the tables `ts`, in order. */
  function MembersOf(db: Db, ts: seq<string>): (ms: seq<Member>)
    ensures |ms| == |ts|
    decreases |ts|
  {
    if |ts| == 0 then [] else [TableMember(db, ts[0])] + MembersOf(db, ts[1..])
  }

  lemma {:induction false} MembersOfAt(db: Db, ts: seq<string>, k: nat)
    requires k < |ts|
    ensures MembersOf(db, ts)[k] == TableMember(db, ts[k])
    decreases k
  {
    if k > 0 {
      MembersOfAt(db, ts[1..], k - 1);
    }
  }

  /** The archive holds one member per table whose fetch succeeds, in table
      order, named `<table>.csv` and holding the table's encoded rows. */
  lemma {:induction false} ExportMembers(tables: seq<string>, i: nat, db: Db, faults: Faults)
    requires i <= |tables|
    ensures ExportFrom(tables, i, db, faults) == MembersOf(db, Exportable(tables, i, faults))
    decreases |tables| - i
  {
    if i < |tables| {
      var t := tables[i];
      var rest := Exportable(tables, i + 1, faults);
      ExportMembers(tables, i + 1, db, faults);
      if t !in faults.fetchFails {
        assert Exportable(tables, i, faults) == [t] + rest;
        assert ExportFrom(tables, i, db, faults) == [TableMember(db, t)] + ExportFrom(tables, i + 1, db, faults);
        MembersOfCons(db, t, rest);
      } else {
        assert Exportable(tables, i, faults) == [] + rest == rest;
        assert ExportFrom(tables, i, db, faults) == ExportFrom(tables, i + 1, db, faults);
      }
    }
  }

  lemma MembersOfCons(db: Db, t: string, ts: seq<string>)
    ensures MembersOf(db, [t] + ts) == [TableMember(db, t)] + MembersOf(db, ts)
  {
    assert ([t] + ts)[1..] == ts;
  }

  /** The progress values of the export loop count the exported tables. */
  lemma ExportSteps(tables: seq<string>, i: nat, faults: Faults, step: nat)
    requires i <= |tables|
    ensures var n := |Exportable(tables, i, faults)|;
      ExportProgress(tables, i, faults, step) == seq(n, k requires 0 <= k < n => Percent(step + k + 1))
  {
    var n := |Exportable(tables, i, faults)|;
    ExportRamp(tables, i, faults, step);
    Progress.RampValues(step, n, TotalSteps);
    var ps := ExportProgress(tables, i, faults, step);
    forall k | 0 <= k < n
      ensures ps[k] == Percent(step + k + 1)
    {
    }
  }

  lemma {:induction false} ExportRamp(tables: seq<string>, i: nat, faults: Faults, step: nat)
    requires i <= |tables|
    ensures ExportProgress(tables, i, faults, step) == Progress.Ramp(step, |Exportable(tables, i, faults)|, TotalSteps)
    decreases |tables| - i
  {
    if i < |tables| {
      var rest := Exportable(tables, i + 1, faults);
      if tables[i] in faults.fetchFails {
        assert Exportable(tables, i, faults) == [] + rest == rest;
        ExportRamp(tables, i + 1, faults, step);
      } else {
        assert Exportable(tables, i, faults) == [tables[i]] + rest;
        ExportRamp(tables, i + 1, faults, step + 1);
      }
    }
  }

  /** The progress values of a run: one per exported table, one for the
      archive and a final 100 after the upload; they never decrease, and
      every value before the upload is at most 87. A failing archive step
      leaves only the table values. */
  lemma BackupProgress(now: Timestamp, db: Db, bucket: Bucket, faults: Faults)
    ensures var ps := DoBackup(now, db, bucket, faults).progress;
      var n := |Exportable(BackupTables, 0, faults)|;
      && (forall a, b | 0 <= a <= b < |ps| :: ps[a] <= ps[b])
      && (faults.zipError.Some? ==> |ps| == n)
      && (faults.zipError.None? ==> |ps| == n + 2 && ps[|ps| - 1] == 100)
      && (forall a | 0 <= a < |ps| && (faults.zipError.Some? || a < |ps| - 1) :: ps[a] <= 87)
  {
    var exported := ExportProgress(BackupTables, 0, faults, 0);
    var ps := DoBackup(now, db, bucket, faults).progress;
    var zipped := faults.zipError.None?;
    assert ps == if zipped then exported + [Percent(|exported| + 1), 100] else exported;
    ExportSteps(BackupTables, 0, faults, 0);
    ExportableBound(BackupTables, 0, faults);
    StepsRise(exported, ps, zipped);
  }

  /** Step values `Percent(1) .. Percent(n)`, followed when the archive step
      succeeds by its value and the final 100, rise and stay at most 87
      before the 100. */
  lemma StepsRise(exported: seq<nat>, ps: seq<nat>, zipped: bool)
    requires |exported| <= |BackupTables|
    requires exported == seq(|exported|, k requires 0 <= k < |exported| => Percent(k + 1))
    requires ps == if zipped then exported + [Percent(|exported| + 1), 100] else exported
    ensures forall a, b | 0 <= a <= b < |ps| :: ps[a] <= ps[b]
    ensures forall a | 0 <= a < |ps| && (!zipped || a < |ps| - 1) :: ps[a] <= 87
  {
    var n := |exported|;
    var m := if zipped then n + 1 else n;
    assert Percent(TotalSteps - 1) == 87;
    forall a | 0 <= a < m
      ensures ps[a] == Percent(a + 1) && ps[a] <= 87
    {
      Progress.PercentMonotone(a + 1, TotalSteps - 1, TotalSteps);
    }
    forall a, b | 0 <= a <= b < |ps|
      ensures ps[a] <= ps[b]
    {
      if b < m {
        Progress.PercentMonotone(a + 1, b + 1, TotalSteps);
      } else {
        Progress.PercentMonotone(a + 1, TotalSteps, TotalSteps);
      }
    }
  }

  /** A run whose archive step succeeds uploads, unless the upload fails, an
      archive named after `now` that holds exactly one member per table whose
      fetch succeeded, in table order; every other object is untouched, and
      the job reports success either way. */
  lemma BackupUpload(now: Timestamp, db: Db, bucket: Bucket, faults: Faults)
    requires faults.zipError.None?
    ensures var o := DoBackup(now, db, bucket, faults);
      var ts := Exportable(BackupTables, 0, faults);
      && o.result.success
      && (faults.uploadFails ==> o.bucket == bucket)
      && (!faults.uploadFails ==>
            && ArchiveName(now) in o.bucket
            && o.bucket[ArchiveName(now)] == MembersOf(db, ts)
            && (forall name | name != ArchiveName(now) && name in bucket :: name in o.bucket && o.bucket[name] == bucket[name])
            && o.bucket.Keys == bucket.Keys + {ArchiveName(now)})
  {
    ExportMembers(BackupTables, 0, db, faults);
    var ts := Exportable(BackupTables, 0, faults);
    assert DoBackup(now, db, bucket, faults).bucket
        == if faults.uploadFails then bucket else bucket[ArchiveName(now) := MembersOf(db, ts)];
  }
}
