/** The backup job followed by a full restore from the bucket: what a table
    holds after restoring the archive the job uploaded. */
module EndToEnd {
  import opened Wrappers
  import opened Js
  import opened CsvEncode
  import opened CsvDecode
  import opened RoundTrip
  import opened Store
  import opened Naming
  import Backup
  import BucketRestore

  /** Extracting an archive: each member becomes a file named after it; a
      later member of the same name overwrites an earlier one. */
  function Extract(members: seq<Backup.Member>): map<string, string>
    decreases |members|
  {
    if |members| == 0 then map[]
    else Extract(members[..|members| - 1])[members[|members| - 1].name := members[|members| - 1].text]
  }

  /** The extracted archive of tables `ts` holds `<t>.csv` exactly for the
      tables listed, each with that table's encoded rows. */
  lemma {:induction false} ExtractMembers(db: Db, ts: seq<string>)
    ensures forall t :: MemberName(t) in Extract(Backup.MembersOf(db, ts)) <==> t in ts
    ensures forall t | t in ts :: Extract(Backup.MembersOf(db, ts))[MemberName(t)] == EncodeTable(Rows(db, t))
    decreases |ts|
  {
    if |ts| > 0 {
      var n := |ts| - 1;
      var ms := Backup.MembersOf(db, ts);
      MembersOfSnoc(db, ts[..n], ts[n]);
      assert ts == ts[..n] + [ts[n]];
      assert ms[..n] == Backup.MembersOf(db, ts[..n]);
      Backup.MembersOfAt(db, ts, n);
      ExtractMembers(db, ts[..n]);
      forall t
        ensures MemberName(t) in Extract(ms) <==> t in ts
      {
        MemberNameInjective(t, ts[n]);
      }
      forall t | t in ts
        ensures Extract(ms)[MemberName(t)] == EncodeTable(Rows(db, t))
      {
        MemberNameInjective(t, ts[n]);
      }
    }
  }

  lemma {:induction false} MembersOfSnoc(db: Db, ts: seq<string>, t: string)
    ensures Backup.MembersOf(db, ts + [t]) == Backup.MembersOf(db, ts) + [Backup.TableMember(db, t)]
    decreases |ts|
  {
    if |ts| == 0 {
      assert (ts + [t])[1..] == [];
    } else {
      assert (ts + [t])[1..] == ts[1..] + [t];
      MembersOfSnoc(db, ts[1..], t);
    }
  }

  lemma MemberNameInjective(t: string, u: string)
    ensures MemberName(t) == MemberName(u) <==> t == u
  {
    if MemberName(t) == MemberName(u) {
      assert t == MemberName(t)[..|t|];
      assert u == MemberName(u)[..|u|];
    }
  }

  /** The rows a table holds once restored from a member the backup job
      wrote for rows `saved`. */
  function RestoredFrom(saved: seq<Record>): seq<Record> {
    seq(|saved|, i requires 0 <= i < |saved| => Normalized(saved[i], Columns(saved)))
  }

  /** `files` holds the member `<t>.csv` exactly for the backed-up tables
      whose export succeeded, each with the encoding of its rows in `db`. */
  ghost predicate ArchiveOf(files: map<string, string>, db: Db, fetchFails: set<string>) {
    && (forall t :: MemberName(t) in files <==> t in Backup.BackupTables && t !in fetchFails)
    && (forall t | MemberName(t) in files :: files[MemberName(t)] == EncodeTable(Rows(db, t)))
  }

  /** The uploaded archive, extracted, is the archive of the exported tables. */
  lemma UploadedArchive(now: Timestamp, db: Db, bucket: Backup.Bucket, backupFaults: Backup.Faults)
    requires backupFaults.zipError.None? && !backupFaults.uploadFails
    ensures var archive := Backup.DoBackup(now, db, bucket, backupFaults).bucket[ArchiveName(now)];
      ArchiveOf(Extract(archive), db, backupFaults.fetchFails)
  {
    var ts := Backup.Exportable(Backup.BackupTables, 0, backupFaults);
    Backup.BackupUpload(now, db, bucket, backupFaults);
    ExtractMembers(db, ts);
    Backup.ExportableSpec(Backup.BackupTables, 0, backupFaults);
    assert Backup.BackupTables[0..] == Backup.BackupTables;
  }

  /** A full restore, with no insert failing, of an archive of `db` into
      `live` succeeds and gives each restored table that has a member the
      rows of `live` the delete spared followed by the saved rows as the
      decoder reads them back; every other table keeps the rows of `live`. */
  lemma RestoreArchive(files: map<string, string>, db: Db, fetchFails: set<string>,
                       req: BucketRestore.Request, live: Db, deleteFails: set<string>)
    requires ArchiveOf(files, db, fetchFails)
    requires req.password == Some(Str(BucketRestore.Password)) && Truthy(req.fileName)
    requires req.mode == Some(Str("full"))
    requires forall t | t in BucketRestore.RestoreTables && |Rows(db, t)| > 0 :: Encodable(Rows(db, t))
    ensures var restoreFaults := BucketRestore.Faults(deleteFails, map[]);
      var (reply, after) := BucketRestore.RestoreFromBucket(req, BucketRestore.Extracted(files), live, restoreFaults);
      && reply == BucketRestore.Success
      && (forall t | t in BucketRestore.RestoreTables && t !in fetchFails ::
            Rows(after, t) == AfterDelete(live, t, t in deleteFails) + RestoredFrom(Rows(db, t)))
      && (forall t | t !in BucketRestore.RestoreTables || t in fetchFails :: Rows(after, t) == Rows(live, t))
  {
    var restoreFaults := BucketRestore.Faults(deleteFails, map[]);
    var download := BucketRestore.Extracted(files);
    BucketRestore.FullRestore(req, download, live, restoreFaults);
    var (reply, after) := BucketRestore.RestoreFromBucket(req, download, live, restoreFaults);
    forall t | t in BucketRestore.RestoreTables && t !in fetchFails
      ensures Rows(after, t) == AfterDelete(live, t, t in deleteFails) + RestoredFrom(Rows(db, t))
    {
      var j :| 0 <= j < |BucketRestore.RestoreTables| && BucketRestore.RestoreTables[j] == t;
      assert BucketRestore.Passed(BucketRestore.RestoreTables, j, files, live, after, restoreFaults);
      DecodeEncode(Rows(db, t));
    }
    forall t | t !in BucketRestore.RestoreTables || t in fetchFails
      ensures Rows(after, t) == Rows(live, t)
    {
      if t in BucketRestore.RestoreTables {
        var j :| 0 <= j < |BucketRestore.RestoreTables| && BucketRestore.RestoreTables[j] == t;
        assert BucketRestore.Passed(BucketRestore.RestoreTables, j, files, live, after, restoreFaults);
      }
    }
  }

  /** Back up `db`, then restore the uploaded archive in full mode into
      `live`, with no insert failing: the restore succeeds; each of the five
      restored tables whose export succeeded holds the rows of `live` the
      delete spared followed by the saved rows as the decoder reads them
      back; a restored table whose export failed, `sale_returns` and every
      other table keep the rows of `live`. */
  lemma BackupThenRestore(now: Timestamp, db: Db, bucket: Backup.Bucket, backupFaults: Backup.Faults,
                          req: BucketRestore.Request, live: Db, deleteFails: set<string>)
    requires backupFaults.zipError.None? && !backupFaults.uploadFails
    requires req.password == Some(Str(BucketRestore.Password)) && Truthy(req.fileName)
    requires req.mode == Some(Str("full"))
    requires forall t | t in BucketRestore.RestoreTables && |Rows(db, t)| > 0 :: Encodable(Rows(db, t))
    ensures var archive := Backup.DoBackup(now, db, bucket, backupFaults).bucket[ArchiveName(now)];
      var restoreFaults := BucketRestore.Faults(deleteFails, map[]);
      var (reply, after) := BucketRestore.RestoreFromBucket(req, BucketRestore.Extracted(Extract(archive)), live, restoreFaults);
      && reply == BucketRestore.Success
      && (forall t | t in BucketRestore.RestoreTables && t !in backupFaults.fetchFails ::
            Rows(after, t) == AfterDelete(live, t, t in deleteFails) + RestoredFrom(Rows(db, t)))
      && (forall t | t !in BucketRestore.RestoreTables || t in backupFaults.fetchFails ::
            Rows(after, t) == Rows(live, t))
  {
    Backup.BackupUpload(now, db, bucket, backupFaults);
    var archive := Backup.DoBackup(now, db, bucket, backupFaults).bucket[ArchiveName(now)];
    UploadedArchive(now, db, bucket, backupFaults);
    RestoreArchive(Extract(archive), db, backupFaults.fetchFails, req, live, deleteFails);
  }
}
