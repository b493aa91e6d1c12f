// update-db.php: the backup-then-overwrite handler of the product store.
// A POST body is a whole new product list. The handler makes sure the backup
// directory exists, copies the current db.json to a timestamped backup,
// then validates the body and writes its pretty-printed re-encoding over
// db.json. Every step can end the request early with an error response.

module UpdateDb {
  import opened Support
  import opened FileStore
  import opened DateFormat

  const DbFile: Path := "db.json"
  const BackupDir: Path := "database-backup"

  const BackupPrefix: Path := BackupDir + "/db-"

  /** `$backupDir . '/db-' . date('Y-m-d-H-i-s') . '.json'` */
  function BackupFile(now: DateTime): Path
  {
    BackupPrefix + FormatYmdHis(now) + ".json"
  }

  /** The request as the handler sees it: the method and the body read from
      php://input (None when reading it failed). */
  datatype Request = Request(requestMethod: string, body: Option<Bytes>)

  datatype Status = Success | Error

  /** The HTTP status code and the JSON object echoed back. */
  datatype Response = Response(code: int, status: Status, message: string)

  /** `json_decode` (None when json_last_error() reports an error) and
      `json_encode` with JSON_PRETTY_PRINT | JSON_UNESCAPED_SLASHES. */
  datatype JsonCodec<!J> = JsonCodec(decode: Bytes -> Option<J>, encodePretty: J -> Bytes)

  /** Which filesystem calls fail during one request. */
  datatype Faults = Faults(mkdirFails: bool, copy: WriteFault, write: WriteFault)

  function Failure(code: int, message: string): Response
  {
    Response(code, Error, message)
  }

  const MethodNotAllowed := Failure(405, "Invalid request method.")
  const BackupDirFailed := Failure(500, "Failed to create backup directory.")
  const BackupFailed := Failure(500, "Failed to create database backup.")
  const BodyUnreadable := Failure(400, "Failed to read request data.")
  const InvalidJson := Failure(400, "Invalid JSON data received.")
  const WriteFailed := Failure(500, "Failed to write to database file. Check permissions.")

  function Updated(backup: Path): Response
  {
    Response(200, Success, "Products updated successfully. Backup created at " + backup)
  }

  /** A name inside the backup directory, as line 28 builds them. */
  predicate IsBackupName(b: Path)
  {
    |b| > |BackupPrefix| && b[..|BackupPrefix|] == BackupPrefix
  }

  /** The state the whole request leaves behind, and its response (lines 10-69).
      `backup` is the name line 28 computes from the clock, `BackupFile(now)`. */
  function UpdateDbOutcome<J>(w: World, req: Request, backup: Path, faults: Faults,
                              codec: JsonCodec<J>): (World, Response)
  {
    if req.requestMethod != "POST" then (w, MethodNotAllowed)
    else
      var (w', stop) := BackupStage(w, backup, faults);
      if stop.Some? then (w', stop.value)
      else StoreStage(w', req.body, backup, faults.write, codec)
  }

  /** Lines 19-37: make the backup directory if it is missing, then copy an
      existing db.json to the backup. `Some` error ends the request. */
  function BackupStage(w: World, backup: Path, faults: Faults): (World, Option<Response>)
  {
    var (w1, dirOk) := if BackupDir in w.dirs then (w, true)
                       else AfterMkdir(w, BackupDir, faults.mkdirFails);
    if !dirOk then (w1, Some(BackupDirFailed))
    else
      var (w2, copied) := if w1.Exists(DbFile) then AfterCopy(w1, DbFile, backup, faults.copy)
                          else (w1, true);
      if !copied then (w2, Some(BackupFailed)) else (w2, None)
  }

  /** Lines 42-69: read the body, decode it, and write its re-encoding over db.json. */
  function StoreStage<J>(w: World, body: Option<Bytes>, backup: Path, fault: WriteFault,
                         codec: JsonCodec<J>): (World, Response)
  {
    if body.None? then (w, BodyUnreadable)
    else
      match codec.decode(body.value)
      case None => (w, InvalidJson)
      case Some(data) =>
        var (w', written) := AfterPut(w, DbFile, codec.encodePretty(data), fault);
        if !written then (w', WriteFailed) else (w', Updated(backup))
  }

  /** The world just before the body is looked at: the backup directory exists
      and, when db.json was a file, the backup holds a copy of it. */
  function BackedUp(w: World, backup: Path): World
  {
    var w1 := if BackupDir in w.dirs then w else w.(dirs := w.dirs + {BackupDir});
    if DbFile in w.files then w1.(files := w1.files[backup := w.files[DbFile]]) else w1
  }

  /** The files after a backup stage that stopped: as they were, unless the
      copy of db.json failed after opening the backup name and left `partial` there. */
  function PartialBackup(w: World, backup: Path, copy: WriteFault): map<Path, Bytes>
  {
    if copy.FailsLeaving? && DbFile in w.files && backup !in w.dirs then w.files[backup := copy.partial]
    else w.files
  }

  /** The backup stage goes on exactly when the directory is there or can be
      made and an existing db.json can be copied; it then leaves the backed-up
      world. When it stops, at most the backup directory was added, and no
      file has changed but the backup name after a copy that failed part-way. */
  lemma BackupStageFacts(w: World, backup: Path, faults: Faults)
    requires IsBackupName(backup)
    ensures var (w', stop) := BackupStage(w, backup, faults);
      && (stop.None? <==>
            (BackupDir in w.dirs || (!faults.mkdirFails && !w.Exists(BackupDir))) &&
            (w.Exists(DbFile) ==> DbFile in w.files && faults.copy.NoFault? && backup !in w.dirs))
      && (stop.None? ==> w' == BackedUp(w, backup))
      && (stop.Some? ==> w.dirs <= w'.dirs <= w.dirs + {BackupDir} &&
                         (stop.value == BackupDirFailed || stop.value == BackupFailed) &&
                         w'.files == (if stop.value == BackupFailed then PartialBackup(w, backup, faults.copy)
                                      else w.files))
  {
    BackupNameIsNotStore(backup);
  }

  /** The store stage adds no directory and touches no file but db.json. It
      succeeds exactly for a decodable body written without a fault, and then
      db.json holds the re-encoding; an unreadable or undecodable body is
      answered 400 with nothing changed. */
  lemma StoreStageFacts<J>(w: World, body: Option<Bytes>, backup: Path, fault: WriteFault,
                           codec: JsonCodec<J>)
    ensures var (w', resp) := StoreStage(w, body, backup, fault, codec);
      && w'.dirs == w.dirs
      && (body.None? || codec.decode(body.value).None? ==> w' == w && resp.code == 400)
      && (resp.status == Success <==>
            body.Some? && codec.decode(body.value).Some? && DbFile !in w.dirs && fault.NoFault?)
      && (resp.status == Success ==>
            resp == Updated(backup) &&
            w'.files == w.files[DbFile := codec.encodePretty(codec.decode(body.value).value)])
      && (resp.status != Success ==>
            w'.files == w.files ||
            (resp == WriteFailed && fault.FailsLeaving? && w'.files == w.files[DbFile := fault.partial]))
  {
  }

  /** The handler as the PHP script runs it, step by step over the disk. */
  method HandleUpdateDb<J>(disk: Disk, req: Request, now: DateTime, faults: Faults,
                           codec: JsonCodec<J>) returns (resp: Response)
    modifies disk
    ensures (disk.State(), resp) == UpdateDbOutcome(old(disk.State()), req, BackupFile(now), faults, codec)
  {
    if req.requestMethod != "POST" {
      return MethodNotAllowed;
    }
    if !disk.IsDir(BackupDir) {
      var made := disk.Mkdir(BackupDir, faults.mkdirFails);
      if !made {
        return BackupDirFailed;
      }
    }
    var backupFile := BackupFile(now);
    if disk.FileExists(DbFile) {
      var copied := disk.Copy(DbFile, backupFile, faults.copy);
      if !copied {
        return BackupFailed;
      }
    }
    if req.body.None? {
      return BodyUnreadable;
    }
    var data := codec.decode(req.body.value);
    if data.None? {
      return InvalidJson;
    }
    var newJsonData := codec.encodePretty(data.value);
    var written := disk.Put(DbFile, newJsonData, faults.write);
    if !written {
      return WriteFailed;
    }
    resp := Updated(backupFile);
  }

  // ---------------------------------------------------------------------------
  // The backup name

  lemma SliceOfConcat(a: string, m: string, c: string)
    ensures (a + m + c)[..|a|] == a
    ensures (a + m + c)[|a|..|a + m + c| - |c|] == m
    ensures (a + m + c)[|a + m + c| - |c|..] == c
  {
  }

  /** The backup name is the prefix `database-backup/db-`, the stamp of the
      time, and `.json`; the time can be read back from the name. */
  lemma BackupFileNamesTime(now: DateTime)
    requires now.Valid()
    ensures var b := BackupFile(now);
      && IsBackupName(b)
      && |b| > 24
      && b[..19] == BackupPrefix
      && b[|b| - 5..] == ".json"
      && IsStampShape(b[19..|b| - 5])
      && ParseYmdHis(b[19..|b| - 5]) == now
  {
    var b := BackupFile(now);
    var f := FormatYmdHis(now);
    assert |BackupPrefix| == 19;
    SliceOfConcat(BackupPrefix, f, ".json");
    assert b[19..|b| - 5] == f;
    ParseFormatRoundTrip(now);
  }

  /** Two requests share a backup file exactly when they run in the same second. */
  lemma BackupFilesCollideOnlyWithinASecond(t1: DateTime, t2: DateTime)
    requires t1.Valid() && t2.Valid()
    ensures BackupFile(t1) == BackupFile(t2) <==> t1 == t2
  {
    BackupFileNamesTime(t1);
    BackupFileNamesTime(t2);
  }

  /** A backup name is neither the store nor the backup directory, and making
      the backup directory creates no parent directory. */
  lemma BackupNameIsNotStore(backup: Path)
    requires IsBackupName(backup)
    ensures backup != DbFile && backup != BackupDir
    ensures Ancestors(BackupDir) == {}
  {
    assert |BackupPrefix| == 19;
    forall i: int | 0 < i < |BackupDir| ensures BackupDir[i] != '/' {
    }
  }

  // ---------------------------------------------------------------------------
  // Properties of the outcome

  /** A request that is not a POST is answered 405 and changes nothing (lines 10-14). */
  lemma NonPostChangesNothing<J>(w: World, req: Request, backup: Path, faults: Faults, codec: JsonCodec<J>)
    requires req.requestMethod != "POST"
    ensures UpdateDbOutcome(w, req, backup, faults, codec) == (w, MethodNotAllowed)
  {
  }

  /** When the backup directory is missing and cannot be made, the answer is
      500 and nothing at all has changed (lines 19-25). */
  lemma BackupDirFailureChangesNothing<J>(w: World, req: Request, backup: Path, faults: Faults,
                                          codec: JsonCodec<J>)
    requires req.requestMethod == "POST" && BackupDir !in w.dirs
    requires faults.mkdirFails || BackupDir in w.files
    ensures UpdateDbOutcome(w, req, backup, faults, codec) == (w, BackupDirFailed)
  {
  }

  /** When db.json exists but the copy fails, the answer is 500 and db.json
      and every other file keep their bytes, except the backup name: a copy
      that fails after opening it leaves the partial bytes there, truncating
      any backup taken earlier in the same second (lines 31-37). */
  lemma CopyFailureKeepsFiles<J>(w: World, req: Request, backup: Path, faults: Faults, codec: JsonCodec<J>)
    requires IsBackupName(backup)
    requires req.requestMethod == "POST"
    requires BackupDir in w.dirs || (!faults.mkdirFails && BackupDir !in w.files)
    requires DbFile in w.files && !faults.copy.NoFault?
    ensures var (w', resp) := UpdateDbOutcome(w, req, backup, faults, codec);
      && resp == BackupFailed
      && DbFile in w'.files && w'.files[DbFile] == w.files[DbFile]
      && (faults.copy.FailsUntouched? || backup in w.dirs ==> w'.files == w.files)
      && (faults.copy.FailsLeaving? && backup !in w.dirs ==>
            w'.files == w.files[backup := faults.copy.partial])
  {
    BackupNameIsNotStore(backup);
    BackupStageFacts(w, backup, faults);
  }

  /** The copy comes before validation: a POST whose body is unreadable or not
      JSON is answered 400 with db.json untouched, but the backup has already
      been written (lines 31-37 come before 42-55). */
  lemma InvalidBodyStillLeavesBackup<J>(w: World, req: Request, backup: Path, faults: Faults,
                                        codec: JsonCodec<J>)
    requires IsBackupName(backup)
    requires req.requestMethod == "POST"
    requires BackupDir in w.dirs || (!faults.mkdirFails && BackupDir !in w.files)
    requires DbFile !in w.dirs && (DbFile in w.files ==> faults.copy.NoFault? && backup !in w.dirs)
    requires req.body.None? || codec.decode(req.body.value).None?
    ensures var (w', resp) := UpdateDbOutcome(w, req, backup, faults, codec);
      && resp.code == 400
      && w' == BackedUp(w, backup)
      && (DbFile in w.files ==> DbFile in w'.files && w'.files[DbFile] == w.files[DbFile])
      && (DbFile in w.files ==> backup in w'.files && w'.files[backup] == w.files[DbFile])
  {
    BackupNameIsNotStore(backup);
    BackupStageFacts(w, backup, faults);
    StoreStageFacts(BackedUp(w, backup), req.body, backup, faults.write, codec);
  }

  /** A successful request leaves in db.json the pretty re-encoding of the
      decoded body, not the raw bytes, and its message names the backup path
      (lines 59-69). */
  lemma SuccessStoresReencodedPayload<J>(w: World, req: Request, backup: Path, faults: Faults,
                                         codec: JsonCodec<J>)
    requires IsBackupName(backup)
    ensures var (w', resp) := UpdateDbOutcome(w, req, backup, faults, codec);
      resp.status == Success ==>
        && resp == Updated(backup)
        && req.requestMethod == "POST" && req.body.Some?
        && codec.decode(req.body.value).Some?
        && DbFile in w'.files
        && w'.files[DbFile] == codec.encodePretty(codec.decode(req.body.value).value)
  {
    if req.requestMethod == "POST" {
      BackupStageFacts(w, backup, faults);
      if BackupStage(w, backup, faults).1.None? {
        StoreStageFacts(BackedUp(w, backup), req.body, backup, faults.write, codec);
      }
    }
  }

  /** When db.json did not exist no backup file is written, yet the success
      message still names the backup path (lines 31 and 69). */
  lemma MissingStoreNamesUnwrittenBackup<J>(w: World, req: Request, backup: Path, faults: Faults,
                                            codec: JsonCodec<J>)
    requires IsBackupName(backup)
    requires !w.Exists(DbFile)
    ensures var (w', resp) := UpdateDbOutcome(w, req, backup, faults, codec);
      && (backup in w'.files <==> backup in w.files)
      && (backup in w.files ==> w'.files[backup] == w.files[backup])
      && (resp.status == Success ==>
            resp.message == "Products updated successfully. Backup created at " + backup)
  {
    BackupNameIsNotStore(backup);
    if req.requestMethod == "POST" {
      BackupStageFacts(w, backup, faults);
      if BackupStage(w, backup, faults).1.None? {
        StoreStageFacts(BackedUp(w, backup), req.body, backup, faults.write, codec);
      }
    }
  }

  /** A failed final write is answered 500, and the backup of the previous
      store is still in place (lines 62-65). */
  lemma WriteFailureKeepsBackup<J>(w: World, req: Request, backup: Path, faults: Faults,
                                   codec: JsonCodec<J>)
    requires IsBackupName(backup)
    requires DbFile in w.files
    ensures var (w', resp) := UpdateDbOutcome(w, req, backup, faults, codec);
      resp == WriteFailed ==> backup in w'.files && w'.files[backup] == w.files[DbFile]
  {
    BackupNameIsNotStore(backup);
    if req.requestMethod == "POST" {
      BackupStageFacts(w, backup, faults);
      if BackupStage(w, backup, faults).1.None? {
        StoreStageFacts(BackedUp(w, backup), req.body, backup, faults.write, codec);
      }
    }
  }

  /** The central guarantee: whatever happens, the store as it was before the
      request is still on disk, either in db.json itself or in this request's
      backup file. */
  lemma PriorStoreRecoverable<J>(w: World, req: Request, backup: Path, faults: Faults,
                                 codec: JsonCodec<J>)
    requires IsBackupName(backup)
    requires DbFile in w.files
    ensures var w' := UpdateDbOutcome(w, req, backup, faults, codec).0;
      || (DbFile in w'.files && w'.files[DbFile] == w.files[DbFile])
      || (backup in w'.files && w'.files[backup] == w.files[DbFile])
  {
    BackupNameIsNotStore(backup);
    if req.requestMethod == "POST" {
      BackupStageFacts(w, backup, faults);
      if BackupStage(w, backup, faults).1.None? {
        StoreStageFacts(BackedUp(w, backup), req.body, backup, faults.write, codec);
      }
    }
  }

  /** db.json changes only after a POST whose body was read and decoded; every
      rejected request leaves it as it was. */
  lemma StoreChangesOnlyForValidPayload<J>(w: World, req: Request, backup: Path, faults: Faults,
                                           codec: JsonCodec<J>)
    requires IsBackupName(backup)
    ensures var w' := UpdateDbOutcome(w, req, backup, faults, codec).0;
      || ((DbFile in w'.files <==> DbFile in w.files) &&
          (DbFile in w.files ==> w'.files[DbFile] == w.files[DbFile]))
      || (req.requestMethod == "POST" && req.body.Some? && codec.decode(req.body.value).Some?)
  {
    BackupNameIsNotStore(backup);
    if req.requestMethod == "POST" {
      BackupStageFacts(w, backup, faults);
      if BackupStage(w, backup, faults).1.None? {
        StoreStageFacts(BackedUp(w, backup), req.body, backup, faults.write, codec);
      }
    }
  }

  /** No file other than db.json and this request's backup is created,
      changed or removed. */
  lemma OtherFilesUntouched<J>(w: World, req: Request, backup: Path, faults: Faults,
                               codec: JsonCodec<J>, q: Path)
    requires IsBackupName(backup)
    requires q != DbFile && q != backup
    ensures var w' := UpdateDbOutcome(w, req, backup, faults, codec).0;
      && (q in w'.files <==> q in w.files)
      && (q in w.files ==> w'.files[q] == w.files[q])
  {
    if req.requestMethod == "POST" {
      BackupStageFacts(w, backup, faults);
      if BackupStage(w, backup, faults).1.None? {
        StoreStageFacts(BackedUp(w, backup), req.body, backup, faults.write, codec);
      }
    }
  }

  /** The only directory a request can add is the backup directory. */
  lemma OnlyBackupDirCreated<J>(w: World, req: Request, backup: Path, faults: Faults,
                                codec: JsonCodec<J>)
    requires IsBackupName(backup)
    ensures var w' := UpdateDbOutcome(w, req, backup, faults, codec).0;
      w.dirs <= w'.dirs <= w.dirs + {BackupDir}
  {
    if req.requestMethod == "POST" {
      BackupStageFacts(w, backup, faults);
      if BackupStage(w, backup, faults).1.None? {
        StoreStageFacts(BackedUp(w, backup), req.body, backup, faults.write, codec);
      }
    }
  }

  /** Two successful updates within the same second share one backup name: the
      second copy overwrites the first, so afterwards the backup holds the
      first request's new store and no longer the store from before it. */
  lemma SameSecondUpdatesLoseOriginal<J>(w: World, req1: Request, req2: Request, now: DateTime,
                                         faults1: Faults, faults2: Faults, codec: JsonCodec<J>)
    requires now.Valid()
    requires UpdateDbOutcome(w, req1, BackupFile(now), faults1, codec).1.status == Success
    ensures req1.body.Some? && codec.decode(req1.body.value).Some?
    ensures var w1 := UpdateDbOutcome(w, req1, BackupFile(now), faults1, codec).0;
      var (w2, resp2) := UpdateDbOutcome(w1, req2, BackupFile(now), faults2, codec);
      resp2.status == Success ==>
        && BackupFile(now) in w2.files
        && w2.files[BackupFile(now)] == codec.encodePretty(codec.decode(req1.body.value).value)
  {
    var backup := BackupFile(now);
    BackupFileNamesTime(now);
    SuccessStoresReencodedPayload(w, req1, backup, faults1, codec);
    SameBackupOverwritten(w, req2, backup, UpdateDbOutcome(w, req1, backup, faults1, codec).0,
                          faults2, codec);
  }

  /** After a successful update, db.json is what the next request's backup receives. */
  lemma SameBackupOverwritten<J>(w: World, req: Request, backup: Path, w1: World,
                                 faults: Faults, codec: JsonCodec<J>)
    requires IsBackupName(backup)
    requires DbFile in w1.files
    ensures var (w2, resp) := UpdateDbOutcome(w1, req, backup, faults, codec);
      resp.status == Success ==> backup in w2.files && w2.files[backup] == w1.files[DbFile]
  {
    BackupNameIsNotStore(backup);
    if req.requestMethod == "POST" {
      BackupStageFacts(w1, backup, faults);
      if BackupStage(w1, backup, faults).1.None? {
        StoreStageFacts(BackedUp(w1, backup), req.body, backup, faults.write, codec);
      }
    }
  }
}
