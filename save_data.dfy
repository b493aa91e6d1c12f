// save-data.php: the raw overwrite of the product store. Whatever body
// arrives is written to db.json as it is: no request-method check, no JSON
// validation and no backup. Only a body PHP considers false is refused.

module SaveData {
  import opened Support
  import opened FileStore
  import opened UpdateDb

  /** PHP's truthiness of what `file_get_contents('php://input')` returned:
      `false`, the empty string and the string "0" are false, every other
      string is true. */
  predicate PhpTruthy(body: Option<Bytes>)
  {
    body.Some? && body.value != [] && body.value != [AsciiByte('0')]
  }

  const NoData := Failure(400, "No data received.")
  const SaveFailed := Failure(500, "Failed to write to file. Check file permissions.")
  const Saved := Response(200, Success, "Data saved successfully.")

  /** The state the request leaves behind, and its response (lines 5-19).
      A successful write of a true body returns its length, which is never
      0, so line 10's test fails only when the write fails. */
  function SaveDataOutcome(w: World, req: Request, fault: WriteFault): (World, Response)
  {
    if !PhpTruthy(req.body) then (w, NoData)
    else
      var (w1, written) := AfterPut(w, DbFile, req.body.value, fault);
      if written then (w1, Saved) else (w1, SaveFailed)
  }

  /** The handler as the PHP script runs it over the disk. */
  method HandleSaveData(disk: Disk, req: Request, fault: WriteFault) returns (resp: Response)
    modifies disk
    ensures (disk.State(), resp) == SaveDataOutcome(old(disk.State()), req, fault)
  {
    if !PhpTruthy(req.body) {
      return NoData;
    }
    var written := disk.Put(DbFile, req.body.value, fault);
    if written {
      resp := Saved;
    } else {
      resp := SaveFailed;
    }
  }

  /** Which bodies PHP treats as "no data": an unreadable body, the empty
      body and the one-character body "0" — but not "00" or "0\n". */
  lemma FalsyBodies()
    ensures !PhpTruthy(None)
    ensures !PhpTruthy(Some([]))
    ensures !PhpTruthy(Some([AsciiByte('0')]))
    ensures PhpTruthy(Some([AsciiByte('0'), AsciiByte('0')]))
    ensures PhpTruthy(Some([AsciiByte('0'), AsciiByte('\n')]))
  {
  }

  /** The answer is 400 exactly for a false body, and then nothing changes
      (lines 8 and 16-19). */
  lemma NoDataExactlyForFalsyBody(w: World, req: Request, fault: WriteFault)
    ensures var (w', resp) := SaveDataOutcome(w, req, fault);
      && (resp == NoData <==> !PhpTruthy(req.body))
      && (resp == NoData ==> w' == w)
  {
  }

  /** On success db.json holds the body byte for byte, whether or not it is
      JSON, and nothing else on disk changed: no backup is taken (line 10). */
  lemma SavedVerbatim(w: World, req: Request, fault: WriteFault)
    ensures var (w', resp) := SaveDataOutcome(w, req, fault);
      resp == Saved ==>
        && req.body.Some?
        && w'.files == w.files[DbFile := req.body.value]
        && w'.dirs == w.dirs
  {
  }

  /** Whatever the outcome, only db.json can change; no other file and no
      directory is created, changed or removed. */
  lemma OnlyStoreChanges(w: World, req: Request, fault: WriteFault, q: Path)
    requires q != DbFile
    ensures var w' := SaveDataOutcome(w, req, fault).0;
      && w'.dirs == w.dirs
      && (q in w'.files <==> q in w.files)
      && (q in w.files ==> w'.files[q] == w.files[q])
  {
    if PhpTruthy(req.body) {
      PutFrame(w, DbFile, req.body.value, fault, q);
    }
  }

  /** A failed write is answered 500 (lines 12-14); a write that fails after
      truncating leaves the partial bytes in db.json and the previous store
      is gone, since no copy of it was made. */
  lemma FailedWriteMayLoseStore(w: World, req: Request, partial: Bytes)
    requires PhpTruthy(req.body) && DbFile !in w.dirs
    ensures var (w', resp) := SaveDataOutcome(w, req, FailsLeaving(partial));
      && resp == SaveFailed
      && w'.files == w.files[DbFile := partial]
  {
  }

  /** The request method plays no part in the outcome (lines 1-20). */
  lemma MethodIgnored(w: World, m1: string, m2: string, body: Option<Bytes>, fault: WriteFault)
    ensures SaveDataOutcome(w, Request(m1, body), fault) == SaveDataOutcome(w, Request(m2, body), fault)
  {
  }

  /** The contrast with update-db.php: a GET carrying a true body is refused
      by update-db.php without touching anything, while save-data.php writes
      the body over db.json. */
  lemma GetRefusedOnlyByUpdateDb<J>(w: World, body: Option<Bytes>, backup: Path, faults: Faults,
                                    codec: JsonCodec<J>)
    requires PhpTruthy(body) && DbFile !in w.dirs
    ensures UpdateDbOutcome(w, Request("GET", body), backup, faults, codec) == (w, MethodNotAllowed)
    ensures var (w', resp) := SaveDataOutcome(w, Request("GET", body), NoFault);
      resp == Saved && w'.files[DbFile] == body.value
  {
  }
}
