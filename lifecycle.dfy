/** The life of one share across the sender, the receiver and the cleanup
    function: created active, found by its code, consumed by one download,
    and removed by the next sweep. */
module Lifecycle {
  import opened Decimal
  import opened Shares
  import opened Receive
  import opened Send
  import opened Cleanup

  /** A share just inserted under a code no other row holds is found by that
      code, with the metadata the sender inserted, until it expires. */
  lemma CreatedShareIsFound(rows: seq<FileShare>, fileId: string, code: string, file: FileMeta,
                            now: int, expired: int -> bool)
    requires DistinctIds(rows) && fileId !in Ids(rows)
    requires |code| == CodeLength && forall t :: t in rows ==> t.code != code
    requires !expired(now + Ttl)
    ensures var s := NewShare(fileId, code, file, now);
      Classify(rows + [s], code, false, expired) == Found(s) &&
      s.filename == file.name && s.fileSize == file.size && s.fileType == file.fileType
  {
    var s := NewShare(fileId, code, file, now);
    var table := rows + [s];
    forall i, j | 0 <= i < j < |table| ensures table[i].id != table[j].id {
      if j == |rows| {
        assert table[i] == rows[i];
      }
    }
    ClassifyUniqueRow(table, s, expired);
  }

  /** Once the row a code resolved to is marked downloaded, the same code reports
      "already downloaded", whether or not the share has expired since. */
  lemma ConsumedShareReportsDownloaded(rows: seq<FileShare>, code: string, fetchFails: bool,
                                       expired: int -> bool, later: int -> bool)
    requires DistinctIds(rows)
    requires Classify(rows, code, fetchFails, expired).Found?
    ensures Classify(MarkDownloaded(rows, Classify(rows, code, fetchFails, expired).share.id), code, false, later)
      == AlreadyDownloaded
  {
    var s := Classify(rows, code, fetchFails, expired).share;
    var marked := MarkDownloaded(rows, s.id);
    MarkDownloadedFrame(rows, s.id);
    var i :| 0 <= i < |rows| && rows[i] == s;
    assert marked[i] == Consumed(s);
    forall t | t in marked && t.code == code ensures t == Consumed(s) {
      var j :| 0 <= j < |marked| && marked[j] == t;
      assert rows[j].code == code;
    }
    ClassifyUniqueRow(marked, Consumed(s), later);
  }

  /** After a download marked a share and a sweep in which nothing failed, its
      code is no longer found and its blob is gone. */
  lemma SweptShareIsGone(rows: seq<FileShare>, blobs: set<string>, s: FileShare, now: int,
                         expired: int -> bool)
    requires DistinctIds(rows) && s in rows && s.downloaded && |s.code| == CodeLength
    requires forall t :: t in rows && t.code == s.code ==> t == s
    ensures var after := SweepOf(rows, blobs, now, []);
      Classify(after.rows, s.code, false, expired) == NotFound && s.storagePath !in after.blobs
  {
    var after := SweepOf(rows, blobs, now, []);
    FaultFreeSweepCleansAll(rows, blobs, now);
    SweepSparesCurrent(rows, blobs, now, []);
    assert s !in after.rows by {
      NotOverdueAfterSweep(after.rows, now, s);
    }
    NoMatchingEmpty(after.rows, s.code);
  }

  lemma NotOverdueAfterSweep(rows: seq<FileShare>, now: int, s: FileShare)
    requires Overdue(rows, now) == [] && IsOverdue(s, now)
    ensures s !in rows
  {
    assert s !in Overdue(rows, now);
  }

  /** A share's life as the pages drive it, first part: a sender uploads at
      time 0 and a receiver enters the code 5 s later. */
  method UploadThenResolve(file: FileMeta, fileId: string, code: string)
    requires |code| == CodeLength && AllDigits(code)
  {
    var db := new Backend([], {});
    var sender := new SendPage();
    sender.HandleFileSelect(file);
    var outcome := sender.UploadFile(db, code, fileId, 0, false, false);
    var s := NewShare(fileId, code, file, 0);
    assert outcome == Shared(code) && db.rows == [s] && db.blobs == {StoragePathFor(fileId)};

    var receiver := new ReceivePage();
    var _ := receiver.HandleCodeInput(code);
    var expiredAt5s := (expiresAt: int) => expiresAt <= 5000;
    CreatedShareIsFound([], fileId, code, file, 0, expiredAt5s);
    receiver.ValidateCode(db, expiredAt5s, false, false);
    assert receiver.fileData == Some(s) && receiver.error == "";
  }

  /** Second part: the receiver downloads, which marks the row and removes the
      blob; a second receiver entering the same code is told it is gone. */
  method ResolveThenConsume(s: FileShare)
    requires !s.downloaded && |s.code| == CodeLength && AllDigits(s.code)
  {
    var db := new Backend([s], {s.storagePath});
    var live := (expiresAt: int) => false;
    ClassifyUniqueRow([s], s, live);
    var receiver := new ReceivePage();
    var _ := receiver.HandleCodeInput(s.code);
    receiver.ValidateCode(db, live, false, false);
    assert receiver.fileData == Some(s);

    receiver.DownloadFile(db, false, false, false);
    assert receiver.error == "" && db.blobs == {} && db.rows == MarkDownloaded([s], s.id);

    var other := new ReceivePage();
    var _ := other.HandleCodeInput(s.code);
    ConsumedShareReportsDownloaded([s], s.code, false, live, live);
    other.ValidateCode(db, live, false, false);
    assert other.error == ErrAlreadyDownloaded && other.fileData.None?;
  }

  /** The scenario continued: the next sweep deletes the consumed share, after
      which its code is unknown. */
  method ConsumedShareSwept(s: FileShare)
    requires s.downloaded && |s.code| == CodeLength && AllDigits(s.code)
  {
    var db := new Backend([s], {});
    var response, calls := Sweep(db, 7000, []);
    SweptShareIsGone([s], {}, s, 7000, (expiresAt: int) => false);
    var late := new ReceivePage();
    var _ := late.HandleCodeInput(s.code);
    late.ValidateCode(db, (expiresAt: int) => false, false, false);
    assert late.error == ErrNotFound;
  }

  /** The page reads before it writes and has no compare-and-set: two receivers
      who both resolved the code before either downloaded both get the file
      when the first one's blob removal fails. Both downloads end without an
      error, and only the second one removes the blob. */
  method ReadThenWriteRace(db: Backend, s: FileShare) returns (firstError: string, secondError: string)
    requires db.Valid() && s in db.rows && s.storagePath in db.blobs
    requires !s.downloaded && |s.code| == CodeLength && AllDigits(s.code)
    requires forall t :: t in db.rows && t.code == s.code ==> t == s
    modifies db
    ensures firstError == "" && secondError == ""
    ensures s.storagePath !in db.blobs
  {
    var never := (expiresAt: int) => false;
    var first := new ReceivePage();
    var second := new ReceivePage();
    var _ := first.HandleCodeInput(s.code);
    var _ := second.HandleCodeInput(s.code);
    ClassifyUniqueRow(db.rows, s, never);
    first.ValidateCode(db, never, false, false);
    second.ValidateCode(db, never, false, false);
    assert first.fileData == Some(s) && second.fileData == Some(s);

    first.DownloadFile(db, false, false, true);
    assert first.error == "" && s.storagePath in db.blobs;
    second.DownloadFile(db, false, false, false);
    firstError, secondError := first.error, second.error;
  }
}
