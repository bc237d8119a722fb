/** The sender's page: upload a file, publish its share code, and count down
    the share's ten minutes on screen. */
module Send {
  import opened Decimal
  import opened Shares

  /** The on-screen countdown starts at ten minutes, in seconds. */
  const CountdownStart: int := 600

  /** One tick of the one-second interval: down by one, never below zero;
      a tick from one or less lands on zero (and stops the interval). */
  function NextTick(prev: int): (r: int)
    ensures r >= 0
  {
    if prev <= 1 then 0 else prev - 1
  }

  /** The countdown after `k` ticks from `t`. */
  function TicksFrom(t: int, k: nat): int
    decreases k
  {
    if k == 0 then t else NextTick(TicksFrom(t, k - 1))
  }

  /** From a non-negative start, `k` ticks subtract `k`, bottoming out at zero. */
  lemma {:induction false} TicksFromValue(t: int, k: nat)
    requires t >= 0
    ensures TicksFrom(t, k) == if k <= t then t - k else 0
    decreases k
  {
    if k > 0 {
      TicksFromValue(t, k - 1);
    }
  }

  /** The countdown reads 0:00 exactly from the 600th tick on. */
  lemma CountdownReachesZero(k: nat)
    ensures TicksFrom(CountdownStart, k) == 0 <==> k >= CountdownStart
  {
    TicksFromValue(CountdownStart, k);
  }

  /** `n.toString().padStart(2, '0')`. */
  function PadTwo(n: nat): (s: string)
    ensures AllDigits(s) && |s| >= 2
    ensures n < 100 ==> |s| == 2 && Value(s) == n
  {
    if n < 10 then
      assert Value("0" + Show(n)) == n by {
        var d := "0" + Show(n);
        assert d == ['0', DigitChar(n)] && d[..1] == ['0'];
        assert Value(['0']) == 0 by { assert ['0'][..0] == []; }
      }
      "0" + Show(n)
    else
      assert |Show(n / 10)| == 1 || n >= 100;
      ValueShow(n);
      Show(n)
  }

  /** `formatTime`: whole minutes, a colon, and the seconds on two digits. */
  function FormatTime(seconds: nat): (s: string)
    ensures |s| >= 4 && s[|s| - 3] == ':'
  {
    Show(seconds / 60) + ":" + PadTwo(seconds % 60)
  }

  /** Reads an `m:ss` string back into seconds; the minutes carry no leading
      zero unless they are a single `0`. */
  function ParseTime(s: string): (r: Option<nat>)
  {
    if |s| >= 4 && s[|s| - 3] == ':' && (|s| == 4 || s[0] != '0')
       && AllDigits(s[..|s| - 3]) && AllDigits(s[|s| - 2..])
       && Value(s[|s| - 2..]) < 60
    then Some(Value(s[..|s| - 3]) * 60 + Value(s[|s| - 2..]))
    else None
  }

  /** `formatTime` loses nothing: its output reads back as the same number of seconds. */
  lemma FormatTimeRoundTrip(seconds: nat)
    ensures ParseTime(FormatTime(seconds)) == Some(seconds)
  {
    var m, ss := Show(seconds / 60), PadTwo(seconds % 60);
    var s := FormatTime(seconds);
    assert s[..|s| - 3] == m;
    assert s[|s| - 2..] == ss;
    ValueShow(seconds / 60);
  }

  /** Ten minutes show as "10:00". */
  lemma FormatTimeStart()
    ensures FormatTime(CountdownStart) == "10:00"
  {
    assert Show(10) == Show(1) + [DigitChar(0)];
  }

  /** What the sender sees after pressing upload. */
  datatype UploadOutcome = NoFile | UploadFailed | InsertFailed | Shared(code: string)

  /** The sender page's local state. */
  class SendPage {
    var selectedFile: Option<FileMeta>
    var shareCode: string
    var uploadComplete: bool
    var timeLeft: int
    var timerRunning: bool

    constructor ()
      ensures selectedFile.None? && shareCode == "" && !uploadComplete
      ensures timeLeft == CountdownStart && !timerRunning
    {
      selectedFile := None;
      shareCode := "";
      uploadComplete := false;
      timeLeft := CountdownStart;
      timerRunning := false;
    }

    /** `handleFileSelect`, the `onFileSelect` callback handed to the file picker. */
    method HandleFileSelect(file: FileMeta)
      modifies this
      ensures selectedFile == Some(file)
      ensures shareCode == old(shareCode) && uploadComplete == old(uploadComplete)
      ensures timeLeft == old(timeLeft) && timerRunning == old(timerRunning)
    {
      selectedFile := Some(file);
    }

    /** `uploadFile`: put the blob at `uploads/<fileId>`, then insert the row.
        `code` is what `generateCode()` returned, `fileId` what `uuidv4()`
        returned, `now` the clock. A failed upload stops before the insert;
        a failed insert leaves the uploaded blob in place. */
    method UploadFile(db: Backend, code: string, fileId: string, now: int,
                      uploadFails: bool, insertFails: bool)
      returns (outcome: UploadOutcome)
      requires db.Valid()
      modifies this, db
      ensures db.Valid() && selectedFile == old(selectedFile)
      ensures old(selectedFile).None? ==>
        outcome == NoFile && db.rows == old(db.rows) && db.blobs == old(db.blobs) &&
        shareCode == old(shareCode) && uploadComplete == old(uploadComplete) &&
        timeLeft == old(timeLeft) && timerRunning == old(timerRunning)
      ensures old(selectedFile).Some? ==>
        var path := StoragePathFor(fileId);
        var uploaded := !uploadFails && path !in old(db.blobs);
        var inserted := uploaded && !insertFails && fileId !in Ids(old(db.rows));
        db.blobs == (if uploaded then old(db.blobs) + {path} else old(db.blobs)) &&
        db.rows == (if inserted then old(db.rows) + [NewShare(fileId, code, old(selectedFile).value, now)]
                    else old(db.rows)) &&
        outcome == (if !uploaded then UploadFailed else if !inserted then InsertFailed else Shared(code)) &&
        shareCode == (if inserted then code else old(shareCode)) &&
        uploadComplete == (inserted || old(uploadComplete)) &&
        timerRunning == (inserted || old(timerRunning)) &&
        timeLeft == old(timeLeft)
    {
      if selectedFile.None? {
        return NoFile;
      }
      var file := selectedFile.value;
      var filePath := StoragePathFor(fileId);
      var uploaded := db.Upload(filePath, uploadFails);
      if !uploaded {
        return UploadFailed;
      }
      var inserted := db.Insert(NewShare(fileId, code, file, now), insertFails);
      if !inserted {
        return InsertFailed;
      }
      shareCode := code;
      uploadComplete := true;
      timerRunning := true;
      outcome := Shared(code);
    }

    /** One firing of the countdown interval; the interval clears itself when
        the count reaches zero. */
    method Tick()
      modifies this
      ensures selectedFile == old(selectedFile) && shareCode == old(shareCode)
      ensures uploadComplete == old(uploadComplete)
      ensures !old(timerRunning) ==> timeLeft == old(timeLeft) && !timerRunning
      ensures old(timerRunning) ==>
        timeLeft == NextTick(old(timeLeft)) && timerRunning == (old(timeLeft) > 1)
    {
      if !timerRunning {
        return;
      }
      if timeLeft <= 1 {
        timerRunning := false;
        timeLeft := 0;
      } else {
        timeLeft := timeLeft - 1;
      }
    }
  }
}
