/** The receiver's page: code entry, lookup and classification of a share,
    and the one-time download that consumes it. */
module Receive {
  import opened Decimal
  import opened Shares

  const CodeLength: nat := 6

  const ErrInvalidFormat: string := "Please enter a valid 6-digit code"
  const ErrNotFound: string := "Invalid code or file not found"
  const ErrAlreadyDownloaded: string := "This file has already been downloaded"
  const ErrExpired: string := "This file has expired"
  const ErrUnexpected: string := "An error occurred. Please try again."
  const ErrDownloadFailed: string := "Download failed. Please try again."

  /** `replace(/\D/g, '')`: the ASCII digits of `s`, in order. */
  function Digits(s: string): (r: string)
    ensures AllDigits(r) && |r| <= |s|
    ensures forall c :: c in r <==> c in s && IsDigit(c)
    ensures AllDigits(s) ==> r == s
    ensures |s| == 1 ==> r == if IsDigit(s[0]) then s else []
    decreases |s|
  {
    if s == [] then []
    else
      assert s == [s[0]] + s[1..];
      (if IsDigit(s[0]) then [s[0]] else []) + Digits(s[1..])
  }

  /** The digits of a concatenation are the digits of each part, in order; with
      the one-character case of `Digits` this fixes which digits are kept, how
      often and in what order. */
  lemma {:induction false} DigitsAppend(a: string, b: string)
    ensures Digits(a + b) == Digits(a) + Digits(b)
    decreases |a|
  {
    if a != [] {
      assert (a + b)[0] == a[0] && (a + b)[1..] == a[1..] + b;
      DigitsAppend(a[1..], b);
    } else {
      assert a + b == b;
    }
  }

  /** `handleCodeInput`'s `replace(/\D/g, '').slice(0, 6)`. */
  function SanitizeCode(input: string): (r: string)
    ensures AllDigits(r) && |r| <= CodeLength
    ensures |r| == if |Digits(input)| < CodeLength then |Digits(input)| else CodeLength
    ensures r == Digits(input)[..|r|]
  {
    var d := Digits(input);
    if |d| <= CodeLength then d else d[..CodeLength]
  }

  /** Re-sanitising a sanitised code changes nothing. */
  lemma SanitizeIdempotent(input: string)
    ensures SanitizeCode(SanitizeCode(input)) == SanitizeCode(input)
  {
  }

  /** What the code check concludes. */
  datatype Verdict = InvalidFormat | NotFound | AlreadyDownloaded | Expired | Found(share: FileShare)

  /** The query `.select('*').eq('code', code).single()`, `None` on its error branch. */
  function Lookup(rows: seq<FileShare>, code: string, fetchFails: bool): (r: Option<FileShare>)
    ensures r.Some? ==> r.value in rows && r.value.code == code
    ensures r.Some? ==> forall t :: t in rows && t.code == code ==> t == r.value
    ensures r.None? <==> fetchFails || |Matching(rows, code)| != 1
  {
    if fetchFails then None else Single(Matching(rows, code))
  }

  /** `validateCode`'s decision: the format gate first, then not found,
      then already downloaded, then expired. `expired` is `isFileExpired`
      applied to a row's `expires_at` at the moment of the check. */
  function Classify(rows: seq<FileShare>, code: string, fetchFails: bool, expired: int -> bool): (v: Verdict)
    ensures v.InvalidFormat? <==> |code| != CodeLength
    ensures v.NotFound? <==> |code| == CodeLength && (fetchFails || |Matching(rows, code)| != 1)
    ensures v.Found? ==> v.share in rows && v.share.code == code
    ensures v.Found? ==> !v.share.downloaded && !expired(v.share.expiresAt)
    ensures v.Found? ==> forall t :: t in rows && t.code == code ==> t == v.share
  {
    if |code| != CodeLength then InvalidFormat
    else
      match Lookup(rows, code, fetchFails)
      case None => NotFound
      case Some(s) =>
        if s.downloaded then AlreadyDownloaded
        else if expired(s.expiresAt) then Expired
        else Found(s)
  }

  /** The error line the page shows for a verdict (none when a file is found). */
  function Message(v: Verdict): (m: string)
    ensures m == "" <==> v.Found?
  {
    match v
    case InvalidFormat => ErrInvalidFormat
    case NotFound => ErrNotFound
    case AlreadyDownloaded => ErrAlreadyDownloaded
    case Expired => ErrExpired
    case Found(_) => ""
  }

  /** For a code held by exactly one row of a keyed table, the verdict depends on
      that row alone, and "already downloaded" wins over "expired". */
  lemma ClassifyUniqueRow(rows: seq<FileShare>, s: FileShare, expired: int -> bool)
    requires DistinctIds(rows) && s in rows && |s.code| == CodeLength
    requires forall t :: t in rows && t.code == s.code ==> t == s
    ensures s.downloaded ==> Classify(rows, s.code, false, expired) == AlreadyDownloaded
    ensures !s.downloaded && expired(s.expiresAt) ==> Classify(rows, s.code, false, expired) == Expired
    ensures !s.downloaded && !expired(s.expiresAt) ==> Classify(rows, s.code, false, expired) == Found(s)
  {
    SingleMatch(rows, s);
  }

  /** Codes are not unique in the table: two different rows holding one code make
      both unreachable, whatever their state. */
  lemma CollidingCodesNotFound(rows: seq<FileShare>, s: FileShare, t: FileShare, expired: int -> bool)
    requires s in rows && t in rows && s != t && s.code == t.code && |s.code| == CodeLength
    ensures Classify(rows, s.code, false, expired) == NotFound
  {
    var m := Matching(rows, s.code);
    assert s in m && t in m;
  }

  /** The code the deferred 500 ms check validates, as `handleCodeInput` is written:
      the timer calls the `validateCode` closure of the render that created the
      handler, which still sees `previous`, the code before this input. */
  function DeferredCodeAsWritten(previous: string, input: string): (r: Option<string>)
    ensures r.Some? <==> |SanitizeCode(input)| == CodeLength
    ensures r.Some? ==> r.value == previous
  {
    if |SanitizeCode(input)| == CodeLength then Some(previous) else None
  }

  /** The stale closure makes the deferred check reject every code completed by
      typing or pasting into a shorter one: it validates the shorter code. */
  lemma DeferredCheckAsWrittenRejects(rows: seq<FileShare>, previous: string, input: string,
                                      fetchFails: bool, expired: int -> bool)
    requires |previous| != CodeLength && |SanitizeCode(input)| == CodeLength
    ensures DeferredCodeAsWritten(previous, input).Some?
    ensures Classify(rows, DeferredCodeAsWritten(previous, input).value, fetchFails, expired) == InvalidFormat
  {
  }

  /** The concrete case: the sixth digit is typed after "12345". */
  lemma DeferredCheckAsWrittenExample(rows: seq<FileShare>, expired: int -> bool)
    ensures SanitizeCode("123456") == "123456"
    ensures DeferredCodeAsWritten("12345", "123456") == Some("12345")
    ensures Classify(rows, "12345", false, expired) == InvalidFormat
  {
    assert Digits("123456") == "123456";
  }

  /** The evidently intended deferred check: validate the code just entered. */
  function DeferredCode(input: string): (r: Option<string>)
    ensures r.Some? <==> |Digits(input)| >= CodeLength
    ensures r.Some? ==> r.value == Digits(input)[..CodeLength]
  {
    var value := SanitizeCode(input);
    if |value| == CodeLength then Some(value) else None
  }

  /** The intended deferred check always gets past the format gate. */
  lemma DeferredCodePassesFormatGate(rows: seq<FileShare>, input: string, fetchFails: bool, expired: int -> bool)
    requires DeferredCode(input).Some?
    ensures AllDigits(DeferredCode(input).value)
    ensures Classify(rows, DeferredCode(input).value, fetchFails, expired) != InvalidFormat
  {
  }

  /** The receiver page's local state. */
  class ReceivePage {
    var code: string
    var fileData: Option<FileShare>
    var error: string

    constructor ()
      ensures code == "" && fileData.None? && error == ""
    {
      code := "";
      fileData := None;
      error := "";
    }

    /** `handleCodeInput`: keep the sanitised input; when it has six digits, return
        the code the deferred check is to validate (the intended one, see
        `DeferredCodeAsWritten` for what the handler does). */
    method HandleCodeInput(input: string) returns (deferred: Option<string>)
      modifies this
      ensures |code| <= CodeLength && AllDigits(code)
      ensures code == SanitizeCode(input)
      ensures fileData == old(fileData) && error == old(error)
      ensures deferred == DeferredCode(input)
      ensures deferred.Some? ==> deferred.value == code
    {
      var value := SanitizeCode(input);
      code := value;
      if |value| == CodeLength {
        deferred := Some(value);
      } else {
        deferred := None;
      }
    }

    /** `validateCode`: reads the table, never writes it or the bucket. `fetchFails`
        is the query's error return, `throws` a rejected query. */
    method ValidateCode(db: Backend, expired: int -> bool, fetchFails: bool, throws: bool)
      modifies this
      ensures code == old(code)
      ensures db.rows == old(db.rows) && db.blobs == old(db.blobs)
      ensures |code| == CodeLength && throws ==> error == ErrUnexpected && fileData == old(fileData)
      ensures !(|code| == CodeLength && throws) ==>
        var v := Classify(db.rows, code, fetchFails, expired);
        error == Message(v) && fileData == if v.Found? then Some(v.share) else old(fileData)
    {
      if |code| != CodeLength {
        error := ErrInvalidFormat;
        return;
      }
      error := "";
      if throws {
        error := ErrUnexpected;
        return;
      }
      var data := db.SelectSingleByCode(code, fetchFails);
      if data.None? {
        error := ErrNotFound;
        return;
      }
      if data.value.downloaded {
        error := ErrAlreadyDownloaded;
        return;
      }
      if expired(data.value.expiresAt) {
        error := ErrExpired;
        return;
      }
      fileData := data;
    }

    /** `downloadFile`: fetch the blob; only when that works, mark the row
        downloaded and remove the blob. The errors the update and the removal
        return are ignored, as in the page. */
    method DownloadFile(db: Backend, fetchFails: bool, updateFails: bool, removeFails: bool)
      requires db.Valid()
      modifies this, db
      ensures db.Valid() && code == old(code)
      ensures old(fileData).None? ==>
        fileData == old(fileData) && error == old(error) &&
        db.rows == old(db.rows) && db.blobs == old(db.blobs)
      ensures old(fileData).Some? ==>
        var s := old(fileData).value;
        var fetched := !fetchFails && s.storagePath in old(db.blobs);
        error == (if fetched then "" else ErrDownloadFailed) &&
        fileData == (if fetched then Some(s.(downloaded := true)) else old(fileData)) &&
        db.rows == (if fetched && !updateFails then MarkDownloaded(old(db.rows), s.id) else old(db.rows)) &&
        db.blobs == (if fetched && !removeFails then old(db.blobs) - {s.storagePath} else old(db.blobs))
    {
      if fileData.None? {
        return;
      }
      var s := fileData.value;
      error := "";
      var fetched := db.Download(s.storagePath, fetchFails);
      if !fetched {
        error := ErrDownloadFailed;
        return;
      }
      var updated := db.UpdateDownloaded(s.id, updateFails);
      var removed := db.Remove(s.storagePath, removeFails);
      fileData := Some(s.(downloaded := true));
    }

    /** `resetForm`. */
    method ResetForm()
      modifies this
      ensures code == "" && fileData.None? && error == ""
    {
      code := "";
      fileData := None;
      error := "";
    }
  }
}
