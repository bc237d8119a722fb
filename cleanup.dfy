/** The scheduled cleanup function: select every overdue share, then for each
    one remove its blob and, only if that worked, delete its row, collecting a
    result per share that got through or threw. */
module Cleanup {
  import opened Decimal
  import opened Shares

  /** How the two calls for one share go. `StorageError` and `DbError` are error
      returns (logged, share skipped); the `Throws` variants are exceptions
      (caught, reported with their message). */
  datatype Fault =
    | NoFault
    | StorageError
    | StorageThrows(message: string)
    | DbError
    | DbThrows(message: string)

  /** The blob removal went through for this fault. */
  predicate RemoveSucceeded(fault: Fault) {
    fault.NoFault? || fault.DbError? || fault.DbThrows?
  }

  datatype Reason = Expired | Downloaded

  /** One element of the `results` array. */
  datatype Entry =
    | Deleted(id: string, storagePath: string, reason: Reason)
    | Failed(id: string, storagePath: string, message: string)

  /** A call the sweep makes on the bucket or the table. */
  datatype Call = RemoveBlob(share: FileShare) | DeleteRow(share: FileShare)

  datatype SweepState = SweepState(rows: seq<FileShare>, blobs: set<string>, results: seq<Entry>, calls: seq<Call>)

  /** The response body: the early "nothing to do" reply, or the results. */
  datatype Response = NothingToClean | Cleaned(results: seq<Entry>)

  const CleanedPrefix: string := "Cleaned up "
  const CleanedSuffix: string := " files"

  /** The reply's `message`: the fixed early reply, or the number of results
      written in decimal between "Cleaned up " and " files". */
  function ResponseMessage(r: Response): (m: string)
    ensures r.NothingToClean? ==> m == "No expired files to clean up"
    ensures r.Cleaned? ==>
      |m| > |CleanedPrefix| + |CleanedSuffix| &&
      m[..|CleanedPrefix|] == CleanedPrefix && m[|m| - |CleanedSuffix|..] == CleanedSuffix &&
      AllDigits(m[|CleanedPrefix|..|m| - |CleanedSuffix|]) &&
      Value(m[|CleanedPrefix|..|m| - |CleanedSuffix|]) == |r.results|
  {
    match r
    case NothingToClean => "No expired files to clean up"
    case Cleaned(results) =>
      var m := CleanedPrefix + Show(|results|) + CleanedSuffix;
      assert m[|CleanedPrefix|..|m| - |CleanedSuffix|] == Show(|results|);
      ValueShow(|results|);
      m
  }

  /** The fault of the `i`-th selected share; shares past the end of `faults` meet none. */
  function FaultAt(faults: seq<Fault>, i: nat): Fault {
    if i < |faults| then faults[i] else NoFault
  }

  /** The reason reported for a deleted share. */
  function ReasonFor(s: FileShare, now: int): (r: Reason)
    ensures r == Expired <==> s.expiresAt < now
    ensures IsOverdue(s, now) && r == Downloaded ==> s.downloaded
  {
    if s.expiresAt < now then Expired else Downloaded
  }

  /** The result entry one share contributes, if any. */
  function EntryFor(s: FileShare, fault: Fault, now: int): (e: Option<Entry>)
    ensures e.None? <==> fault.StorageError? || fault.DbError?
    ensures e.Some? ==> e.value.id == s.id && e.value.storagePath == s.storagePath
    ensures e.Some? && e.value.Deleted? <==> fault.NoFault?
    ensures e.Some? && e.value.Deleted? ==> e.value.reason == ReasonFor(s, now)
  {
    match fault
    case NoFault => Some(Deleted(s.id, s.storagePath, ReasonFor(s, now)))
    case StorageThrows(m) => Some(Failed(s.id, s.storagePath, m))
    case DbThrows(m) => Some(Failed(s.id, s.storagePath, m))
    case _ => None
  }

  function AsSeq<T>(o: Option<T>): seq<T> {
    if o.Some? then [o.value] else []
  }

  /** One iteration of the loop body. */
  function Step(st: SweepState, s: FileShare, fault: Fault, now: int): SweepState {
    var results := st.results + AsSeq(EntryFor(s, fault, now));
    if !RemoveSucceeded(fault) then
      st.(results := results, calls := st.calls + [RemoveBlob(s)])
    else
      st.(rows := if fault.NoFault? then DeleteById(st.rows, s.id) else st.rows,
          blobs := st.blobs - {s.storagePath},
          results := results,
          calls := st.calls + [RemoveBlob(s), DeleteRow(s)])
  }

  /** The loop run over `selection` from `st`, the last share processed last. */
  function Run(st: SweepState, selection: seq<FileShare>, faults: seq<Fault>, now: int): SweepState
    decreases |selection|
  {
    if selection == [] then st
    else
      var n := |selection| - 1;
      Step(Run(st, selection[..n], faults, now), selection[n], FaultAt(faults, n), now)
  }

  /** The whole sweep from a table and a bucket: select, then run the loop. */
  function SweepOf(rows: seq<FileShare>, blobs: set<string>, now: int, faults: seq<Fault>): SweepState {
    Run(SweepState(rows, blobs, [], []), Overdue(rows, now), faults, now)
  }

  /** Some selected share, with its fault, satisfies `p`. */
  predicate Any(selection: seq<FileShare>, faults: seq<Fault>, p: (FileShare, Fault) -> bool) {
    exists i :: 0 <= i < |selection| && p(selection[i], FaultAt(faults, i))
  }

  lemma AnySplit(selection: seq<FileShare>, faults: seq<Fault>, p: (FileShare, Fault) -> bool)
    requires selection != []
    ensures var n := |selection| - 1;
      Any(selection, faults, p) <==>
        Any(selection[..n], faults, p) || p(selection[n], FaultAt(faults, n))
  {
    var n := |selection| - 1;
    if Any(selection[..n], faults, p) {
      var i :| 0 <= i < n && p(selection[..n][i], FaultAt(faults, i));
      assert selection[i] == selection[..n][i];
    }
    if Any(selection, faults, p) && !p(selection[n], FaultAt(faults, n)) {
      var i :| 0 <= i < |selection| && p(selection[i], FaultAt(faults, i));
      assert i < n && selection[..n][i] == selection[i];
    }
  }

  /** The row with id `id` was deleted by the loop. */
  predicate RowDeleted(selection: seq<FileShare>, faults: seq<Fault>, id: string) {
    Any(selection, faults, (s: FileShare, f: Fault) => s.id == id && f.NoFault?)
  }

  /** The blob at `path` was removed by the loop. */
  predicate BlobRemoved(selection: seq<FileShare>, faults: seq<Fault>, path: string) {
    Any(selection, faults, (s: FileShare, f: Fault) => s.storagePath == path && RemoveSucceeded(f))
  }

  /** Some selected share contributed the entry `e`. */
  predicate Reports(selection: seq<FileShare>, faults: seq<Fault>, now: int, e: Entry) {
    Any(selection, faults, (s: FileShare, f: Fault) => EntryFor(s, f, now) == Some(e))
  }

  /** How many selected shares contribute an entry. */
  function ReportedCount(selection: seq<FileShare>, faults: seq<Fault>, now: int): nat
    decreases |selection|
  {
    if selection == [] then 0
    else
      var n := |selection| - 1;
      ReportedCount(selection[..n], faults, now) + |AsSeq(EntryFor(selection[n], FaultAt(faults, n), now))|
  }

  /** Exactly the rows of the shares that met no fault are deleted. */
  lemma {:induction false} RunRows(st: SweepState, selection: seq<FileShare>, faults: seq<Fault>, now: int)
    ensures forall s :: s in Run(st, selection, faults, now).rows <==>
      s in st.rows && !RowDeleted(selection, faults, s.id)
    decreases |selection|
  {
    if selection != [] {
      var n := |selection| - 1;
      RunRows(st, selection[..n], faults, now);
      forall s: FileShare
        ensures RowDeleted(selection, faults, s.id) <==>
          RowDeleted(selection[..n], faults, s.id) || (selection[n].id == s.id && FaultAt(faults, n).NoFault?)
      {
        AnySplit(selection, faults, (t: FileShare, f: Fault) => t.id == s.id && f.NoFault?);
      }
    }
  }

  /** Exactly the blobs of the shares whose removal went through are removed. */
  lemma {:induction false} RunBlobs(st: SweepState, selection: seq<FileShare>, faults: seq<Fault>, now: int)
    ensures forall p :: p in Run(st, selection, faults, now).blobs <==>
      p in st.blobs && !BlobRemoved(selection, faults, p)
    decreases |selection|
  {
    if selection != [] {
      var n := |selection| - 1;
      RunBlobs(st, selection[..n], faults, now);
      forall p: string
        ensures BlobRemoved(selection, faults, p) <==>
          BlobRemoved(selection[..n], faults, p) ||
          (selection[n].storagePath == p && RemoveSucceeded(FaultAt(faults, n)))
      {
        AnySplit(selection, faults, (s: FileShare, f: Fault) => s.storagePath == p && RemoveSucceeded(f));
      }
    }
  }

  /** The results are the entries the shares contributed, one per contributing
      share: error returns add nothing, thrown errors add a `Failed` entry. */
  lemma {:induction false} RunResults(st: SweepState, selection: seq<FileShare>, faults: seq<Fault>, now: int)
    ensures |Run(st, selection, faults, now).results| == |st.results| + ReportedCount(selection, faults, now)
    ensures forall e :: e in Run(st, selection, faults, now).results <==>
      e in st.results || Reports(selection, faults, now, e)
    decreases |selection|
  {
    if selection != [] {
      var n := |selection| - 1;
      RunResults(st, selection[..n], faults, now);
      forall e: Entry {
        AnySplit(selection, faults, (s: FileShare, f: Fault) => EntryFor(s, f, now) == Some(e));
      }
    }
  }

  /** Each delete call comes right after the blob removal of the same share. */
  predicate RemoveBeforeDelete(calls: seq<Call>) {
    forall k :: 0 <= k < |calls| && calls[k].DeleteRow? ==> 0 < k && calls[k - 1] == RemoveBlob(calls[k].share)
  }

  /** The loop keeps the call order, and only calls about selected shares are made. */
  lemma {:induction false} RunCalls(st: SweepState, selection: seq<FileShare>, faults: seq<Fault>, now: int)
    requires RemoveBeforeDelete(st.calls)
    ensures RemoveBeforeDelete(Run(st, selection, faults, now).calls)
    ensures forall c :: c in Run(st, selection, faults, now).calls ==> c in st.calls || c.share in selection
    decreases |selection|
  {
    if selection != [] {
      var n := |selection| - 1;
      RunCalls(st, selection[..n], faults, now);
      assert forall s :: s in selection[..n] ==> s in selection;
    }
  }

  /** The cleanup function's loop, as it runs against the table and the bucket.
      `faults[i]` says how the calls for the `i`-th selected share go. */
  method Sweep(db: Backend, now: int, faults: seq<Fault>) returns (response: Response, ghost calls: seq<Call>)
    requires db.Valid()
    modifies db
    ensures db.Valid()
    ensures var sel := Overdue(old(db.rows), now);
      var final := SweepOf(old(db.rows), old(db.blobs), now, faults);
      db.rows == final.rows && db.blobs == final.blobs && calls == final.calls &&
      response == if sel == [] then NothingToClean else Cleaned(final.results)
  {
    var expiredFiles := Overdue(db.rows, now);
    ghost var st0 := SweepState(db.rows, db.blobs, [], []);
    calls := [];
    if |expiredFiles| == 0 {
      return NothingToClean, calls;
    }
    var results: seq<Entry> := [];
    for i := 0 to |expiredFiles|
      invariant db.Valid()
      invariant Run(st0, expiredFiles[..i], faults, now) == SweepState(db.rows, db.blobs, results, calls)
    {
      assert expiredFiles[..i + 1][..i] == expiredFiles[..i];
      var file := expiredFiles[i];
      var fault := FaultAt(faults, i);
      if fault.StorageThrows? {
        calls := calls + [RemoveBlob(file)];
        results := results + [Failed(file.id, file.storagePath, fault.message)];
        continue;
      }
      var removed := db.Remove(file.storagePath, fault.StorageError?);
      calls := calls + [RemoveBlob(file)];
      if !removed {
        continue;
      }
      if fault.DbThrows? {
        calls := calls + [DeleteRow(file)];
        results := results + [Failed(file.id, file.storagePath, fault.message)];
        continue;
      }
      var deleted := db.Delete(file.id, fault.DbError?);
      calls := calls + [DeleteRow(file)];
      if !deleted {
        continue;
      }
      results := results + [Deleted(file.id, file.storagePath, ReasonFor(file, now))];
    }
    assert expiredFiles[..|expiredFiles|] == expiredFiles;
    response := Cleaned(results);
  }

  /** Shares that are neither expired nor downloaded keep their row; blobs that
      belong to no overdue share stay; the sweep never adds anything. */
  lemma SweepSparesCurrent(rows: seq<FileShare>, blobs: set<string>, now: int, faults: seq<Fault>)
    requires DistinctIds(rows)
    ensures forall s :: s in rows && !IsOverdue(s, now) ==> s in SweepOf(rows, blobs, now, faults).rows
    ensures forall s :: s in SweepOf(rows, blobs, now, faults).rows ==> s in rows
    ensures forall p :: p in blobs && (forall s :: s in rows && IsOverdue(s, now) ==> s.storagePath != p) ==>
      p in SweepOf(rows, blobs, now, faults).blobs
    ensures SweepOf(rows, blobs, now, faults).blobs <= blobs
  {
    var sel := Overdue(rows, now);
    var st := SweepState(rows, blobs, [], []);
    RunRows(st, sel, faults, now);
    RunBlobs(st, sel, faults, now);
    forall s | s in rows && !IsOverdue(s, now) ensures !RowDeleted(sel, faults, s.id) {
      forall i | 0 <= i < |sel| ensures sel[i].id != s.id {
        assert sel[i] in rows && sel[i] != s;
        var a :| 0 <= a < |rows| && rows[a] == s;
        var b :| 0 <= b < |rows| && rows[b] == sel[i];
      }
    }
  }

  /** A share whose blob removal or row deletion reported an error or threw keeps its row. */
  lemma SkippedShareStays(rows: seq<FileShare>, blobs: set<string>, now: int, faults: seq<Fault>, i: nat)
    requires DistinctIds(rows)
    requires i < |Overdue(rows, now)| && !FaultAt(faults, i).NoFault?
    ensures Overdue(rows, now)[i] in SweepOf(rows, blobs, now, faults).rows
  {
    var sel := Overdue(rows, now);
    var st := SweepState(rows, blobs, [], []);
    RunRows(st, sel, faults, now);
    forall j | 0 <= j < |sel| && sel[j].id == sel[i].id ensures j == i {
      assert sel[j] in rows && sel[i] in rows;
      var a :| 0 <= a < |rows| && rows[a] == sel[i];
      var b :| 0 <= b < |rows| && rows[b] == sel[j];
      assert a == b;
      SelectionDistinct(rows, now, i, j);
    }
  }

  /** The selection lists each row at most once. */
  lemma SelectionDistinct(rows: seq<FileShare>, now: int, i: nat, j: nat)
    requires DistinctIds(rows)
    requires i < |Overdue(rows, now)| && j < |Overdue(rows, now)|
    requires Overdue(rows, now)[i] == Overdue(rows, now)[j]
    ensures i == j
  {
    FilterKeepsDistinct(rows, (s: FileShare) => IsOverdue(s, now));
  }

  /** `e` is a truthful `deleted` entry about the overdue share `s` after the sweep `final`. */
  predicate DeletedEntryAccurate(s: FileShare, e: Entry, final: SweepState, now: int)
    requires e.Deleted?
  {
    IsOverdue(s, now) && s.id == e.id && s.storagePath == e.storagePath &&
    (e.reason == Expired <==> s.expiresAt < now) &&
    (e.reason == Downloaded ==> s.downloaded) &&
    e.storagePath !in final.blobs && (forall t :: t in final.rows ==> t.id != e.id)
  }

  /** Every `deleted` entry names a share that was overdue and is now gone with its
      blob, and its reason is `expired` exactly when the share had expired
      (otherwise it had been downloaded). */
  lemma DeletedEntriesAccurate(rows: seq<FileShare>, blobs: set<string>, now: int, faults: seq<Fault>)
    ensures var final := SweepOf(rows, blobs, now, faults);
      forall e :: e in final.results && e.Deleted? ==>
        exists s :: s in rows && DeletedEntryAccurate(s, e, final, now)
  {
    var sel := Overdue(rows, now);
    var final := SweepOf(rows, blobs, now, faults);
    RunResults(SweepState(rows, blobs, [], []), sel, faults, now);
    forall e | e in final.results && e.Deleted?
      ensures exists s :: s in rows && DeletedEntryAccurate(s, e, final, now)
    {
      var i :| 0 <= i < |sel| && EntryFor(sel[i], FaultAt(faults, i), now) == Some(e);
      DeletedAt(rows, blobs, now, faults, i);
      assert sel[i] in sel;
    }
  }

  /** The `i`-th selected share, when it met no fault, is gone with its blob. */
  lemma DeletedAt(rows: seq<FileShare>, blobs: set<string>, now: int, faults: seq<Fault>, i: nat)
    requires i < |Overdue(rows, now)| && FaultAt(faults, i).NoFault?
    ensures var s := Overdue(rows, now)[i];
      DeletedEntryAccurate(s, Deleted(s.id, s.storagePath, ReasonFor(s, now)), SweepOf(rows, blobs, now, faults), now)
  {
    var sel := Overdue(rows, now);
    var st := SweepState(rows, blobs, [], []);
    var s := sel[i];
    assert s in sel;
    RunRows(st, sel, faults, now);
    RunBlobs(st, sel, faults, now);
    assert RowDeleted(sel, faults, s.id);
    assert BlobRemoved(sel, faults, s.storagePath);
  }

  /** The reported count is the number of shares that were deleted or threw. */
  lemma CountIsReported(rows: seq<FileShare>, blobs: set<string>, now: int, faults: seq<Fault>)
    requires Overdue(rows, now) != []
    ensures var final := SweepOf(rows, blobs, now, faults);
      ResponseMessage(Cleaned(final.results)) ==
        CleanedPrefix + Show(ReportedCount(Overdue(rows, now), faults, now)) + CleanedSuffix
  {
    RunResults(SweepState(rows, blobs, [], []), Overdue(rows, now), faults, now);
  }

  /** A sweep in which no call fails leaves nothing overdue behind: every overdue
      row and its blob are gone and every one is reported deleted. */
  lemma FaultFreeSweepCleansAll(rows: seq<FileShare>, blobs: set<string>, now: int)
    ensures Overdue(SweepOf(rows, blobs, now, []).rows, now) == []
    ensures forall s :: s in rows && IsOverdue(s, now) ==> s.storagePath !in SweepOf(rows, blobs, now, []).blobs
    ensures forall s :: s in rows && IsOverdue(s, now) ==>
      Deleted(s.id, s.storagePath, ReasonFor(s, now)) in SweepOf(rows, blobs, now, []).results
  {
    var sel := Overdue(rows, now);
    var st := SweepState(rows, blobs, [], []);
    var final := SweepOf(rows, blobs, now, []);
    RunRows(st, sel, [], now);
    RunBlobs(st, sel, [], now);
    RunResults(st, sel, [], now);
    forall s | s in rows && IsOverdue(s, now)
      ensures RowDeleted(sel, [], s.id) && BlobRemoved(sel, [], s.storagePath)
      ensures Reports(sel, [], now, Deleted(s.id, s.storagePath, ReasonFor(s, now)))
    {
      var i :| 0 <= i < |sel| && sel[i] == s;
      assert FaultAt([], i) == NoFault;
    }
    var left := Overdue(final.rows, now);
    assert forall s :: s in final.rows ==> !IsOverdue(s, now);
    NothingOverdue(final.rows, now);
  }

  lemma {:induction false} NothingOverdue(rows: seq<FileShare>, now: int)
    requires forall s :: s in rows ==> !IsOverdue(s, now)
    ensures Overdue(rows, now) == []
    decreases |rows|
  {
    if rows != [] {
      var front := rows[..|rows| - 1];
      assert rows == front + [rows[|rows| - 1]];
      NothingOverdue(front, now);
    }
  }

  /** Right after a sweep in which nothing failed, another sweep at the same time
      finds nothing to clean and changes nothing. */
  lemma SecondSweepIsNoOp(rows: seq<FileShare>, blobs: set<string>, now: int, faults: seq<Fault>)
    ensures var first := SweepOf(rows, blobs, now, []);
      var second := SweepOf(first.rows, first.blobs, now, faults);
      Overdue(first.rows, now) == [] &&
      second.rows == first.rows && second.blobs == first.blobs && second.results == [] && second.calls == []
  {
    FaultFreeSweepCleansAll(rows, blobs, now);
  }
}
