/** The persistent state of the service: the `file_shares` table and the
    `files` storage bucket, with the plain operations the client library
    offers on them (select by code, insert, update by id, delete by id,
    upload, download and remove of a path). */
module Shares {
  import opened Decimal

  datatype Option<T> = None | Some(value: T)

  /** Share lifetime: 10 minutes, in milliseconds. */
  const Ttl: int := 10 * 60 * 1000

  /** The prefix of every blob path written by the sender. */
  const UploadsPrefix: string := "uploads/"

  /** The descriptive part of a browser `File`: name, size in bytes, MIME type. */
  datatype FileMeta = FileMeta(name: string, size: nat, fileType: string)

  /** One row of `file_shares`; timestamps are milliseconds since the epoch. */
  datatype FileShare = FileShare(
    id: string,
    code: string,
    filename: string,
    fileSize: nat,
    fileType: string,
    storagePath: string,
    createdAt: int,
    expiresAt: int,
    downloaded: bool,
    downloadCount: int)

  /** The blob path the sender writes a file to. */
  function StoragePathFor(fileId: string): (p: string)
    ensures |p| == |UploadsPrefix| + |fileId|
    ensures p[..|UploadsPrefix|] == UploadsPrefix && p[|UploadsPrefix|..] == fileId
  {
    UploadsPrefix + fileId
  }

  /** The row the sender inserts for a file uploaded under `fileId` at time `now`. */
  function NewShare(fileId: string, code: string, file: FileMeta, now: int): (s: FileShare)
    ensures s.id == fileId && s.code == code && s.storagePath == StoragePathFor(fileId)
    ensures s.filename == file.name && s.fileSize == file.size && s.fileType == file.fileType
    ensures s.expiresAt - s.createdAt == Ttl && s.createdAt == now
    ensures !s.downloaded && s.downloadCount == 0
  {
    FileShare(fileId, code, file.name, file.size, file.fileType, StoragePathFor(fileId),
              now, now + Ttl, false, 0)
  }

  /** The elements of `s` that satisfy `p`, in their order in `s`. */
  function Filter<T(!new)>(s: seq<T>, p: T -> bool): (r: seq<T>)
    ensures |r| <= |s|
    ensures forall x :: x in r <==> x in s && p(x)
    decreases |s|
  {
    if s == [] then []
    else
      var front := s[..|s| - 1];
      assert s == front + [s[|s| - 1]];
      if p(s[|s| - 1]) then Filter(front, p) + [s[|s| - 1]] else Filter(front, p)
  }

  /** Rows whose code is `code`: what `.eq('code', code)` selects. */
  function Matching(rows: seq<FileShare>, code: string): (r: seq<FileShare>)
    ensures forall s :: s in r <==> s in rows && s.code == code
  {
    Filter(rows, (s: FileShare) => s.code == code)
  }

  /** `.single()`: the one row of a selection, or nothing when it has zero or several. */
  function Single(selection: seq<FileShare>): (r: Option<FileShare>)
    ensures r.Some? <==> |selection| == 1
    ensures r.Some? ==> r.value in selection && forall s :: s in selection ==> s == r.value
  {
    if |selection| == 1 then Some(selection[0]) else None
  }

  /** The sweep's filter `expires_at < now() OR downloaded = true`. */
  predicate IsOverdue(s: FileShare, now: int) {
    s.expiresAt < now || s.downloaded
  }

  function Overdue(rows: seq<FileShare>, now: int): (r: seq<FileShare>)
    ensures forall s :: s in r <==> s in rows && IsOverdue(s, now)
  {
    Filter(rows, (s: FileShare) => IsOverdue(s, now))
  }

  /** `.delete().eq('id', id)`: every row with that id goes, every other row stays. */
  function DeleteById(rows: seq<FileShare>, id: string): (r: seq<FileShare>)
    ensures forall s :: s in r <==> s in rows && s.id != id
  {
    Filter(rows, (s: FileShare) => s.id != id)
  }

  /** The values `downloadFile` writes into a row. */
  function Consumed(s: FileShare): FileShare {
    s.(downloaded := true, downloadCount := 1)
  }

  /** `.update({ downloaded: true, download_count: 1 }).eq('id', id)`. */
  function MarkDownloaded(rows: seq<FileShare>, id: string): (r: seq<FileShare>)
    ensures |r| == |rows|
    ensures forall i :: 0 <= i < |rows| ==>
      r[i] == if rows[i].id == id then Consumed(rows[i]) else rows[i]
  {
    seq(|rows|, i requires 0 <= i < |rows| => if rows[i].id == id then Consumed(rows[i]) else rows[i])
  }

  function Ids(rows: seq<FileShare>): (ids: set<string>)
    ensures forall id :: id in ids <==> exists i :: 0 <= i < |rows| && rows[i].id == id
  {
    set i | 0 <= i < |rows| :: rows[i].id
  }

  /** `id` is the table's primary key. */
  predicate DistinctIds(rows: seq<FileShare>) {
    forall i, j :: 0 <= i < j < |rows| ==> rows[i].id != rows[j].id
  }

  /** Marking a row downloaded changes that row's two counters and nothing else:
      no row appears or disappears, ids and codes stay, other rows are untouched. */
  lemma MarkDownloadedFrame(rows: seq<FileShare>, id: string)
    ensures Ids(MarkDownloaded(rows, id)) == Ids(rows)
    ensures DistinctIds(rows) ==> DistinctIds(MarkDownloaded(rows, id))
    ensures forall s :: s in rows && s.id != id ==> s in MarkDownloaded(rows, id)
    ensures forall s :: s in MarkDownloaded(rows, id) ==>
      if s.id == id then s.downloaded && s.downloadCount == 1 && Consumed(s) == s
      else s in rows
    ensures forall c :: |Matching(MarkDownloaded(rows, id), c)| == |Matching(rows, c)|
  {
    var r := MarkDownloaded(rows, id);
    forall c ensures |Matching(r, c)| == |Matching(rows, c)| {
      MatchingCountPointwise(rows, r, c);
    }
    forall s | s in rows && s.id != id ensures s in r {
      var i :| 0 <= i < |rows| && rows[i] == s;
      assert r[i] == s;
    }
  }

  /** Two tables that agree row by row on the code have selections of equal size. */
  lemma {:induction false} MatchingCountPointwise(a: seq<FileShare>, b: seq<FileShare>, c: string)
    requires |a| == |b|
    requires forall i :: 0 <= i < |a| ==> (a[i].code == c <==> b[i].code == c)
    ensures |Matching(a, c)| == |Matching(b, c)|
    decreases |a|
  {
    if a != [] {
      var n := |a| - 1;
      MatchingCountPointwise(a[..n], b[..n], c);
      assert a[..n] == a[..|a| - 1] && b[..n] == b[..|b| - 1];
    }
  }

  /** Selecting by a code that occurs in a single row of a keyed table yields that row,
      and a code that occurs in two different rows yields no single row. */
  lemma SingleMatch(rows: seq<FileShare>, s: FileShare)
    requires DistinctIds(rows)
    requires s in rows
    ensures Single(Matching(rows, s.code)) == Some(s) <==>
      forall t :: t in rows && t.code == s.code ==> t == s
  {
    var m := Matching(rows, s.code);
    if forall t :: t in rows && t.code == s.code ==> t == s {
      MatchingAllEqual(rows, s);
    }
  }

  lemma {:induction false} MatchingAllEqual(rows: seq<FileShare>, s: FileShare)
    requires DistinctIds(rows)
    requires s in rows
    requires forall t :: t in rows && t.code == s.code ==> t == s
    ensures Matching(rows, s.code) == [s]
    decreases |rows|
  {
    var n := |rows| - 1;
    var front := rows[..n];
    assert rows == front + [rows[n]];
    assert Matching(rows, s.code) ==
      if rows[n].code == s.code then Matching(front, s.code) + [rows[n]] else Matching(front, s.code);
    if rows[n] == s {
      forall t | t in front ensures t.code != s.code {
        var i :| 0 <= i < n && front[i] == t;
        assert rows[i].id != rows[n].id;
      }
      NoMatchingEmpty(front, s.code);
    } else {
      assert s in front;
      MatchingAllEqual(front, s);
    }
  }

  lemma {:induction false} NoMatchingEmpty(rows: seq<FileShare>, c: string)
    requires forall t :: t in rows ==> t.code != c
    ensures Matching(rows, c) == []
    decreases |rows|
  {
    if rows != [] {
      var front := rows[..|rows| - 1];
      assert rows == front + [rows[|rows| - 1]];
      NoMatchingEmpty(front, c);
    }
  }

  /** The service's persistent state: rows of `file_shares` and the paths held
      in the `files` bucket. Every method takes a `fails` flag standing for an
      error the client library returns (network, permissions, server). */
  class Backend {
    var rows: seq<FileShare>
    var blobs: set<string>

    ghost predicate Valid()
      reads this
    {
      DistinctIds(rows)
    }

    constructor (rows0: seq<FileShare>, blobs0: set<string>)
      requires DistinctIds(rows0)
      ensures Valid() && rows == rows0 && blobs == blobs0
    {
      rows := rows0;
      blobs := blobs0;
    }

    /** `.select('*').eq('code', code).single()`: `None` is the error branch. */
    method SelectSingleByCode(code: string, fails: bool) returns (data: Option<FileShare>)
      ensures fails ==> data.None?
      ensures data.Some? ==> data.value in rows && data.value.code == code
      ensures !fails ==> (data.Some? <==> |Matching(rows, code)| == 1)
    {
      if fails {
        return None;
      }
      data := Single(Matching(rows, code));
    }

    /** `.insert([share])`: refused when the id is already a key. */
    method Insert(share: FileShare, fails: bool) returns (ok: bool)
      requires Valid()
      modifies this
      ensures Valid() && blobs == old(blobs)
      ensures ok <==> !fails && share.id !in Ids(old(rows))
      ensures rows == if ok then old(rows) + [share] else old(rows)
    {
      ok := !fails && share.id !in Ids(rows);
      if ok {
        rows := rows + [share];
      }
    }

    /** `.update({ downloaded: true, download_count: 1 }).eq('id', id)`. */
    method UpdateDownloaded(id: string, fails: bool) returns (ok: bool)
      requires Valid()
      modifies this
      ensures Valid() && blobs == old(blobs)
      ensures ok == !fails
      ensures rows == if ok then MarkDownloaded(old(rows), id) else old(rows)
    {
      ok := !fails;
      if ok {
        MarkDownloadedFrame(rows, id);
        rows := MarkDownloaded(rows, id);
      }
    }

    /** `.delete().eq('id', id)`: deleting an absent id is not an error. */
    method Delete(id: string, fails: bool) returns (ok: bool)
      requires Valid()
      modifies this
      ensures Valid() && blobs == old(blobs)
      ensures ok == !fails
      ensures rows == if ok then DeleteById(old(rows), id) else old(rows)
    {
      ok := !fails;
      if ok {
        DeleteKeepsDistinct(rows, id);
        rows := DeleteById(rows, id);
      }
    }

    /** `storage.upload(path, file, { upsert: false })`: refused when the path is taken. */
    method Upload(path: string, fails: bool) returns (ok: bool)
      modifies this
      ensures rows == old(rows)
      ensures ok <==> !fails && path !in old(blobs)
      ensures blobs == if ok then old(blobs) + {path} else old(blobs)
    {
      ok := !fails && path !in blobs;
      if ok {
        blobs := blobs + {path};
      }
    }

    /** `storage.download(path)`: fails when nothing is stored there. */
    method Download(path: string, fails: bool) returns (ok: bool)
      ensures ok <==> !fails && path in blobs
    {
      ok := !fails && path in blobs;
    }

    /** `storage.remove([path])`: removing an absent path is not an error. */
    method Remove(path: string, fails: bool) returns (ok: bool)
      modifies this
      ensures rows == old(rows)
      ensures ok == !fails
      ensures blobs == if ok then old(blobs) - {path} else old(blobs)
    {
      ok := !fails;
      if ok {
        blobs := blobs - {path};
      }
    }
  }

  lemma {:induction false} DeleteKeepsDistinct(rows: seq<FileShare>, id: string)
    requires DistinctIds(rows)
    ensures DistinctIds(DeleteById(rows, id))
  {
    FilterKeepsDistinct(rows, (s: FileShare) => s.id != id);
  }

  lemma {:induction false} FilterKeepsDistinct(rows: seq<FileShare>, p: FileShare -> bool)
    requires DistinctIds(rows)
    ensures DistinctIds(Filter(rows, p))
    decreases |rows|
  {
    if rows != [] {
      var n := |rows| - 1;
      var front := rows[..n];
      assert rows == front + [rows[n]];
      FilterKeepsDistinct(front, p);
      var f := Filter(front, p);
      forall s | s in f ensures s.id != rows[n].id {
        var i :| 0 <= i < n && front[i] == s;
      }
    }
  }
}
