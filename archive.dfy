/**
 * archive.go: resolving request paths to archives and stored items, and the
 * ingestion step that runs one archiver script, fingerprints its output,
 * deduplicates it against the metadata table and records the new item.
 *
 * The file system is a map from paths to contents. A path is kept as the
 * pair (directory, name) that `path.Join` is applied to. Running a script
 * is a `Capture` outcome given as input; the md5 sum of a file is an opaque
 * function `md5` of its bytes; `isUUID` and regular-expression matching are
 * opaque tests given as inputs as well.
 */
module Archiving {
  import opened Wrappers
  import opened Strings
  import opened Db
  import opened Config

  type Bytes = seq<bv8>

  /** `path.Join(dir, name)`. */
  datatype Path = Path(dir: string, name: string)

  /** The persistent state the server works on: the metadata table and the stored files. */
  datatype Store = Store(rows: seq<Row>, files: map<Path, Bytes>)

  /** The pieces of a request path after its leading character: `strings.Split(url[1:], "/")`. */
  function Segments(url: string): (parts: seq<string>)
    requires |url| >= 1
    ensures |parts| >= 1
  {
    Split(url[1..], '/')
  }

  /** A path of exactly two segments, `<name>/<id>`, splits into those two. */
  lemma ItemPathSegments(c: char, name: string, id: string)
    requires '/' !in name && '/' !in id
    ensures Segments([c] + name + "/" + id) == [name, id]
  {
    var url := [c] + name + "/" + id;
    assert url[1..] == name + ['/'] + id;
    SplitAfter(name, id, '/');
    SplitWithout(id, '/');
  }

  /** A path of one segment, `<name>`, is that one segment. */
  lemma ArchivePathSegments(c: char, name: string, rest: string)
    requires '/' !in name
    ensures Segments([c] + name)[0] == name
    ensures Segments([c] + name + "/" + rest)[0] == name
  {
    assert ([c] + name)[1..] == name;
    SplitWithout(name, '/');
    assert ([c] + name + "/" + rest)[1..] == name + ['/'] + rest;
    SplitAfter(name, rest, '/');
  }

  /**
   * getArchiveFromURL (archive.go:12-31). Split never yields zero pieces, so
   * the guard on an empty split (archive.go:17) cannot fire.
   */
  function GetArchiveFromURL(archives: map<string, Archive>, url: string): (a: Option<Archive>)
    requires |url| >= 1
    ensures a.None? <==> Segments(url)[0] !in archives
    ensures a.Some? ==> a.value == archives[Segments(url)[0]]
  {
    var parts := Segments(url);
    if |parts| < 1 then None
    else
      var name := parts[0];
      if name !in archives then None else Some(archives[name])
  }

  /** Only the first segment names the archive; whatever follows it is ignored. */
  lemma ArchiveIsFirstSegment(archives: map<string, Archive>, c: char, name: string, rest: string)
    requires '/' !in name
    ensures GetArchiveFromURL(archives, [c] + name + "/" + rest) == GetArchiveFromURL(archives, [c] + name)
    ensures GetArchiveFromURL(archives, [c] + name) == if name in archives then Some(archives[name]) else None
  {
    ArchivePathSegments(c, name, rest);
  }

  /** Outcome of resolving a retrieval path. */
  datatype Resolution =
    | Missing            // bad path, unknown archive, malformed id or no row: not found
    | Stale(file: Path)  // a row names this file, but it cannot be opened: no content
    | Found(file: Path)  // the file to serve

  /**
   * getArchiveItemFromURL (archive.go:36-74) with the three outcomes that its
   * caller in router.go:44-55 distinguishes: the checks run in order (two
   * segments, known archive, UUID id, row found, file opens) and the first
   * failure decides. The file opened is `storage/fileID` of the row found.
   */
  function ResolveItem(archives: map<string, Archive>, isUUID: string -> bool, rows: seq<Row>,
                       files: map<Path, Bytes>, url: string): (r: Resolution)
    requires |url| >= 1
    ensures |Segments(url)| != 2 ==> r == Missing
    ensures r != Missing ==>
      |Segments(url)| == 2 && Segments(url)[0] in archives && isUUID(Segments(url)[1])
    ensures r != Missing ==>
      exists i :: 0 <= i < |rows| && Selects(ById(Segments(url)[0], Segments(url)[1]), rows[i]) &&
        rows[i].fileID != "" && r.file == Path(archives[Segments(url)[0]].storage, rows[i].fileID)
    ensures r.Found? ==> r.file in files
    ensures r.Stale? ==> r.file !in files
    ensures |Segments(url)| == 2 && Segments(url)[0] in archives && isUUID(Segments(url)[1]) &&
            FileIDByID(rows, Segments(url)[0], Segments(url)[1]) != "" ==>
      r != Missing &&
      r.file == Path(archives[Segments(url)[0]].storage, FileIDByID(rows, Segments(url)[0], Segments(url)[1]))
  {
    var parts := Segments(url);
    if |parts| != 2 then Missing
    else
      var name, id := parts[0], parts[1];
      if name !in archives then Missing
      else if !isUUID(id) then Missing
      else
        var fileID := FileIDByID(rows, name, id);
        if fileID == "" then Missing
        else
          var file := Path(archives[name].storage, fileID);
          if file !in files then Stale(file) else Found(file)
  }

  /**
   * getArchiveItemFromURL exactly as archive.go:36-74 has it: one result, the
   * opened file or nil, whatever the reason for failing.
   */
  function GetArchiveItemFromURL(archives: map<string, Archive>, isUUID: string -> bool, rows: seq<Row>,
                                 files: map<Path, Bytes>, url: string): (f: Option<Path>)
    requires |url| >= 1
    ensures f.Some? ==> f.value in files
    ensures f.Some? ==>
      |Segments(url)| == 2 && Segments(url)[0] in archives && isUUID(Segments(url)[1]) &&
      f.value == Path(archives[Segments(url)[0]].storage, FileIDByID(rows, Segments(url)[0], Segments(url)[1]))
    ensures |Segments(url)| == 2 && Segments(url)[0] in archives && isUUID(Segments(url)[1]) &&
            FileIDByID(rows, Segments(url)[0], Segments(url)[1]) != "" &&
            Path(archives[Segments(url)[0]].storage, FileIDByID(rows, Segments(url)[0], Segments(url)[1])) in files ==>
      f == Some(Path(archives[Segments(url)[0]].storage, FileIDByID(rows, Segments(url)[0], Segments(url)[1])))
  {
    var parts := Segments(url);
    if |parts| != 2 then None
    else
      var name, id := parts[0], parts[1];
      if name !in archives then None
      else if !isUUID(id) then None
      else
        var fileID := FileIDByID(rows, name, id);
        if fileID == "" then None
        else
          var file := Path(archives[name].storage, fileID);
          if file !in files then None else Some(file)
  }

  /** The single-result function is the three-way resolver with its stale case folded into nil. */
  lemma AsWrittenForgetsStale(archives: map<string, Archive>, isUUID: string -> bool, rows: seq<Row>,
                              files: map<Path, Bytes>, url: string)
    requires |url| >= 1
    ensures GetArchiveItemFromURL(archives, isUUID, rows, files, url) ==
      match ResolveItem(archives, isUUID, rows, files, url)
      case Found(p) => Some(p)
      case _ => None
  {
  }

  /**
   * A catalogued item whose file is gone and an id never recorded give the
   * same nil from the function as written, while the three-way resolver
   * tells them apart.
   */
  lemma AsWrittenConflatesStaleWithMissing(archives: map<string, Archive>, isUUID: string -> bool, rows: seq<Row>,
                                           files: map<Path, Bytes>, i: nat, other: string)
    requires UniqueIds(rows) && i < |rows| && Visible(rows[i]) && rows[i].fileID != ""
    requires rows[i].archive in archives && '/' !in rows[i].archive
    requires isUUID(rows[i].id) && '/' !in rows[i].id
    requires StoredAt(archives, rows[i]) !in files
    requires isUUID(other) && '/' !in other && !IdTaken(rows, other)
    ensures var a := rows[i].archive;
            && GetArchiveItemFromURL(archives, isUUID, rows, files, "/" + a + "/" + rows[i].id) == None
            && GetArchiveItemFromURL(archives, isUUID, rows, files, "/" + a + "/" + other) == None
            && ResolveItem(archives, isUUID, rows, files, "/" + a + "/" + rows[i].id).Stale?
            && ResolveItem(archives, isUUID, rows, files, "/" + a + "/" + other) == Missing
  {
    var a := rows[i].archive;
    StaleIsNotMissing(archives, isUUID, rows, files, i);
    AsWrittenForgetsStale(archives, isUUID, rows, files, "/" + a + "/" + rows[i].id);
    AsWrittenForgetsStale(archives, isUUID, rows, files, "/" + a + "/" + other);
    ItemPathSegments('/', a, other);
    assert "/" + a + "/" + other == ['/'] + a + "/" + other;
  }

  /** Index of the archiver `archive` runs: the first whose expression matches the URL. */
  function Dispatch(archivers: seq<Archiver>, matches: (string, string) -> bool, url: string): (k: Option<nat>)
    ensures k.Some? ==> k.value < |archivers| && matches(archivers[k.value].regexp, url)
    ensures k.Some? ==> forall i :: 0 <= i < k.value ==> !matches(archivers[i].regexp, url)
    ensures k.None? <==> forall i :: 0 <= i < |archivers| ==> !matches(archivers[i].regexp, url)
  {
    if |archivers| == 0 then None
    else if matches(archivers[0].regexp, url) then Some(0)
    else match Dispatch(archivers[1..], matches, url)
      case None => None
      case Some(k) => Some(k + 1)
  }

  /**
   * What running an archiver script did: whether it exited successfully and
   * what, if anything, it wrote to its output path.
   */
  datatype Capture = Capture(exitOk: bool, written: Option<Bytes>)

  /** `exec.Command(script, url, file)`: the script and its two arguments. */
  datatype Invocation = Invocation(script: string, url: string, output: Path)

  /** Where the script for item `id` of archive `arc` writes. */
  function Output(arc: Archive, id: string): Path {
    Path(arc.storage, id)
  }

  /**
   * archive.go:84-122 once an archiver has been chosen: run the script,
   * take the md5 sum of its output, reuse the file id of a visible row of the
   * archive with that sum (and remove the new file) or keep the new file
   * under `id`, then insert the row. A failed script, a missing output or a
   * refused insert ends the step; what was done before stays done.
   */
  function Record(s: Store, md5: Bytes -> string, arc: Archive, url: string, id: string,
                  cap: Capture, now: Timestamp): (s': Store)
    ensures s'.files.Keys <= s.files.Keys + {Output(arc, id)}
    ensures forall p :: p in s.files && p != Output(arc, id) ==> p in s'.files && s'.files[p] == s.files[p]
    ensures s'.rows == s.rows || (|s'.rows| == |s.rows| + 1 && s'.rows[..|s.rows|] == s.rows)
    ensures |s'.rows| > |s.rows| ==>
      var r := s'.rows[|s.rows|];
      && r.id == id && r.archive == arc.name && r.url == url && r.createdAt == now && Visible(r)
      && !IdTaken(s.rows, id)
      && cap.exitOk && (cap.written.Some? || Output(arc, id) in s.files)
    ensures !cap.exitOk ==> s'.rows == s.rows
  {
    var out := Output(arc, id);
    var files := if cap.written.Some? then s.files[out := cap.written.value] else s.files;
    if !cap.exitOk || out !in files then Store(s.rows, files)
    else
      var sum := md5(files[out]);
      var found := FileIDByMD5Sum(s.rows, arc.name, sum);
      var fileID := if found == "" then id else found;
      var files' := if found == "" then files else files - {out};
      var row := Row(id, fileID, arc.name, url, sum, None, now);
      match Insert(s.rows, row)
      case None => Store(s.rows, files')
      case Some(rows') => Store(rows', files')
  }

  /**
   * The deduplication decision of a successful capture of `bytes`: when a
   * visible row of the archive already has the same md5 sum, the new row
   * takes that row's file id and the new copy is removed; otherwise the new
   * row owns the new file under its own id.
   */
  lemma DedupDecision(s: Store, md5: Bytes -> string, arc: Archive, url: string, id: string,
                      bytes: Bytes, now: Timestamp)
    requires OneFilePerFingerprint(s.rows) && !IdTaken(s.rows, id)
    requires forall i :: 0 <= i < |s.rows| && Visible(s.rows[i]) && s.rows[i].archive == arc.name ==> s.rows[i].fileID != ""
    ensures var s' := Record(s, md5, arc, url, id, Capture(true, Some(bytes)), now);
            && |s'.rows| == |s.rows| + 1
            && s'.rows[|s.rows|].md5sum == md5(bytes)
            && (forall j :: 0 <= j < |s.rows| && Selects(ByMD5Sum(arc.name, md5(bytes)), s.rows[j]) ==>
                  s'.rows[|s.rows|].fileID == s.rows[j].fileID && Output(arc, id) !in s'.files)
            && ((forall j :: 0 <= j < |s.rows| ==> !Selects(ByMD5Sum(arc.name, md5(bytes)), s.rows[j])) ==>
                  s'.rows[|s.rows|].fileID == id && Output(arc, id) in s'.files && s'.files[Output(arc, id)] == bytes)
  {
    var out := Output(arc, id);
    var files := s.files[out := bytes];
    var found := FileIDByMD5Sum(s.rows, arc.name, md5(bytes));
    var row := Row(id, if found == "" then id else found, arc.name, url, md5(bytes), None, now);
    assert Insert(s.rows, row) == Some(s.rows + [row]);
    assert Record(s, md5, arc, url, id, Capture(true, Some(bytes)), now) ==
           Store(s.rows + [row], if found == "" then files else files - {out});
  }

  /** archive (archive.go:77-125): nothing happens unless some archiver matches. */
  function Ingest(s: Store, archivers: seq<Archiver>, matches: (string, string) -> bool, md5: Bytes -> string,
                  arc: Archive, url: string, id: string, cap: Capture, now: Timestamp): (s': Store)
    ensures Dispatch(archivers, matches, url).None? ==> s' == s
  {
    match Dispatch(archivers, matches, url)
    case None => s
    case Some(_) => Record(s, md5, arc, url, id, cap, now)
  }

  /** The file a row of a configured archive stands for. */
  function StoredAt(archives: map<string, Archive>, r: Row): Path
    requires r.archive in archives
  {
    Path(archives[r.archive].storage, r.fileID)
  }

  /** Every archive is stored under its own name, as loadConfig leaves them. */
  predicate KeyedByName(archives: map<string, Archive>) {
    forall n :: n in archives ==> archives[n].name == n
  }

  /** A visible row of a configured archive names a kept file whose md5 sum is the row's. */
  predicate Backed(archives: map<string, Archive>, files: map<Path, Bytes>, md5: Bytes -> string, r: Row) {
    Visible(r) && r.archive in archives ==>
      && r.fileID != ""
      && StoredAt(archives, r) in files
      && md5(files[StoredAt(archives, r)]) == r.md5sum
  }

  /**
   * The store invariant: ids are unique, one physical copy per fingerprint
   * and archive, and every visible row is backed by its file.
   */
  predicate Consistent(s: Store, archives: map<string, Archive>, md5: Bytes -> string) {
    && UniqueIds(s.rows)
    && OneFilePerFingerprint(s.rows)
    && forall i :: 0 <= i < |s.rows| ==> Backed(archives, s.files, md5, s.rows[i])
  }

  /** Changing only a path no row is backed by keeps every row backed. */
  lemma BackedAway(s: Store, archives: map<string, Archive>, md5: Bytes -> string, out: Path, files: map<Path, Bytes>)
    requires Consistent(s, archives, md5)
    requires out !in s.files
    requires forall p :: p in s.files && p != out ==> p in files && files[p] == s.files[p]
    ensures forall i :: 0 <= i < |s.rows| ==> Backed(archives, files, md5, s.rows[i])
  {
    forall i | 0 <= i < |s.rows|
      ensures Backed(archives, files, md5, s.rows[i])
    {
      if Visible(s.rows[i]) && s.rows[i].archive in archives {
        assert Backed(archives, s.files, md5, s.rows[i]);
      }
    }
  }

  /** A new row whose sum matches only rows with its file id keeps one file per fingerprint. */
  lemma AppendKeepsOneFile(rows: seq<Row>, row: Row)
    requires OneFilePerFingerprint(rows)
    requires forall i ::
      0 <= i < |rows| && Visible(rows[i]) && rows[i].archive == row.archive && rows[i].md5sum == row.md5sum
      ==> rows[i].fileID == row.fileID
    ensures OneFilePerFingerprint(rows + [row])
  {
    var rows' := rows + [row];
    forall i, j | 0 <= i < |rows'| && 0 <= j < |rows'| && Visible(rows'[i]) && Visible(rows'[j]) &&
                  rows'[i].archive == rows'[j].archive && rows'[i].md5sum == rows'[j].md5sum
      ensures rows'[i].fileID == rows'[j].fileID
    {
      if i < |rows| { assert rows'[i] == rows[i]; }
      if j < |rows| { assert rows'[j] == rows[j]; }
    }
  }

  /** Appending a backed row to backed rows leaves every row backed. */
  lemma AppendKeepsBacked(rows: seq<Row>, row: Row, archives: map<string, Archive>, files: map<Path, Bytes>,
                          md5: Bytes -> string)
    requires forall i :: 0 <= i < |rows| ==> Backed(archives, files, md5, rows[i])
    requires Backed(archives, files, md5, row)
    ensures forall i :: 0 <= i < |rows + [row]| ==> Backed(archives, files, md5, (rows + [row])[i])
  {
    forall i | 0 <= i < |rows + [row]|
      ensures Backed(archives, files, md5, (rows + [row])[i])
    {
      if i < |rows| { assert (rows + [row])[i] == rows[i]; }
    }
  }

  /**
   * Recording one capture keeps the store consistent, provided its output
   * path did not exist yet and the id is not empty (a fresh UUID).
   */
  lemma RecordKeepsConsistent(s: Store, archives: map<string, Archive>, md5: Bytes -> string,
                              arc: Archive, url: string, id: string, cap: Capture, now: Timestamp)
    requires Consistent(s, archives, md5)
    requires arc.name in archives && archives[arc.name] == arc
    requires id != "" && Output(arc, id) !in s.files
    ensures Consistent(Record(s, md5, arc, url, id, cap, now), archives, md5)
  {
    var s' := Record(s, md5, arc, url, id, cap, now);
    var out := Output(arc, id);
    BackedAway(s, archives, md5, out, s'.files);
    if |s'.rows| > |s.rows| {
      var files := if cap.written.Some? then s.files[out := cap.written.value] else s.files;
      var sum := md5(files[out]);
      var found := FileIDByMD5Sum(s.rows, arc.name, sum);
      var row := Row(id, if found == "" then id else found, arc.name, url, sum, None, now);
      assert s'.rows == s.rows + [row];
      if found == "" {
        assert s'.files == files;
        forall i | 0 <= i < |s.rows| && Visible(s.rows[i]) && s.rows[i].archive == arc.name
          ensures s.rows[i].md5sum != sum
        {
          assert Backed(archives, s.files, md5, s.rows[i]);
        }
      } else {
        var j :| 0 <= j < |s.rows| && Selects(ByMD5Sum(arc.name, sum), s.rows[j]) && s.rows[j].fileID == found;
        assert Backed(archives, s.files, md5, s.rows[j]);
        assert StoredAt(archives, s.rows[j]) == Path(arc.storage, found);
      }
      assert Backed(archives, s'.files, md5, row);
      AppendKeepsBacked(s.rows, row, archives, s'.files, md5);
      AppendKeepsOneFile(s.rows, row);
    }
  }

  /** One ingestion keeps the store consistent (the `archive` step of one background task). */
  lemma IngestKeepsConsistent(s: Store, archives: map<string, Archive>, archivers: seq<Archiver>,
                              matches: (string, string) -> bool, md5: Bytes -> string,
                              arc: Archive, url: string, id: string, cap: Capture, now: Timestamp)
    requires Consistent(s, archives, md5)
    requires arc.name in archives && archives[arc.name] == arc
    requires id != "" && Output(arc, id) !in s.files
    ensures Consistent(Ingest(s, archivers, matches, md5, arc, url, id, cap, now), archives, md5)
  {
    if Dispatch(archivers, matches, url).Some? {
      RecordKeepsConsistent(s, archives, md5, arc, url, id, cap, now);
    }
  }

  /** One submission handed to the background task: archive name, URL, generated id, and what its capture did. */
  datatype Run = Run(archive: string, url: string, id: string, capture: Capture, now: Timestamp)

  /** The background tasks, run one after the other. */
  function RunAll(s: Store, runs: seq<Run>, archives: map<string, Archive>, archivers: seq<Archiver>,
                  matches: (string, string) -> bool, md5: Bytes -> string): (s': Store)
    requires forall k :: 0 <= k < |runs| ==> runs[k].archive in archives
    ensures |s.rows| <= |s'.rows| && s'.rows[..|s.rows|] == s.rows
    decreases |runs|
  {
    if |runs| == 0 then s
    else
      var r := runs[0];
      var s1 := Ingest(s, archivers, matches, md5, archives[r.archive], r.url, r.id, r.capture, r.now);
      var s' := RunAll(s1, runs[1..], archives, archivers, matches, md5);
      assert s'.rows[..|s.rows|] == s'.rows[..|s1.rows|][..|s.rows|];
      s'
  }

  /** The generated ids are non-empty, pairwise distinct and name no file that already exists. */
  predicate FreshIds(runs: seq<Run>, files: map<Path, Bytes>) {
    && (forall k :: 0 <= k < |runs| ==> runs[k].id != "")
    && (forall k, p :: 0 <= k < |runs| && p in files ==> p.name != runs[k].id)
    && (forall j, k :: 0 <= j < k < |runs| ==> runs[j].id != runs[k].id)
  }

  /**
   * One physical copy per fingerprint, over any sequence of background
   * tasks: if the store starts consistent, it stays consistent.
   */
  lemma {:induction false} RunsKeepConsistent(s: Store, runs: seq<Run>, archives: map<string, Archive>,
                                              archivers: seq<Archiver>, matches: (string, string) -> bool,
                                              md5: Bytes -> string)
    requires KeyedByName(archives)
    requires forall k :: 0 <= k < |runs| ==> runs[k].archive in archives
    requires Consistent(s, archives, md5)
    requires FreshIds(runs, s.files)
    ensures Consistent(RunAll(s, runs, archives, archivers, matches, md5), archives, md5)
    decreases |runs|
  {
    if |runs| > 0 {
      var r := runs[0];
      var arc := archives[r.archive];
      var s1 := Ingest(s, archivers, matches, md5, arc, r.url, r.id, r.capture, r.now);
      assert Output(arc, r.id) !in s.files by {
        assert r == runs[0];
      }
      IngestKeepsConsistent(s, archives, archivers, matches, md5, arc, r.url, r.id, r.capture, r.now);
      assert s1.files.Keys <= s.files.Keys + {Output(arc, r.id)} by {
        if Dispatch(archivers, matches, r.url).Some? {
        }
      }
      var tail := runs[1..];
      assert FreshIds(tail, s1.files) by {
        forall k, p | 0 <= k < |tail| && p in s1.files
          ensures p.name != tail[k].id
        {
          assert tail[k] == runs[k + 1];
          if p in s.files {
          } else {
            assert p == Output(arc, r.id);
          }
        }
        forall j, k | 0 <= j < k < |tail|
          ensures tail[j].id != tail[k].id
        {
          assert tail[j] == runs[j + 1] && tail[k] == runs[k + 1];
        }
      }
      assert forall k :: 0 <= k < |tail| ==> tail[k].archive in archives by {
        forall k | 0 <= k < |tail| ensures tail[k].archive in archives {
          assert tail[k] == runs[k + 1];
        }
      }
      RunsKeepConsistent(s1, tail, archives, archivers, matches, md5);
    }
  }

  /**
   * What a client sees afterwards: once the chosen script exits successfully
   * having written its output and the row is inserted, the item resolves to
   * a kept file whose md5 sum is that of the captured bytes (the same file,
   * or the earlier copy with that fingerprint).
   */
  lemma IngestThenResolve(s: Store, archives: map<string, Archive>, archivers: seq<Archiver>,
                          matches: (string, string) -> bool, md5: Bytes -> string, isUUID: string -> bool,
                          arc: Archive, url: string, id: string, bytes: Bytes, now: Timestamp)
    requires Consistent(s, archives, md5)
    requires arc.name in archives && archives[arc.name] == arc
    requires Dispatch(archivers, matches, url).Some?
    requires id != "" && Output(arc, id) !in s.files && !IdTaken(s.rows, id)
    requires isUUID(id) && '/' !in arc.name && '/' !in id
    ensures var s' := Ingest(s, archivers, matches, md5, arc, url, id, Capture(true, Some(bytes)), now);
            var r := ResolveItem(archives, isUUID, s'.rows, s'.files, "/" + arc.name + "/" + id);
            r.Found? && md5(s'.files[r.file]) == md5(bytes)
  {
    var cap := Capture(true, Some(bytes));
    var s' := Ingest(s, archivers, matches, md5, arc, url, id, cap, now);
    IngestKeepsConsistent(s, archives, archivers, matches, md5, arc, url, id, cap, now);
    var out := Output(arc, id);
    var files := s.files[out := bytes];
    var sum := md5(bytes);
    var found := FileIDByMD5Sum(s.rows, arc.name, sum);
    var row := Row(id, if found == "" then id else found, arc.name, url, sum, None, now);
    assert Insert(s.rows, row).Some?;
    assert s'.rows == s.rows + [row];
    InsertThenLookup(s.rows, row);
    ItemPathSegments('/', arc.name, id);
    assert "/" + arc.name + "/" + id == ['/'] + arc.name + "/" + id;
    assert Backed(archives, s'.files, md5, s'.rows[|s.rows|]);
  }

  /**
   * Both ids of two visible rows of one archive with the same md5 sum resolve
   * to the very same stored file: duplicates are served from one copy.
   */
  lemma SameFingerprintSameFile(s: Store, archives: map<string, Archive>, md5: Bytes -> string,
                                isUUID: string -> bool, i: nat, j: nat)
    requires Consistent(s, archives, md5)
    requires i < |s.rows| && j < |s.rows| && Visible(s.rows[i]) && Visible(s.rows[j])
    requires s.rows[i].archive == s.rows[j].archive && s.rows[i].md5sum == s.rows[j].md5sum
    requires s.rows[i].archive in archives && '/' !in s.rows[i].archive
    requires isUUID(s.rows[i].id) && isUUID(s.rows[j].id) && '/' !in s.rows[i].id && '/' !in s.rows[j].id
    ensures var a := s.rows[i].archive;
            var ri := ResolveItem(archives, isUUID, s.rows, s.files, "/" + a + "/" + s.rows[i].id);
            var rj := ResolveItem(archives, isUUID, s.rows, s.files, "/" + a + "/" + s.rows[j].id);
            ri.Found? && ri == rj
  {
    var a := s.rows[i].archive;
    ItemPathSegments('/', a, s.rows[i].id);
    ItemPathSegments('/', a, s.rows[j].id);
    assert "/" + a + "/" + s.rows[i].id == ['/'] + a + "/" + s.rows[i].id;
    assert "/" + a + "/" + s.rows[j].id == ['/'] + a + "/" + s.rows[j].id;
    assert Selects(ById(a, s.rows[i].id), s.rows[i]);
    assert Selects(ById(a, s.rows[j].id), s.rows[j]);
    assert Backed(archives, s.files, md5, s.rows[i]);
  }

  /**
   * A catalogued id whose file has been removed from storage resolves to the
   * stale outcome, never to not-found.
   */
  lemma StaleIsNotMissing(archives: map<string, Archive>, isUUID: string -> bool, rows: seq<Row>,
                          files: map<Path, Bytes>, i: nat)
    requires UniqueIds(rows) && i < |rows| && Visible(rows[i]) && rows[i].fileID != ""
    requires rows[i].archive in archives && '/' !in rows[i].archive
    requires isUUID(rows[i].id) && '/' !in rows[i].id
    requires StoredAt(archives, rows[i]) !in files
    ensures ResolveItem(archives, isUUID, rows, files, "/" + rows[i].archive + "/" + rows[i].id)
            == Stale(StoredAt(archives, rows[i]))
  {
    var a := rows[i].archive;
    ItemPathSegments('/', a, rows[i].id);
    assert "/" + a + "/" + rows[i].id == ['/'] + a + "/" + rows[i].id;
    assert Selects(ById(a, rows[i].id), rows[i]);
  }

  /**
   * A catalogued id whose file is in storage resolves to that file, whatever
   * its bytes are now: the 200 case of get.
   */
  lemma FoundWhenStored(archives: map<string, Archive>, isUUID: string -> bool, rows: seq<Row>,
                        files: map<Path, Bytes>, i: nat)
    requires UniqueIds(rows) && i < |rows| && Visible(rows[i]) && rows[i].fileID != ""
    requires rows[i].archive in archives && '/' !in rows[i].archive
    requires isUUID(rows[i].id) && '/' !in rows[i].id
    requires StoredAt(archives, rows[i]) in files
    ensures ResolveItem(archives, isUUID, rows, files, "/" + rows[i].archive + "/" + rows[i].id)
            == Found(StoredAt(archives, rows[i]))
  {
    var a := rows[i].archive;
    ItemPathSegments('/', a, rows[i].id);
    assert "/" + a + "/" + rows[i].id == ['/'] + a + "/" + rows[i].id;
    assert Selects(ById(a, rows[i].id), rows[i]);
  }
}
