# march: a verified model of the archiving server

march is a small HTTP server that archives web content. A client POSTs a URL
to `/<archive>` with HTTP Basic credentials of one of that archive's users.
The server answers at once with a fresh UUID. In the background it runs the
first configured archiver script whose regular expression matches the URL.
The script writes its capture to `<storage>/<uuid>`. The server takes the
capture's md5 sum. If the archive already holds a file with that sum, the
new copy is deleted and the new id is linked to the old file. Otherwise the
new file is kept under its own id. Either way one row is added to the
`archive_item` table. A GET of `/<archive>/<uuid>` serves the stored file.

The model has one module per source file:

- `Config` (config.dfy): the configuration records and `Load`, what
  loadConfig makes of a decoded configuration.
- `Db` (db.dfy): the `archive_item` rows and the two lookups as functions.
  The table itself is the class `Db.Table`, whose `AddToArchive` is the
  INSERT.
- `Archiving` (archive.dfy):
  - resolving request paths to archives and items;
  - choosing an archiver;
  - one capture step (`Record`, `Ingest`) over a `Store` of rows and files;
  - the store invariant `Consistent` (unique ids, one physical copy per
    fingerprint and archive, every visible row backed by a file whose md5
    sum is the row's) and the lemmas that the capture step keeps it.
- `Router` (router.dfy): the request handlers, with the credential check as
  a loop-carrying method.
- `Server` (app.dfy): the `app` struct as the class `Server.App`. Its
  methods that update fields in place are loadConfig, initDB and archive.
  The file system is the class `Server.Disk`.
- `Strings` (strings.dfy): Go's `strings.Split` and `strings.SplitN(s, sep, 2)`.
- `Wrappers` (wrappers.dfy): `Option`.

Some inputs are opaque function parameters:

- the md5 sum of a byte string (`md5`);
- `isUUID`;
- the base64 decoder (`decode`);
- regular-expression compilation (`compiles`) and matching (`matches`).

Other values are plain inputs:

- the UUID that `newUUID` draws (`newId`, `id`);
- the timestamp that `newTimestamp` draws (`now`);
- what an archiver script did (`Capture`: its exit status and the bytes it
  wrote, if any).

HTTP Basic authentication follows section 2 of RFC 7617. The payload is
standard base64 (section 4 of RFC 4648).

Facts about the code that the model keeps:

- POST takes the archive from the first path segment, and anything after it
  is ignored: `/photos/extra` posts to archive `photos`.
- Empty path segments are allowed: `//x` splits into `["", "x"]`, and an
  archive named "" would be reached by `/`.
- The Authorization header is split at its first space. The decoded payload
  is split at its first colon, so passwords may contain colons. The scheme
  word is never checked.
- The `id` primary key is global across archives, so an INSERT fails on an
  id that any archive has used.
- loadConfig ignores both a file that cannot be read and one that is not
  JSON. The load then proceeds from the empty configuration.

## Model

| member | source | states |
|---|---|---|
| Strings.Split | archive.go:14 | `strings.Split` yields one more piece than there are separators, and no piece contains the separator |
| Strings.JoinSplit | archive.go:38 | joining the pieces of `strings.Split` with the separator gives back the original string |
| Strings.SplitWithout | archive.go:14 | a string without the separator splits into itself alone |
| Strings.SplitAfter | archive.go:38 | a string `a + sep + b` with no separator in `a` splits into `a` followed by the pieces of `b` |
| Strings.SplitFirst | router.go:64 | `SplitN(s, sep, 2)`: two pieces exactly when the separator occurs; the first piece holds no separator; the pieces rejoin to `s` |
| Strings.SplitFirstAt | router.go:79 | `a + sep + b` with no separator in `a` splits at the first separator into exactly `[a, b]`, whatever `b` holds |
| Strings.Count | archive.go:14 | the separator count is at most the length, and is zero exactly when the separator is absent |
| Db.FirstMatch | db.go:77-81 | QueryRow picks the first selected row: that row is selected and no earlier one is; none exactly when no row is selected |
| Db.FileIDByID | db.go:75-83 | a non-empty result is the file id of a visible row of that archive with that id; "" when no such row exists; under unique ids every such row has the same file id |
| Db.FileIDByMD5Sum | db.go:87-95 | a non-empty result is the file id of a visible row of that archive with that md5 sum; "" when none exists; under one-file-per-fingerprint every such row has the same file id |
| Db.Insert | db.go:98-115 | the INSERT fails exactly when the id is taken (db.go:21 primary key); otherwise it appends exactly the new row and keeps ids unique |
| Db.LookupIgnoresOtherArchives | db.go:80 | a row of another archive never changes what a lookup returns |
| Db.FirstMatchAppend | db.go:77-81 | appending a row changes a lookup only when no earlier row was selected and the new one is |
| Db.InsertThenLookup | db.go:75-83 | after a successful insert of a visible row, looking up its id gives the inserted file id |
| Db.Table.constructor | db.go:66 | opening a database that holds rows with unique ids gives a valid table with exactly those rows |
| Db.Table.AddToArchive | db.go:98-115 | succeeds exactly when the id is new; then the table is the old rows plus one row with no deleted_at and the given fields and timestamp, otherwise unchanged; ids stay unique |
| Config.FirstDuplicate | config.go:56-59 | none exactly when archive names are distinct; otherwise the first index whose name an earlier archive already used |
| Config.ByName | config.go:60 | the map holds exactly the archive names, each mapped to an archive of that name |
| Config.FirstBadRegexp | config.go:66-70 | none exactly when every expression compiles; otherwise the first index whose expression does not compile |
| Config.Load | config.go:38-80 | no error exactly when names are distinct and every expression compiles; a duplicate leaves no archivers; a bad expression keeps every archive; success keeps all archives by name and all archivers in order |
| Config.ByNameKeepsEach | config.go:56-61 | with distinct names, every configured archive is stored under its own name |
| Config.ByNameSize | config.go:56-61 | with distinct names, the archive map has one entry per configured archive |
| Config.DistinctInit | config.go:56-61 | a prefix of archives with distinct names has distinct names |
| Config.LoadedConfigIsFaithful | config.go:38-80 | after a successful load every configured archive is found under its name, the map has as many entries as the list, and the archivers are the list as given |
| Config.FirstDuplicateAt | config.go:57-58 | the loop's first clash at index k, after distinct names before k, is the first duplicate |
| Config.DistinctExtended | config.go:57-60 | a name not stored yet extends a duplicate-free prefix by one |
| Archiving.Segments | archive.go:14 | splitting the path after its first character yields at least one segment |
| Archiving.ItemPathSegments | archive.go:38-49 | `/<name>/<id>` with no slash in either part splits into exactly `[name, id]` |
| Archiving.ArchivePathSegments | archive.go:14-22 | the first segment of `/<name>` and of `/<name>/<rest>` is `name` |
| Archiving.GetArchiveFromURL | archive.go:12-31 | none exactly when the first segment names no configured archive, otherwise that archive |
| Archiving.ArchiveIsFirstSegment | archive.go:12-31 | only the first segment names the archive; what follows it is ignored |
| Archiving.ResolveItem | archive.go:36-74 | a path of other than two segments is missing; any other outcome needs a known archive, a UUID id and a visible row with that id and a non-empty file id, and names `storage/fileID`; found means the file exists, stale means it does not; conversely a known archive, a UUID id and a non-empty file id for that id never give missing, and name `storage/fileID` |
| Archiving.GetArchiveItemFromURL | archive.go:36-74 | the single result as written is a file that exists, reached through a known archive and a UUID id, at `storage/fileID` of the row found; conversely when that file exists it is the result |
| Archiving.AsWrittenForgetsStale | archive.go:36-74 | the function as written is the three-way resolver with the stale case turned into nil |
| Archiving.AsWrittenConflatesStaleWithMissing | router.go:44-52 | a catalogued id whose file is gone and an id never recorded both give nil as written, though one is stale and the other missing |
| Archiving.Dispatch | archive.go:81-82 | the chosen archiver is the first whose expression matches the URL; none exactly when none matches |
| Archiving.Record | archive.go:84-122 | only the output path `storage/id` can change among the files; the rows stay the same or gain exactly one visible row with this id, archive, URL and timestamp, and only after a successful script whose output exists; a failed script adds no row |
| Archiving.DedupDecision | archive.go:102-117 | after a successful capture a row with the capture's md5 sum is added; if the archive already holds that sum, the row reuses that file id and the new copy is removed; otherwise the row owns the new file, holding the captured bytes, under its own id |
| Archiving.Ingest | archive.go:77-125 | when no archiver matches, nothing changes |
| Archiving.BackedAway | archive.go:84-113 | writing or removing a path that no file existed at leaves every row backed |
| Archiving.AppendKeepsOneFile | archive.go:109-117 | a new row whose md5 sum matches only rows with its file id keeps one file per fingerprint |
| Archiving.AppendKeepsBacked | archive.go:117 | adding a backed row to backed rows leaves all rows backed |
| Archiving.RecordKeepsConsistent | archive.go:84-122 | a capture step into a fresh output path keeps the store consistent: unique ids, one file per fingerprint, every visible row backed |
| Archiving.IngestKeepsConsistent | archive.go:77-125 | archive keeps the store consistent whatever the script does |
| Archiving.RunAll | archive.go:77-125 | running captures one after another only appends rows |
| Archiving.RunsKeepConsistent | archive.go:77-125 | any sequence of background captures with fresh ids keeps the store consistent |
| Archiving.IngestThenResolve | archive.go:36-125 | after a successful capture, GET of `/<archive>/<id>` finds a stored file whose md5 sum equals the capture's |
| Archiving.SameFingerprintSameFile | archive.go:102-114 | two ids of one archive with the same md5 sum resolve to the very same stored file |
| Archiving.FoundWhenStored | archive.go:61-73 | a catalogued id whose file `storage/fileID` is in storage resolves to that file, whatever its bytes now are |
| Archiving.StaleIsNotMissing | archive.go:61-71 | a catalogued id whose file was removed resolves to stale at its `storage/fileID`, never to missing |
| Router.Credentials | router.go:64-84 | no space means no credentials; a user name never contains a colon; the payload after the first space decodes to `user:password` |
| Router.CredentialsOfBasic | router.go:64-84 | `<scheme> <payload>` whose payload decodes to `user:password` (no colon in the user) carries exactly those credentials, whatever the scheme |
| Router.MalformedPayloadRejected | router.go:71-82 | a payload that is not base64, or decodes to text without a colon, carries no credentials |
| Router.IsAuthorized | router.go:60-96 | true exactly when the header carries credentials equal to those of one of the archive's users |
| Router.Post | router.go:101-140 | unknown archive or bad credentials give 401 with no task; a bad form or empty url gives 400 with no task; otherwise the new id and a newline, and exactly one capture task for this archive, URL and id |
| Router.Get | router.go:42-56 | 404 exactly when the item is missing, 204 exactly when it is stale, otherwise the found file's bytes |
| Router.Route | router.go:32-38 | GET goes to Get and starts nothing, POST goes to Post, and any other method gets no handler |
| Server.App.constructor | main.go:38-40 | every field starts at its zero value |
| Server.App.LoadConfig | config.go:38-80 | the fields equal `Config.Load` of the decoded configuration (empty when unreadable); archives are keyed by name; port and dbPath are set only on success; the database is untouched |
| Server.App.LoadArchives | config.go:56-61 | the loop stops at the first duplicate and stores every archive before it by name |
| Server.App.LoadArchivers | config.go:66-72 | the loop stops at the first bad expression and keeps the archivers before it in order |
| Server.App.InitDB | db.go:60-71 | empty path fails first and leaves the handle; a failed open leaves no handle; otherwise a valid fresh table over the stored rows, failing only if migration fails; configuration untouched |
| Server.App.Archive | archive.go:77-125 | table and disk become `Ingest` of the old store; the script run is that of the first matching archiver with (url, storage/id); a consistent store stays consistent for a fresh id |
| Server.App.RunArchiver | archive.go:83-122 | table and disk become `Record` of the old store, and the script is run on (url, storage/id) |

## Left out

- HTTP plumbing is left out. This covers response writing, the `WWW-Authenticate` header and the status codes `http.ServeContent` may choose. It also covers `fmt.Fprintf(w, id)` using the id as a format string, which is harmless for UUIDs.
- The server runs each capture in a goroutine, so two captures may interleave. Captures are modelled one after another, atomically. A race between two captures of identical content can store two copies; the model does not capture this.
- Logging is left out.
- The text of error messages is left out, including the extra arguments the Errorf calls pass without verbs.
- The md5 computation itself (md5sum.go) is an opaque function of the file's bytes. Its 32-hex-digit format is not modelled.
- UUID generation, `isUUID`, timestamps, base64 decoding and regular expressions are opaque parameters.
- `path.Join` cleaning is not modelled. A path stays the pair (storage, name), so names containing `..` or `/` are not normalised.
- Server.App.InitDB: the schema migrations and driver errors are reduced to booleans. A partially applied migration is not modelled.
- main.go:50 ignores the error initDB returns, so a server whose database path is empty or fails to open keeps serving with a nil `app.db`, and `archive` and `get` then dereference it and panic. main is not part of this model. Server.App.Archive requires an initialised table (`db != null`) and the nil-handle case is outside the model.
- SQL QueryRow without ORDER BY returns some matching row. The model picks the first in insertion order. Under the store invariant every match has the same file id, so the choice does not matter there.
- Reading the table can fail because of driver errors, and a NULL file_id can fail the Scan. Both leave the id as "", which the model treats as no row.
- os.Open can fail for reasons other than a missing file. Only a missing file is modelled.
- Archiving.RunsKeepConsistent: it assumes the generated ids are non-empty, pairwise distinct and name no existing file. That is what UUIDs give with overwhelming probability, but nothing in the source checks it.
- Archiving.Record: a failing script is modelled as writing at most its `written` bytes to its own output path. Other effects of a script are outside the model.
- Archiving.Ingest: its contract states only the no-match case. The match case is stated by Server.App.Archive and the Record lemmas.
- Server.App.LoadConfig: a file that cannot be read or is not JSON becomes the empty configuration (`decoded` is None). Partial JSON decoding is not modelled.

## Findings

| source | as written | input that shows it | evidently intended | confidence | as-written member | corrected member |
|---|---|---|---|---|---|---|
| router.go:44 | `get` takes two results, `file, fileExists`, from getArchiveItemFromURL, but archive.go:36 declares one result (`*os.File`). The stale case, a row whose file is gone, is folded into nil, and the 204 branch at router.go:49-52 has nothing to tell it apart. | GET `/<archive>/<id>` for a visible row whose file `storage/fileID` was deleted, next to GET of a UUID never recorded: both yield nil | three outcomes: missing (404), catalogued but file gone (204), found (200 with the file) | not executed | Archiving.GetArchiveItemFromURL, Archiving.AsWrittenConflatesStaleWithMissing | Archiving.ResolveItem, Archiving.StaleIsNotMissing |
