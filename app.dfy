/**
 * The `app` struct (main.go:15-22) and its methods that change state:
 * loadConfig (config.go), initDB (db.go) and archive (archive.go). The
 * storage directories live on a `Disk`, the one file system every archive
 * writes to.
 */
module Server {
  import opened Wrappers
  import opened Db
  import opened Config
  import opened Archiving

  /** The file system: path -> contents. */
  class Disk {
    var files: map<Path, Bytes>

    constructor (files: map<Path, Bytes>)
      ensures this.files == files
    {
      this.files := files;
    }
  }

  /** Why initDB gave up. */
  datatype DbError = EmptyPath | OpenFailed | MigrationFailed

  class App {
    var archivers: seq<Archiver>
    var archives: map<string, Archive>
    var dbPath: string
    var port: string
    var db: Table?

    /** `app{logger: ...}` (main.go:38-40): every field at its zero value. */
    constructor ()
      ensures archivers == [] && archives == map[] && dbPath == "" && port == "" && db == null
    {
      archivers, archives, dbPath, port, db := [], map[], "", "", null;
    }

    /**
     * loadConfig (config.go:38-80). `decoded` is what json.Unmarshal left in
     * `Config{}`: None when the file could not be read or is not JSON. Both
     * errors are dropped by the source, so the load then proceeds from the
     * empty configuration. archives and archivers are reset before the loops
     * and keep whatever the loops stored before an error; port and dbPath are
     * set only when both loops succeed.
     */
    method LoadConfig(decoded: Option<Config>, compiles: string -> bool) returns (err: Option<ConfigError>)
      modifies this
      ensures var l := Load(decoded.GetOr(EmptyConfig), compiles);
              archives == l.archives && archivers == l.archivers && err == l.err
      ensures KeyedByName(archives)
      ensures err.None? ==> port == decoded.GetOr(EmptyConfig).port && dbPath == decoded.GetOr(EmptyConfig).database
      ensures err.Some? ==> port == old(port) && dbPath == old(dbPath)
      ensures db == old(db)
    {
      var cfg := decoded.GetOr(EmptyConfig);
      archives := map[];
      archivers := [];
      var dup := LoadArchives(cfg.archives);
      if dup.Some? {
        return Some(DuplicateArchive(cfg.archives[dup.value].name));
      }
      var bad := LoadArchivers(cfg.archivers, compiles);
      if bad.Some? {
        return Some(BadRegexp(cfg.archivers[bad.value].regexp));
      }
      port := cfg.port;
      dbPath := cfg.database;
      return None;
    }

    /**
     * The archives loop of loadConfig (config.go:56-61): store each archive
     * under its name, stopping at the first name already stored.
     */
    method LoadArchives(list: seq<Archive>) returns (dup: Option<nat>)
      requires archives == map[]
      modifies this`archives
      ensures dup == FirstDuplicate(list)
      ensures archives == if dup.Some? then ByName(list[..dup.value]) else ByName(list)
    {
      var i := 0;
      while i < |list|
        invariant 0 <= i <= |list|
        invariant DistinctNames(list[..i])
        invariant archives == ByName(list[..i])
      {
        var a := list[i];
        if a.name in archives {
          FirstDuplicateAt(list, i);
          return Some(i);
        }
        DistinctExtended(list, i);
        archives := archives[a.name := a];
        assert list[..i + 1][..i] == list[..i];
        i := i + 1;
      }
      assert list[..i] == list;
      return None;
    }

    /**
     * The archivers loop of loadConfig (config.go:66-72): compile each
     * regular expression and append the archiver, stopping at the first that
     * does not compile.
     */
    method LoadArchivers(list: seq<Archiver>, compiles: string -> bool) returns (bad: Option<nat>)
      requires archivers == []
      modifies this`archivers
      ensures bad == FirstBadRegexp(list, compiles)
      ensures archivers == if bad.Some? then list[..bad.value] else list
    {
      var j := 0;
      while j < |list|
        invariant 0 <= j <= |list|
        invariant forall k :: 0 <= k < j ==> compiles(list[k].regexp)
        invariant archivers == list[..j]
      {
        var a := list[j];
        if !compiles(a.regexp) {
          return Some(j);
        }
        archivers := archivers + [a];
        assert list[..j + 1] == list[..j] + [a];
        j := j + 1;
      }
      assert list[..j] == list;
      return None;
    }

    /**
     * initDB (db.go:60-71). `openOk` says whether sql.Open succeeded and
     * `stored` is what the database file already holds; `migrated` whether
     * the migrations then ran to the latest version.
     */
    method InitDB(openOk: bool, stored: seq<Row>, migrated: bool) returns (err: Option<DbError>)
      requires UniqueIds(stored)
      modifies this
      ensures dbPath == "" ==> err == Some(EmptyPath) && db == old(db)
      ensures dbPath != "" && !openOk ==> err == Some(OpenFailed) && db == null
      ensures dbPath != "" && openOk ==>
        db != null && fresh(db) && db.Valid() && db.rows == stored &&
        err == if migrated then None else Some(MigrationFailed)
      ensures archivers == old(archivers) && archives == old(archives)
      ensures dbPath == old(dbPath) && port == old(port)
    {
      if dbPath == "" {
        return Some(EmptyPath);
      }
      if !openOk {
        db := null;
        return Some(OpenFailed);
      }
      db := new Table(stored);
      if !migrated {
        return Some(MigrationFailed);
      }
      return None;
    }

    /**
     * archive (archive.go:77-125): run the first archiver whose regular
     * expression matches `url` with the arguments (url, storage/id), then
     * fingerprint, deduplicate and record. `cap` is what the script did,
     * `matches` the regular-expression engine and `now` what newTimestamp
     * returns.
     */
    method Archive(arc: Archive, url: string, id: string, cap: Capture, matches: (string, string) -> bool,
                   md5: Bytes -> string, now: Timestamp, disk: Disk)
      returns (invoked: Option<Invocation>)
      requires db != null && db.Valid()
      modifies db, disk
      ensures db.Valid()
      ensures Store(db.rows, disk.files) ==
              Ingest(old(Store(db.rows, disk.files)), archivers, matches, md5, arc, url, id, cap, now)
      ensures invoked == match Dispatch(archivers, matches, url)
                         case None => None
                         case Some(k) => Some(Invocation(archivers[k].script, url, Output(arc, id)))
      ensures old(Consistent(Store(db.rows, disk.files), archives, md5)) &&
              arc.name in archives && archives[arc.name] == arc &&
              id != "" && Output(arc, id) !in old(disk.files)
              ==> Consistent(Store(db.rows, disk.files), archives, md5)
    {
      ghost var s0 := Store(db.rows, disk.files);
      if Consistent(s0, archives, md5) && arc.name in archives && archives[arc.name] == arc &&
         id != "" && Output(arc, id) !in s0.files {
        IngestKeepsConsistent(s0, archives, archivers, matches, md5, arc, url, id, cap, now);
      }
      var i := 0;
      while i < |archivers|
        invariant 0 <= i <= |archivers|
        invariant forall k :: 0 <= k < i ==> !matches(archivers[k].regexp, url)
        invariant db.rows == s0.rows && disk.files == s0.files && db.Valid()
      {
        if matches(archivers[i].regexp, url) {
          assert Dispatch(archivers, matches, url) == Some(i);
          var inv := RunArchiver(archivers[i], arc, url, id, cap, md5, now, disk);
          return Some(inv);
        }
        i := i + 1;
      }
      return None;
    }

    /**
     * The body of archive once archiver `ar` matched (archive.go:83-122):
     * run its script on (url, storage/id), take the md5 sum of the output,
     * link to the file already stored under that sum in this archive (and
     * remove the new copy) or keep the new file, then insert the row.
     */
    method RunArchiver(ar: Archiver, arc: Archive, url: string, id: string, cap: Capture,
                       md5: Bytes -> string, now: Timestamp, disk: Disk)
      returns (invoked: Invocation)
      requires db != null && db.Valid()
      modifies db, disk
      ensures db.Valid()
      ensures Store(db.rows, disk.files) == Record(old(Store(db.rows, disk.files)), md5, arc, url, id, cap, now)
      ensures invoked == Invocation(ar.script, url, Output(arc, id))
    {
      var file := Output(arc, id);
      invoked := Invocation(ar.script, url, file);
      if cap.written.Some? {
        disk.files := disk.files[file := cap.written.value];
      }
      if !cap.exitOk {
        return;
      }
      if file !in disk.files {
        // md5sum cannot open the output
        return;
      }
      var sum := md5(disk.files[file]);
      var fileID := FileIDByMD5Sum(db.rows, arc.name, sum);
      if fileID == "" {
        fileID := id;
      } else {
        disk.files := disk.files - {file};
      }
      var _ := db.AddToArchive(id, fileID, arc.name, url, sum, now);
    }
  }
}
