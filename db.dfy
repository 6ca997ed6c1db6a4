/**
 * The metadata table `archive_item` (db.go) and its three queries.
 *
 * The SQLite database is modelled as the sequence of its rows in insertion
 * order. The schema's migrations only create and reshape this one table, so
 * the model keeps the table the last migration leaves: a primary key `id`,
 * `file_id`, `archive`, `url`, `md5sum`, an optional `deleted_at` (never set
 * by the server) and `created_at`.
 */
module Db {
  import opened Wrappers

  /** `newTimestamp()` is outside this model; a timestamp is opaque text. */
  type Timestamp = string

  datatype Row = Row(
    id: string,
    fileID: string,
    archive: string,
    url: string,
    md5sum: string,
    deletedAt: Option<Timestamp>,
    createdAt: Timestamp)

  /** Every query filters on `deleted_at IS NULL`. */
  predicate Visible(r: Row) {
    r.deletedAt.None?
  }

  /** The two SELECTs of db.go: by (archive, id) and by (archive, md5sum). */
  datatype Query = ById(archive: string, id: string) | ByMD5Sum(archive: string, md5sum: string)

  /** The WHERE clause of a query. */
  predicate Selects(q: Query, r: Row) {
    && Visible(r)
    && r.archive == q.archive
    && match q
       case ById(_, id) => r.id == id
       case ByMD5Sum(_, sum) => r.md5sum == sum
  }

  /**
   * The row `QueryRow` returns: SQLite answers a query without ORDER BY in
   * an unspecified order; the model takes the earliest-inserted match.
   * Under the invariants below every match carries the same file id, so the
   * choice does not show.
   */
  function FirstMatch(rows: seq<Row>, q: Query): (k: Option<nat>)
    ensures k.Some? ==> k.value < |rows| && Selects(q, rows[k.value])
    ensures k.Some? ==> forall i :: 0 <= i < k.value ==> !Selects(q, rows[i])
    ensures k.None? <==> forall i :: 0 <= i < |rows| ==> !Selects(q, rows[i])
  {
    if |rows| == 0 then None
    else if Selects(q, rows[0]) then Some(0)
    else match FirstMatch(rows[1..], q)
      case None => None
      case Some(k) => Some(k + 1)
  }

  /** `QueryRow(...).Scan(&fileID)`: the file id found, or "" when nothing matched. */
  function ScanFileID(rows: seq<Row>, q: Query): (fileID: string)
  {
    match FirstMatch(rows, q)
    case None => ""
    case Some(k) => rows[k].fileID
  }

  /** No two rows share an id: `id` is the table's primary key, across all archives. */
  predicate UniqueIds(rows: seq<Row>) {
    forall i, j :: 0 <= i < |rows| && 0 <= j < |rows| && rows[i].id == rows[j].id ==> i == j
  }

  /** Whether a row with this id exists, visible or not (the key ignores deleted_at). */
  predicate IdTaken(rows: seq<Row>, id: string) {
    exists i :: 0 <= i < |rows| && rows[i].id == id
  }

  /** Visible rows of one archive with one md5sum all name the same file. */
  predicate OneFilePerFingerprint(rows: seq<Row>) {
    forall i, j ::
      0 <= i < |rows| && 0 <= j < |rows| &&
      Visible(rows[i]) && Visible(rows[j]) &&
      rows[i].archive == rows[j].archive && rows[i].md5sum == rows[j].md5sum
      ==> rows[i].fileID == rows[j].fileID
  }

  /** getFileIDByID (db.go:75-83). */
  function FileIDByID(rows: seq<Row>, name: string, id: string): (fileID: string)
    ensures fileID != "" ==>
      exists i :: 0 <= i < |rows| && Selects(ById(name, id), rows[i]) && rows[i].fileID == fileID
    ensures (forall i :: 0 <= i < |rows| ==> !Selects(ById(name, id), rows[i])) ==> fileID == ""
    ensures UniqueIds(rows) ==>
      forall i :: 0 <= i < |rows| && Selects(ById(name, id), rows[i]) ==> fileID == rows[i].fileID
  {
    ScanFileID(rows, ById(name, id))
  }

  /** getFileIDByMD5Sum (db.go:87-95). */
  function FileIDByMD5Sum(rows: seq<Row>, name: string, md5sum: string): (fileID: string)
    ensures fileID != "" ==>
      exists i :: 0 <= i < |rows| && Selects(ByMD5Sum(name, md5sum), rows[i]) && rows[i].fileID == fileID
    ensures (forall i :: 0 <= i < |rows| ==> !Selects(ByMD5Sum(name, md5sum), rows[i])) ==> fileID == ""
    ensures OneFilePerFingerprint(rows) ==>
      forall i :: 0 <= i < |rows| && Selects(ByMD5Sum(name, md5sum), rows[i]) ==> fileID == rows[i].fileID
  {
    ScanFileID(rows, ByMD5Sum(name, md5sum))
  }

  /**
   * The INSERT of addToArchive: the new table, or None when the primary key
   * is already taken (the driver's constraint error).
   */
  function Insert(rows: seq<Row>, row: Row): (r: Option<seq<Row>>)
    ensures r.None? <==> IdTaken(rows, row.id)
    ensures r.Some? ==> |r.value| == |rows| + 1 && r.value[..|rows|] == rows && r.value[|rows|] == row
    ensures r.Some? && UniqueIds(rows) ==> UniqueIds(r.value)
  {
    if IdTaken(rows, row.id) then None else Some(rows + [row])
  }

  /** Appending a row of another archive leaves every lookup on this archive as it was. */
  lemma {:induction false} LookupIgnoresOtherArchives(rows: seq<Row>, row: Row, q: Query)
    requires row.archive != q.archive
    ensures ScanFileID(rows + [row], q) == ScanFileID(rows, q)
  {
    FirstMatchAppend(rows, row, q);
  }

  /** How the first match moves when a row is appended. */
  lemma {:induction false} FirstMatchAppend(rows: seq<Row>, row: Row, q: Query)
    ensures FirstMatch(rows + [row], q) ==
      if FirstMatch(rows, q).Some? then FirstMatch(rows, q)
      else if Selects(q, row) then Some(|rows|)
      else None
  {
    if |rows| > 0 {
      assert (rows + [row])[1..] == rows[1..] + [row];
      FirstMatchAppend(rows[1..], row, q);
    }
  }

  /** After a successful insert, looking the new id up gives the file id inserted. */
  lemma InsertThenLookup(rows: seq<Row>, row: Row)
    requires Visible(row) && Insert(rows, row).Some?
    ensures FileIDByID(Insert(rows, row).value, row.archive, row.id) == row.fileID
  {
    var rows' := Insert(rows, row).value;
    FirstMatchAppend(rows, row, ById(row.archive, row.id));
    assert rows' == rows + [row];
  }

  /**
   * The table object: `app.db`. Its one mutating operation is the INSERT
   * performed by addToArchive.
   */
  class Table {
    var rows: seq<Row>

    /** SQLite enforces the primary key on every table state. */
    ghost predicate Valid()
      reads this
    {
      UniqueIds(rows)
    }

    /** Opening a database file that already holds `stored`. */
    constructor (stored: seq<Row>)
      requires UniqueIds(stored)
      ensures Valid() && rows == stored
    {
      rows := stored;
    }

    /**
     * addToArchive (db.go:98-115): append one row with no deleted_at, or
     * fail on a taken id and leave the table as it was.
     */
    method AddToArchive(id: string, fileID: string, name: string, url: string, md5sum: string, now: Timestamp)
      returns (ok: bool)
      requires Valid()
      modifies this
      ensures Valid()
      ensures ok <==> !IdTaken(old(rows), id)
      ensures ok ==> rows == old(rows) + [Row(id, fileID, name, url, md5sum, None, now)]
      ensures !ok ==> rows == old(rows)
    {
      var inserted := Insert(rows, Row(id, fileID, name, url, md5sum, None, now));
      ok := inserted.Some?;
      if ok {
        rows := inserted.value;
      }
    }
  }
}
