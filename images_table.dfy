/** The `images` table of app.py (`id INTEGER PRIMARY KEY AUTOINCREMENT`,
    `filename TEXT NOT NULL`, `detections TEXT`), held as its rows in rowid order,
    which is the order a full scan returns them in. The statements the handlers
    run on it are functions on that sequence; `Table` is the id-to-row view that
    the properties speak about. */
module ImagesTable {
  import opened Optional
  import opened Detections

  /** The largest rowid SQLite hands out: an AUTOINCREMENT insert after it fails.
      It is also the largest value of SQLite's 64-bit INTEGER. */
  const MAX_ROWID: int := 0x7FFF_FFFF_FFFF_FFFF

  /** The smallest value of SQLite's 64-bit INTEGER. */
  const MIN_INTEGER: int := -0x8000_0000_0000_0000

  /** The integers a statement parameter can take: Python's sqlite3 raises
      OverflowError when binding any other. Every rowid is one of them. */
  predicate InIntegerRange(id: int)
  {
    MIN_INTEGER <= id <= MAX_ROWID
  }

  /** The non-key columns of a row. */
  datatype Image = Image(filename: string, detections: StoredDetections)

  /** One row of the table. */
  datatype Row = Row(id: int, image: Image)

  /** The rows are kept in strictly increasing id order, so no id occurs twice. */
  predicate Ascending(rows: seq<Row>)
  {
    forall i, j :: 0 <= i < j < |rows| ==> rows[i].id < rows[j].id
  }

  /** The table as a map from id to row contents. */
  function Table(rows: seq<Row>): (table: map<int, Image>)
  {
    if rows == [] then map[]
    else Table(rows[..|rows| - 1])[rows[|rows| - 1].id := rows[|rows| - 1].image]
  }

  /** Appending a row adds, or overwrites, exactly that entry. */
  lemma TableAppend(rows: seq<Row>, row: Row)
    ensures Table(rows + [row]) == Table(rows)[row.id := row.image]
  {
    assert (rows + [row])[..|rows|] == rows;
  }

  /** The keys of the map are the ids of the rows, and in an ascending table each
      row's contents are found under its id. */
  lemma {:induction false} TableRows(rows: seq<Row>)
    ensures forall i :: 0 <= i < |rows| ==> rows[i].id in Table(rows)
    ensures forall id :: id in Table(rows) ==> exists i :: 0 <= i < |rows| && rows[i].id == id
    ensures Ascending(rows) ==> forall i :: 0 <= i < |rows| ==> Table(rows)[rows[i].id] == rows[i].image
  {
    if rows != [] {
      var init := rows[..|rows| - 1];
      TableRows(init);
      assert forall i :: 0 <= i < |init| ==> init[i] == rows[i];
    }
  }

  /** Each row of an ascending table is one entry of the map. */
  lemma {:induction false} TableSize(rows: seq<Row>)
    requires Ascending(rows)
    ensures |Table(rows)| == |rows|
  {
    if rows != [] {
      var init := rows[..|rows| - 1];
      TableSize(init);
      TableRows(init);
    }
  }

  /** `SELECT filename FROM images WHERE id=?` followed by `fetchone()`. */
  function Select(rows: seq<Row>, id: int): (r: Option<Image>)
    ensures r.None? <==> id !in Table(rows)
    ensures r.Some? ==> r.value == Table(rows)[id]
  {
    if rows == [] then None
    else if rows[|rows| - 1].id == id then Some(rows[|rows| - 1].image)
    else Select(rows[..|rows| - 1], id)
  }

  /** `DELETE FROM images WHERE id=?`. */
  function DeleteWhere(rows: seq<Row>, id: int): (r: seq<Row>)
    ensures Table(r) == Table(rows) - {id}
    ensures forall x :: x in r ==> x in rows
    ensures Ascending(rows) ==> Ascending(r)
  {
    if rows == [] then []
    else
      var kept := DeleteWhere(rows[..|rows| - 1], id);
      DeleteLastTable(rows, id, kept);
      DeleteLastAscending(rows, id, kept);
      if rows[|rows| - 1].id == id then kept else kept + [rows[|rows| - 1]]
  }

  /** One step of DeleteWhere on the map view: the last row goes or stays. */
  lemma DeleteLastTable(rows: seq<Row>, id: int, kept: seq<Row>)
    requires rows != []
    requires Table(kept) == Table(rows[..|rows| - 1]) - {id}
    ensures var last := rows[|rows| - 1];
      Table(if last.id == id then kept else kept + [last]) == Table(rows) - {id}
  {
    var last := rows[|rows| - 1];
    if last.id != id {
      TableAppend(kept, last);
    }
  }

  /** One step of DeleteWhere on the order: rows kept from an ascending prefix all
      come before the last row. */
  lemma DeleteLastAscending(rows: seq<Row>, id: int, kept: seq<Row>)
    requires rows != []
    requires forall x :: x in kept ==> x in rows[..|rows| - 1]
    requires Ascending(rows[..|rows| - 1]) ==> Ascending(kept)
    ensures var last := rows[|rows| - 1];
      var r := if last.id == id then kept else kept + [last];
      && (forall x :: x in r ==> x in rows)
      && (Ascending(rows) ==> Ascending(r))
  {
    var init := rows[..|rows| - 1];
    var last := rows[|rows| - 1];
    assert rows == init + [last];
    if Ascending(rows) {
      assert Ascending(init);
      forall x | x in kept ensures x.id < last.id {
        var i :| 0 <= i < |init| && init[i] == x;
        assert rows[i] == x;
      }
    }
  }

  /** `UPDATE images SET filename=?, detections=? WHERE id=?`: rows keep their
      place and their id. */
  function UpdateWhere(rows: seq<Row>, id: int, image: Image): (r: seq<Row>)
    ensures |r| == |rows|
    ensures forall i :: 0 <= i < |rows| ==> r[i].id == rows[i].id
    ensures Table(r) == if id in Table(rows) then Table(rows)[id := image] else Table(rows)
  {
    if rows == [] then []
    else
      var init := rows[..|rows| - 1];
      var last := rows[|rows| - 1];
      var updated := UpdateWhere(init, id, image);
      var row := if last.id == id then Row(id, image) else last;
      assert rows == init + [last];
      TableAppend(init, last);
      TableAppend(updated, row);
      updated + [row]
  }
}
