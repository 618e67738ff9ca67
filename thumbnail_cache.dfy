/**
 * `ThumbnailCache`: the persistent per-source table of decoded thumbnails.
 * The database file holds one table, `Thumbs(Time, Data, Width, Height,
 * Stride)`, with `Time` as primary key. The table is modelled as its sequence
 * of rows; SQL statements become functions on that sequence, and the
 * primary-key constraint becomes the invariant `UniqueTimes`.
 */
module ThumbCache {
  import opened Wrappers
  import opened ContentAddress

  /** A decoded RGB frame as the pixbuf library hands it over. */
  datatype Pixbuf = Pixbuf(pixels: seq<byte>, width: int, height: int, rowstride: int)

  /** One row of the `Thumbs` table. */
  datatype Row = Row(time: int, data: seq<byte>, width: int, height: int, stride: int)

  /** `sqlite3.IntegrityError`: an INSERT whose primary key is already taken. */
  datatype DbError = IntegrityError(time: int)

  /** Python's `KeyError(key)` raised by a lookup that misses. */
  datatype KeyError = KeyError(key: int)

  /** The primary-key constraint: no two rows share a `Time`. */
  predicate UniqueTimes(rows: seq<Row>)
  {
    forall i, j :: 0 <= i < j < |rows| ==> rows[i].time != rows[j].time
  }

  /** `SELECT * FROM Thumbs WHERE Time = ?` followed by `fetchone()`. */
  function SelectTime(rows: seq<Row>, key: int): (r: Option<Row>)
    ensures r.Some? ==> r.value.time == key && r.value in rows
    ensures r.None? <==> forall i :: 0 <= i < |rows| ==> rows[i].time != key
  {
    if rows == [] then None
    else if rows[0].time == key then Some(rows[0])
    else SelectTime(rows[1..], key)
  }

  /** `DELETE FROM Thumbs WHERE time = ?`: every row with that time goes, the rest stay in order. */
  function DeleteTime(rows: seq<Row>, key: int): (r: seq<Row>)
    ensures forall i :: 0 <= i < |r| ==> r[i].time != key && r[i] in rows
    ensures forall i :: 0 <= i < |rows| && rows[i].time != key ==> rows[i] in r
    ensures |r| <= |rows|
  {
    if rows == [] then []
    else if rows[0].time == key then DeleteTime(rows[1..], key)
    else [rows[0]] + DeleteTime(rows[1..], key)
  }

  /** `INSERT INTO Thumbs VALUES (?,?,?,?,?)`, refused when the primary key is taken. */
  function InsertRow(rows: seq<Row>, row: Row): (r: Result<seq<Row>, DbError>)
    ensures r.Success? <==> forall i :: 0 <= i < |rows| ==> rows[i].time != row.time
    ensures r.Success? ==> r.value == rows + [row] && (UniqueTimes(rows) ==> UniqueTimes(r.value))
    ensures r.Failure? ==> r.error == IntegrityError(row.time)
  {
    if SelectTime(rows, row.time).Some? then Failure(IntegrityError(row.time))
    else Success(rows + [row])
  }

  /** The row `__setitem__` writes for a pixbuf. */
  function RowOf(key: int, value: Pixbuf): Row
  {
    Row(key, value.pixels, value.width, value.height, value.rowstride)
  }

  /** `GdkPixbuf.Pixbuf.new_from_data(Data, RGB, False, 8, Width, Height, Stride)`. */
  function PixbufOf(row: Row): Pixbuf
  {
    Pixbuf(row.data, row.width, row.height, row.stride)
  }

  /** The frame stored for `key`, rebuilt from its row, or `KeyError(key)`. */
  function Lookup(rows: seq<Row>, key: int): (r: Result<Pixbuf, KeyError>)
    ensures r.Success? <==> exists i :: 0 <= i < |rows| && rows[i].time == key
    ensures r.Success? ==> exists i :: 0 <= i < |rows| && rows[i].time == key && r.value == PixbufOf(rows[i])
    ensures r.Failure? ==> r.error == KeyError(key)
  {
    match SelectTime(rows, key)
    case Some(row) => Success(PixbufOf(row))
    case None => Failure(KeyError(key))
  }

  /** After the DELETE, the INSERT of the same key can never hit the primary-key constraint. */
  lemma DeleteThenInsertSucceeds(rows: seq<Row>, row: Row)
    ensures InsertRow(DeleteTime(rows, row.time), row).Success?
  {
  }

  /** `__setitem__`: delete then insert. */
  function UpsertRows(rows: seq<Row>, key: int, value: Pixbuf): (r: seq<Row>)
    ensures 0 < |r| <= |rows| + 1 && r[|r| - 1] == RowOf(key, value)
    ensures forall i :: 0 <= i < |r| - 1 ==> r[i].time != key && r[i] in rows
  {
    DeleteThenInsertSucceeds(rows, RowOf(key, value));
    InsertRow(DeleteTime(rows, key), RowOf(key, value)).value
  }

  /** The largest `Time` of a non-empty table. */
  function MaxTime(rows: seq<Row>): (m: int)
    requires rows != []
    ensures forall i :: 0 <= i < |rows| ==> rows[i].time <= m
    ensures exists i :: 0 <= i < |rows| && rows[i].time == m
  {
    if |rows| == 1 then rows[0].time
    else
      var rest := MaxTime(rows[1..]);
      if rows[0].time >= rest then rows[0].time else rest
  }

  /**
   * The `Time` SQLite gives a row inserted with a NULL key: `Time` is an
   * `INTEGER PRIMARY KEY`, an alias of the rowid, so the engine picks 1 on an
   * empty table and otherwise one past the largest `Time`.
   */
  function AutoTime(rows: seq<Row>): (t: int)
    ensures SelectTime(rows, t).None?
    ensures rows == [] ==> t == 1
    ensures forall i :: 0 <= i < |rows| ==> rows[i].time < t
  {
    if rows == [] then 1 else MaxTime(rows) + 1
  }

  /** Deleting a key no row has leaves the table as it was. */
  lemma {:induction false} DeleteAbsent(rows: seq<Row>, key: int)
    requires SelectTime(rows, key).None?
    ensures DeleteTime(rows, key) == rows
  {
    if rows != [] {
      DeleteAbsent(rows[1..], key);
      assert [rows[0]] + rows[1..] == rows;
    }
  }

  /** Upserting a key no row has appends its row and touches nothing else. */
  lemma UpsertAbsentAppends(rows: seq<Row>, key: int, value: Pixbuf)
    requires SelectTime(rows, key).None?
    ensures UpsertRows(rows, key, value) == rows + [RowOf(key, value)]
  {
    DeleteAbsent(rows, key);
  }

  lemma {:induction false} SelectAfterDelete(rows: seq<Row>, key: int, k: int)
    ensures SelectTime(DeleteTime(rows, key), k) == if k == key then None else SelectTime(rows, k)
  {
    if rows != [] {
      SelectAfterDelete(rows[1..], key, k);
      if rows[0].time != key {
        assert ([rows[0]] + DeleteTime(rows[1..], key))[1..] == DeleteTime(rows[1..], key);
      }
    }
  }

  lemma {:induction false} SelectAfterAppend(rows: seq<Row>, row: Row, k: int)
    ensures SelectTime(rows + [row], k) ==
      if SelectTime(rows, k).Some? then SelectTime(rows, k)
      else if row.time == k then Some(row) else None
  {
    if rows != [] {
      assert (rows + [row])[1..] == rows[1..] + [row];
      SelectAfterAppend(rows[1..], row, k);
    }
  }

  /** After an upsert the key finds the new row and every other key finds what it found before. */
  lemma SelectAfterUpsert(rows: seq<Row>, key: int, value: Pixbuf, k: int)
    ensures SelectTime(UpsertRows(rows, key, value), k) ==
      if k == key then Some(RowOf(key, value)) else SelectTime(rows, k)
  {
    SelectAfterDelete(rows, key, k);
    SelectAfterAppend(DeleteTime(rows, key), RowOf(key, value), k);
  }

  lemma {:induction false} DeleteKeepsUnique(rows: seq<Row>, key: int)
    requires UniqueTimes(rows)
    ensures UniqueTimes(DeleteTime(rows, key))
  {
    if rows != [] {
      DeleteKeepsUnique(rows[1..], key);
      var rest := DeleteTime(rows[1..], key);
      if rows[0].time != key {
        var r := [rows[0]] + rest;
        forall i, j | 0 <= i < j < |r| ensures r[i].time != r[j].time {
          if i == 0 {
            assert r[j] == rest[j - 1] && r[j] in rows[1..];
          } else {
            assert r[i] == rest[i - 1] && r[j] == rest[j - 1];
          }
        }
      }
    }
  }

  /** The upsert keeps at most one row per `Time`, and the key it writes has exactly one. */
  lemma UpsertKeepsUnique(rows: seq<Row>, key: int, value: Pixbuf)
    requires UniqueTimes(rows)
    ensures UniqueTimes(UpsertRows(rows, key, value))
    ensures SelectTime(UpsertRows(rows, key, value), key).Some?
  {
    DeleteKeepsUnique(rows, key);
    SelectAfterUpsert(rows, key, value, key);
  }

  class ThumbnailCache {
    /** The source file's content address, which names the database file. */
    var hash: Digest
    /** The rows of the `Thumbs` table. */
    var rows: seq<Row>

    ghost predicate Valid()
      reads this
    {
      UniqueTimes(rows)
    }

    /**
     * Hashes the source file and opens (or creates) the database named by the
     * hash in the thumbnail directory `disk`; an existing table keeps its rows.
     */
    constructor (source: seq<byte>, disk: map<Digest, seq<Row>>)
      requires forall d :: d in disk ==> UniqueTimes(disk[d])
      ensures Valid()
      ensures hash == PrefixDigest(source)
      ensures rows == if hash in disk then disk[hash] else []
    {
      var h := HashFile(source);
      hash := h;
      rows := if h in disk then disk[h] else [];
    }

    /** `__contains__`: whether a row with that `Time` exists. */
    function Contains(key: int): (b: bool)
      reads this
      ensures b <==> exists i :: 0 <= i < |rows| && rows[i].time == key
    {
      SelectTime(rows, key).Some?
    }

    /** `__getitem__`: the stored frame for `key`, or `KeyError(key)`. */
    function Get(key: int): (r: Result<Pixbuf, KeyError>)
      reads this
      ensures r.Success? <==> Contains(key)
      ensures r.Success? ==> exists i :: 0 <= i < |rows| && rows[i].time == key && r.value == PixbufOf(rows[i])
      ensures r.Failure? ==> r.error == KeyError(key)
    {
      Lookup(rows, key)
    }

    /** `__setitem__`: replace any row for `key` by one holding `value`, then commit. */
    method Set(key: int, value: Pixbuf)
      requires Valid()
      modifies this
      ensures Valid()
      ensures hash == old(hash)
      ensures rows == UpsertRows(old(rows), key, value)
      ensures Contains(key) && Get(key) == Success(value)
      ensures forall k :: k != key ==> Get(k) == old(Get(k))
    {
      var deleted := DeleteTime(rows, key);
      DeleteThenInsertSucceeds(rows, RowOf(key, value));
      var inserted := InsertRow(deleted, RowOf(key, value));
      rows := inserted.value;
      UpsertKeepsUnique(old(rows), key, value);
      SelectAfterUpsert(old(rows), key, value, key);
      forall k | k != key ensures Get(k) == old(Get(k)) {
        SelectAfterUpsert(old(rows), key, value, k);
      }
    }
  }
}
