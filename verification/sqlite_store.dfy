/** The SQLite side of a fetch (`save_to_sqlite`): make sure a `posts` table with
    `objectID TEXT PRIMARY KEY` exists, then `INSERT OR REPLACE` the batch. Rows
    are listed in rowid order: a replacing insert deletes the prior row and appends
    the new one at the end. A table without the key constraint (one written back
    by a frame-to-table dump) accepts every insert as a new row. */
module SqliteStore {
  import opened Base
  import opened Posts
  import opened Dedup

  /** The `posts` table: whether `objectID` is its primary key, whether the
      `objectID` and `created_at` columns exist, and the rows in rowid order. */
  datatype Table = Table(hasPK: bool, hasObjectID: bool, hasCreatedAt: bool, rows: seq<Row>)

  /** A database file; `posts` is `None` while it has no `posts` table. */
  datatype DbFile = DbFile(posts: Option<Table>)

  /** The result of a save: the new database, or an SQL error that aborts the run
      before anything is committed. */
  datatype Saved = Saved(db: DbFile) | SqlError

  /** The table the `CREATE TABLE IF NOT EXISTS` statement makes. */
  const FreshPosts: Table := Table(true, true, true, [])

  /** `INSERT OR REPLACE` of one row into a keyed table: any row with the same key
      is deleted, the new row goes last. */
  function ReplaceInto(rows: seq<Row>, x: Row): (r: seq<Row>)
    ensures |r| > 0 && r[|r| - 1] == x
    ensures forall i :: 0 <= i < |r| - 1 ==> RowKey(r[i]) != RowKey(x)
  {
    var kept := DropKeys(rows, RowKey, {RowKey(x)});
    DropKeysMembers(rows, RowKey, {RowKey(x)});
    assert forall i :: 0 <= i < |kept| ==> kept[i] in kept;
    kept + [x]
  }

  /** The `INSERT ... SELECT` over the batch, one row after the other. */
  function UpsertRows(rows: seq<Row>, batch: seq<Row>): (r: seq<Row>)
    ensures |batch| > 0 ==> |r| > 0 && r[|r| - 1] == batch[|batch| - 1]
    decreases |batch|
  {
    if |batch| == 0 then rows
    else UpsertRows(ReplaceInto(rows, batch[0]), batch[1..])
  }

  /** The row-by-row upsert in closed form: the prior rows whose key the batch does
      not touch, in their order, followed by the last row of the batch for each of
      its keys. */
  lemma {:induction false} UpsertRowsClosedForm(rows: seq<Row>, batch: seq<Row>)
    ensures UpsertRows(rows, batch)
         == DropKeys(rows, RowKey, Keys(batch, RowKey)) + DedupKeepLast(batch, RowKey)
    decreases |batch|
  {
    if |batch| == 0 {
      DropKeysNone(rows, RowKey);
    } else {
      var x := batch[0];
      var t := batch[1..];
      var d1x := ReplaceInto(rows, x);
      UpsertRowsClosedForm(d1x, t);
      assert batch == [x] + t;
      UpsertStep(rows, x, t, d1x, UpsertRows(d1x, t));
    }
  }

  /** The inductive step of `UpsertRowsClosedForm`: one more row in front of the batch. */
  lemma UpsertStep(rows: seq<Row>, x: Row, t: seq<Row>, d1x: seq<Row>, rest: seq<Row>)
    requires d1x == DropKeys(rows, RowKey, {RowKey(x)}) + [x]
    requires rest == DropKeys(d1x, RowKey, Keys(t, RowKey)) + DedupKeepLast(t, RowKey)
    ensures rest == DropKeys(rows, RowKey, Keys([x] + t, RowKey)) + DedupKeepLast([x] + t, RowKey)
  {
    var a := DropKeys(rows, RowKey, Keys([x] + t, RowKey));
    var d := DropKeys([x], RowKey, Keys(t, RowKey));
    var dt := DedupKeepLast(t, RowKey);
    assert rest == (a + d) + dt by {
      ReplaceThenDrop(rows, x, t, d1x);
    }
    assert d + dt == DedupKeepLast([x] + t, RowKey) by {
      DedupConsAsDrop(x, t);
    }
    SeqAssoc(a, d, dt);
  }

  /** Dropping the rest of the batch's keys after replacing `x`. */
  lemma ReplaceThenDrop(rows: seq<Row>, x: Row, t: seq<Row>, d1x: seq<Row>)
    requires d1x == DropKeys(rows, RowKey, {RowKey(x)}) + [x]
    ensures DropKeys(d1x, RowKey, Keys(t, RowKey))
         == DropKeys(rows, RowKey, Keys([x] + t, RowKey)) + DropKeys([x], RowKey, Keys(t, RowKey))
  {
    var kx: set<string> := {RowKey(x)};
    var kt := Keys(t, RowKey);
    DropKeysAppend(DropKeys(rows, RowKey, kx), [x], RowKey, kt);
    DropKeysTwice(rows, RowKey, kx, kt);
    KeysCons(x, t, RowKey);
  }

  /** Deduplicating `[x] + t`: `x` survives exactly when `t` lacks its key. */
  lemma DedupConsAsDrop(x: Row, t: seq<Row>)
    ensures DropKeys([x], RowKey, Keys(t, RowKey)) + DedupKeepLast(t, RowKey) == DedupKeepLast([x] + t, RowKey)
  {
    DedupCons(x, t, RowKey);
    assert [x][1..] == [];
    if RowKey(x) !in Keys(t, RowKey) {
      assert DropKeys([x], RowKey, Keys(t, RowKey)) == [x];
    }
  }

  /** The inserts into the table as it stands. */
  function Upsert(t: Table, batch: seq<Row>): (r: Table)
    ensures r.hasPK == t.hasPK && r.hasObjectID == t.hasObjectID && r.hasCreatedAt == t.hasCreatedAt
    ensures !t.hasPK ==> r.rows == t.rows + batch
    ensures |r.rows| <= |t.rows| + |batch|
  {
    if t.hasPK then
      UpsertRowsClosedForm(t.rows, batch);
      t.(rows := UpsertRows(t.rows, batch))
    else t.(rows := t.rows + batch)
  }

  /** `save_to_sqlite`: connecting creates a missing file, the `CREATE TABLE IF NOT
      EXISTS` creates a missing table, and the insert names the `objectID` and
      `created_at` columns, so a table lacking either makes it fail. */
  function SaveToSqlite(db: Option<DbFile>, batch: seq<Row>): (r: Saved)
    ensures r.SqlError? <==> db.Some? && db.value.posts.Some?
                             && !(db.value.posts.value.hasObjectID && db.value.posts.value.hasCreatedAt)
    ensures r.Saved? ==> r.db.posts.Some?
  {
    var posts := PostsBefore(db);
    if !posts.hasObjectID || !posts.hasCreatedAt then SqlError
    else Saved(DbFile(Some(Upsert(posts, batch))))
  }

  /** The table a save starts from. */
  function PostsBefore(db: Option<DbFile>): Table {
    if db.None? || db.value.posts.None? then FreshPosts else db.value.posts.value
  }

  /** With the key in place, the save is an upsert by `objectID` text: the prior rows
      the batch does not touch keep their order, then the batch's last row for each
      of its keys. */
  lemma SaveUpserts(db: Option<DbFile>, batch: seq<Row>)
    requires SaveToSqlite(db, batch).Saved? && PostsBefore(db).hasPK
    ensures SaveToSqlite(db, batch).db.posts.value.rows
         == DropKeys(PostsBefore(db).rows, RowKey, Keys(batch, RowKey)) + DedupKeepLast(batch, RowKey)
  {
    UpsertRowsClosedForm(PostsBefore(db).rows, batch);
  }

  /** With the key in place, no two rows share an `objectID` after a save,
      provided none did before. */
  lemma SaveKeepsKeysUnique(db: Option<DbFile>, batch: seq<Row>)
    requires SaveToSqlite(db, batch).Saved? && PostsBefore(db).hasPK
    requires UniqueKeys(PostsBefore(db).rows, RowKey)
    ensures UniqueKeys(SaveToSqlite(db, batch).db.posts.value.rows, RowKey)
    ensures Keys(SaveToSqlite(db, batch).db.posts.value.rows, RowKey)
         == Keys(PostsBefore(db).rows, RowKey) + Keys(batch, RowKey)
  {
    var prior := PostsBefore(db).rows;
    var kb := Keys(batch, RowKey);
    SaveUpserts(db, batch);
    var kept := DropKeys(prior, RowKey, kb);
    var newer := DedupKeepLast(batch, RowKey);
    DropKeysUnique(prior, RowKey, kb);
    KeysAppend(kept, newer, RowKey);
    UniqueAppend(kept, newer, RowKey);
  }

  /** With the key in place, the table seen as a map from `objectID` is the prior
      map overridden by the batch, whose last row for a key wins. */
  lemma SaveMapView(db: Option<DbFile>, batch: seq<Row>)
    requires SaveToSqlite(db, batch).Saved? && PostsBefore(db).hasPK
    ensures LastByKey(SaveToSqlite(db, batch).db.posts.value.rows, RowKey)
         == LastByKey(PostsBefore(db).rows, RowKey) + LastByKey(batch, RowKey)
  {
    var prior := PostsBefore(db).rows;
    var kb := Keys(batch, RowKey);
    var kept := DropKeys(prior, RowKey, kb);
    var last := DedupKeepLast(batch, RowKey);
    SaveUpserts(db, batch);
    assert SaveToSqlite(db, batch).db.posts.value.rows == kept + last;
    LastByKeyAppend(kept, last, RowKey);
    DropKeysLastByKey(prior, RowKey, kb);
    DedupLastByKey(batch, RowKey);
    OverrideDropped(LastByKey(prior, RowKey), LastByKey(batch, RowKey), kb);
  }

  /** Dropping the keys an override replaces anyway changes nothing. */
  lemma OverrideDropped<K, V>(a: map<K, V>, b: map<K, V>, ks: set<K>)
    requires b.Keys == ks
    ensures (a - ks) + b == a + b
  {
  }

  /** With the key in place, saving the same batch twice is saving it once. */
  lemma SaveTwice(db: Option<DbFile>, batch: seq<Row>)
    requires SaveToSqlite(db, batch).Saved? && PostsBefore(db).hasPK
    ensures SaveToSqlite(Some(SaveToSqlite(db, batch).db), batch) == SaveToSqlite(db, batch)
  {
    var prior := PostsBefore(db).rows;
    var kb := Keys(batch, RowKey);
    var once := SaveToSqlite(db, batch).db;
    SaveUpserts(db, batch);
    SaveUpserts(Some(once), batch);
    DropKeysAgain(prior, DedupKeepLast(batch, RowKey), RowKey, kb);
  }

  /** Without the key, every save appends the whole batch: a row fetched again is
      stored a second time next to its prior copy. */
  lemma SaveWithoutKeyDuplicates(db: Option<DbFile>, batch: seq<Row>, x: Row)
    requires SaveToSqlite(db, batch).Saved? && !PostsBefore(db).hasPK
    requires x in PostsBefore(db).rows && RowKey(x) in Keys(batch, RowKey)
    ensures SaveToSqlite(db, batch).db.posts.value.rows == PostsBefore(db).rows + batch
    ensures !UniqueKeys(SaveToSqlite(db, batch).db.posts.value.rows, RowKey)
  {
    var rows := SaveToSqlite(db, batch).db.posts.value.rows;
    var prior := PostsBefore(db).rows;
    var i :| 0 <= i < |prior| && prior[i] == x;
    KeysMember(batch, RowKey, RowKey(x));
    var j :| 0 <= j < |batch| && RowKey(batch[j]) == RowKey(x);
    assert rows[i] == x && rows[|prior| + j] == batch[j];
  }

  /** A first save into a missing database keeps the batch's last row per key. */
  lemma SaveIntoNewDatabase(batch: seq<Row>)
    ensures SaveToSqlite(None, batch) == Saved(DbFile(Some(FreshPosts.(rows := DedupKeepLast(batch, RowKey)))))
  {
    UpsertRowsClosedForm([], batch);
    assert DropKeys([], RowKey, Keys(batch, RowKey)) == [];
    assert Upsert(FreshPosts, batch).rows == DedupKeepLast(batch, RowKey);
  }
}
