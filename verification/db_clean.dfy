/** `clean_db.py`: read the `posts` table, make every `objectID` text, drop
    duplicate ids keeping the last row, sort by the parsed `created_at` (by the id
    text when there is no such column), and write the frame back in place of the
    table. The timestamp parser is a parameter. */
module DbClean {
  import opened Base
  import opened Text
  import opened Posts
  import opened Dedup
  import opened Sorting
  import opened SqliteStore

  /** The exit status of the script and the database it leaves behind. */
  datatype Outcome = Outcome(exitCode: int, db: Option<DbFile>)

  /** The sort key of a row: its `created_at` parsed with errors coerced, so text
      that does not parse becomes `NaT`. `parse` returns `None` where parsing fails. */
  function TimeKey(parse: string -> Option<int>, r: Row): (k: SortKey)
    ensures !k.Str?
    ensures k.NotATime? <==> parse(r.createdAt).None?
    ensures k.Instant? ==> parse(r.createdAt) == Some(k.t)
  {
    match parse(r.createdAt)
    case Some(t) => Instant(t)
    case None => NotATime
  }

  /** The fallback sort key: the id text. */
  function IdKey(r: Row): SortKey {
    Str(RowKey(r))
  }

  /** The rows the script writes back: ids as text, one row per id (the last), sorted. */
  function CleanRows(t: Table, parse: string -> Option<int>): (rows: seq<Row>)
    ensures UniqueKeys(rows, RowKey)
    ensures Keys(rows, RowKey) == Keys(t.rows, RowKey)
    ensures forall i :: 0 <= i < |rows| ==> rows[i].id.TextId?
    ensures t.hasCreatedAt ==> SortedBy(rows, (r: Row) => TimeKey(parse, r))
    ensures !t.hasCreatedAt ==> SortedBy(rows, IdKey)
  {
    var d := DedupKeepLast(MapSeq(AsText, t.rows), RowKey);
    DedupTextIds(t.rows);
    var rows := if t.hasCreatedAt then SortBy(d, (r: Row) => TimeKey(parse, r)) else SortBy(d, IdKey);
    ReorderedTextRows(d, rows);
    rows
  }

  /** Deduplicating the rows with text ids keeps the id texts, and every id is text. */
  lemma DedupTextIds(rows: seq<Row>)
    ensures var d := DedupKeepLast(MapSeq(AsText, rows), RowKey);
      && Keys(d, RowKey) == Keys(rows, RowKey)
      && forall i :: 0 <= i < |d| ==> d[i].id.TextId?
  {
    var texts := MapSeq(AsText, rows);
    var d := DedupKeepLast(texts, RowKey);
    TextKeys(rows);
    DedupElementsFrom(texts, RowKey);
    forall i | 0 <= i < |d| ensures d[i].id.TextId? {
      var j := IndexOf(texts, d[i]);
    }
  }

  /** A reordering of key-unique rows with text ids is key-unique, has the same
      keys, and has text ids. */
  lemma ReorderedTextRows(d: seq<Row>, rows: seq<Row>)
    requires multiset(d) == multiset(rows) && UniqueKeys(d, RowKey)
    requires forall i :: 0 <= i < |d| ==> d[i].id.TextId?
    ensures UniqueKeys(rows, RowKey) && Keys(rows, RowKey) == Keys(d, RowKey)
    ensures forall i :: 0 <= i < |rows| ==> rows[i].id.TextId?
  {
    UniqueKeysPermutation(d, rows, RowKey);
    PermutationKeys(d, rows);
    PermutationMembers(d, rows);
    forall i | 0 <= i < |rows| ensures rows[i].id.TextId? {
      var j := IndexOf(d, rows[i]);
    }
  }

  /** Making the ids text keeps every id's text. */
  lemma TextKeys(rows: seq<Row>)
    ensures Keys(MapSeq(AsText, rows), RowKey) == Keys(rows, RowKey)
  {
    forall k ensures k in Keys(MapSeq(AsText, rows), RowKey) <==> k in Keys(rows, RowKey) {
      KeysMember(MapSeq(AsText, rows), RowKey, k);
      KeysMember(rows, RowKey, k);
    }
  }

  /** Reordering keeps the set of keys. */
  lemma PermutationKeys(a: seq<Row>, b: seq<Row>)
    requires multiset(a) == multiset(b)
    ensures Keys(a, RowKey) == Keys(b, RowKey)
  {
    forall k ensures k in Keys(a, RowKey) <==> k in Keys(b, RowKey) {
      KeysMember(a, RowKey, k);
      KeysMember(b, RowKey, k);
      if exists j :: 0 <= j < |a| && RowKey(a[j]) == k {
        var j :| 0 <= j < |a| && RowKey(a[j]) == k;
        assert a[j] in multiset(b);
      }
      if exists j :: 0 <= j < |b| && RowKey(b[j]) == k {
        var j :| 0 <= j < |b| && RowKey(b[j]) == k;
        assert b[j] in multiset(a);
      }
    }
  }

  /** `clean_db.py` as written. Exit 1 without a database file or without a `posts`
      table; exit 0 with nothing written when the table is empty (checked before
      the `objectID` column); exit 1 when there is no `objectID` column; otherwise
      the cleaned rows replace the table, and the replacement, made from a frame,
      has no primary key. */
  function CleanDb(db: Option<DbFile>, parse: string -> Option<int>): (o: Outcome)
    ensures o.exitCode == 0 || o.exitCode == 1
    ensures o.exitCode == 1 <==>
      db.None? || db.value.posts.None? || (|db.value.posts.value.rows| > 0 && !db.value.posts.value.hasObjectID)
    ensures Cleans(db) ==> o.exitCode == 0 && o.db.Some? && o.db.value.posts.Some?
    ensures !Cleans(db) ==> o.db == db
  {
    if db.None? || db.value.posts.None? then Outcome(1, db)
    else
      var t := db.value.posts.value;
      if |t.rows| == 0 then Outcome(0, db)
      else if !t.hasObjectID then Outcome(1, db)
      else Outcome(0, Some(DbFile(Some(Table(false, true, t.hasCreatedAt, CleanRows(t, parse))))))
  }

  /** The run reaches the write: the table exists, has rows and an `objectID` column. */
  predicate Cleans(db: Option<DbFile>) {
    db.Some? && db.value.posts.Some? && |db.value.posts.value.rows| > 0 && db.value.posts.value.hasObjectID
  }

  /** After a cleaning run the table holds one row per id text of the old table,
      each the last row the old table held for it (with its id as text). */
  lemma CleanDbKeepsLast(db: Option<DbFile>, parse: string -> Option<int>)
    requires Cleans(db)
    ensures var t := db.value.posts.value;
      var rows := CleanDb(db, parse).db.value.posts.value.rows;
      && |rows| == |Keys(t.rows, RowKey)|
      && forall i :: 0 <= i < |rows| ==>
           exists j :: LastOfKey(t.rows, RowKey, j) && rows[i] == AsText(t.rows[j])
  {
    var t := db.value.posts.value;
    var rows := CleanRows(t, parse);
    var texts := MapSeq(AsText, t.rows);
    var d := DedupKeepLast(texts, RowKey);
    UniqueKeysCount(rows, RowKey);
    CleanRowsFrom(t, parse);
    DedupOnlyLast(texts, RowKey);
    forall i | 0 <= i < |rows| ensures exists j :: LastOfKey(t.rows, RowKey, j) && rows[i] == AsText(t.rows[j]) {
      var k := IndexOf(d, rows[i]);
      var j :| LastOfKey(texts, RowKey, j) && d[k] == texts[j];
      assert LastOfKey(t.rows, RowKey, j);
    }
  }

  /** The cleaned rows are the deduplicated rows, reordered. */
  lemma CleanRowsFrom(t: Table, parse: string -> Option<int>)
    ensures forall x :: x in CleanRows(t, parse) <==> x in DedupKeepLast(MapSeq(AsText, t.rows), RowKey)
  {
    var d := DedupKeepLast(MapSeq(AsText, t.rows), RowKey);
    if t.hasCreatedAt {
      PermutationMembers(d, SortBy(d, (r: Row) => TimeKey(parse, r)));
    } else {
      PermutationMembers(d, SortBy(d, IdKey));
    }
  }

  /** Ids that are equal as text are one post: an integer 7 and a text "7" left
      in a table without a key end up as a single row. */
  lemma CleanDbMergesIdTypes(a: Row, b: Row, parse: string -> Option<int>)
    requires a.id == IntId(7) && b.id == TextId("7")
    ensures var db := Some(DbFile(Some(Table(false, true, true, [a, b]))));
      CleanDb(db, parse).db.value.posts.value.rows == [AsText(b)]
  {
    assert IntText(7) == "7";
    var t := Table(false, true, true, [a, b]);
    var texts := MapSeq(AsText, t.rows);
    assert texts == [AsText(a), AsText(b)];
    assert DedupKeepLast(texts, RowKey) == [AsText(b)];
  }

  /** Cleaning a cleaned database exits the same way and keeps exactly the rows
      of the cleaned table, with the same columns. The library sort is not stable,
      so rows with equal sort keys may change places. */
  lemma CleanDbIdempotent(db: Option<DbFile>, parse: string -> Option<int>)
    ensures CleanDb(CleanDb(db, parse).db, parse).exitCode == CleanDb(db, parse).exitCode
    ensures !Cleans(db) ==> CleanDb(CleanDb(db, parse).db, parse) == CleanDb(db, parse)
    ensures Cleans(db) ==>
      var t1 := CleanDb(db, parse).db.value.posts.value;
      var o2 := CleanDb(CleanDb(db, parse).db, parse);
      && o2.db.Some? && o2.db.value.posts.Some?
      && o2.db.value.posts.value.(rows := t1.rows) == t1
      && multiset(o2.db.value.posts.value.rows) == multiset(t1.rows)
  {
    if Cleans(db) {
      var t := db.value.posts.value;
      var rows := CleanRows(t, parse);
      var t2 := Table(false, true, t.hasCreatedAt, rows);
      KeysMember(t.rows, RowKey, RowKey(t.rows[0]));
      KeysMember(rows, RowKey, RowKey(t.rows[0]));
      assert Cleans(Some(DbFile(Some(t2))));
      assert MapSeq(AsText, rows) == rows;
      DedupOfUnique(rows, RowKey);
    }
  }

  /** The replacement table has no primary key, so the next fetch's
      `INSERT OR REPLACE` appends: a post fetched again is stored twice. */
  lemma CleanThenSaveDuplicates(db: Option<DbFile>, parse: string -> Option<int>, batch: seq<Row>, x: Row)
    requires Cleans(db) && db.value.posts.value.hasCreatedAt
    requires x in db.value.posts.value.rows && RowKey(x) in Keys(batch, RowKey)
    ensures var cleaned := CleanDb(db, parse).db;
      && SaveToSqlite(cleaned, batch).Saved?
      && !UniqueKeys(SaveToSqlite(cleaned, batch).db.posts.value.rows, RowKey)
  {
    var t := db.value.posts.value;
    var rows := CleanRows(t, parse);
    var cleaned := Some(DbFile(Some(Table(false, true, t.hasCreatedAt, rows))));
    assert CleanDb(db, parse).db == cleaned;
    assert PostsBefore(cleaned).rows == rows;
    KeysMember(t.rows, RowKey, RowKey(x));
    KeysMember(rows, RowKey, RowKey(x));
    var i :| 0 <= i < |rows| && RowKey(rows[i]) == RowKey(x);
    SaveWithoutKeyDuplicates(cleaned, batch, rows[i]);
  }

  /** `clean_db.py` writing the cleaned rows back into a table that keeps the
      `objectID` primary key, as the fetch creates it. */
  function CleanDbKeepingKey(db: Option<DbFile>, parse: string -> Option<int>): (o: Outcome)
    ensures o.exitCode == CleanDb(db, parse).exitCode
    ensures !Cleans(db) ==> o.db == db
    ensures Cleans(db) ==> o.db.Some? && o.db.value.posts.Some? && o.db.value.posts.value.hasPK
  {
    if !Cleans(db) then CleanDb(db, parse)
    else
      var t := db.value.posts.value;
      Outcome(0, Some(DbFile(Some(Table(true, true, t.hasCreatedAt, CleanRows(t, parse))))))
  }

  /** With the key kept, a fetch after cleaning still stores one row per id. */
  lemma CleanKeepingKeyThenSaveUnique(db: Option<DbFile>, parse: string -> Option<int>, batch: seq<Row>)
    requires Cleans(db) && db.value.posts.value.hasCreatedAt
    ensures var cleaned := CleanDbKeepingKey(db, parse).db;
      && SaveToSqlite(cleaned, batch).Saved?
      && UniqueKeys(SaveToSqlite(cleaned, batch).db.posts.value.rows, RowKey)
  {
    var cleaned := CleanDbKeepingKey(db, parse).db;
    SaveKeepsKeysUnique(cleaned, batch);
  }
}
