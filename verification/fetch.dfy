/** One run of `fetch_hn.py` after the download: build the batch, stop when it is
    empty, otherwise upsert it into SQLite and merge it into the CSV file.
    `RunFetch` merges the CSV file as `append_to_csv` is written (ids read back as
    integers when they are all digits); `RunFetchTextIds` is the same run with the
    merge comparing ids as text. */
module Fetch {
  import opened Base
  import opened Text
  import opened Posts
  import opened Dedup
  import opened RowBuilder
  import opened SqliteStore
  import opened CsvStore

  /** The two stores: the database file and the CSV file, each possibly missing. */
  datatype Stores = Stores(db: Option<DbFile>, csv: Option<seq<Row>>)

  /** How a run ends: nothing to store, an SQL error before anything is written,
      or both stores updated with `count` rows. */
  datatype Run = NoPosts | Failed | Done(stores: Stores, count: nat)

  /** `main` after `fetch_hn()`: the hits are a parameter, as are the timestamp
      parser and the clock used by `hits_to_df`. */
  function RunFetch(s: Stores, hits: seq<Hit>, iso: string -> Option<string>, now: string): (r: Run)
    ensures r.NoPosts? <==> forall i :: 0 <= i < |hits| ==> !Kept(hits[i])
    ensures r.Done? ==> 0 < r.count <= |hits| && r.stores.db.Some? && r.stores.csv.Some?
  {
    var batch := HitsToRows(hits, iso, now);
    HitsToRowsEmpty(hits, iso, now);
    if |batch| == 0 then NoPosts
    else
      match SaveToSqlite(s.db, batch)
      case SqlError => Failed
      case Saved(db) => Done(Stores(Some(db), Some(AppendToCsvAsWritten(s.csv, batch))), |batch|)
  }

  /** The run with the CSV merge by id text: it ends as `RunFetch` does and leaves
      the same database; only the CSV file can differ. */
  function RunFetchTextIds(s: Stores, hits: seq<Hit>, iso: string -> Option<string>, now: string): (r: Run)
    ensures r.NoPosts? <==> RunFetch(s, hits, iso, now).NoPosts?
    ensures r.Failed? <==> RunFetch(s, hits, iso, now).Failed?
    ensures r.Done? ==>
      && r.count == RunFetch(s, hits, iso, now).count
      && r.stores.db == RunFetch(s, hits, iso, now).stores.db
      && r.stores.csv.Some?
  {
    var batch := HitsToRows(hits, iso, now);
    if |batch| == 0 then NoPosts
    else
      match SaveToSqlite(s.db, batch)
      case SqlError => Failed
      case Saved(db) => Done(Stores(Some(db), Some(AppendToCsv(s.csv, batch))), |batch|)
  }

  /** The stores agree: the `posts` table has its key and both columns the insert
      names, the CSV file holds exactly the table's rows in the same order, and
      every id occurs once, as text. */
  predicate InSync(s: Stores) {
    && s.db.Some? && s.db.value.posts.Some?
    && var t := s.db.value.posts.value;
       && t.hasPK && t.hasObjectID && t.hasCreatedAt
       && s.csv == Some(t.rows)
       && UniqueKeys(t.rows, RowKey)
       && TextIds(t.rows)
  }

  /** With the merge by id text, a run on stores that agree cannot fail, and
      leaves them agreeing. */
  lemma FetchKeepsInSync(s: Stores, hits: seq<Hit>, iso: string -> Option<string>, now: string)
    requires InSync(s)
    ensures !RunFetchTextIds(s, hits, iso, now).Failed?
    ensures RunFetchTextIds(s, hits, iso, now).Done? ==> InSync(RunFetchTextIds(s, hits, iso, now).stores)
  {
    var batch := HitsToRows(hits, iso, now);
    if |batch| > 0 {
      var rows := s.db.value.posts.value.rows;
      var kb := Keys(batch, RowKey);
      var merged := DropKeys(rows, RowKey, kb) + DedupKeepLast(batch, RowKey);
      SaveUpserts(s.db, batch);
      SaveKeepsKeysUnique(s.db, batch);
      AppendMerges(rows, batch);
      DedupOfUnique(rows, RowKey);
      MergedTextIds(rows, batch);
      WriteCsvOfText(merged);
    }
  }

  /** Rows taken from two sequences of text ids have text ids. */
  lemma MergedTextIds(rows: seq<Row>, batch: seq<Row>)
    requires TextIds(rows) && TextIds(batch)
    ensures TextIds(DropKeys(rows, RowKey, Keys(batch, RowKey)) + DedupKeepLast(batch, RowKey))
  {
    var kept := DropKeys(rows, RowKey, Keys(batch, RowKey));
    var newer := DedupKeepLast(batch, RowKey);
    DropKeysMembers(rows, RowKey, Keys(batch, RowKey));
    DedupElementsFrom(batch, RowKey);
    forall i | 0 <= i < |kept| ensures kept[i].id.TextId? {
      var j := IndexOf(rows, kept[i]);
    }
    forall i | 0 <= i < |newer| ensures newer[i].id.TextId? {
      var j := IndexOf(batch, newer[i]);
    }
  }

  /** With the merge by id text, running the same fetch twice on stores that
      agree leaves them as running it once. */
  lemma FetchTwice(s: Stores, hits: seq<Hit>, iso: string -> Option<string>, now: string)
    requires InSync(s) && RunFetchTextIds(s, hits, iso, now).Done?
    ensures RunFetchTextIds(RunFetchTextIds(s, hits, iso, now).stores, hits, iso, now) == RunFetchTextIds(s, hits, iso, now)
  {
    var batch := HitsToRows(hits, iso, now);
    SaveTwice(s.db, batch);
    AppendTwice(s.csv.value, batch);
  }

  /** After a run on a table that has its key, the table maps every id to the row
      of the newest fetch that carried it, and to the stored row otherwise. */
  lemma FetchNewestWins(s: Stores, hits: seq<Hit>, iso: string -> Option<string>, now: string)
    requires PostsBefore(s.db).hasPK && RunFetch(s, hits, iso, now).Done?
    ensures LastByKey(RunFetch(s, hits, iso, now).stores.db.value.posts.value.rows, RowKey)
         == LastByKey(PostsBefore(s.db).rows, RowKey) + LastByKey(HitsToRows(hits, iso, now), RowKey)
  {
    var batch := HitsToRows(hits, iso, now);
    assert |batch| > 0;
    var saved := SaveToSqlite(s.db, batch);
    assert saved.Saved?;
    assert RunFetch(s, hits, iso, now).stores.db == Some(saved.db);
    SaveMapView(s.db, batch);
  }

  /** The first run creates both stores: the table keeps one row per id, but the
      CSV file is the batch as it is, repeats included. */
  lemma FirstFetch(hits: seq<Hit>, iso: string -> Option<string>, now: string)
    requires RunFetch(Stores(None, None), hits, iso, now).Done?
    ensures var st := RunFetch(Stores(None, None), hits, iso, now).stores;
      && st.db.value.posts.value.rows == DedupKeepLast(HitsToRows(hits, iso, now), RowKey)
      && st.csv.value == HitsToRows(hits, iso, now)
  {
    var batch := HitsToRows(hits, iso, now);
    SaveIntoNewDatabase(batch);
    WriteCsvOfText(batch);
  }

  /** As written, the CSV merge loses the agreement: when the file's ids are all
      digits and the batch carries a post the stores hold, the file ends with that
      post twice while the table holds it once. */
  lemma FetchAsWrittenLosesSync(s: Stores, hits: seq<Hit>, iso: string -> Option<string>, now: string, n: nat)
    requires InSync(s) && AllDigitIds(s.csv.value)
    requires NatText(n) in Keys(s.csv.value, RowKey) && NatText(n) in Keys(HitsToRows(hits, iso, now), RowKey)
    ensures RunFetch(s, hits, iso, now).Done?
    ensures !InSync(RunFetch(s, hits, iso, now).stores)
  {
    var batch := HitsToRows(hits, iso, now);
    KeysMember(batch, RowKey, NatText(n));
    assert TextIds(batch);
    AppendAsWrittenRepeatsKey(s.csv.value, batch, n);
  }
}
