/** The CSV side: `append_to_csv` (merge a batch into `hn_data.csv`) and
    `clean_csv.py` (deduplicate and sort the file). A CSV file holds text, so a
    file is a sequence of rows whose ids are `TextId`. Reading it back infers the
    type of the `objectID` column from all of its cells: when every cell is a
    run of digits the column becomes integers. */
module CsvStore {
  import opened Base
  import opened Text
  import opened Posts
  import opened Dedup
  import opened Sorting

  // ---------------------------------------------------------------------------
  // Writing and reading the file
  // ---------------------------------------------------------------------------

  /** The row as an integer-typed `objectID` column reads it: a run of digits
      becomes the number it spells (leading zeros dropped); only the id changes. */
  function AsInt(r: Row): (a: Row)
    ensures a == r.(id := a.id)
    ensures IsDigits(RowKey(r)) ==> a.id.IntId? && a.id.n >= 0 && ParseNat(RowKey(a)) == ParseNat(RowKey(r))
    ensures !IsDigits(RowKey(r)) ==> a.id == TextId(RowKey(r))
  {
    if IsDigits(RowKey(r)) then r.(id := IntId(ParseNat(RowKey(r)))) else AsText(r)
  }

  /** Every `objectID` cell is a run of digits. */
  predicate AllDigitIds(file: seq<Row>) {
    forall i :: 0 <= i < |file| ==> IsDigits(RowKey(file[i]))
  }

  /** `to_csv`: every id is written as text; nothing else changes. */
  function WriteCsv(frame: seq<Row>): (file: seq<Row>)
    ensures |file| == |frame|
    ensures forall i :: 0 <= i < |file| ==> file[i].id.TextId? && RowKey(file[i]) == RowKey(frame[i])
    ensures forall i :: 0 <= i < |file| ==> file[i] == frame[i].(id := file[i].id)
  {
    MapSeq(AsText, frame)
  }

  /** `read_csv`: the ids come back as integers when every one of them is a run
      of digits, as text otherwise; the other fields come back as written. */
  function ReadCsv(file: seq<Row>): (frame: seq<Row>)
    ensures |frame| == |file|
    ensures forall i :: 0 <= i < |frame| ==> frame[i] == file[i].(id := frame[i].id)
    ensures forall i :: 0 <= i < |frame| ==> (frame[i].id.IntId? <==> AllDigitIds(file))
    ensures AllDigitIds(file) ==> forall i :: 0 <= i < |frame| ==> frame[i].id == IntId(ParseNat(RowKey(file[i])))
    ensures !AllDigitIds(file) ==> forall i :: 0 <= i < |frame| ==> frame[i].id == TextId(RowKey(file[i]))
  {
    if AllDigitIds(file) then MapSeq(AsInt, file) else MapSeq(AsText, file)
  }

  /** The frames `read_csv` produces: all ids are non-negative integers, or all
      are text and at least one is not a run of digits. */
  predicate ReadShape(frame: seq<Row>) {
    || (forall i :: 0 <= i < |frame| ==> frame[i].id.IntId? && frame[i].id.n >= 0)
    || ((forall i :: 0 <= i < |frame| ==> frame[i].id.TextId?)
        && exists i :: 0 <= i < |frame| && !IsDigits(RowKey(frame[i])))
  }

  lemma ReadCsvShape(file: seq<Row>)
    ensures ReadShape(ReadCsv(file))
  {
    if !AllDigitIds(file) {
      var i :| 0 <= i < |file| && !IsDigits(RowKey(file[i]));
      assert !IsDigits(RowKey(ReadCsv(file)[i]));
    }
  }

  /** Writing a frame of that shape and reading it back gives the frame again. */
  lemma ReadWriteRoundTrip(frame: seq<Row>)
    requires ReadShape(frame)
    ensures ReadCsv(WriteCsv(frame)) == frame
  {
    var file := WriteCsv(frame);
    if forall i :: 0 <= i < |frame| ==> frame[i].id.IntId? && frame[i].id.n >= 0 {
      forall i | 0 <= i < |frame| ensures ReadCsv(file)[i] == frame[i] {
        ParseNatText(frame[i].id.n);
      }
    } else {
      var i :| 0 <= i < |frame| && !IsDigits(RowKey(frame[i]));
      assert !IsDigits(RowKey(file[i]));
    }
  }

  /** On a frame of that shape, equal id text means equal id. */
  lemma ReadShapeKeys(frame: seq<Row>, i: int, j: int)
    requires ReadShape(frame) && 0 <= i < |frame| && 0 <= j < |frame|
    ensures RowKey(frame[i]) == RowKey(frame[j]) ==> RowId(frame[i]) == RowId(frame[j])
  {
    if frame[i].id.IntId? && frame[j].id.IntId? && RowKey(frame[i]) == RowKey(frame[j]) {
      NatTextInjective(frame[i].id.n, frame[j].id.n);
    }
  }

  /** On a frame of that shape, ids that are distinct as values are distinct as text. */
  lemma ReadShapeUnique(frame: seq<Row>)
    requires ReadShape(frame) && UniqueKeys(frame, RowId)
    ensures UniqueKeys(frame, RowKey)
  {
    forall i, j | 0 <= i < j < |frame| ensures RowKey(frame[i]) != RowKey(frame[j]) {
      ReadShapeKeys(frame, i, j);
    }
  }

  // ---------------------------------------------------------------------------
  // append_to_csv
  // ---------------------------------------------------------------------------

  /** `append_to_csv` as written: without a file the batch is written as it is;
      with one, the file is read back, the batch appended, and duplicates of the
      id value dropped keeping the last. */
  function AppendToCsvAsWritten(file: Option<seq<Row>>, batch: seq<Row>): (r: seq<Row>)
    ensures file.None? ==> |r| == |batch|
    ensures file.None? && TextIds(batch) ==> r == batch
    ensures file.Some? ==> |r| <= |file.value| + |batch|
  {
    match file
    case None => WriteCsv(batch)
    case Some(existing) => WriteCsv(DedupKeepLast(ReadCsv(existing) + batch, RowId))
  }

  /** The batch's ids are text, as the API delivers them. */
  predicate TextIds(rows: seq<Row>) {
    forall i :: 0 <= i < |rows| ==> rows[i].id.TextId?
  }

  /** When every id in the file is a run of digits, the ids read back are integers
      and never equal the batch's text ids: the merge drops nothing of the file,
      and a post fetched again ends up in the file twice. */
  lemma AppendAsWrittenKeepsStale(existing: seq<Row>, batch: seq<Row>)
    requires AllDigitIds(existing) && TextIds(batch)
    ensures AppendToCsvAsWritten(Some(existing), batch)
         == WriteCsv(DedupKeepLast(ReadCsv(existing), RowId) + DedupKeepLast(batch, RowId))
  {
    var frame := ReadCsv(existing);
    DedupAppend(frame, batch, RowId);
    var d := DedupKeepLast(frame, RowId);
    forall k | k in Keys(d, RowId) ensures k !in Keys(batch, RowId) {
      KeysMember(frame, RowId, k);
      KeysMember(batch, RowId, k);
    }
    DropKeysUntouched(d, RowId, Keys(batch, RowId));
  }

  /** The smallest case: the file holds post "7", the batch holds post "7" again. */
  lemma AppendAsWrittenDuplicates(old7: Row, new7: Row)
    requires old7.id == TextId("7") && new7.id == TextId("7")
    ensures var r := AppendToCsvAsWritten(Some([old7]), [new7]);
      |r| == 2 && RowKey(r[0]) == RowKey(r[1]) == "7"
  {
    assert IsDigits(RowKey(old7));
    assert ParseNat("7") == 7;
    assert NatText(7) == "7";
    AppendAsWrittenKeepsStale([old7], [new7]);
  }

  /** When some id in the file is not a run of digits the column is read as text,
      and the merge as written is the merge by id text. */
  lemma AppendAsWrittenTextFile(existing: seq<Row>, batch: seq<Row>)
    requires !AllDigitIds(existing) && TextIds(existing) && TextIds(batch)
    ensures AppendToCsvAsWritten(Some(existing), batch) == AppendToCsv(Some(existing), batch)
  {
    WriteCsvOfText(existing);
    assert ReadCsv(existing) == existing;
    var xs := existing + batch;
    assert TextIds(xs);
    forall i, j | 0 <= i < |xs| && 0 <= j < |xs| ensures RowId(xs[i]) == RowId(xs[j]) <==> RowKey(xs[i]) == RowKey(xs[j]) {
    }
    DedupSameSplit(xs, RowId, RowKey);
  }

  /** With an all-digit file, a post the file holds under its decimal id and the
      batch carries again is in the merged file twice. */
  lemma AppendAsWrittenRepeatsKey(existing: seq<Row>, batch: seq<Row>, n: nat)
    requires AllDigitIds(existing) && TextIds(batch)
    requires NatText(n) in Keys(existing, RowKey) && NatText(n) in Keys(batch, RowKey)
    ensures !UniqueKeys(AppendToCsvAsWritten(Some(existing), batch), RowKey)
  {
    var frame := ReadCsv(existing);
    var d1 := DedupKeepLast(frame, RowId);
    var d2 := DedupKeepLast(batch, RowId);
    AppendAsWrittenKeepsStale(existing, batch);
    KeysMember(existing, RowKey, NatText(n));
    var i :| 0 <= i < |existing| && RowKey(existing[i]) == NatText(n);
    ParseNatText(n);
    assert frame[i].id == IntId(n);
    var k1 := SurvivorOfKey(frame, i);
    KeysMember(batch, RowKey, NatText(n));
    var j :| 0 <= j < |batch| && RowKey(batch[j]) == NatText(n);
    var k2 := SurvivorOfKey(batch, j);
    assert RowKey(d1[k1]) == NatText(n);
    assert RowKey(d2[k2]) == NatText(n);
    RepeatedKeyWritten(d1, d2, k1, k2);
  }

  /** A key carried by both halves of a frame is written twice. */
  lemma RepeatedKeyWritten(d1: seq<Row>, d2: seq<Row>, k1: int, k2: int)
    requires 0 <= k1 < |d1| && 0 <= k2 < |d2| && RowKey(d1[k1]) == RowKey(d2[k2])
    ensures !UniqueKeys(WriteCsv(d1 + d2), RowKey)
  {
    var w := WriteCsv(d1 + d2);
    assert (d1 + d2)[k1] == d1[k1] && (d1 + d2)[|d1| + k2] == d2[k2];
    assert RowKey(w[k1]) == RowKey(w[|d1| + k2]);
  }

  /** `append_to_csv` with the ids compared as text (reading the `objectID` column
      as strings), the behaviour the merge is meant to have. */
  function AppendToCsv(file: Option<seq<Row>>, batch: seq<Row>): (r: seq<Row>)
    ensures file.None? ==> |r| == |batch|
    ensures file.None? && TextIds(batch) ==> r == batch
    ensures file.Some? ==> |r| <= |file.value| + |batch|
  {
    match file
    case None => WriteCsv(batch)
    case Some(existing) => WriteCsv(DedupKeepLast(existing + batch, RowKey))
  }

  /** The writer keeps every id's text, so keys and their uniqueness carry over. */
  lemma WriteCsvKeys(frame: seq<Row>)
    ensures Keys(WriteCsv(frame), RowKey) == Keys(frame, RowKey)
    ensures UniqueKeys(frame, RowKey) ==> UniqueKeys(WriteCsv(frame), RowKey)
  {
    forall k ensures k in Keys(WriteCsv(frame), RowKey) <==> k in Keys(frame, RowKey) {
      KeysMember(WriteCsv(frame), RowKey, k);
      KeysMember(frame, RowKey, k);
    }
  }

  /** A file of text ids is written back unchanged. */
  lemma WriteCsvOfText(rows: seq<Row>)
    requires TextIds(rows)
    ensures WriteCsv(rows) == rows
  {
  }

  /** Merging into an existing file: the file's rows whose id the batch does not
      carry, in file order, then the batch's last row for each of its ids. After the
      merge every id occurs once, and the ids are those of the file and the batch. */
  lemma AppendMerges(existing: seq<Row>, batch: seq<Row>)
    ensures AppendToCsv(Some(existing), batch)
         == WriteCsv(DropKeys(DedupKeepLast(existing, RowKey), RowKey, Keys(batch, RowKey))
                     + DedupKeepLast(batch, RowKey))
    ensures UniqueKeys(AppendToCsv(Some(existing), batch), RowKey)
    ensures Keys(AppendToCsv(Some(existing), batch), RowKey) == Keys(existing, RowKey) + Keys(batch, RowKey)
  {
    DedupAppend(existing, batch, RowKey);
    KeysAppend(existing, batch, RowKey);
    WriteCsvKeys(DedupKeepLast(existing + batch, RowKey));
  }

  /** For every id of the batch the file ends up holding the batch's last row with
      that id: fetched data replaces what was stored. */
  lemma AppendNewRowsWin(existing: seq<Row>, batch: seq<Row>, j: int)
    requires TextIds(existing) && TextIds(batch)
    requires LastOfKey(batch, RowKey, j)
    ensures batch[j] in AppendToCsv(Some(existing), batch)
  {
    var merged := DedupKeepLast(existing + batch, RowKey);
    assert LastOfKey(existing + batch, RowKey, |existing| + j);
    DedupKeepsLast(existing + batch, RowKey);
    assert (existing + batch)[|existing| + j] == batch[j];
    WriteCsvOfText(existing + batch);
    DedupElementsFrom(existing + batch, RowKey);
    assert TextIds(merged);
    WriteCsvOfText(merged);
  }

  /** Appending the same batch twice to an existing file leaves it as appending
      it once. */
  lemma AppendTwice(existing: seq<Row>, batch: seq<Row>)
    requires TextIds(existing) && TextIds(batch)
    ensures AppendToCsv(Some(AppendToCsv(Some(existing), batch)), batch) == AppendToCsv(Some(existing), batch)
  {
    var once := DedupKeepLast(existing + batch, RowKey);
    DedupElementsFrom(existing + batch, RowKey);
    assert TextIds(once);
    WriteCsvOfText(once);
    MergeTwice(existing, batch, RowKey);
    DedupIdempotent(existing + batch, RowKey);
    DedupElementsFrom(once + batch, RowKey);
    WriteCsvOfText(DedupKeepLast(once + batch, RowKey));
  }

  /** Without a file the batch is written as it is, repeats included, so a second
      append of a batch carrying post "7" twice leaves only its last copy. */
  lemma AppendTwiceWithoutFile(a: Row, b: Row)
    requires a.id == TextId("7") && b.id == TextId("7")
    ensures AppendToCsv(None, [a, b]) == [a, b]
    ensures AppendToCsv(Some(AppendToCsv(None, [a, b])), [a, b]) == [b]
  {
    assert TextIds([a, b]);
    var xs := [a, b] + [a, b];
    assert xs[1..] == [b, a, b] && xs[1..][1..] == [a, b] && xs[1..][1..][1..] == [b];
    KeysCons(b, [], RowKey);
    assert DedupKeepLast([b], RowKey) == [b];
    KeysCons(a, [b], RowKey);
    assert DedupKeepLast([a, b], RowKey) == [b];
    KeysCons(b, [a, b], RowKey);
    assert DedupKeepLast([b, a, b], RowKey) == [b];
    KeysCons(a, [b, a, b], RowKey);
    assert DedupKeepLast(xs, RowKey) == [b];
    assert TextIds([b]);
    WriteCsvOfText([b]);
  }

  /** The merge as written is not idempotent: with post "7" stored and fetched
      again, one merge keeps both copies, and a second merge of the same batch
      reads the two stored ids as the integer 7, keeps the later, and adds the
      batch's copy once more. */
  lemma AppendAsWrittenNotIdempotent(old7: Row, new7: Row)
    requires old7.id == TextId("7") && new7.id == TextId("7")
    ensures AppendToCsvAsWritten(Some([old7]), [new7]) == [old7, new7]
    ensures AppendToCsvAsWritten(Some([old7, new7]), [new7]) == [new7, new7]
  {
    assert IsDigits(RowKey(old7)) && IsDigits(RowKey(new7));
    assert ParseNat("7") == 7;
    assert NatText(7) == "7";
    AppendAsWrittenKeepsStale([old7], [new7]);
    AppendAsWrittenKeepsStale([old7, new7], [new7]);
    var frame := ReadCsv([old7, new7]);
    assert frame[1..][1..] == [];
    assert DedupKeepLast(frame, RowId) == [frame[1]];
  }

  // ---------------------------------------------------------------------------
  // clean_csv.py
  // ---------------------------------------------------------------------------

  /** The sort key of `clean_csv.py`: the `created_at` text, compared as a string. */
  function CreatedText(r: Row): SortKey {
    Str(r.createdAt)
  }

  /** `clean_csv.py` up to the write: read, drop duplicate ids keeping the last,
      sort by the `created_at` text. */
  function CleanCsv(file: seq<Row>): (frame: seq<Row>)
    ensures SortedBy(frame, CreatedText)
    ensures multiset(frame) == multiset(DedupKeepLast(ReadCsv(file), RowId))
  {
    SortBy(DedupKeepLast(ReadCsv(file), RowId), CreatedText)
  }

  /** The cleaned frame keeps one row per id value, each the last one the file
      held for that id, and no two rows share an id, as value or as text. */
  lemma CleanCsvUnique(file: seq<Row>)
    ensures UniqueKeys(CleanCsv(file), RowId)
    ensures UniqueKeys(CleanCsv(file), RowKey)
    ensures |CleanCsv(file)| == |Keys(ReadCsv(file), RowId)|
    ensures forall i :: 0 <= i < |CleanCsv(file)| ==>
      exists j :: LastOfKey(ReadCsv(file), RowId, j) && CleanCsv(file)[i] == ReadCsv(file)[j]
  {
    var frame := ReadCsv(file);
    var d := DedupKeepLast(frame, RowId);
    var r := CleanCsv(file);
    UniqueKeysPermutation(d, r, RowId);
    CleanCsvShape(file);
    ReadShapeUnique(r);
    DedupCount(frame, RowId);
    assert |r| == |multiset(r)| == |multiset(d)| == |d|;
    SurvivorsFrom(frame, r);
  }

  /** A reordering of the deduplicated frame holds only last rows of their id. */
  lemma SurvivorsFrom(frame: seq<Row>, r: seq<Row>)
    requires multiset(r) == multiset(DedupKeepLast(frame, RowId))
    ensures forall i :: 0 <= i < |r| ==> exists j :: LastOfKey(frame, RowId, j) && r[i] == frame[j]
  {
    var d := DedupKeepLast(frame, RowId);
    DedupOnlyLast(frame, RowId);
    forall i | 0 <= i < |r| ensures exists j :: LastOfKey(frame, RowId, j) && r[i] == frame[j] {
      assert r[i] in multiset(d);
      var k := IndexOf(d, r[i]);
    }
  }

  /** The cleaned frame has the shape of a frame read from a file. */
  lemma CleanCsvShape(file: seq<Row>)
    ensures ReadShape(CleanCsv(file))
  {
    ReadCsvShape(file);
    CleanCsvFrom(file);
    NonDigitIdSurvives(file);
    ShapeOfMembers(ReadCsv(file), CleanCsv(file));
  }

  /** Some id of the file that is not a run of digits is still in the cleaned frame. */
  lemma NonDigitIdSurvives(file: seq<Row>)
    ensures (exists i :: 0 <= i < |ReadCsv(file)| && !IsDigits(RowKey(ReadCsv(file)[i])))
        ==> exists m :: 0 <= m < |CleanCsv(file)| && !IsDigits(RowKey(CleanCsv(file)[m]))
  {
    var frame := ReadCsv(file);
    if exists i :: 0 <= i < |frame| && !IsDigits(RowKey(frame[i])) {
      var i :| 0 <= i < |frame| && !IsDigits(RowKey(frame[i]));
      var k := SurvivorOfKey(frame, i);
      var d := DedupKeepLast(frame, RowId);
      var r := CleanCsv(file);
      assert d[k] in multiset(r);
      var m := IndexOf(r, d[k]);
      assert RowKey(r[m]) == RowKey(frame[i]);
    }
  }

  /** Rows taken from a frame read from a file, keeping a non-digit id when the
      frame has one, again have the shape of a frame read from a file. */
  lemma ShapeOfMembers(frame: seq<Row>, r: seq<Row>)
    requires ReadShape(frame)
    requires forall x :: x in r ==> x in frame
    requires (exists i :: 0 <= i < |frame| && !IsDigits(RowKey(frame[i])))
         ==> exists m :: 0 <= m < |r| && !IsDigits(RowKey(r[m]))
    ensures ReadShape(r)
  {
    MembersKeepIdKinds(frame, r);
  }

  /** Rows taken from a frame keep the frame's kind of id. */
  lemma MembersKeepIdKinds(frame: seq<Row>, r: seq<Row>)
    requires forall x :: x in r ==> x in frame
    ensures (forall i :: 0 <= i < |frame| ==> frame[i].id.IntId? && frame[i].id.n >= 0)
            ==> forall i :: 0 <= i < |r| ==> r[i].id.IntId? && r[i].id.n >= 0
    ensures (forall i :: 0 <= i < |frame| ==> frame[i].id.TextId?)
            ==> forall i :: 0 <= i < |r| ==> r[i].id.TextId?
  {
    forall i | 0 <= i < |r| ensures exists j :: 0 <= j < |frame| && frame[j] == r[i] {
      var j := IndexOf(frame, r[i]);
    }
  }

  /** The cleaned frame holds only rows of the frame read from the file. */
  lemma CleanCsvFrom(file: seq<Row>)
    ensures forall x :: x in CleanCsv(file) ==> x in ReadCsv(file)
  {
    var d := DedupKeepLast(ReadCsv(file), RowId);
    DedupElementsFrom(ReadCsv(file), RowId);
    PermutationMembers(d, CleanCsv(file));
    forall x | x in d ensures x in ReadCsv(file) {
      var k := IndexOf(d, x);
    }
  }

  /** Every id value of the frame is carried by some survivor of the deduplication. */
  lemma SurvivorOfKey(frame: seq<Row>, i: int) returns (k: int)
    requires 0 <= i < |frame|
    ensures 0 <= k < |DedupKeepLast(frame, RowId)| && RowId(DedupKeepLast(frame, RowId)[k]) == RowId(frame[i])
  {
    KeysMember(frame, RowId, RowId(frame[i]));
    KeysMember(DedupKeepLast(frame, RowId), RowId, RowId(frame[i]));
    k :| 0 <= k < |DedupKeepLast(frame, RowId)| && RowId(DedupKeepLast(frame, RowId)[k]) == RowId(frame[i]);
  }

  /** Cleaning a cleaned file keeps exactly its rows (and sorts them again). The
      library sort is not stable, so rows with equal `created_at` text may change
      places; which rows there are does not change. */
  lemma CleanCsvIdempotent(file: seq<Row>)
    ensures multiset(CleanCsv(WriteCsv(CleanCsv(file)))) == multiset(CleanCsv(file))
  {
    var r := CleanCsv(file);
    CleanCsvShape(file);
    ReadWriteRoundTrip(r);
    CleanCsvUnique(file);
    DedupOfUnique(r, RowId);
  }
}
