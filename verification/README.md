# hn-programming-tracker: a Dafny model of the fetch-and-merge core

This project models how the tracker turns Hacker News search hits into stored posts. It covers four parts:

- **Title classifier.** `fetch_hn.py`'s `LANG_KEYWORDS` table and `classify_title`. Tokens are checked in dictionary order, and the first hit wins. A token that starts with `\b` or ends with a space goes through `re.search`. Every other token is a plain substring test on the lower-cased title.
- **Row builder.** `hits_to_df` picks `title or story_title or ""`, strips it, and drops hits whose title ends up empty. Missing `points` and `num_comments` default to 0, and each row gets a language tag.
- **Two stores.**
  - The SQLite `posts` table. `save_to_sqlite` creates it with `objectID TEXT PRIMARY KEY` and then runs `INSERT OR REPLACE` row by row.
  - The CSV file. `append_to_csv` reads the file, concatenates the batch, drops duplicate `objectID`s keeping the last, and writes the result.
- **Two cleaners.**
  - `clean_db.py` checks its exit conditions, turns every id into text, drops duplicates keeping the last, sorts by the parsed `created_at` (by `objectID` when that column is missing), and replaces the table.
  - `clean_csv.py` drops duplicates keeping the last and sorts by the `created_at` text.

Modules, in dependency order:

- `Base`: `Option`, `MapSeq`, and small sequence facts.
- `Text`: Python's ASCII `lower`, `strip`, `in`, `\b…\b` matching, string order, and the digit strings `read_csv` turns into integers.
- `Posts`: the hit and the row.
- `Dedup`: `drop_duplicates(keep="last")`, key-dropping, and the map view of a row sequence.
- `Classifier`, `RowBuilder`, `Sorting`: as their names say.
- `SqliteStore`, `CsvStore`, `DbClean`: the stores and the cleaners.
- `Fetch`: one run of `main`, with the CSV merge as written, and the same run with the merge comparing ids as text.

Modelling choices:

- **Ids.** An id is text or an integer (`Posts.Id`). This matters in two places:
  - `read_csv` infers an integer column when every cell is a run of digits.
  - `clean_db.py` makes every id text before it deduplicates.
- **Keys.** `RowKey` is the id's text, which is what SQLite's `TEXT` key compares. `RowId` is the id as a pandas value, which is what `drop_duplicates` compares.
- **SQLite insertion order.** `INSERT OR REPLACE` deletes the old row and inserts the new one. So in rowid order a replaced post moves to the end.
- **Sorting.** `sort_values` is not stable. The cleaners are therefore specified to return *some* sorted permutation of the deduplicated rows. The model computes one by insertion sort.
- **Parameters.** The ISO timestamp parser, the clock and the `created_at` parser of the cleaners are parameters: `iso`, `now` and `parse`.

## Model

| member | source | states |
|---|---|---|
| Classifier.LangTableCompiled | fetch_hn.py:17-38 | the table the classifier walks is the keyword table with each token's matching mode fixed by the `\b`/trailing-space rule; only the `c` and `r` tokens are whole-word regexes |
| Classifier.LangTableTags | fetch_hn.py:17-38 | the twenty tags, in order, distinct, each one of the tracker's languages |
| Classifier.FirstMatch | fetch_hn.py:45-53 | no tag exactly when no token of any entry matches; otherwise the tag of the first entry with a matching token |
| Classifier.ClassifyTitle | fetch_hn.py:43-53 | `None` iff no token matches the lower-cased title; a tag is always one of the twenty and belongs to the first matching entry |
| Classifier.ClassifyTitleLoop | fetch_hn.py:43-53 | the nested loops over entries and tokens return the same tag as the first-match definition |
| Classifier.ClassifyIgnoresCase | fetch_hn.py:44 | a title and its lower-cased form get the same tag |
| Classifier.ClassifyAtMost | fetch_hn.py:45-52 | a matching entry bounds the position of the tag chosen |
| Classifier.PythonAnywhere | fetch_hn.py:18 | any title containing "python" (in any case) is tagged python, the first entry |
| Classifier.JavascriptBeforeJava | fetch_hn.py:19-20 | a title containing "javascript" is tagged python or javascript, never java |
| Classifier.CppBeforeC | fetch_hn.py:21-23 | a title containing "c++" is never tagged c; its tag is python, javascript, java or c++ |
| Classifier.TagCIsWholeWord | fetch_hn.py:23 | a title is tagged c only when "c" occurs as a whole word |
| Classifier.TagRIsWholeWord | fetch_hn.py:32 | a title is tagged r only when "r" occurs as a whole word |
| Classifier.ShowHnAlwaysTagged | fetch_hn.py:36 | every "Show HN" title gets a tag, because the shell token "sh" matches inside "show" |
| Text.Lower | fetch_hn.py:44 | `title.lower()` keeps the length and maps each character on its own: `A`–`Z` to `a`–`z`, every other character unchanged |
| Text.LowerIdempotent | fetch_hn.py:44 | lower-casing a lower-cased title changes nothing |
| Text.Strip | fetch_hn.py:41 | `t.strip()` is never longer than the title; what it keeps is stated by Text.StripSpec |
| Text.StripSpec | fetch_hn.py:40-41 | the stripped title is a slice of the title with only whitespace cut at both ends, starts and ends with non-whitespace, and is empty iff the title is all whitespace |
| Text.StripIdempotent | fetch_hn.py:40-41 | normalising a normalised title changes nothing |
| Text.Contains | fetch_hn.py:51 | `token in t` holds iff the token occurs at some position of `t` |
| Text.HasWholeWord | fetch_hn.py:47-49 | `re.search(r"\bw\b", t)` holds iff `w` occurs at a position with word boundaries on both sides |
| Text.LexLeSpec | clean_csv.py:10 | Python's `<=` on strings: `a <= b` iff `a` is a prefix of `b` or, at the first position where they differ, `a` has the smaller character |
| Text.LexLeTotal | clean_csv.py:10 | any two strings are ordered one way or the other |
| RowBuilder.PickTitle | fetch_hn.py:72 | the title if present and non-empty; otherwise the story title when present (even if empty); the result is empty iff neither is present and non-empty |
| RowBuilder.KeptMeaning | fetch_hn.py:73-75 | a hit yields a row iff its picked title is not all whitespace |
| RowBuilder.CreatedAt | fetch_hn.py:76-80 | a present, non-empty `created_at` that parses gives the parsed timestamp; a missing, empty or unparseable one gives `now` |
| RowBuilder.BuildRow | fetch_hn.py:76-90 | a kept hit becomes a well-formed row: its objectID as id, the stripped title (non-empty, already stripped), and the language the classifier gives that title |
| RowBuilder.BuildRowDefaults | fetch_hn.py:76-88 | missing points and comment counts become 0 and present ones are kept; `url` and `author` are copied; the timestamp is the parsed `created_at`, or `now` when it is missing, empty or does not parse |
| RowBuilder.HitsToRows | fetch_hn.py:69-97 | at most one row per hit, each well-formed |
| RowBuilder.HitsToRowsAppend | fetch_hn.py:70-91 | rows come in hit order: the rows of `a + b` are the rows of `a` followed by the rows of `b` |
| RowBuilder.HitsToRowsMembers | fetch_hn.py:71-91 | a row is in the batch iff it is the row built from some kept hit |
| RowBuilder.HitsToRowsEmpty | fetch_hn.py:71-75 | the batch is empty iff no hit has a title that survives stripping |
| RowBuilder.WhitespaceTitleDropsHit | fetch_hn.py:72-75 | a hit whose title and story title are both blank is skipped |
| RowBuilder.StoryTitleFallback | fetch_hn.py:72-73 | a hit with an empty title is kept under its stripped story title when that is not blank |
| Posts.IdText | clean_db.py:36 | `astype(str)`: a text id is kept; a non-negative integer id becomes a digit string that parses back to it; a negative one starts with `-` |
| Dedup.DedupKeepLast | fetch_hn.py:132 | keeping the last row per key: no more rows than the input, unique keys, and exactly the input's key set |
| Dedup.DedupOnlyLast | clean_db.py:49 | every survivor is the last row of its key in the input |
| Dedup.DedupKeepsLast | clean_csv.py:7 | the last row of every key survives |
| Dedup.DedupKeepsOrder | fetch_hn.py:132 | survivors keep their input order: of two survivors, the earlier comes from an earlier position, each the last of its key |
| Dedup.DedupSameSplit | clean_db.py:36 | deduplicating by two keys that identify the same elements gives the same result |
| Dedup.DedupCount | clean_csv.py:7 | the number of survivors is the number of distinct keys |
| Dedup.DedupIdempotent | clean_csv.py:7 | deduplicating twice is deduplicating once |
| Dedup.DedupAppend | fetch_hn.py:131-132 | deduplicating `a + b` keeps the rows of `a` whose key `b` lacks, then the deduplicated `b` |
| Dedup.MergeTwice | fetch_hn.py:131-132 | merging the same batch into a merged sequence again changes nothing |
| SqliteStore.ReplaceInto | fetch_hn.py:119-122 | after one `INSERT OR REPLACE` the new row is last and no other row has its key |
| SqliteStore.UpsertRows | fetch_hn.py:119-122 | after inserting a non-empty batch the batch's last row is the table's last row |
| SqliteStore.UpsertRowsClosedForm | fetch_hn.py:119-122 | row-by-row replacement equals: old rows whose key the batch lacks, then the batch deduplicated keeping the last |
| SqliteStore.Upsert | fetch_hn.py:107-122 | columns and key are preserved; on a table without a primary key every batch row is appended |
| SqliteStore.SaveToSqlite | fetch_hn.py:103-126 | the save fails iff an existing `posts` table lacks `objectID` or `created_at`; a successful save leaves a `posts` table |
| SqliteStore.SaveUpserts | fetch_hn.py:107-122 | with the key in place the saved rows are the closed-form upsert of the batch |
| SqliteStore.SaveKeepsKeysUnique | fetch_hn.py:107-122 | with the key in place a key-unique table stays key-unique, and its ids become the old ids plus the batch's |
| SqliteStore.SaveMapView | fetch_hn.py:119-122 | viewed as a map from id, the new table is the old map overridden by the batch's last rows; ids outside the batch are unchanged |
| SqliteStore.SaveTwice | fetch_hn.py:103-126 | with the key in place, saving the same batch twice is saving it once |
| SqliteStore.SaveWithoutKeyDuplicates | fetch_hn.py:107-122 | on a table without a primary key the save appends the whole batch, so a refetched post is stored twice |
| SqliteStore.SaveIntoNewDatabase | fetch_hn.py:104-122 | a first save creates the keyed table holding the batch deduplicated keeping the last |
| CsvStore.WriteCsv | fetch_hn.py:133 | `to_csv` writes every id as its text and keeps row count and order; every other field of each row is written unchanged |
| CsvStore.AsInt | fetch_hn.py:130 | reading one id as an integer changes only the id: a digit id becomes a non-negative integer with the same value, any other id stays the same text |
| CsvStore.ReadCsv | fetch_hn.py:130 | `read_csv` keeps every other field and reads ids as integers iff every id is a run of digits: then each id is the integer its digits spell, otherwise each id is its text |
| CsvStore.ReadWriteRoundTrip | fetch_hn.py:130-133 | reading back a written frame of read shape gives the frame again |
| CsvStore.AppendToCsvAsWritten | fetch_hn.py:128-135 | the script as written: without a file the batch is written as it is, so a batch of text ids comes back unchanged; with a file, the result has at most the file's rows plus the batch's |
| CsvStore.AppendAsWrittenKeepsStale | fetch_hn.py:130-132 | with an all-digit file the result is the stored rows deduplicated among themselves followed by the deduplicated batch: no stored row is ever replaced by a refetched one |
| CsvStore.AppendAsWrittenDuplicates | fetch_hn.py:130-132 | a file holding post "7" and a batch holding post "7" produce two rows for "7" |
| CsvStore.AppendAsWrittenTextFile | fetch_hn.py:130-132 | when some stored id is not a run of digits the column stays text, and the merge as written equals the merge by id text |
| CsvStore.AppendAsWrittenRepeatsKey | fetch_hn.py:130-132 | with an all-digit file, an id both the file and the batch carry ends up twice in the merged file |
| CsvStore.AppendToCsv | fetch_hn.py:128-135 | the merge with ids compared as text: without a file a batch of text ids is written unchanged; with one, at most the file's rows plus the batch's |
| CsvStore.AppendMerges | fetch_hn.py:131-133 | the merged file is the stored rows the batch does not replace followed by the deduplicated batch, with unique ids that are the union of both |
| CsvStore.AppendNewRowsWin | fetch_hn.py:132 | the batch's last row for every id is in the merged file |
| CsvStore.AppendTwice | fetch_hn.py:128-135 | with the merge by id text, appending the same batch twice into an existing file is appending it once |
| CsvStore.AppendTwiceWithoutFile | fetch_hn.py:134-135 | without a file the batch is written with its repeats, so a second append of a batch carrying post "7" twice leaves one row: appending twice is not appending once when no file existed |
| CsvStore.AppendAsWrittenNotIdempotent | fetch_hn.py:130-133 | as written, merging post "7" into a file holding post "7" gives both rows, and merging the same batch again gives the new row twice: the merge as written is not idempotent |
| CsvStore.CleanCsv | clean_csv.py:4-12 | the cleaned frame is sorted by the `created_at` text and is a permutation of the deduplicated frame read from the file |
| CsvStore.CleanCsvUnique | clean_csv.py:4-10 | one row per id, as many rows as distinct ids, each the last row of its id in the file |
| CsvStore.CleanCsvShape | clean_csv.py:4-10 | the cleaned frame still has the shape of a frame `read_csv` returns |
| CsvStore.CleanCsvIdempotent | clean_csv.py:4-12 | cleaning the written result of a clean gives the same rows, as a multiset |
| Sorting.KeyLeTotal | clean_db.py:51-55 | any two sort keys are ordered one way or the other |
| Sorting.KeyLeTransitive | clean_db.py:51-55 | the key order is transitive |
| Sorting.SortBy | clean_db.py:51-55 | the result is a permutation of the input, sorted by the key |
| DbClean.TimeKey | clean_db.py:43-44 | `to_datetime(errors="coerce")`: a parsing `created_at` gives its instant, one that does not parse gives `NaT`; never a text key |
| DbClean.CleanRows | clean_db.py:34-55 | rows as text ids, one per id, the same ids as before, sorted by parsed `created_at` (NaT last) or by id text |
| DbClean.CleanDb | clean_db.py:10-58 | exit code 1 iff the file or the table is missing, or the table has rows and no `objectID`; an empty table exits 0 untouched; otherwise the table is replaced |
| DbClean.CleanDbKeepsLast | clean_db.py:35-49 | the cleaned table has one row per distinct id, each the last row the old table held for it |
| DbClean.CleanDbMergesIdTypes | clean_db.py:35-36 | an integer id 7 and a text id "7" become one row, the later one |
| DbClean.CleanDbIdempotent | clean_db.py:10-58 | a second clean exits as the first did; when the first changed nothing the second changes nothing; otherwise the second writes the same kind of table with the same rows, as a multiset |
| DbClean.CleanThenSaveDuplicates | clean_db.py:58 | the replaced table has no primary key, so the next save stores a refetched post twice |
| DbClean.CleanDbKeepingKey | clean_db.py:58 | the corrected write: same exit codes, and the table keeps its primary key |
| DbClean.CleanKeepingKeyThenSaveUnique | clean_db.py:58 | with the key kept, a save after a clean keeps one row per id |
| Fetch.RunFetch | fetch_hn.py:137-146 | `main` as written, CSV merge included: nothing is written iff no hit is kept; a completed run reports between 1 and the number of hits and leaves both stores present |
| Fetch.RunFetchTextIds | fetch_hn.py:137-146 | the run with the CSV merge by id text ends as `main` does, with the same count and database |
| Fetch.FetchKeepsInSync | fetch_hn.py:144-145 | with the merge by id text, a run from stores that agree never fails and leaves them agreeing: one row per id, the same rows in both |
| Fetch.FetchTwice | fetch_hn.py:144-145 | with the merge by id text, repeating a run with the same hits, from stores that agree, leaves the stores as one run does |
| Fetch.FetchNewestWins | fetch_hn.py:119-122 | after a run on a table that has its key, each id maps to the newest fetched row carrying it, and other ids are unchanged |
| Fetch.FetchAsWrittenLosesSync | fetch_hn.py:144-145 | as written, a run on agreeing stores whose CSV ids are all digits, refetching a stored post, completes but leaves the stores disagreeing |
| Fetch.FirstFetch | fetch_hn.py:134-135 | the first run writes the table deduplicated but the CSV file exactly as the batch, repeats included |

## Left out

- **Network download.** `fetch_hn` (pages, timeouts, `raise_for_status`, the sleep) is network I/O, so the hits are a parameter of `Fetch.RunFetch`.
- **Clock and timestamp parsers.** `parser.isoparse`, `datetime.now`, `pd.to_datetime` and `isoformat` are parameters, namely `iso`, `now` and `parse`.
  - The model does not cover how `to_datetime`, `to_sql` and `to_csv` re-serialise `created_at`. Timestamps are kept as the text the row carries.
  - The model does not cover `NaT` being written as NULL.
- **Text handling outside ASCII.**
  - `str.lower`, `str.strip` and `\w` are modelled for ASCII characters only.
  - Regular expressions other than the two `\b…\b` tokens are not modelled. The keyword table contains no others.
- **Malformed hits.** Every hit carries an `objectID` string and integer counters.
  - A hit without `objectID` is not modelled: fetch_hn.py:82 would give its row `None` as id.
  - A JSON `null` counter is not modelled: the `astype(int)` at fetch_hn.py:94-95 raises on it.
  - A float counter is not modelled: that `astype(int)` truncates it.
- **Other tables and columns.**
  - The `posts_tmp` staging table is not modelled: `to_sql` followed by `DROP TABLE` is a copy of the batch.
  - SQLite column affinity is not modelled.
  - Of an existing table's columns, only `objectID` and `created_at` are modelled.
- **Side effects and other scripts.**
  - `ensure_data_dir` and the `print` messages are left out.
  - `app.py`, `sentiment_test.py` and `sync_data.py` are outside the core.
  - The sentiment column is outside the core.
- **CSV inference.**
  - `read_csv` inference is modelled for the `objectID` column only, and only for non-negative digit strings.
  - Signs and floats are not modelled. Leading zeros are: `CsvStore.AsInt` reads "007" as the integer 7, as `read_csv` does.
  - A missing CSV file in `clean_csv.py` (where `read_csv` raises) is not modelled: `CsvStore.CleanCsv` takes the file's rows.
- Sorting.SortBy: computes one particular sorted permutation by insertion sort. `sort_values` promises only that some sorted permutation comes back, so only permutation and sortedness are stated, not which equal-key order.
- CsvStore.CleanCsv: sorts by the `created_at` text, as `clean_csv.py:4` reads the file without `parse_dates`. The script's own comment (`clean_csv.py:9`, "Sort chronologically") calls this a chronological sort, and it is one only when every timestamp has the same format.
- CsvStore.CleanCsvIdempotent: states that a second clean gives the same rows as a multiset, not in the same order. `sort_values` is not stable, so rows with equal `created_at` may come back in another order.
- DbClean.CleanDbIdempotent: for the same reason, the second clean's rows are stated equal to the first's as a multiset, not in order.
- Text.Strip: its contract bounds the length only; the full meaning of `strip` is stated by Text.StripSpec, kept apart so that proofs using `Strip` stay small.
- RowBuilder.HitsToRows: one `now` serves the whole batch, while fetch_hn.py:78,80 read the clock once per hit, so two hits without a usable `created_at` may get different times there.

## Findings

| source | as written | input that shows it | evidently intended | confidence | as-written member | corrected member |
|---|---|---|---|---|---|---|
| fetch_hn.py:130-132 | `read_csv` reads an all-digit `objectID` column back as integers, while the fetched batch carries string ids, so `drop_duplicates` never matches a stored post with its refetched copy | a CSV file holding post "7" and a batch holding post "7": the merged file has two rows for "7" | ids compared as text, so the refetched row replaces the stored one | high, not executed | CsvStore.AppendAsWrittenDuplicates | CsvStore.AppendMerges |
| clean_db.py:58 | `to_sql(if_exists="replace")` recreates `posts` from the frame without the `objectID TEXT PRIMARY KEY` constraint; the later `INSERT OR REPLACE` then has no key to conflict on and appends | a cleaned table containing post "7" and a fetch batch containing post "7": the table ends with two rows for "7" | the cleaned table keeps its primary key, so later saves still upsert | high, not executed | DbClean.CleanThenSaveDuplicates | DbClean.CleanKeepingKeyThenSaveUnique |
