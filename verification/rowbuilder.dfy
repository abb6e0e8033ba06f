/** Turning a batch of API hits into post rows (`hits_to_df`): pick a title,
    strip it, skip the hit when nothing is left, fill in defaults, and tag the
    language. The timestamp parser and the clock are parameters. */
module RowBuilder {
  import opened Base
  import opened Text
  import opened Posts
  import opened Classifier

  /** `title or story_title or ""`: an absent or empty value falls through to the next. */
  function PickTitle(h: Hit): (t: string)
    ensures h.title.Some? && h.title.value != "" ==> t == h.title.value
    ensures (h.title.None? || h.title.value == "") && h.storyTitle.Some? ==> t == h.storyTitle.value
    ensures t == "" <==> (h.title.None? || h.title.value == "") && (h.storyTitle.None? || h.storyTitle.value == "")
  {
    if h.title.Some? && h.title.value != "" then h.title.value
    else if h.storyTitle.Some? then h.storyTitle.value
    else ""
  }

  /** `if not title: continue` after the strip: the hit yields a row. */
  predicate Kept(h: Hit) {
    Strip(PickTitle(h)) != ""
  }

  /** A hit is kept exactly when its picked title is not all whitespace. */
  lemma KeptMeaning(h: Hit)
    ensures Kept(h) <==> !AllSpace(PickTitle(h))
  {
    StripSpec(PickTitle(h));
  }

  /** What every produced row satisfies: a text id, a non-empty title without
      surrounding whitespace, and the classifier's tag for that title. */
  predicate WellFormed(row: Row) {
    && row.id.TextId?
    && row.title != ""
    && Strip(row.title) == row.title
    && row.language == ClassifyTitle(row.title)
  }

  /** The timestamp of a hit: the parsed and re-formatted `created_at` when it is
      present, non-empty and parses; the current time otherwise. `iso` stands for
      parsing followed by `isoformat()`, returning `None` when parsing fails. */
  function CreatedAt(h: Hit, iso: string -> Option<string>, now: string): (s: string)
    ensures h.createdAt.Some? && h.createdAt.value != "" && iso(h.createdAt.value).Some? ==>
      s == iso(h.createdAt.value).value
    ensures (h.createdAt.None? || h.createdAt.value == "" || iso(h.createdAt.value).None?) ==> s == now
  {
    if h.createdAt.Some? && h.createdAt.value != "" then iso(h.createdAt.value).GetOr(now) else now
  }

  /** The row built for a kept hit; missing counters default to zero. */
  function BuildRow(h: Hit, iso: string -> Option<string>, now: string): (row: Row)
    requires Kept(h)
    ensures WellFormed(row)
    ensures row.id == TextId(h.objectID)
    ensures row.title == Strip(PickTitle(h))
  {
    var title := Strip(PickTitle(h));
    StripIdempotent(PickTitle(h));
    Row(TextId(h.objectID), title, h.url, h.author, h.points.GetOr(0), h.numComments.GetOr(0),
        CreatedAt(h, iso, now), ClassifyTitle(title))
  }

  /** `hits_to_df`: one row per kept hit, in the order of the hits. */
  function HitsToRows(hits: seq<Hit>, iso: string -> Option<string>, now: string): (rows: seq<Row>)
    ensures |rows| <= |hits|
    ensures forall i :: 0 <= i < |rows| ==> WellFormed(rows[i])
    decreases |hits|
  {
    if |hits| == 0 then []
    else
      var rest := HitsToRows(hits[1..], iso, now);
      if Kept(hits[0]) then
        var row := BuildRow(hits[0], iso, now);
        assert forall i :: 0 < i < |[row] + rest| ==> ([row] + rest)[i] == rest[i - 1];
        [row] + rest
      else rest
  }

  /** The rows a single hit contributes: one row when it is kept, none otherwise. */
  function HeadRows(h: Hit, iso: string -> Option<string>, now: string): seq<Row> {
    if Kept(h) then [BuildRow(h, iso, now)] else []
  }

  /** One step of `hits_to_df`'s loop. */
  lemma HitsToRowsStep(hits: seq<Hit>, iso: string -> Option<string>, now: string)
    requires |hits| > 0
    ensures HitsToRows(hits, iso, now) == HeadRows(hits[0], iso, now) + HitsToRows(hits[1..], iso, now)
  {
    var rest := HitsToRows(hits[1..], iso, now);
    if Kept(hits[0]) {
      assert HitsToRows(hits, iso, now) == [BuildRow(hits[0], iso, now)] + rest;
    } else {
      assert HitsToRows(hits, iso, now) == rest;
      assert HeadRows(hits[0], iso, now) + rest == rest;
    }
  }

  /** The rows of two batches are the rows of the first followed by those of the second. */
  lemma {:induction false} HitsToRowsAppend(a: seq<Hit>, b: seq<Hit>, iso: string -> Option<string>, now: string)
    ensures HitsToRows(a + b, iso, now) == HitsToRows(a, iso, now) + HitsToRows(b, iso, now)
    decreases |a|
  {
    if |a| > 0 {
      var ab := a + b;
      assert ab[0] == a[0] && ab[1..] == a[1..] + b;
      HitsToRowsAppend(a[1..], b, iso, now);
      HitsToRowsStep(a, iso, now);
      HitsToRowsStep(ab, iso, now);
      SeqAssoc(HeadRows(a[0], iso, now), HitsToRows(a[1..], iso, now), HitsToRows(b, iso, now));
    } else {
      assert a + b == b;
    }
  }

  /** A row is produced exactly for each kept hit. */
  lemma {:induction false} HitsToRowsMembers(hits: seq<Hit>, iso: string -> Option<string>, now: string, row: Row)
    ensures row in HitsToRows(hits, iso, now) <==>
      exists i :: 0 <= i < |hits| && Kept(hits[i]) && row == BuildRow(hits[i], iso, now)
    decreases |hits|
  {
    if |hits| > 0 {
      HitsToRowsMembers(hits[1..], iso, now, row);
      assert forall i :: 1 <= i < |hits| ==> hits[i] == hits[1..][i - 1];
      if exists i :: 0 <= i < |hits| && Kept(hits[i]) && row == BuildRow(hits[i], iso, now) {
        var i :| 0 <= i < |hits| && Kept(hits[i]) && row == BuildRow(hits[i], iso, now);
        if i > 0 {
          assert hits[1..][i - 1] == hits[i];
        }
      }
    }
  }

  /** The batch is empty exactly when no hit is kept (the guard of `main`). */
  lemma {:induction false} HitsToRowsEmpty(hits: seq<Hit>, iso: string -> Option<string>, now: string)
    ensures HitsToRows(hits, iso, now) == [] <==> forall i :: 0 <= i < |hits| ==> !Kept(hits[i])
    decreases |hits|
  {
    if |hits| > 0 {
      HitsToRowsEmpty(hits[1..], iso, now);
      assert forall i :: 1 <= i < |hits| ==> hits[i] == hits[1..][i - 1];
    }
  }

  /** A title of only whitespace is chosen over `story_title` (it is not empty),
      then stripped to nothing: the hit is skipped whatever its `story_title`. */
  lemma WhitespaceTitleDropsHit(h: Hit)
    requires h.title.Some? && h.title.value != "" && AllSpace(h.title.value)
    ensures !Kept(h)
  {
    StripSpec(h.title.value);
  }

  /** An absent or empty title falls back to `story_title`. */
  lemma StoryTitleFallback(h: Hit, iso: string -> Option<string>, now: string)
    requires h.title.None? || h.title.value == ""
    requires h.storyTitle.Some? && !AllSpace(h.storyTitle.value)
    ensures Kept(h)
    ensures BuildRow(h, iso, now).title == Strip(h.storyTitle.value)
  {
    StripSpec(h.storyTitle.value);
  }

  /** Missing counters become zero and present ones are kept, as are `url` and
      `author`; a missing or unparseable timestamp becomes `now`. */
  lemma BuildRowDefaults(h: Hit, iso: string -> Option<string>, now: string)
    requires Kept(h)
    ensures h.points.None? ==> BuildRow(h, iso, now).points == 0
    ensures h.numComments.None? ==> BuildRow(h, iso, now).numComments == 0
    ensures h.points.Some? ==> BuildRow(h, iso, now).points == h.points.value
    ensures h.numComments.Some? ==> BuildRow(h, iso, now).numComments == h.numComments.value
    ensures BuildRow(h, iso, now).url == h.url && BuildRow(h, iso, now).author == h.author
    ensures (h.createdAt.None? || h.createdAt.value == "" || iso(h.createdAt.value).None?) ==>
      BuildRow(h, iso, now).createdAt == now
    ensures h.createdAt.Some? && h.createdAt.value != "" && iso(h.createdAt.value).Some? ==>
      BuildRow(h, iso, now).createdAt == iso(h.createdAt.value).value
  {
  }
}
