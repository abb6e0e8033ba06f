/** The records the pipeline moves around: a raw API hit and a post row
    (one line of `hn_data.csv`, one row of the `posts` table). */
module Posts {
  import opened Base
  import opened Text

  /** An `objectID` cell. The API delivers text; a CSV reader that infers
      column types, or a table written from such a frame, yields integers. */
  datatype Id = TextId(text: string) | IntId(n: int)

  /** The text of an id: pandas `astype(str)`, SQLite TEXT affinity, and what a
      CSV writer prints. */
  function IdText(id: Id): (s: string)
    ensures id.TextId? ==> s == id.text
    ensures id.IntId? && id.n >= 0 ==> IsDigits(s) && ParseNat(s) == id.n
    ensures id.IntId? && id.n < 0 ==> |s| > 0 && s[0] == '-'
  {
    match id
    case TextId(s) => s
    case IntId(n) =>
      if n >= 0 then ParseNatText(n); IntText(n) else IntText(n)
  }

  /** One post. `createdAt` is the stored timestamp text; `language` is the
      classifier's tag or NULL. */
  datatype Row = Row(
    id: Id,
    title: string,
    url: Option<string>,
    author: Option<string>,
    points: int,
    numComments: int,
    createdAt: string,
    language: Option<string>)

  /** The id as a value (how pandas compares an object column). */
  function RowId(r: Row): Id {
    r.id
  }

  /** The id as text (after `astype(str)`, or as a TEXT primary key). */
  function RowKey(r: Row): string {
    IdText(r.id)
  }

  /** The row with its id replaced by the id's text (`astype(str)`, or a CSV
      writer printing it). */
  function AsText(r: Row): Row {
    r.(id := TextId(RowKey(r)))
  }

  /** One hit of the search API; `None` is a key the hit lacks. */
  datatype Hit = Hit(
    objectID: string,
    title: Option<string>,
    storyTitle: Option<string>,
    url: Option<string>,
    author: Option<string>,
    points: Option<int>,
    numComments: Option<int>,
    createdAt: Option<string>)
}
