/** Language tagging of a post title (`classify_title` in fetch_hn.py): an ordered
    table of (language, tokens); the first language with a matching token wins.
    Tokens that start with `\b` or end with a space are handed to the regex engine,
    all others are plain substring tests. Matching works on ASCII text; `\w` is
    taken to be `[A-Za-z0-9_]`. */
module Classifier {
  import opened Base
  import opened Text

  /** A compiled token: a plain substring test, or the regex `\b<w>\b`. */
  datatype Token = Substring(s: string) | WholeWord(w: string)

  /** A table entry: the language tag and its tokens, in order. */
  type Entry = (string, seq<Token>)

  /** The keyword table as written in fetch_hn.py (`LANG_KEYWORDS`), tokens still as raw strings
      (`"\\bc\\b"` is the two-character `\b`, a `c`, and `\b` again). */
  function RawKeywords(): seq<(string, seq<string>)> {
    [ ("python", ["python"]),
      ("javascript", ["javascript", "js", "node", "nodejs"]),
      ("java", ["java"]),
      ("c++", ["c++", "cpp"]),
      ("c#", ["c#", "c sharp"]),
      ("c", ["\\bc\\b"]),
      ("go", ["golang", "go "]),
      ("rust", ["rust"]),
      ("typescript", ["typescript", "ts "]),
      ("ruby", ["ruby"]),
      ("php", ["php"]),
      ("swift", ["swift"]),
      ("kotlin", ["kotlin"]),
      ("scala", ["scala"]),
      ("r", ["\\br\\b"]),
      ("dart", ["dart"]),
      ("haskell", ["haskell"]),
      ("perl", ["perl"]),
      ("shell", ["bash", "shell", "sh", "zsh"]),
      ("sql", ["sql"]) ]
  }

  /** The dispatch of the token loop: a token goes to the regex engine when it
      starts with `\b` or ends with a space. */
  predicate UsesRegex(raw: string) {
    (|raw| >= 2 && raw[..2] == "\\b") || (|raw| > 0 && raw[|raw| - 1] == ' ')
  }

  /** What a raw token tests. The regex tokens of the table are either a literal
      wrapped in `\b ... \b`, or a literal with no metacharacter at all
      (`"go "`, `"ts "`), which the regex engine matches as a substring. */
  function Compile(raw: string): Token {
    if UsesRegex(raw) && |raw| >= 4 && raw[..2] == "\\b" && raw[|raw| - 2..] == "\\b"
    then WholeWord(raw[2..|raw| - 2])
    else Substring(raw)
  }

  /** The keyword table with its tokens compiled. */
  function LangTable(): seq<Entry> {
    [ ("python", [Substring("python")]),
      ("javascript", [Substring("javascript"), Substring("js"), Substring("node"), Substring("nodejs")]),
      ("java", [Substring("java")]),
      ("c++", [Substring("c++"), Substring("cpp")]),
      ("c#", [Substring("c#"), Substring("c sharp")]),
      ("c", [WholeWord("c")]),
      ("go", [Substring("golang"), Substring("go ")]),
      ("rust", [Substring("rust")]),
      ("typescript", [Substring("typescript"), Substring("ts ")]),
      ("ruby", [Substring("ruby")]),
      ("php", [Substring("php")]),
      ("swift", [Substring("swift")]),
      ("kotlin", [Substring("kotlin")]),
      ("scala", [Substring("scala")]),
      ("r", [WholeWord("r")]),
      ("dart", [Substring("dart")]),
      ("haskell", [Substring("haskell")]),
      ("perl", [Substring("perl")]),
      ("shell", [Substring("bash"), Substring("shell"), Substring("sh"), Substring("zsh")]),
      ("sql", [Substring("sql")]) ]
  }

  /** The closed set of language tags. */
  const Languages: set<string> := {
    "python", "javascript", "java", "c++", "c#", "c", "go", "rust", "typescript", "ruby",
    "php", "swift", "kotlin", "scala", "r", "dart", "haskell", "perl", "shell", "sql" }

  /** An entry of the compiled table is a raw entry put through the dispatch. */
  predicate CompiledEntry(e: Entry, raw: (string, seq<string>)) {
    && e.0 == raw.0
    && |e.1| == |raw.1|
    && forall k :: 0 <= k < |e.1| ==> e.1[k] == Compile(raw.1[k])
  }

  /** The compiled table is the `LANG_KEYWORDS` table of fetch_hn.py, entry by entry and token by token,
      put through the dispatch; only the `c` and `r` tokens are whole-word tests. */
  lemma LangTableCompiled()
    ensures |LangTable()| == |RawKeywords()| == 20
    ensures forall i :: 0 <= i < 20 ==> CompiledEntry(LangTable()[i], RawKeywords()[i])
    ensures forall i, k :: 0 <= i < 20 && 0 <= k < |LangTable()[i].1| && LangTable()[i].1[k].WholeWord? ==> i == 5 || i == 14
  {
    CompiledBlock1();
    CompiledBlock2();
    CompiledBlock3();
    CompiledBlock4();
    CompiledBlock5();
  }

  // The table is checked against `LANG_KEYWORDS` in blocks of about ten tokens, to
  // keep each proof small.

  lemma CompiledBlock1()
    ensures forall i :: 0 <= i < 2 ==> CompiledEntry(LangTable()[i], RawKeywords()[i])
  {
  }

  lemma CompiledBlock2()
    ensures forall i :: 2 <= i < 5 ==> CompiledEntry(LangTable()[i], RawKeywords()[i])
  {
  }

  lemma CompiledBlock3()
    ensures forall i :: 5 <= i < 10 ==> CompiledEntry(LangTable()[i], RawKeywords()[i])
  {
  }

  lemma CompiledBlock4()
    ensures forall i :: 10 <= i < 15 ==> CompiledEntry(LangTable()[i], RawKeywords()[i])
  {
  }

  lemma CompiledBlock5()
    ensures forall i :: 15 <= i < 20 ==> CompiledEntry(LangTable()[i], RawKeywords()[i])
  {
  }

  /** Every tag of the table belongs to the closed set, and no tag appears twice. */
  lemma LangTableTags()
    ensures forall i :: 0 <= i < |LangTable()| ==> LangTable()[i].0 in Languages
    ensures forall i, j :: 0 <= i < j < |LangTable()| ==> LangTable()[i].0 != LangTable()[j].0
  {
    DistinctTags1();
    DistinctTags2();
    DistinctTags3();
    DistinctTags4();
  }

  // Tag distinctness, checked in blocks of five rows to keep each proof small.

  lemma DistinctTags1()
    ensures forall i, j :: 0 <= i < 5 && i < j < 20 ==> LangTable()[i].0 != LangTable()[j].0
  {
  }

  lemma DistinctTags2()
    ensures forall i, j :: 5 <= i < 10 && i < j < 20 ==> LangTable()[i].0 != LangTable()[j].0
  {
  }

  lemma DistinctTags3()
    ensures forall i, j :: 10 <= i < 15 && i < j < 20 ==> LangTable()[i].0 != LangTable()[j].0
  {
  }

  lemma DistinctTags4()
    ensures forall i, j :: 15 <= i < 20 && i < j < 20 ==> LangTable()[i].0 != LangTable()[j].0
  {
  }

  // ---------------------------------------------------------------------------
  // Matching
  // ---------------------------------------------------------------------------

  /** Whether a token matches the (already lower-cased) title. */
  predicate TokenMatches(tok: Token, t: string) {
    match tok
    case Substring(s) => Contains(t, s)
    case WholeWord(w) => HasWholeWord(t, w)
  }

  /** Some token of the entry matches. */
  predicate EntryMatches(e: Entry, t: string) {
    exists k :: 0 <= k < |e.1| && TokenMatches(e.1[k], t)
  }

  /** Entry `i` matches and no earlier entry does. */
  predicate FirstMatchAt(table: seq<Entry>, t: string, i: int) {
    0 <= i < |table| && EntryMatches(table[i], t)
    && forall j :: 0 <= j < i ==> !EntryMatches(table[j], t)
  }

  lemma FirstMatchAtUnique(table: seq<Entry>, t: string, i: int, j: int)
    requires FirstMatchAt(table, t, i) && FirstMatchAt(table, t, j)
    ensures i == j
  {
  }

  /** The inner token loop: is there a matching token? */
  function AnyTokenMatches(toks: seq<Token>, t: string): (b: bool)
    ensures b <==> exists k :: 0 <= k < |toks| && TokenMatches(toks[k], t)
    decreases |toks|
  {
    if |toks| == 0 then false
    else if TokenMatches(toks[0], t) then true
    else
      var b := AnyTokenMatches(toks[1..], t);
      assert forall k :: 1 <= k < |toks| ==> toks[k] == toks[1..][k - 1];
      b
  }

  /** The outer loop: the tag of the first entry with a matching token. It is
      `None` exactly when no entry matches. */
  function FirstMatch(table: seq<Entry>, t: string): (r: Option<string>)
    ensures r.None? <==> forall i :: 0 <= i < |table| ==> !EntryMatches(table[i], t)
    ensures r.Some? ==> exists i :: FirstMatchAt(table, t, i) && table[i].0 == r.value
    decreases |table|
  {
    if |table| == 0 then None
    else if AnyTokenMatches(table[0].1, t) then
      assert FirstMatchAt(table, t, 0);
      Some(table[0].0)
    else
      var r := FirstMatch(table[1..], t);
      assert forall i :: 1 <= i < |table| ==> table[i] == table[1..][i - 1];
      assert r.Some? ==> exists i :: FirstMatchAt(table, t, i) && table[i].0 == r.value by {
        if r.Some? {
          var i :| FirstMatchAt(table[1..], t, i) && table[1..][i].0 == r.value;
          assert FirstMatchAt(table, t, i + 1);
        }
      }
      r
  }

  /** `classify_title`: the first language of the table with a token matching
      the lower-cased title; `None` when no token of any language matches. The
      tag is always one of the twenty languages. */
  function ClassifyTitle(title: string): (r: Option<string>)
    ensures r.None? <==> forall i :: 0 <= i < |LangTable()| ==> !EntryMatches(LangTable()[i], Lower(title))
    ensures r.Some? ==> exists i :: FirstMatchAt(LangTable(), Lower(title), i) && LangTable()[i].0 == r.value
    ensures r.Some? ==> r.value in Languages
  {
    LangTableTags();
    FirstMatch(LangTable(), Lower(title))
  }

  /** Once entry `i` is the first to match, the outer loop yields its language. */
  lemma FirstMatchAtValue(table: seq<Entry>, t: string, i: int)
    requires FirstMatchAt(table, t, i)
    ensures FirstMatch(table, t) == Some(table[i].0)
  {
    var r := FirstMatch(table, t);
    assert r.Some?;
    var i' :| FirstMatchAt(table, t, i') && table[i'].0 == r.value;
    FirstMatchAtUnique(table, t, i, i');
  }

  /** The token loops as `classify_title` in fetch_hn.py writes them, returning from inside the inner loop. */
  method ClassifyTitleLoop(title: string) returns (r: Option<string>)
    ensures r == ClassifyTitle(title)
  {
    r := FirstMatchLoop(LangTable(), Lower(title));
  }

  /** The two loops over a table, the outer over entries and the inner over tokens. */
  method FirstMatchLoop(table: seq<Entry>, t: string) returns (r: Option<string>)
    ensures r == FirstMatch(table, t)
  {
    var i := 0;
    while i < |table|
      invariant 0 <= i <= |table|
      invariant forall j :: 0 <= j < i ==> !EntryMatches(table[j], t)
    {
      var toks := table[i].1;
      var k := 0;
      while k < |toks|
        invariant 0 <= k <= |toks|
        invariant forall m :: 0 <= m < k ==> !TokenMatches(toks[m], t)
      {
        var hit := match toks[k]
          case Substring(s) => Contains(t, s)
          case WholeWord(w) => HasWholeWord(t, w);
        if hit {
          assert EntryMatches(table[i], t);
          FirstMatchAtValue(table, t, i);
          return Some(table[i].0);
        }
        k := k + 1;
      }
      i := i + 1;
    }
    return None;
  }

  // ---------------------------------------------------------------------------
  // Properties of the table
  // ---------------------------------------------------------------------------

  /** Only the lower-cased title is inspected, so case does not matter. */
  lemma ClassifyIgnoresCase(title: string)
    ensures ClassifyTitle(Lower(title)) == ClassifyTitle(title)
  {
    LowerIdempotent(title);
  }

  /** When entry `i` matches, the tag comes from entry `i` or an earlier one. */
  lemma ClassifyAtMost(title: string, i: int)
    requires 0 <= i < |LangTable()| && EntryMatches(LangTable()[i], Lower(title))
    ensures ClassifyTitle(title).Some?
    ensures exists j :: 0 <= j <= i && ClassifyTitle(title) == Some(LangTable()[j].0)
  {
  }

  /** Plain tokens are substring tests: any title containing "python" is tagged `python`. */
  lemma PythonAnywhere(title: string)
    requires Contains(Lower(title), "python")
    ensures ClassifyTitle(title) == Some("python")
  {
    assert TokenMatches(LangTable()[0].1[0], Lower(title));
    ClassifyAtMost(title, 0);
  }

  /** A title containing "javascript" also contains "java", yet it is never tagged
      `java`: the `javascript` entry comes first. */
  lemma JavascriptBeforeJava(title: string)
    requires Contains(Lower(title), "javascript")
    ensures ClassifyTitle(title) == Some("python") || ClassifyTitle(title) == Some("javascript")
  {
    assert TokenMatches(LangTable()[1].1[0], Lower(title));
    ClassifyAtMost(title, 1);
  }

  /** "c++" is tried before the whole-word `c`, so such a title is never tagged `c`. */
  lemma CppBeforeC(title: string)
    requires Contains(Lower(title), "c++")
    ensures ClassifyTitle(title) != Some("c")
    ensures ClassifyTitle(title) in {Some("python"), Some("javascript"), Some("java"), Some("c++")}
  {
    LeadingEntries();
    assert TokenMatches(LangTable()[3].1[0], Lower(title));
    ClassifyAtMost(title, 3);
    var j :| 0 <= j <= 3 && ClassifyTitle(title) == Some(LangTable()[j].0);
    assert j == 0 || j == 1 || j == 2 || j == 3;
  }

  /** The first four entries of the table. */
  lemma LeadingEntries()
    ensures |LangTable()| == 20
    ensures LangTable()[0].0 == "python" && LangTable()[1].0 == "javascript"
    ensures LangTable()[2].0 == "java" && LangTable()[3] == ("c++", [Substring("c++"), Substring("cpp")])
  {
  }

  /** The `shell` token "sh" is a plain substring, so every "Show HN" title gets
      some tag: `shell` unless an earlier language matches. */
  lemma ShowHnAlwaysTagged(title: string)
    requires Contains(Lower(title), "show hn")
    ensures ClassifyTitle(title).Some?
  {
    var t := Lower(title);
    var i :| OccursAt(t, "show hn", i);
    assert t[i..i + 2] == t[i..i + 7][..2];
    assert OccursAt(t, "sh", i);
    assert TokenMatches(LangTable()[18].1[2], t);
    ClassifyAtMost(title, 18);
  }

  /** The tag `c` needs a `c` standing as a whole word: a `c` inside another word never yields it. */
  lemma TagCIsWholeWord(title: string)
    requires ClassifyTitle(title) == Some("c")
    ensures exists i :: WholeWordAt(Lower(title), "c", i)
  {
    var t := Lower(title);
    var i :| FirstMatchAt(LangTable(), t, i) && LangTable()[i].0 == "c";
    WholeWordEntries();
    TagIndex(i, 5);
    WholeWordEntryMatches(LangTable()[5], t, "c");
  }

  /** Likewise for the tag `r`. */
  lemma TagRIsWholeWord(title: string)
    requires ClassifyTitle(title) == Some("r")
    ensures exists i :: WholeWordAt(Lower(title), "r", i)
  {
    var t := Lower(title);
    var i :| FirstMatchAt(LangTable(), t, i) && LangTable()[i].0 == "r";
    WholeWordEntries();
    TagIndex(i, 14);
    WholeWordEntryMatches(LangTable()[14], t, "r");
  }

  /** The entries of `c` and `r`, the two whole-word tests. */
  lemma WholeWordEntries()
    ensures |LangTable()| == 20
    ensures LangTable()[5] == ("c", [WholeWord("c")])
    ensures LangTable()[14] == ("r", [WholeWord("r")])
  {
  }

  /** A tag names one entry of the table. */
  lemma TagIndex(i: int, j: int)
    requires 0 <= i < |LangTable()| && 0 <= j < |LangTable()|
    requires LangTable()[i].0 == LangTable()[j].0
    ensures i == j
  {
    LangTableTags();
  }

  /** An entry whose only token is a whole word matches where the word stands alone. */
  lemma WholeWordEntryMatches(e: Entry, t: string, w: string)
    requires e.1 == [WholeWord(w)] && EntryMatches(e, t)
    ensures exists i :: WholeWordAt(t, w, i)
  {
    var k :| 0 <= k < |e.1| && TokenMatches(e.1[k], t);
    assert e.1[k] == WholeWord(w);
  }
}
