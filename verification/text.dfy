/** String primitives the pipeline relies on, restricted to ASCII:
    `str.lower`, `str.strip`, substring search, the regex word boundary `\b`,
    Python's code-point string order, and decimal integer text (as produced by
    `str(int)` and recognised by the integer inference of a CSV reader). */
module Text {

  // ---------------------------------------------------------------------------
  // Lower-casing
  // ---------------------------------------------------------------------------

  predicate IsUpper(c: char) {
    'A' <= c <= 'Z'
  }

  function LowerChar(c: char): (d: char)
    ensures !IsUpper(d)
    ensures IsUpper(c) ==> d as int == c as int + 32
    ensures !IsUpper(c) ==> d == c
  {
    if IsUpper(c) then (c as int + 32) as char else c
  }

  /** `str.lower()` on ASCII text: letters A-Z become a-z, everything else is kept. */
  function Lower(s: string): (r: string)
    ensures |r| == |s|
    ensures forall i :: 0 <= i < |s| ==> r[i] == LowerChar(s[i])
  {
    seq(|s|, i requires 0 <= i < |s| => LowerChar(s[i]))
  }

  /** Lower-casing twice is lower-casing once. */
  lemma LowerIdempotent(s: string)
    ensures Lower(Lower(s)) == Lower(s)
  {
  }

  // ---------------------------------------------------------------------------
  // Stripping
  // ---------------------------------------------------------------------------

  /** The ASCII characters for which Python's `str.isspace()` holds. */
  predicate IsSpace(c: char) {
    // space, tab, line feed, vertical tab, form feed, carriage return,
    // and the four information separators 0x1C-0x1F
    c == ' ' || 9 <= c as int <= 13 || 28 <= c as int <= 31
  }

  predicate AllSpace(s: string) {
    forall i :: 0 <= i < |s| ==> IsSpace(s[i])
  }

  function StripLeft(s: string): (r: string)
    ensures |r| <= |s|
  {
    if |s| > 0 && IsSpace(s[0]) then StripLeft(s[1..]) else s
  }

  function StripRight(s: string): (r: string)
    ensures |r| <= |s|
  {
    if |s| > 0 && IsSpace(s[|s| - 1]) then StripRight(s[..|s| - 1]) else s
  }

  /** The left strip removes a whitespace prefix and stops at a non-space. */
  lemma {:induction false} StripLeftSpec(s: string)
    ensures StripLeft(s) == s[|s| - |StripLeft(s)|..]
    ensures AllSpace(s[..|s| - |StripLeft(s)|])
    ensures |StripLeft(s)| > 0 ==> !IsSpace(StripLeft(s)[0])
    decreases |s|
  {
    if |s| > 0 && IsSpace(s[0]) {
      StripLeftSpec(s[1..]);
      var r := StripLeft(s);
      assert s[1..][..|s| - 1 - |r|] == s[1..|s| - |r|];
      assert s[1..][|s| - 1 - |r|..] == s[|s| - |r|..];
    }
  }

  /** The right strip removes a whitespace suffix and stops at a non-space. */
  lemma {:induction false} StripRightSpec(s: string)
    ensures StripRight(s) == s[..|StripRight(s)|]
    ensures AllSpace(s[|StripRight(s)|..])
    ensures |StripRight(s)| > 0 ==> !IsSpace(StripRight(s)[|StripRight(s)| - 1])
    decreases |s|
  {
    if |s| > 0 && IsSpace(s[|s| - 1]) {
      StripRightSpec(s[..|s| - 1]);
      var r := StripRight(s);
      assert s[..|s| - 1][..|r|] == s[..|r|];
      assert s[..|s| - 1][|r|..] == s[|r|..|s| - 1];
    }
  }

  /** `r` is `s` with the whitespace prefix `s[..i]` and a whitespace suffix removed. */
  predicate TrimmedAt(s: string, r: string, i: int) {
    0 <= i <= |s| - |r| && r == s[i..i + |r|] && AllSpace(s[..i]) && AllSpace(s[i + |r|..])
  }

  /** `str.strip()`: removes leading and trailing whitespace. */
  function Strip(s: string): (r: string)
    ensures |r| <= |s|
  {
    StripRight(StripLeft(s))
  }

  /** What the strip leaves: a slice of `s` between two runs of whitespace, empty
      exactly when `s` is all whitespace, and otherwise starting and ending with
      a non-space character. */
  lemma StripSpec(s: string)
    ensures exists i :: TrimmedAt(s, Strip(s), i)
    ensures |Strip(s)| > 0 ==> !IsSpace(Strip(s)[0]) && !IsSpace(Strip(s)[|Strip(s)| - 1])
    ensures Strip(s) == [] <==> AllSpace(s)
  {
    StripSlice(s);
    StripEnds(s);
    StripEmpty(s);
    assert TrimmedAt(s, Strip(s), |s| - |StripLeft(s)|);
  }

  lemma StripSlice(s: string)
    ensures TrimmedAt(s, StripRight(StripLeft(s)), |s| - |StripLeft(s)|)
  {
    var l := StripLeft(s);
    var r := StripRight(l);
    var i := |s| - |l|;
    StripLeftSpec(s);
    StripRightSpec(l);
    assert r == s[i..i + |r|];
    assert l[|r|..] == s[i + |r|..];
  }

  lemma StripEnds(s: string)
    ensures var r := StripRight(StripLeft(s));
      |r| > 0 ==> !IsSpace(r[0]) && !IsSpace(r[|r| - 1])
  {
    var l := StripLeft(s);
    var r := StripRight(l);
    StripLeftSpec(s);
    StripRightSpec(l);
    if |r| > 0 {
      assert r[0] == l[0];
    }
  }

  lemma StripEmpty(s: string)
    ensures StripRight(StripLeft(s)) == [] <==> AllSpace(s)
  {
    var l := StripLeft(s);
    var r := StripRight(l);
    var i := |s| - |l|;
    StripSlice(s);
    StripLeftSpec(s);
    StripRightSpec(l);
    if r == [] {
      // a non-empty `l` starts with a non-space, so the right strip would keep it
      assert l == [];
      assert s[..i] == s;
    } else {
      StripEnds(s);
      assert r[0] == s[i];
    }
  }

  /** A string with no leading or trailing whitespace is left alone by the strip. */
  lemma StripTrimmed(s: string)
    requires |s| > 0 ==> !IsSpace(s[0]) && !IsSpace(s[|s| - 1])
    ensures Strip(s) == s
  {
    if |s| > 0 {
      assert StripLeft(s) == s;
    }
  }

  /** Stripping twice is stripping once. */
  lemma StripIdempotent(s: string)
    ensures Strip(Strip(s)) == Strip(s)
  {
    StripSpec(s);
    StripTrimmed(Strip(s));
  }

  // ---------------------------------------------------------------------------
  // Substring and whole-word search
  // ---------------------------------------------------------------------------

  /** `w` occurs in `t` starting at index `i`. */
  predicate OccursAt(t: string, w: string, i: int) {
    0 <= i && i + |w| <= |t| && t[i..i + |w|] == w
  }

  /** Python's `w in t`. */
  function Contains(t: string, w: string): (b: bool)
    ensures b <==> exists i :: OccursAt(t, w, i)
    decreases |t|
  {
    if |t| < |w| then false
    else if t[..|w|] == w then
      assert OccursAt(t, w, 0);
      true
    else
      var b := Contains(t[1..], w);
      assert forall i :: OccursAt(t[1..], w, i) <==> OccursAt(t, w, i + 1) by {
        forall i ensures OccursAt(t[1..], w, i) <==> OccursAt(t, w, i + 1) {
          if 0 <= i && i + |w| <= |t[1..]| {
            assert t[1..][i..i + |w|] == t[i + 1..i + 1 + |w|];
          }
        }
      }
      assert (exists i :: OccursAt(t, w, i)) ==> exists i :: OccursAt(t[1..], w, i) by {
        if exists i :: OccursAt(t, w, i) {
          var i :| OccursAt(t, w, i);
          assert i != 0;
          assert OccursAt(t[1..], w, i - 1);
        }
      }
      b
  }

  /** ASCII `\w`: letters, digits and underscore. */
  predicate IsWordChar(c: char) {
    'a' <= c <= 'z' || 'A' <= c <= 'Z' || '0' <= c <= '9' || c == '_'
  }

  /** The character at `p` exists and is a word character. */
  predicate WordAt(t: string, p: int) {
    0 <= p < |t| && IsWordChar(t[p])
  }

  /** Regex `\b` at position `p`: a word character on exactly one side. */
  predicate Boundary(t: string, p: int) {
    WordAt(t, p - 1) != WordAt(t, p)
  }

  /** The regex `\b` + `w` + `\b` matches at `i`. */
  predicate WholeWordAt(t: string, w: string, i: int) {
    OccursAt(t, w, i) && Boundary(t, i) && Boundary(t, i + |w|)
  }

  function HasWholeWordFrom(t: string, w: string, p: nat): (b: bool)
    ensures b <==> exists i :: p <= i && WholeWordAt(t, w, i)
    decreases |t| - p
  {
    if p + |w| > |t| then false
    else if WholeWordAt(t, w, p) then true
    else
      var b := HasWholeWordFrom(t, w, p + 1);
      assert (exists i :: p <= i && WholeWordAt(t, w, i)) ==> exists i :: p + 1 <= i && WholeWordAt(t, w, i) by {
        if exists i :: p <= i && WholeWordAt(t, w, i) {
          var i :| p <= i && WholeWordAt(t, w, i);
          assert i != p;
        }
      }
      b
  }

  /** `re.search(r"\b" + w + r"\b", t)` finds a match. */
  function HasWholeWord(t: string, w: string): (b: bool)
    ensures b <==> exists i :: WholeWordAt(t, w, i)
  {
    HasWholeWordFrom(t, w, 0)
  }

  // ---------------------------------------------------------------------------
  // Python string order
  // ---------------------------------------------------------------------------

  /** `a <= b` on Python strings: lexicographic by code point, a proper prefix first. */
  predicate LexLe(a: string, b: string)
    decreases |a|
  {
    |a| == 0 || (|b| > 0 && (a[0] < b[0] || (a[0] == b[0] && LexLe(a[1..], b[1..]))))
  }

  /** `a` is a prefix of `b`. */
  predicate IsPrefix(a: string, b: string) {
    |a| <= |b| && a == b[..|a|]
  }

  /** `a` and `b` first differ at position `k`, where `a` has the smaller character. */
  predicate FirstDiffBelow(a: string, b: string, k: int) {
    0 <= k < |a| && k < |b| && a[..k] == b[..k] && a[k] < b[k]
  }

  /** The order the recursion computes is the textbook one: `a <= b` exactly when
      `a` is a prefix of `b` or, at the first position where they differ, `a` has
      the smaller character. */
  lemma {:induction false} LexLeSpec(a: string, b: string)
    ensures LexLe(a, b) <==> IsPrefix(a, b) || exists k :: FirstDiffBelow(a, b, k)
    decreases |a|
  {
    if |a| == 0 {
    } else if |b| == 0 {
    } else if a[0] < b[0] {
      assert FirstDiffBelow(a, b, 0);
    } else if a[0] != b[0] {
      assert !IsPrefix(a, b);
      forall k | 0 < k ensures !FirstDiffBelow(a, b, k) {
        FirstDiffHead(a, b, k);
      }
    } else {
      LexLeSpec(a[1..], b[1..]);
      PrefixStep(a, b);
      DiffStep(a, b);
    }
  }

  /** Strings that first differ after position 0 share their first character. */
  lemma FirstDiffHead(a: string, b: string, k: int)
    ensures FirstDiffBelow(a, b, k) && k > 0 ==> a[0] == b[0]
  {
    if FirstDiffBelow(a, b, k) && k > 0 {
      assert a[0] == a[..k][0] && b[0] == b[..k][0];
    }
  }

  /** Removing a shared first character keeps the prefix relation. */
  lemma PrefixStep(a: string, b: string)
    requires |a| > 0 && |b| > 0 && a[0] == b[0]
    ensures IsPrefix(a, b) <==> IsPrefix(a[1..], b[1..])
  {
    if IsPrefix(a[1..], b[1..]) {
      assert a == [a[0]] + a[1..] && b[..|a|] == [b[0]] + b[1..][..|a| - 1];
    }
    if IsPrefix(a, b) {
      assert a[1..] == b[..|a|][1..];
    }
  }

  /** Removing a shared first character moves the first difference one place left. */
  lemma DiffStep(a: string, b: string)
    requires |a| > 0 && |b| > 0 && a[0] == b[0]
    ensures (exists k :: FirstDiffBelow(a, b, k)) <==> (exists k :: FirstDiffBelow(a[1..], b[1..], k))
  {
    if exists k :: FirstDiffBelow(a, b, k) {
      var k :| FirstDiffBelow(a, b, k);
      assert k > 0;
      assert a[1..][..k - 1] == a[..k][1..] && b[1..][..k - 1] == b[..k][1..];
      assert FirstDiffBelow(a[1..], b[1..], k - 1);
    }
    if exists k :: FirstDiffBelow(a[1..], b[1..], k) {
      var k :| FirstDiffBelow(a[1..], b[1..], k);
      assert a[..k + 1] == [a[0]] + a[1..][..k] && b[..k + 1] == [b[0]] + b[1..][..k];
      assert FirstDiffBelow(a, b, k + 1);
    }
  }

  lemma {:induction false} LexLeTotal(a: string, b: string)
    ensures LexLe(a, b) || LexLe(b, a)
    decreases |a|
  {
    if |a| > 0 && |b| > 0 && a[0] == b[0] {
      LexLeTotal(a[1..], b[1..]);
    }
  }

  lemma {:induction false} LexLeTransitive(a: string, b: string, c: string)
    requires LexLe(a, b) && LexLe(b, c)
    ensures LexLe(a, c)
    decreases |a|
  {
    if |a| > 0 && a[0] == b[0] && b[0] == c[0] {
      LexLeTransitive(a[1..], b[1..], c[1..]);
    }
  }

  // ---------------------------------------------------------------------------
  // Decimal integer text
  // ---------------------------------------------------------------------------

  predicate IsDigit(c: char) {
    '0' <= c <= '9'
  }

  /** A non-empty run of decimal digits: the cells a CSV reader turns into integers. */
  predicate IsDigits(s: string) {
    |s| > 0 && forall i :: 0 <= i < |s| ==> IsDigit(s[i])
  }

  function DigitChar(d: nat): (c: char)
    requires d < 10
    ensures IsDigit(c)
  {
    ('0' as int + d) as char
  }

  function DigitValue(c: char): (d: nat)
    requires IsDigit(c)
    ensures d < 10
  {
    c as int - '0' as int
  }

  /** The value of a run of decimal digits (leading zeros allowed). */
  function ParseNat(s: string): nat
    requires forall i :: 0 <= i < |s| ==> IsDigit(s[i])
    decreases |s|
  {
    if |s| == 0 then 0
    else ParseNat(s[..|s| - 1]) * 10 + DigitValue(s[|s| - 1])
  }

  /** `str(n)` for a natural number: no sign, no leading zeros. */
  function NatText(n: nat): (s: string)
    ensures IsDigits(s)
    decreases n
  {
    if n < 10 then [DigitChar(n)] else NatText(n / 10) + [DigitChar(n % 10)]
  }

  /** `str(n)` for any integer. */
  function IntText(n: int): string {
    if n < 0 then "-" + NatText(-n) else NatText(n)
  }

  /** Reading back the decimal text of a number gives the number. */
  lemma {:induction false} ParseNatText(n: nat)
    ensures ParseNat(NatText(n)) == n
    decreases n
  {
    if n >= 10 {
      var s := NatText(n);
      assert s[..|s| - 1] == NatText(n / 10);
      ParseNatText(n / 10);
    }
  }

  /** Distinct numbers have distinct decimal text. */
  lemma NatTextInjective(a: nat, b: nat)
    requires NatText(a) == NatText(b)
    ensures a == b
  {
    ParseNatText(a);
    ParseNatText(b);
  }
}
