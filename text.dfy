/** The JavaScript string primitives the scanner relies on, written out:
    `String.prototype.trim`, `split` on one separator character, `startsWith`,
    `endsWith`, `indexOf` and `replace` with a string pattern. */
module Text {
  import opened Wrappers

  /** ECMAScript WhiteSpace or LineTerminator: exactly the characters that
      `trim` removes and that the regular-expression class `\s` matches. */
  predicate IsWhitespace(c: char) {
    var n := c as int;
    || (0x09 <= n <= 0x0D)
    || n == 0x20 || n == 0xA0 || n == 0x1680
    || (0x2000 <= n <= 0x200A)
    || n == 0x2028 || n == 0x2029 || n == 0x202F || n == 0x205F
    || n == 0x3000 || n == 0xFEFF
  }

  /** ECMAScript LineTerminator: the characters the regular-expression `.` does not match. */
  predicate IsLineTerminator(c: char) {
    c == '\n' || c == '\r' || c as int == 0x2028 || c as int == 0x2029
  }

  lemma LineTerminatorIsWhitespace(c: char)
    ensures IsLineTerminator(c) ==> IsWhitespace(c)
  {
  }

  /** No character of `s` is a line terminator. */
  predicate NoLineTerminator(s: string) {
    '\n' !in s && '\r' !in s && '\U{2028}' !in s && '\U{2029}' !in s
  }

  predicate AllWhitespace(s: string) {
    forall i :: 0 <= i < |s| ==> IsWhitespace(s[i])
  }

  predicate StartsWith(s: string, prefix: string) {
    |prefix| <= |s| && s[..|prefix|] == prefix
  }

  predicate EndsWith(s: string, suffix: string) {
    |suffix| <= |s| && s[|s| - |suffix|..] == suffix
  }

  /** The first index at or after `i` that does not hold whitespace (or `|s|`). */
  function SkipWhitespace(s: string, i: nat): (j: nat)
    requires i <= |s|
    ensures i <= j <= |s|
    ensures forall k :: i <= k < j ==> IsWhitespace(s[k])
    ensures j == |s| || !IsWhitespace(s[j])
    decreases |s| - i
  {
    if i < |s| && IsWhitespace(s[i]) then SkipWhitespace(s, i + 1) else i
  }

  /** The last index at or before `j` that does not follow whitespace (or `0`). */
  function SkipWhitespaceBack(s: string, j: nat): (i: nat)
    requires j <= |s|
    ensures i <= j
    ensures forall k :: i <= k < j ==> IsWhitespace(s[k])
    ensures i == 0 || !IsWhitespace(s[i - 1])
  {
    if 0 < j && IsWhitespace(s[j - 1]) then SkipWhitespaceBack(s, j - 1) else j
  }

  /** `s` is `r` between whitespace-only margins of which the left one has length `i`. */
  predicate TrimmedAt(s: string, r: string, i: int) {
    && 0 <= i && i + |r| <= |s| && r == s[i..i + |r|]
    && (forall k :: 0 <= k < i ==> IsWhitespace(s[k]))
    && (forall k :: i + |r| <= k < |s| ==> IsWhitespace(s[k]))
  }

  /** `String.prototype.trim`: whitespace removed from both ends. */
  function Trim(s: string): (r: string)
    ensures r == [] || (!IsWhitespace(r[0]) && !IsWhitespace(r[|r| - 1]))
  {
    var i := SkipWhitespace(s, 0);
    if i == |s| then []
    else
      var j := SkipWhitespaceBack(s, |s|);
      assert !IsWhitespace(s[i]);
      s[i..j]
  }

  /** What `Trim` removes is whitespace: its result is `s` less whitespace-only
      margins, the left one being the leading whitespace of `s`; and it is
      empty exactly for an all-whitespace string. */
  lemma TrimMargins(s: string)
    ensures TrimmedAt(s, Trim(s), SkipWhitespace(s, 0))
    ensures Trim(s) == [] <==> AllWhitespace(s)
  {
    var i := SkipWhitespace(s, 0);
    if i < |s| {
      var j := SkipWhitespaceBack(s, |s|);
      assert !IsWhitespace(s[i]);
      assert Trim(s) == s[i..j];
    }
  }

  /** Trimming a string that neither starts nor ends with whitespace changes nothing. */
  lemma TrimUnchanged(s: string)
    requires s == [] || (!IsWhitespace(s[0]) && !IsWhitespace(s[|s| - 1]))
    ensures Trim(s) == s
  {
  }

  /** `s.split(sep)`: the maximal separator-free pieces, in order; the empty
      string splits into one empty piece. */
  function Split(s: string, sep: char): (parts: seq<string>)
    ensures |parts| >= 1
  {
    if s == [] then [[]]
    else
      var rest := Split(s[1..], sep);
      if s[0] == sep then [[]] + rest
      else [[s[0]] + rest[0]] + rest[1..]
  }

  /** The pieces hold no separator, and joining them gives back the string. */
  lemma {:induction false} SplitPieces(s: string, sep: char)
    ensures forall i :: 0 <= i < |Split(s, sep)| ==> sep !in Split(s, sep)[i]
    ensures Join(Split(s, sep), sep) == s
  {
    if s != [] {
      var rest := Split(s[1..], sep);
      SplitPieces(s[1..], sep);
      JoinFirst(rest, sep);
      if s[0] == sep {
        JoinFirst([[]] + rest, sep);
        assert ([[]] + rest)[1..] == rest;
      } else {
        var parts := [[s[0]] + rest[0]] + rest[1..];
        JoinFirst(parts, sep);
        assert parts[1..] == rest[1..];
        assert [s[0]] + s[1..] == s;
      }
    }
  }

  /** `parts.join(sep)`: the inverse of `Split`. */
  function Join(parts: seq<string>, sep: char): (s: string)
  {
    if parts == [] then []
    else if |parts| == 1 then parts[0]
    else parts[0] + [sep] + Join(parts[1..], sep)
  }

  lemma JoinFirst(parts: seq<string>, sep: char)
    requires |parts| >= 1
    ensures Join(parts, sep) == parts[0] + (if |parts| == 1 then [] else [sep] + Join(parts[1..], sep))
  {
  }

  /** Splitting at a separator splits the two sides independently. */
  lemma {:induction false} SplitAppend(a: string, b: string, sep: char)
    ensures Split(a + [sep] + b, sep) == Split(a, sep) + Split(b, sep)
  {
    if a == [] {
      assert a + [sep] + b == [sep] + b;
      assert ([sep] + b)[1..] == b;
    } else {
      assert (a + [sep] + b)[1..] == a[1..] + [sep] + b;
      SplitAppend(a[1..], b, sep);
    }
  }

  /** A string without the separator is a single piece. */
  lemma {:induction false} SplitNoSeparator(s: string, sep: char)
    requires sep !in s
    ensures Split(s, sep) == [s]
  {
    if s != [] {
      SplitNoSeparator(s[1..], sep);
      assert [s[0]] + s[1..] == s;
    }
  }

  /** `Split` undoes `Join` for pieces that do not contain the separator. */
  lemma {:induction false} SplitJoin(parts: seq<string>, sep: char)
    requires |parts| >= 1
    requires forall i :: 0 <= i < |parts| ==> sep !in parts[i]
    ensures Split(Join(parts, sep), sep) == parts
  {
    SplitNoSeparator(parts[0], sep);
    if |parts| > 1 {
      SplitJoin(parts[1..], sep);
      SplitAppend(parts[0], Join(parts[1..], sep), sep);
    }
  }

  /** `pat` occurs in `s` at index `j`. */
  predicate OccursAt(s: string, pat: string, j: int) {
    0 <= j && j + |pat| <= |s| && s[j..j + |pat|] == pat
  }

  /** The first index at or after `i` at which `pat` occurs in `s`. */
  function IndexOfFrom(s: string, pat: string, i: nat): (r: Option<nat>)
    requires i <= |s|
    ensures r.Some? ==> i <= r.value && OccursAt(s, pat, r.value)
    ensures r.Some? ==> forall j :: i <= j < r.value ==> !OccursAt(s, pat, j)
    ensures r.None? ==> forall j :: i <= j <= |s| ==> !OccursAt(s, pat, j)
    decreases |s| - i
  {
    if OccursAt(s, pat, i) then Some(i)
    else if i == |s| then None
    else IndexOfFrom(s, pat, i + 1)
  }

  /** `s.indexOf(pat)`: the first position at which `pat` occurs in `s`. */
  function IndexOf(s: string, pat: string): (r: Option<nat>)
    ensures r.Some? ==> OccursAt(s, pat, r.value)
    ensures r.Some? ==> forall j :: 0 <= j < r.value ==> !OccursAt(s, pat, j)
    ensures r.None? <==> forall j :: 0 <= j <= |s| ==> !OccursAt(s, pat, j)
  {
    IndexOfFrom(s, pat, 0)
  }

  /** `s.replace(pat, rep)` with a string pattern: only the first occurrence is
      replaced. (`rep` is inserted literally; the `$` patterns of JavaScript
      replacement strings are not modelled, and no caller uses one.) */
  function ReplaceFirst(s: string, pat: string, rep: string): (r: string)
    ensures IndexOf(s, pat).None? ==> r == s
    ensures IndexOf(s, pat).Some? ==>
      var i := IndexOf(s, pat).value;
      && |r| == |s| - |pat| + |rep|
      && r[..i] == s[..i]
      && r[i..i + |rep|] == rep
      && r[i + |rep|..] == s[i + |pat|..]
  {
    match IndexOf(s, pat)
    case None => s
    case Some(i) => s[..i] + rep + s[i + |pat|..]
  }

  /** When `s` starts with `pat`, replacing its first occurrence rewrites the prefix. */
  lemma ReplaceFirstAtStart(s: string, pat: string, rep: string)
    requires StartsWith(s, pat)
    ensures ReplaceFirst(s, pat, rep) == rep + s[|pat|..]
  {
    assert OccursAt(s, pat, 0);
  }
}
