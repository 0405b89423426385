/** The regular expression `/url\s*=\s*(.+)/` that the scanner applies to the
    text of `.git/config`, written out with ECMAScript matching semantics: the
    pattern is unanchored, the leftmost starting position wins, both `\s*` are
    greedy (and `\s` includes line terminators, so the second one can run past
    the end of a line), and `.` matches anything but a line terminator. */
module ConfigPattern {
  import opened Wrappers
  import opened Text

  /** A successful match: where it starts, and the text of capture group 1. */
  datatype Match = Match(position: nat, capture: string)

  /** The first index at or after `i` that holds a line terminator (or `|s|`). */
  function LineEnd(s: string, i: nat): (j: nat)
    requires i <= |s|
    ensures i <= j <= |s|
    ensures forall k :: i <= k < j ==> !IsLineTerminator(s[k])
    ensures j == |s| || IsLineTerminator(s[j])
    decreases |s| - i
  {
    if i < |s| && !IsLineTerminator(s[i]) then LineEnd(s, i + 1) else i
  }

  /** The last index in `[lo, hi)` that holds no line terminator, if any. */
  function LastNonTerminator(s: string, lo: nat, hi: nat): (k: Option<nat>)
    requires lo <= hi <= |s|
    ensures k.Some? ==> lo <= k.value < hi && !IsLineTerminator(s[k.value])
    ensures k.Some? ==> forall m :: k.value < m < hi ==> IsLineTerminator(s[m])
    ensures k.None? ==> forall m :: lo <= m < hi ==> IsLineTerminator(s[m])
    decreases hi - lo
  {
    if lo == hi then None
    else if !IsLineTerminator(s[hi - 1]) then Some(hi - 1)
    else LastNonTerminator(s, lo, hi - 1)
  }

  /** One way for the pattern to match at `p`: `url` at `p`, whitespace, `=` at
      `a`, whitespace, and capture group 1 spanning `[b, e)`. */
  predicate PatternMatch(s: string, p: int, a: int, b: int, e: int) {
    && 0 <= p && p + 3 <= a < b < e <= |s|
    && s[p..p + 3] == "url"
    && (forall k :: p + 3 <= k < a ==> IsWhitespace(s[k]))
    && s[a] == '='
    && (forall k :: a + 1 <= k < b ==> IsWhitespace(s[k]))
    && (forall k :: b <= k < e ==> !IsLineTerminator(s[k]))
  }

  /** The span `[b, e)` of capture group 1 when the pattern matches at `p`,
      following the backtracking order: if the whitespace after `=` runs to the
      end of the text, the second `\s*` gives back characters until `.+` can
      take one. */
  function MatchAt(s: string, p: nat): (m: Option<(nat, nat)>)
    ensures m.Some? ==> p + 3 <= |s| && PatternMatch(s, p, SkipWhitespace(s, p + 3), m.value.0, m.value.1)
  {
    if !(p + 3 <= |s| && s[p..p + 3] == "url") then None
    else
      var a := SkipWhitespace(s, p + 3);
      if a == |s| || s[a] != '=' then None
      else
        var b := SkipWhitespace(s, a + 1);
        if b < |s| then
          LineTerminatorIsWhitespace(s[b]);
          Some((b, LineEnd(s, b)))
        else
          match LastNonTerminator(s, a + 1, |s|)
          case None => None
          case Some(k) => Some((k, k + 1))
  }

  /** Any `=` of a match at `p` is the first non-whitespace after `url`. */
  lemma EqualsSignPosition(s: string, p: nat, a: int, b: int, e: int)
    ensures PatternMatch(s, p, a, b, e) ==> a == SkipWhitespace(s, p + 3)
  {
    if PatternMatch(s, p, a, b, e) {
      assert !IsWhitespace(s[a]);
    }
  }

  /** `MatchAt` is exactly ECMAScript's match at `p`: it reports a span iff the
      pattern can match there, and the span it reports is the one greedy
      backtracking prefers (the latest start of group 1, then the longest). */
  lemma MatchAtCorrect(s: string, p: nat)
    ensures MatchAt(s, p).Some? ==>
      var (b, e) := MatchAt(s, p).value;
      && (exists a :: PatternMatch(s, p, a, b, e))
      && forall a', b', e' :: PatternMatch(s, p, a', b', e') ==> b' < b || (b' == b && e' <= e)
    ensures MatchAt(s, p).None? ==> forall a, b, e :: !PatternMatch(s, p, a, b, e)
  {
    if MatchAt(s, p).Some? {
      var (b, e) := MatchAt(s, p).value;
      MatchAtGreedy(s, p, b, e);
    } else {
      MatchAtComplete(s, p);
    }
  }

  /** No match at `p` starts group 1 later, or ends it later from the same start. */
  lemma MatchAtGreedy(s: string, p: nat, b: nat, e: nat)
    requires MatchAt(s, p) == Some((b, e))
    ensures forall a', b', e' :: PatternMatch(s, p, a', b', e') ==> b' < b || (b' == b && e' <= e)
  {
    var a := SkipWhitespace(s, p + 3);
    var b0 := SkipWhitespace(s, a + 1);
    forall a', b', e' | PatternMatch(s, p, a', b', e')
      ensures b' < b || (b' == b && e' <= e)
    {
      EqualsSignPosition(s, p, a', b', e');
      if b0 == |s| {
        assert !IsLineTerminator(s[b']);
        assert e == |s| || IsLineTerminator(s[e]);
      }
    }
  }

  /** When `MatchAt` reports nothing, the pattern cannot match at `p`. */
  lemma MatchAtComplete(s: string, p: nat)
    requires MatchAt(s, p).None?
    ensures forall a, b, e :: !PatternMatch(s, p, a, b, e)
  {
    forall a', b', e'
      ensures !PatternMatch(s, p, a', b', e')
    {
      EqualsSignPosition(s, p, a', b', e');
      if p + 3 <= |s| {
        var a := SkipWhitespace(s, p + 3);
        if a' == a && a + 1 <= b' < |s| {
          assert IsLineTerminator(s[b']) || !PatternMatch(s, p, a', b', e');
        }
      }
    }
  }

  /** Capture group 1 of a match at `p`, if the pattern matches there. */
  function CaptureAt(s: string, p: nat): (r: Option<string>)
    ensures r.Some? <==> MatchAt(s, p).Some?
    ensures r.Some? ==> r.value != [] && forall k :: 0 <= k < |r.value| ==> !IsLineTerminator(r.value[k])
  {
    match MatchAt(s, p)
    case None => None
    case Some((b, e)) => Some(s[b..e])
  }

  /** `String.prototype.match` with a non-global pattern: the match that starts
      leftmost at or after `from`. */
  function FirstMatch(s: string, from: nat): (m: Option<Match>)
    requires from <= |s|
    ensures m.Some? ==> from <= m.value.position <= |s| && CaptureAt(s, m.value.position) == Some(m.value.capture)
    decreases |s| - from
  {
    match CaptureAt(s, from)
    case Some(c) => Some(Match(from, c))
    case None => if from == |s| then None else FirstMatch(s, from + 1)
  }

  /** No match starts between `from` and the one `FirstMatch` reports. */
  lemma {:induction false} FirstMatchLeftmost(s: string, from: nat)
    requires from <= |s|
    ensures FirstMatch(s, from).Some? ==> forall q :: from <= q < FirstMatch(s, from).value.position ==> CaptureAt(s, q).None?
    decreases |s| - from
  {
    if CaptureAt(s, from).None? && from < |s| {
      FirstMatchLeftmost(s, from + 1);
    }
  }

  /** When `FirstMatch` reports nothing, no match starts at or after `from`. */
  lemma {:induction false} FirstMatchNone(s: string, from: nat)
    requires from <= |s|
    ensures FirstMatch(s, from).None? ==> forall q :: from <= q <= |s| ==> CaptureAt(s, q).None?
    decreases |s| - from
  {
    if CaptureAt(s, from).None? && from < |s| {
      FirstMatchNone(s, from + 1);
    }
  }

  /** A match can only start at a `u`, so the search passes over any other character. */
  lemma {:induction false} SkipToCandidate(s: string, from: nat, to: nat)
    requires from <= to <= |s|
    requires forall q :: from <= q < to ==> s[q] != 'u'
    ensures FirstMatch(s, from) == FirstMatch(s, to)
    decreases |s| - from
  {
    if from < to {
      assert from + 3 <= |s| ==> s[from..from + 3][0] == s[from];
      SkipToCandidate(s, from + 1, to);
    }
  }

  /** `url` occurs nowhere in `s`, so no match can start inside it. */
  ghost predicate UrlFree(s: string) {
    forall q :: 0 <= q <= |s| ==> !OccursAt(s, "url", q)
  }

  /** Text in which no `u` is followed by `r` holds no `url`. */
  lemma UrlFreeWithoutUr(s: string)
    requires forall i :: 0 <= i < |s| - 1 ==> !(s[i] == 'u' && s[i + 1] == 'r')
    ensures UrlFree(s)
  {
    forall q | 0 <= q <= |s|
      ensures !OccursAt(s, "url", q)
    {
      if q + 3 <= |s| {
        assert s[q..q + 3][0] == s[q] && s[q..q + 3][1] == s[q + 1];
      }
    }
  }

  /** Joining two `url`-free texts creates no `url` when the second does not
      start with `r` or `l`: no occurrence can straddle the seam. */
  lemma UrlFreeAppend(a: string, b: string)
    requires UrlFree(a) && UrlFree(b)
    requires b == [] || (b[0] != 'r' && b[0] != 'l')
    ensures UrlFree(a + b)
  {
    var s := a + b;
    forall q | 0 <= q <= |s|
      ensures !OccursAt(s, "url", q)
    {
      if q + 3 <= |s| {
        if q + 3 <= |a| {
          assert s[q..q + 3] == a[q..q + 3];
          assert !OccursAt(a, "url", q);
        } else if |a| <= q {
          assert s[q..q + 3] == b[q - |a|..q - |a| + 3];
          assert !OccursAt(b, "url", q - |a|);
        } else {
          var k := |a| - q;
          assert s[q..q + 3][k] == b[0];
          assert "url"[k] == 'r' || "url"[k] == 'l';
          assert s[q..q + 3] != "url";
        }
      }
    }
  }

  /** A line `url = <u>` captures `<u>` when `<u>` starts with a visible character. */
  lemma UrlLine(s: string, p: nat, u: string)
    requires p + 6 + |u| < |s|
    requires s[p..p + 6] == "url = " && s[p + 6..p + 6 + |u|] == u && s[p + 6 + |u|] == '\n'
    requires u != [] && !IsWhitespace(u[0]) && NoLineTerminator(u)
    ensures CaptureAt(s, p) == Some(u)
  {
    assert forall k :: 0 <= k < |u| ==> u[k] in u;
    assert s[p..p + 6][..3] == "url";
    assert s[p..p + 3] == s[p..p + 6][..3];
    assert s[p + 3] == s[p..p + 6][3] == ' ';
    assert s[p + 4] == s[p..p + 6][4] == '=';
    assert s[p + 5] == s[p..p + 6][5] == ' ';
    assert SkipWhitespace(s, p + 3) == p + 4;
    assert s[p + 6] == u[0];
    assert SkipWhitespace(s, p + 5) == p + 6;
    forall k | p + 6 <= k < p + 6 + |u|
      ensures !IsLineTerminator(s[k])
    {
      assert s[k] == u[k - p - 6];
    }
    assert LineEnd(s, p + 6) == p + 6 + |u|;
  }

  /** No match starts inside a `url`-free prefix of `s` that is followed by a
      character other than `r` and `l`. */
  lemma NoCaptureBefore(s: string, p: nat)
    requires p < |s| && s[p] != 'r' && s[p] != 'l'
    requires UrlFree(s[..p])
    ensures forall q :: 0 <= q < p ==> CaptureAt(s, q).None?
  {
    forall q | 0 <= q < p
      ensures MatchAt(s, q).None?
    {
      if q + 3 <= p {
        assert s[q..q + 3] == s[..p][q..q + 3];
        assert !OccursAt(s[..p], "url", q);
      } else if q + 3 <= |s| {
        assert s[q..q + 3][p - q] == s[p];
      }
    }
  }

  /** The setting is the capture at the first position that matches. */
  lemma UrlSettingAt(s: string, p: nat)
    requires p <= |s| && CaptureAt(s, p).Some?
    requires forall q :: 0 <= q < p ==> CaptureAt(s, q).None?
    ensures UrlSetting(s) == CaptureAt(s, p)
  {
    var r := UrlSetting(s);
    var p' :| 0 <= p' <= |s| && CaptureAt(s, p') == r && forall q :: 0 <= q < p' ==> CaptureAt(s, q).None?;
    assert !(p' < p) && !(p < p');
  }

  /** `config.match(/url\s*=\s*(.+)/)?.[1]`: group 1 of the leftmost match. */
  function UrlSetting(config: string): (r: Option<string>)
    ensures r.Some? ==> exists p :: (0 <= p <= |config| && CaptureAt(config, p) == r &&
      forall q :: 0 <= q < p ==> CaptureAt(config, q).None?)
    ensures r.None? <==> forall p :: 0 <= p <= |config| ==> CaptureAt(config, p).None?
  {
    FirstMatchLeftmost(config, 0);
    FirstMatchNone(config, 0);
    match FirstMatch(config, 0)
    case None => None
    case Some(m) => Some(m.capture)
  }
}
