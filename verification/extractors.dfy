/** The two field extractors of the upload component. Each runs a regular
    expression over the whole raw line and returns its first match, or a
    sentinel when there is none:
      email     `[a-zA-Z0-9._-]+@[a-zA-Z0-9._-]+\.[a-zA-Z0-9_-]+`, else "anonymous"
      referrer  `https?://[^\s]+` (any letter case), else "-"
    The regular expressions are modelled as character classes plus the
    search a backtracking matcher performs. */
module Extractors {
  import opened Seqs
  import opened Text

  const Anonymous := "anonymous"
  const NoReferrer := "-"

  /** `[a-zA-Z0-9._-]`, the characters of the local part and of the domain.
      The `i` flag adds nothing: both letter cases are already listed. */
  predicate IsNameChar(c: char)
  {
    ('a' <= c <= 'z') || ('A' <= c <= 'Z') || ('0' <= c <= '9') || c == '.' || c == '_' || c == '-'
  }

  /** `[a-zA-Z0-9_-]`, the characters of the top-level domain. */
  predicate IsTldChar(c: char)
  {
    IsNameChar(c) && c != '.'
  }

  // ---------------------------------------------------------------------
  // What an email-shaped match is

  /** s[i..k] is local part s[i..a], '@' at a, domain s[a+1..d], '.' at d and
      top-level domain s[d+1..k], each part non-empty. */
  ghost predicate EmailShapeAt(s: string, i: int, a: int, d: int, k: int)
  {
    && 0 <= i < a && a + 1 < d && d + 1 < k <= |s|
    && s[a] == '@' && s[d] == '.'
    && (forall m :: i <= m < a ==> IsNameChar(s[m]))
    && (forall m :: a < m < d ==> IsNameChar(s[m]))
    && (forall m :: d < m < k ==> IsTldChar(s[m]))
  }

  /** The email pattern matches exactly s[i..k]. */
  ghost predicate IsEmailMatch(s: string, i: int, k: int)
  {
    exists a, d :: EmailShapeAt(s, i, a, d, k)
  }

  /** s[i..k] is a match that starts as far left as any match does and, among
      the matches starting there, ends as far right as any does. */
  ghost predicate LeftmostLongestEmail(s: string, i: int, k: int)
  {
    && IsEmailMatch(s, i, k)
    && (forall j, k' :: 0 <= j < i ==> !IsEmailMatch(s, j, k'))
    && (forall k' :: k < k' ==> !IsEmailMatch(s, i, k'))
  }

  // ---------------------------------------------------------------------
  // The backtracking matcher for the email pattern

  /** End of the longest run of `[a-zA-Z0-9._-]` starting at j: where a greedy
      `+` over that class stops. */
  function NameRunEnd(s: string, j: nat): (e: nat)
    requires j <= |s|
    ensures j <= e <= |s|
    ensures forall m :: j <= m < e ==> IsNameChar(s[m])
    ensures e == |s| || !IsNameChar(s[e])
    decreases |s| - j
  {
    if j < |s| && IsNameChar(s[j]) then NameRunEnd(s, j + 1) else j
  }

  /** End of the longest run of `[a-zA-Z0-9_-]` starting at j. */
  function TldRunEnd(s: string, j: nat): (e: nat)
    requires j <= |s|
    ensures j <= e <= |s|
    ensures forall m :: j <= m < e ==> IsTldChar(s[m])
    ensures e == |s| || !IsTldChar(s[e])
    decreases |s| - j
  {
    if j < |s| && IsTldChar(s[j]) then TldRunEnd(s, j + 1) else j
  }

  /** A '.' at q followed by a top-level-domain character. */
  predicate DotThenTld(s: string, q: nat)
  {
    q + 1 < |s| && s[q] == '.' && IsTldChar(s[q + 1])
  }

  /** The greedy domain quantifier giving back characters one at a time: the
      largest q with lo < q <= hi where `\.[a-zA-Z0-9_-]` can continue. */
  function BackOffToDot(s: string, lo: nat, q: nat): (r: Option<nat>)
    ensures r.Some? ==> lo < r.value <= q && DotThenTld(s, r.value)
    ensures r.Some? ==> forall q' :: r.value < q' <= q ==> !DotThenTld(s, q')
    ensures r.None? ==> forall q' :: lo < q' <= q ==> !DotThenTld(s, q')
    decreases q
  {
    if q <= lo then None
    else if DotThenTld(s, q) then Some(q)
    else BackOffToDot(s, lo, q - 1)
  }

  /** Where the matcher's attempt at position i ends, if it succeeds: the
      local part is the greedy name run (a shorter one is never followed by
      '@'), the domain the greedy name run after '@' given back up to its last
      usable '.', and the top-level domain the greedy run after that dot. */
  function EmailMatchEnd(s: string, i: nat): (r: Option<nat>)
    requires i <= |s|
    ensures r.Some? ==> i < r.value <= |s|
  {
    var a := NameRunEnd(s, i);
    if a == i || a == |s| || s[a] != '@' then None
    else
      var e := NameRunEnd(s, a + 1);
      match BackOffToDot(s, a + 1, e)
      case None => None
      case Some(d) => Some(TldRunEnd(s, d + 1))
  }

  /** The attempt at i succeeds exactly when some match starts at i, and it
      returns the longest such match. */
  lemma EmailMatchEndCorrect(s: string, i: nat)
    requires i <= |s|
    ensures EmailMatchEnd(s, i).Some? ==> IsEmailMatch(s, i, EmailMatchEnd(s, i).value)
    ensures forall k :: IsEmailMatch(s, i, k) ==> EmailMatchEnd(s, i).Some? && k <= EmailMatchEnd(s, i).value
  {
    var a := NameRunEnd(s, i);
    forall k | IsEmailMatch(s, i, k)
      ensures EmailMatchEnd(s, i).Some? && k <= EmailMatchEnd(s, i).value
    {
      var a', d' :| EmailShapeAt(s, i, a', d', k);
      EmailMatchAtShape(s, i, a', d', k);
    }
    if EmailMatchEnd(s, i).Some? {
      var e := NameRunEnd(s, a + 1);
      var d := BackOffToDot(s, a + 1, e).value;
      var k := TldRunEnd(s, d + 1);
      assert s[d] == '.';
      assert d < e;
      assert EmailShapeAt(s, i, a, d, k);
    }
  }

  /** Completeness of the attempt at i for one given match. */
  lemma EmailMatchAtShape(s: string, i: nat, a': int, d': int, k': int)
    requires EmailShapeAt(s, i, a', d', k')
    ensures EmailMatchEnd(s, i).Some? && k' <= EmailMatchEnd(s, i).value
  {
    var a := NameRunEnd(s, i);
    assert !IsNameChar(s[a']);
    assert a == a';
    var e := NameRunEnd(s, a + 1);
    assert IsNameChar(s[d']) && IsNameChar(s[d' + 1]);
    assert e > d' + 1;
    assert DotThenTld(s, d');
    var d := BackOffToDot(s, a + 1, e).value;
    assert d' <= d;
    var k := TldRunEnd(s, d + 1);
    if d == d' {
      assert k' <= k;
    } else {
      assert !IsTldChar(s[d]);
      assert k' <= d;
    }
  }

  /** The matcher's scan: the first position at or after i where its attempt
      succeeds, with the end of that match. */
  function FirstEmail(s: string, i: nat): (r: Option<(nat, nat)>)
    requires i <= |s|
    ensures r.Some? ==> i <= r.value.0 < r.value.1 <= |s|
    decreases |s| - i
  {
    if i == |s| then None
    else match EmailMatchEnd(s, i)
      case Some(k) => Some((i, k))
      case None => FirstEmail(s, i + 1)
  }

  lemma {:induction false} FirstEmailCorrect(s: string, i: nat)
    requires i <= |s|
    ensures FirstEmail(s, i).None? ==> forall j, k :: i <= j ==> !IsEmailMatch(s, j, k)
    ensures FirstEmail(s, i).Some? ==>
      var (j, k) := FirstEmail(s, i).value;
      && IsEmailMatch(s, j, k)
      && (forall j', k' :: i <= j' < j ==> !IsEmailMatch(s, j', k'))
      && (forall k' :: k < k' ==> !IsEmailMatch(s, j, k'))
    decreases |s| - i
  {
    if i == |s| {
      forall j, k | i <= j
        ensures !IsEmailMatch(s, j, k)
      {
      }
    } else if EmailMatchEnd(s, i).None? {
      assert forall k :: !IsEmailMatch(s, i, k) by {
        EmailMatchEndCorrect(s, i);
      }
      assert FirstEmail(s, i) == FirstEmail(s, i + 1);
      FirstEmailCorrect(s, i + 1);
    } else {
      assert FirstEmail(s, i) == Some((i, EmailMatchEnd(s, i).value));
      EmailMatchEndCorrect(s, i);
    }
  }

  /** `extractEmail(line)`: the first match of the email pattern, or "anonymous". */
  function ExtractEmail(line: string): string
  {
    match FirstEmail(line, 0)
    case Some((i, k)) => line[i..k]
    case None => Anonymous
  }

  /** An email-shaped match holds exactly one '@'. */
  lemma EmailMatchOneAt(s: string, i: int, k: int)
    requires IsEmailMatch(s, i, k)
    ensures |set m | 0 <= m < |s[i..k]| && s[i..k][m] == '@'| == 1
  {
    var a, d :| EmailShapeAt(s, i, a, d, k);
    var r := s[i..k];
    assert r[a - i] == '@';
    assert (set m | 0 <= m < |r| && r[m] == '@') == {a - i};
  }

  /** The extractor answers "anonymous" exactly when the line holds no
      email-shaped substring; otherwise it answers the substring that starts
      leftmost and, from there, reaches furthest, which holds exactly one '@'. */
  lemma ExtractEmailSpec(line: string)
    ensures ExtractEmail(line) == Anonymous <==> forall i, k :: !IsEmailMatch(line, i, k)
    ensures ExtractEmail(line) != Anonymous ==>
      exists i, k :: LeftmostLongestEmail(line, i, k) && ExtractEmail(line) == line[i..k]
    ensures ExtractEmail(line) != Anonymous ==>
      |set m | 0 <= m < |ExtractEmail(line)| && ExtractEmail(line)[m] == '@'| == 1
  {
    FirstEmailCorrect(line, 0);
    if FirstEmail(line, 0).Some? {
      var (i, k) := FirstEmail(line, 0).value;
      var r := line[i..k];
      assert LeftmostLongestEmail(line, i, k);
      EmailMatchOneAt(line, i, k);
      assert '@' !in Anonymous;
      assert r != Anonymous by {
        var a, d :| EmailShapeAt(line, i, a, d, k);
        assert r[a - i] == '@';
      }
    }
  }

  // ---------------------------------------------------------------------
  // The referrer pattern

  /** `http` in any letter case at i. */
  predicate HttpAt(s: string, i: nat)
  {
    && i + 4 <= |s|
    && (s[i] == 'h' || s[i] == 'H')
    && (s[i + 1] == 't' || s[i + 1] == 'T')
    && (s[i + 2] == 't' || s[i + 2] == 'T')
    && (s[i + 3] == 'p' || s[i + 3] == 'P')
  }

  predicate ColonSlashSlashAt(s: string, i: nat)
  {
    i + 3 <= |s| && s[i] == ':' && s[i + 1] == '/' && s[i + 2] == '/'
  }

  /** `https?://` spans exactly s[i..i+n]. */
  ghost predicate IsSchemeAt(s: string, i: nat, n: nat)
  {
    HttpAt(s, i) &&
    ((n == 7 && ColonSlashSlashAt(s, i + 4)) ||
     (n == 8 && i + 4 < |s| && (s[i + 4] == 's' || s[i + 4] == 'S') && ColonSlashSlashAt(s, i + 5)))
  }

  /** The referrer pattern can match starting at i: a scheme followed by at
      least one non-whitespace character. */
  ghost predicate UrlStartsAt(s: string, i: nat)
  {
    exists n :: IsSchemeAt(s, i, n) && i + n < |s| && !IsWs(s[i + n])
  }

  /** s[i..k] is the referrer the pattern yields: it starts at the leftmost
      position where a match can start and runs to the next whitespace or
      the end of the line. */
  ghost predicate FirstUrlSpan(s: string, i: int, k: int)
  {
    && 0 <= i < k <= |s|
    && UrlStartsAt(s, i)
    && (forall j :: 0 <= j < i ==> !UrlStartsAt(s, j))
    && NoWs(s[i..k])
    && (k == |s| || IsWs(s[k]))
  }

  /** The length of the scheme the matcher takes at i (7 or 8), 0 for none;
      `s?` first tries to take the `s`. */
  function SchemeLength(s: string, i: nat): (n: nat)
    ensures n == 0 || n == 7 || n == 8
    ensures n != 0 ==> IsSchemeAt(s, i, n)
    ensures n == 0 ==> forall n' :: !IsSchemeAt(s, i, n')
  {
    if !HttpAt(s, i) then 0
    else if i + 4 < |s| && (s[i + 4] == 's' || s[i + 4] == 'S') && ColonSlashSlashAt(s, i + 5) then 8
    else if ColonSlashSlashAt(s, i + 4) then 7
    else 0
  }

  /** Where the matcher's attempt at i ends, if it succeeds: after the scheme,
      `[^\s]+` takes the longest run of non-whitespace. */
  function UrlMatchEnd(s: string, i: nat): (r: Option<nat>)
    requires i <= |s|
    ensures r.Some? ==> i < r.value <= |s|
  {
    var n := SchemeLength(s, i);
    if n == 0 || i + n >= |s| || IsWs(s[i + n]) then None
    else Some(SkipNonWs(s, i + n))
  }

  /** The attempt at i succeeds exactly when the pattern can match there,
      and then it spans whitespace-free text up to the next whitespace or
      the end of the line. */
  lemma UrlMatchEndIff(s: string, i: nat)
    requires i <= |s|
    ensures UrlMatchEnd(s, i).Some? <==> UrlStartsAt(s, i)
    ensures UrlMatchEnd(s, i).Some? ==>
      var k := UrlMatchEnd(s, i).value;
      NoWs(s[i..k]) && (k == |s| || IsWs(s[k]))
  {
    var n := SchemeLength(s, i);
    if UrlStartsAt(s, i) {
      var n' :| IsSchemeAt(s, i, n') && i + n' < |s| && !IsWs(s[i + n']);
      assert n' == n;
    }
    if UrlMatchEnd(s, i).Some? {
      var k := UrlMatchEnd(s, i).value;
      assert forall m :: i <= m < i + n ==> !IsWs(s[m]);
      assert NoWs(s[i..k]);
    }
  }

  /** The matcher's scan: the first position at or after i where its attempt
      succeeds, with the end of that match. */
  function FirstUrl(s: string, i: nat): (r: Option<(nat, nat)>)
    requires i <= |s|
    ensures r.Some? ==> i <= r.value.0 < r.value.1 <= |s|
    decreases |s| - i
  {
    if i == |s| then None
    else match UrlMatchEnd(s, i)
      case Some(k) => Some((i, k))
      case None => FirstUrl(s, i + 1)
  }

  lemma {:induction false} FirstUrlCorrect(s: string, i: nat)
    requires i <= |s|
    ensures FirstUrl(s, i).None? ==> forall j :: i <= j <= |s| ==> !UrlStartsAt(s, j)
    ensures FirstUrl(s, i).Some? ==>
      var (j, k) := FirstUrl(s, i).value;
      && i <= j < k <= |s|
      && UrlStartsAt(s, j)
      && (forall j' :: i <= j' < j ==> !UrlStartsAt(s, j'))
      && NoWs(s[j..k])
      && (k == |s| || IsWs(s[k]))
    decreases |s| - i
  {
    if i == |s| {
      forall j | i <= j <= |s|
        ensures !UrlStartsAt(s, j)
      {
      }
    } else {
      if UrlMatchEnd(s, i).Some? {
        var k := UrlMatchEnd(s, i).value;
        assert FirstUrl(s, i) == Some((i, k));
        UrlMatchEndIff(s, i);
      } else {
        assert !UrlStartsAt(s, i) by {
          UrlMatchEndIff(s, i);
        }
        assert FirstUrl(s, i) == FirstUrl(s, i + 1);
        FirstUrlCorrect(s, i + 1);
      }
    }
  }

  /** `extractReferrer(line)`: the first match of the referrer pattern, or "-". */
  function ExtractReferrer(line: string): string
  {
    match FirstUrl(line, 0)
    case Some((i, k)) => line[i..k]
    case None => NoReferrer
  }

  /** The extractor answers "-" exactly when no `http://` or `https://` (any
      case) followed by a non-whitespace character occurs; otherwise it answers
      the text from the first such occurrence to the next whitespace or the
      end of the line. The answer is never empty and never holds whitespace. */
  lemma ExtractReferrerSpec(line: string)
    ensures ExtractReferrer(line) == NoReferrer <==> forall i :: 0 <= i <= |line| ==> !UrlStartsAt(line, i)
    ensures ExtractReferrer(line) != NoReferrer ==>
      exists i, k :: FirstUrlSpan(line, i, k) && ExtractReferrer(line) == line[i..k]
    ensures ExtractReferrer(line) != ""
    ensures NoWs(ExtractReferrer(line))
  {
    FirstUrlCorrect(line, 0);
    if FirstUrl(line, 0).Some? {
      var (i, k) := FirstUrl(line, 0).value;
      assert FirstUrlSpan(line, i, k);
      var n :| IsSchemeAt(line, i, n) && i + n < |line| && !IsWs(line[i + n]);
      assert k > i + n;
      assert |line[i..k]| > 1;
    }
  }
}
