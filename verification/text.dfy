/** The parts of JavaScript's string API the log viewer relies on: the `\s`
    character class, `trim`, `split`, `includes`, ASCII `toLowerCase`, the
    decimal rendering of an index in a template string, and the plain
    code-point order that stands in for `localeCompare`. */
module Text {

  /** JavaScript's WhiteSpace and LineTerminator code points: what `\s`
      matches in a regular expression and what `String.prototype.trim` strips. */
  predicate IsWs(c: char)
  {
    var n := c as int;
    (0x09 <= n <= 0x0D) || n == 0x20 || n == 0xA0 || n == 0x1680 ||
    (0x2000 <= n <= 0x200A) || n == 0x2028 || n == 0x2029 || n == 0x202F ||
    n == 0x205F || n == 0x3000 || n == 0xFEFF
  }

  predicate NoWs(s: string)
  {
    forall m :: 0 <= m < |s| ==> !IsWs(s[m])
  }

  /** The first index at or after i that holds no whitespace, or |s|. */
  function SkipWs(s: string, i: nat): (k: nat)
    requires i <= |s|
    ensures i <= k <= |s|
    ensures forall m :: i <= m < k ==> IsWs(s[m])
    ensures k == |s| || !IsWs(s[k])
    decreases |s| - i
  {
    if i < |s| && IsWs(s[i]) then SkipWs(s, i + 1) else i
  }

  /** The first index at or after i that holds whitespace, or |s|. */
  function SkipNonWs(s: string, i: nat): (k: nat)
    requires i <= |s|
    ensures i <= k <= |s|
    ensures forall m :: i <= m < k ==> !IsWs(s[m])
    ensures k == |s| || IsWs(s[k])
    decreases |s| - i
  {
    if i < |s| && !IsWs(s[i]) then SkipNonWs(s, i + 1) else i
  }

  /** The index just past the last non-whitespace character before j, or 0. */
  function TrimEndIndex(s: string, j: nat): (k: nat)
    requires j <= |s|
    ensures k <= j
    ensures forall m :: k <= m < j ==> IsWs(s[m])
    ensures k == 0 || !IsWs(s[k - 1])
    decreases j
  {
    if j > 0 && IsWs(s[j - 1]) then TrimEndIndex(s, j - 1) else j
  }

  /** `s.trim()`. */
  function Trim(s: string): string
  {
    var a := SkipWs(s, 0);
    var b := TrimEndIndex(s, |s|);
    if a < b then s[a..b] else ""
  }

  /** Trimming keeps a slice of the string and drops only whitespace around
      it; the result is empty exactly for all-whitespace input, and otherwise
      neither starts nor ends with whitespace. */
  lemma TrimSpec(s: string)
    ensures exists a: nat, b: nat ::
      && a <= b <= |s| && Trim(s) == s[a..b]
      && (forall m :: 0 <= m < a ==> IsWs(s[m]))
      && (forall m :: b <= m < |s| ==> IsWs(s[m]))
    ensures Trim(s) == "" <==> forall m :: 0 <= m < |s| ==> IsWs(s[m])
    ensures Trim(s) != "" ==> !IsWs(Trim(s)[0]) && !IsWs(Trim(s)[|Trim(s)| - 1])
  {
    var a := SkipWs(s, 0);
    var b := TrimEndIndex(s, |s|);
    if a >= b {
      assert Trim(s) == s[0..0];
    } else {
      assert Trim(s) == s[a..b];
    }
  }

  /** A string without surrounding whitespace is its own trim. */
  lemma TrimIdentity(s: string)
    requires s == "" || (!IsWs(s[0]) && !IsWs(s[|s| - 1]))
    ensures Trim(s) == s
  {
  }

  /** `s.split(/\s+/)`: the pieces between maximal runs of whitespace, with an
      empty first (last) piece when s begins (ends) with whitespace, and
      `[""]` for the empty string. */
  function SplitWs(s: string): (parts: seq<string>)
    ensures |parts| >= 1
    ensures forall k :: 0 <= k < |parts| ==> NoWs(parts[k])
    decreases |s|
  {
    var p := SkipNonWs(s, 0);
    if p == |s| then [s]
    else
      var q := SkipWs(s, p);
      [s[..p]] + SplitWs(s[q..])
  }

  /** Splitting a string with no surrounding whitespace gives no empty piece. */
  lemma {:induction false} SplitWsNonEmpty(s: string)
    requires s != "" && !IsWs(s[0]) && !IsWs(s[|s| - 1])
    ensures forall k :: 0 <= k < |SplitWs(s)| ==> SplitWs(s)[k] != ""
    decreases |s|
  {
    var p := SkipNonWs(s, 0);
    if p < |s| {
      var q := SkipWs(s, p);
      assert !IsWs(s[|s| - 1]);
      var rest := s[q..];
      assert rest[0] == s[q];
      assert rest[|rest| - 1] == s[|s| - 1];
      SplitWsNonEmpty(rest);
      assert p > 0;
      assert SplitWs(s) == [s[..p]] + SplitWs(rest);
    }
  }

  /** Every run of whitespace replaced by a single space, character by
      character: a whitespace character gives a space when it ends its run
      and nothing otherwise. */
  function Collapse(s: string): (r: string)
    ensures |r| <= |s|
    decreases |s|
  {
    if s == [] then ""
    else
      var head := if !IsWs(s[0]) then [s[0]] else if |s| > 1 && IsWs(s[1]) then "" else " ";
      head + Collapse(s[1..])
  }

  /** A whitespace-free string collapses to itself. */
  lemma {:induction false} CollapseNoWs(s: string)
    requires NoWs(s)
    ensures Collapse(s) == s
    decreases |s|
  {
    if s != [] {
      CollapseNoWs(s[1..]);
    }
  }

  /** A non-empty run of whitespace collapses to one space. */
  lemma {:induction false} CollapseRun(s: string)
    requires s != [] && forall m :: 0 <= m < |s| ==> IsWs(s[m])
    ensures Collapse(s) == " "
    decreases |s|
  {
    if |s| > 1 {
      CollapseRun(s[1..]);
    }
  }

  /** Collapsing distributes over a concatenation that does not cut a run
      of whitespace in two. */
  lemma {:induction false} CollapseAppend(a: string, b: string)
    requires a == [] || b == [] || !IsWs(a[|a| - 1]) || !IsWs(b[0])
    ensures Collapse(a + b) == Collapse(a) + Collapse(b)
    decreases |a|
  {
    if a != [] {
      var ab := a + b;
      var head := if !IsWs(a[0]) then [a[0]] else if |a| > 1 && IsWs(a[1]) then "" else " ";
      assert ab[0] == a[0];
      assert ab[1..] == a[1..] + b;
      if |a| > 1 {
        assert ab[1] == a[1];
      }
      assert Collapse(ab) == head + Collapse(ab[1..]);
      assert Collapse(a) == head + Collapse(a[1..]);
      CollapseAppend(a[1..], b);
      assert Collapse(ab) == head + (Collapse(a[1..]) + Collapse(b));
      assert head + (Collapse(a[1..]) + Collapse(b)) == (head + Collapse(a[1..])) + Collapse(b);
    } else {
      assert a + b == b;
    }
  }

  /** `parts.join(sep)`. */
  function Join(parts: seq<string>, sep: char): string
    decreases |parts|
  {
    if |parts| == 0 then ""
    else if |parts| == 1 then parts[0]
    else parts[0] + [sep] + Join(parts[1..], sep)
  }

  /** Join starts with the first part. */
  lemma JoinStartsWithFirst(parts: seq<string>, sep: char)
    requires |parts| >= 1
    ensures |Join(parts, sep)| >= |parts[0]|
    ensures Join(parts, sep)[..|parts[0]|] == parts[0]
  {
  }

  /** Join ends with the last part. */
  lemma {:induction false} JoinEndsWithLast(parts: seq<string>, sep: char)
    requires |parts| >= 1
    ensures |Join(parts, sep)| >= |parts[|parts| - 1]|
    ensures Join(parts, sep)[|Join(parts, sep)| - |parts[|parts| - 1]|..] == parts[|parts| - 1]
    decreases |parts|
  {
    if |parts| > 1 {
      var rest := Join(parts[1..], sep);
      JoinEndsWithLast(parts[1..], sep);
      var j := Join(parts, sep);
      assert j == parts[0] + [sep] + rest;
      assert j[|j| - |rest|..] == rest;
    }
  }

  /** Trimming and then splitting on whitespace undoes joining non-empty,
      whitespace-free tokens with single spaces. */
  lemma TrimSplitJoin(toks: seq<string>)
    requires |toks| >= 1
    requires forall k :: 0 <= k < |toks| ==> toks[k] != "" && NoWs(toks[k])
    ensures SplitWs(Trim(Join(toks, ' '))) == toks
  {
    var line := Join(toks, ' ');
    JoinStartsWithFirst(toks, ' ');
    JoinEndsWithLast(toks, ' ');
    assert line[0] == toks[0][0];
    assert line[|line| - 1] == toks[|toks| - 1][|toks[|toks| - 1]| - 1];
    TrimIdentity(line);
    SplitWsJoin(toks);
  }

  /** Splitting on whitespace undoes joining non-empty, whitespace-free tokens
      with single spaces. */
  lemma {:induction false} SplitWsJoin(toks: seq<string>)
    requires |toks| >= 1
    requires forall k :: 0 <= k < |toks| ==> toks[k] != "" && NoWs(toks[k])
    ensures SplitWs(Join(toks, ' ')) == toks
    decreases |toks|
  {
    var s := Join(toks, ' ');
    if |toks| == 1 {
      assert s == toks[0];
      assert SkipNonWs(s, 0) == |s|;
    } else {
      var t0 := toks[0];
      var rest := Join(toks[1..], ' ');
      assert s == t0 + [' '] + rest;
      JoinStartsWithFirst(toks[1..], ' ');
      assert toks[1..][0] == toks[1];
      assert rest[0] == toks[1][0];
      var p := SkipNonWs(s, 0);
      assert IsWs(s[|t0|]);
      assert forall m :: 0 <= m < |t0| ==> s[m] == t0[m] && !IsWs(s[m]);
      assert p == |t0|;
      var q := SkipWs(s, p);
      assert s[|t0| + 1] == rest[0];
      assert q == |t0| + 1;
      assert s[q..] == rest;
      SplitWsJoin(toks[1..]);
      assert s[..p] == t0;
      assert SplitWs(s) == [t0] + SplitWs(rest);
      assert toks == [t0] + toks[1..];
    }
  }

  /** Joining the whitespace-separated pieces with single spaces gives the
      string with each whitespace run collapsed to one space: no character
      other than whitespace is lost, reordered or added. */
  lemma {:induction false} JoinSplitWs(s: string)
    ensures Join(SplitWs(s), ' ') == Collapse(s)
    decreases |s|
  {
    var p := SkipNonWs(s, 0);
    if p == |s| {
      assert NoWs(s);
      CollapseNoWs(s);
    } else {
      var q := SkipWs(s, p);
      var word, gap, rest := s[..p], s[p..q], s[q..];
      assert Join(SplitWs(s), ' ') == word + " " + Join(SplitWs(rest), ' ') by {
        assert SplitWs(s) == [word] + SplitWs(rest);
        JoinCons(word, SplitWs(rest));
      }
      assert Join(SplitWs(rest), ' ') == Collapse(rest) by {
        JoinSplitWs(rest);
      }
      assert Collapse(s) == word + " " + Collapse(rest) by {
        assert s == word + gap + rest;
        CollapseAtGap(word, gap, rest);
      }
    }
  }

  /** Joining a first part onto a non-empty list puts one separator between. */
  lemma JoinCons(first: string, parts: seq<string>)
    requires |parts| >= 1
    ensures Join([first] + parts, ' ') == first + " " + Join(parts, ' ')
  {
    assert ([first] + parts)[1..] == parts;
  }

  /** Collapsing a word, a run of whitespace and the rest. */
  lemma CollapseAtGap(word: string, gap: string, rest: string)
    requires NoWs(word)
    requires gap != [] && forall m :: 0 <= m < |gap| ==> IsWs(gap[m])
    requires rest == [] || !IsWs(rest[0])
    ensures Collapse(word + gap + rest) == word + " " + Collapse(rest)
  {
    var tail := gap + rest;
    assert tail[0] == gap[0];
    calc {
      Collapse(word + gap + rest);
      { assert word + gap + rest == word + tail; }
      Collapse(word + tail);
      { CollapseAppend(word, tail); CollapseNoWs(word); }
      word + Collapse(tail);
      { CollapseAppend(gap, rest); CollapseRun(gap); }
      word + (" " + Collapse(rest));
      word + " " + Collapse(rest);
    }
  }

  /** The first index at or after i that holds c, or |s|. */
  function IndexOf(s: string, c: char, i: nat): (k: nat)
    requires i <= |s|
    ensures i <= k <= |s|
    ensures forall m :: i <= m < k ==> s[m] != c
    ensures k == |s| || s[k] == c
    decreases |s| - i
  {
    if i < |s| && s[i] != c then IndexOf(s, c, i + 1) else i
  }

  /** `s.split(c)` for a one-character separator: the pieces between the
      occurrences of c, `[s]` when c does not occur. */
  function SplitOn(s: string, c: char): (parts: seq<string>)
    ensures |parts| >= 1
    ensures forall k :: 0 <= k < |parts| ==> c !in parts[k]
    decreases |s|
  {
    var p := IndexOf(s, c, 0);
    if p == |s| then [s] else [s[..p]] + SplitOn(s[p + 1..], c)
  }

  /** Joining the pieces of a split with the separator gives back the string. */
  lemma {:induction false} JoinSplitOn(s: string, c: char)
    ensures Join(SplitOn(s, c), c) == s
    decreases |s|
  {
    var p := IndexOf(s, c, 0);
    if p < |s| {
      var rest := SplitOn(s[p + 1..], c);
      var parts := [s[..p]] + rest;
      assert SplitOn(s, c) == parts;
      assert parts[1..] == rest;
      JoinSplitOn(s[p + 1..], c);
      assert Join(parts, c) == s[..p] + [c] + s[p + 1..];
      assert s == s[..p] + [c] + s[p + 1..];
    }
  }

  /** Splitting undoes joining pieces that do not contain the separator. */
  lemma {:induction false} SplitOnJoin(parts: seq<string>, c: char)
    requires |parts| >= 1
    requires forall k :: 0 <= k < |parts| ==> c !in parts[k]
    ensures SplitOn(Join(parts, c), c) == parts
    decreases |parts|
  {
    var s := Join(parts, c);
    var t0 := parts[0];
    var p := IndexOf(s, c, 0);
    if |parts| == 1 {
      assert s == t0;
      assert forall m :: 0 <= m < |s| ==> s[m] in t0 && s[m] != c;
    } else {
      var rest := Join(parts[1..], c);
      assert s == t0 + [c] + rest;
      assert forall m :: 0 <= m < |t0| ==> s[m] == t0[m] && s[m] in t0 && s[m] != c;
      assert s[|t0|] == c;
      assert p == |t0|;
      assert s[p + 1..] == rest;
      assert s[..p] == t0;
      SplitOnJoin(parts[1..], c);
      assert parts == [t0] + parts[1..];
    }
  }

  /** needle occurs in hay starting at index i. */
  predicate OccursAt(hay: string, needle: string, i: int)
  {
    0 <= i && i + |needle| <= |hay| && hay[i..i + |needle|] == needle
  }

  /** `hay.includes(needle)`. */
  function Contains(hay: string, needle: string): bool
    decreases |hay|
  {
    (|needle| <= |hay| && hay[..|needle|] == needle) || (hay != [] && Contains(hay[1..], needle))
  }

  /** Contains is substring occurrence at some index. */
  lemma {:induction false} ContainsIff(hay: string, needle: string)
    ensures Contains(hay, needle) <==> exists i :: OccursAt(hay, needle, i)
    decreases |hay|
  {
    if hay != [] {
      ContainsIff(hay[1..], needle);
    }
    if Contains(hay, needle) {
      if |needle| <= |hay| && hay[..|needle|] == needle {
        assert OccursAt(hay, needle, 0);
      } else {
        var j :| OccursAt(hay[1..], needle, j);
        assert hay[j + 1..j + 1 + |needle|] == hay[1..][j..j + |needle|];
        assert OccursAt(hay, needle, j + 1);
      }
    }
    if exists i :: OccursAt(hay, needle, i) {
      var i :| OccursAt(hay, needle, i);
      if i == 0 {
        assert hay[..|needle|] == hay[i..i + |needle|];
      } else {
        assert hay[1..][i - 1..i - 1 + |needle|] == hay[i..i + |needle|];
        assert OccursAt(hay[1..], needle, i - 1);
      }
    }
  }

  /** ASCII case folding of one character. */
  function LowerChar(c: char): char
  {
    if 'A' <= c <= 'Z' then (c as int + 32) as char else c
  }

  /** `s.toLowerCase()` restricted to ASCII letters. */
  function LowerAscii(s: string): (r: string)
  {
    seq(|s|, i requires 0 <= i < |s| => LowerChar(s[i]))
  }

  predicate IsDigit(c: char)
  {
    '0' as int <= c as int <= '9' as int
  }

  function DigitChar(d: nat): char
    requires d < 10
  {
    (48 + d) as char
  }

  /** The decimal numeral a template string writes for a non-negative integer. */
  function Decimal(n: nat): (r: string)
    ensures |r| >= 1
    ensures forall k :: 0 <= k < |r| ==> IsDigit(r[k])
    decreases n
  {
    if n < 10 then [DigitChar(n)] else Decimal(n / 10) + [DigitChar(n % 10)]
  }

  /** The number a string of decimal digits denotes. */
  function DecimalValue(s: string): nat
    requires forall k :: 0 <= k < |s| ==> IsDigit(s[k])
    decreases |s|
  {
    if s == [] then 0
    else
      assert IsDigit(s[|s| - 1]);
      DecimalValue(s[..|s| - 1]) * 10 + (s[|s| - 1] as int - '0' as int)
  }

  /** Reading back a rendered numeral gives the number. */
  lemma {:induction false} DecimalRoundTrip(n: nat)
    ensures DecimalValue(Decimal(n)) == n
    decreases n
  {
    if n >= 10 {
      DecimalRoundTrip(n / 10);
      var r := Decimal(n);
      assert r[..|r| - 1] == Decimal(n / 10);
    }
  }

  /** Distinct numbers render as distinct numerals. */
  lemma DecimalInjective(m: nat, n: nat)
    requires Decimal(m) == Decimal(n)
    ensures m == n
  {
    DecimalRoundTrip(m);
    DecimalRoundTrip(n);
  }

  /** Code-point lexicographic order on strings: a sorts before b or equals it. */
  predicate LexLe(a: string, b: string)
    decreases |a|
  {
    a == [] || (b != [] && (a[0] < b[0] || (a[0] == b[0] && LexLe(a[1..], b[1..]))))
  }

  lemma {:induction false} LexLeReflexive(a: string)
    ensures LexLe(a, a)
    decreases |a|
  {
    if a != [] {
      LexLeReflexive(a[1..]);
    }
  }

  lemma {:induction false} LexLeTotal(a: string, b: string)
    ensures LexLe(a, b) || LexLe(b, a)
    decreases |a|
  {
    if a != [] && b != [] && a[0] == b[0] {
      LexLeTotal(a[1..], b[1..]);
    }
  }

  lemma {:induction false} LexLeTransitive(a: string, b: string, c: string)
    requires LexLe(a, b) && LexLe(b, c)
    ensures LexLe(a, c)
    decreases |a|
  {
    if a != [] && a[0] == b[0] && b[0] == c[0] {
      LexLeTransitive(a[1..], b[1..], c[1..]);
    }
  }

  lemma {:induction false} LexLeAntisymmetric(a: string, b: string)
    requires LexLe(a, b) && LexLe(b, a)
    ensures a == b
    decreases |a|
  {
    if a != [] {
      LexLeAntisymmetric(a[1..], b[1..]);
      assert a == [a[0]] + a[1..];
      assert b == [b[0]] + b[1..];
    }
  }

  /** `a.localeCompare(b)` as plain code-point order: negative, zero or positive. */
  function LocaleCompare(a: string, b: string): (r: int)
  {
    if a == b then 0 else if LexLe(a, b) then -1 else 1
  }
}
