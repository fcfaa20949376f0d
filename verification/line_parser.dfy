/** The upload component's record parser (`parseLine`) and the pipeline that
    turns a file's text into a batch of records (the split / filter / map /
    filter chain of `beforeUpload`). */
module LineParser {
  import opened Seqs
  import opened Text
  import opened Extractors

  /** The object `parseLine` returns for one line. `formattedDate` is the
      millisecond time the date library gives for the timestamp. */
  datatype LogRecord = LogRecord(
    key: string,
    timestamp: string,
    email: string,
    clientIP: string,
    action: string,
    referrer: string,
    formattedDate: int)

  /** Lines with fewer tokens than this give no record. */
  const MinTokens := 10

  /** `line.trim().split(/\s+/)`. */
  function Tokens(line: string): seq<string>
  {
    SplitWs(Trim(line))
  }

  /** The query part of the action: nothing for "-", otherwise '?' and the token. */
  function QuerySuffix(query: string): string
  {
    if query != "-" then "?" + query else ""
  }

  /** `parseLine(line, index)`. The date library (and its fall-back to the
      current time) is the parameter dateOf. `parts[3] || ''` and
      `parts[4] || ''` are the tokens themselves, since an empty token is
      replaced by an empty string. */
  function ParseLine(line: string, index: nat, dateOf: string -> int): Option<LogRecord>
  {
    var parts := Tokens(line);
    if |parts| < MinTokens then None
    else
      var timestamp := parts[0] + " " + parts[1];
      var last := parts[|parts| - 1];
      var clientIP := if last != "" then last else "unknown";
      var action := parts[3] + " " + parts[4] + QuerySuffix(parts[5]);
      Some(LogRecord(
        timestamp + "-" + clientIP + "-" + Decimal(index),
        timestamp,
        ExtractEmail(line),
        clientIP,
        action,
        ExtractReferrer(line),
        dateOf(timestamp)))
  }

  /** The tokens of a line are whitespace-free; they are non-empty unless the
      line is blank, which gives the single token "". Joined with single
      spaces they give back the trimmed line with each run of whitespace
      collapsed to one space. */
  lemma TokensSpec(line: string)
    ensures |Tokens(line)| >= 1
    ensures forall k :: 0 <= k < |Tokens(line)| ==> NoWs(Tokens(line)[k])
    ensures Trim(line) == "" ==> Tokens(line) == [""]
    ensures Trim(line) != "" ==> forall k :: 0 <= k < |Tokens(line)| ==> Tokens(line)[k] != ""
    ensures Join(Tokens(line), ' ') == Collapse(Trim(line))
  {
    var t := Trim(line);
    TrimSpec(line);
    JoinSplitWs(t);
    if t != "" {
      SplitWsNonEmpty(t);
    }
  }

  /** A line gives no record exactly when it has fewer than ten tokens. A
      record's client IP is the last token itself (the "unknown" fall-back is
      never taken), the request in its action is made of whitespace-free
      tokens, and the key and the date are built from the timestamp. */
  lemma ParseLineSpec(line: string, index: nat, dateOf: string -> int)
    ensures ParseLine(line, index, dateOf).None? <==> |Tokens(line)| < MinTokens
    ensures ParseLine(line, index, dateOf).Some? ==>
      var r := ParseLine(line, index, dateOf).value;
      var t := Tokens(line);
      && r.timestamp == t[0] + " " + t[1]
      && r.clientIP == t[|t| - 1] != ""
      && NoWs(r.clientIP) && NoWs(t[3]) && NoWs(t[4] + QuerySuffix(t[5]))
      && r.action == t[3] + " " + t[4] + QuerySuffix(t[5])
      && r.email == ExtractEmail(line)
      && r.referrer == ExtractReferrer(line)
      && r.key == r.timestamp + "-" + r.clientIP + "-" + Decimal(index)
      && r.formattedDate == dateOf(r.timestamp)
  {
    TokensSpec(line);
    var t := Tokens(line);
    if |t| >= MinTokens {
      assert t != [""];
      var q := t[4] + QuerySuffix(t[5]);
      assert NoWs(t[5]);
      forall m | 0 <= m < |q| ensures !IsWs(q[m]) {
        if m >= |t[4]| && t[5] != "-" {
          assert q[m] == ("?" + t[5])[m - |t[4]|];
        }
      }
    }
  }

  /** Parsing a line assembled from tokens with single spaces gives those
      tokens back in the record: no record for fewer than ten tokens, and
      otherwise the timestamp from the first two, the action from the
      fourth, fifth and sixth, and the client IP from the last. */
  lemma ParseJoinedLine(toks: seq<string>, index: nat, dateOf: string -> int)
    requires |toks| >= 1
    requires forall k :: 0 <= k < |toks| ==> toks[k] != "" && NoWs(toks[k])
    ensures ParseLine(Join(toks, ' '), index, dateOf).None? <==> |toks| < MinTokens
    ensures ParseLine(Join(toks, ' '), index, dateOf).Some? ==>
      var r := ParseLine(Join(toks, ' '), index, dateOf).value;
      && r.timestamp == toks[0] + " " + toks[1]
      && r.clientIP == toks[|toks| - 1]
      && r.action == toks[3] + " " + toks[4] + (if toks[5] == "-" then "" else "?" + toks[5])
      && r.key == toks[0] + " " + toks[1] + "-" + toks[|toks| - 1] + "-" + Decimal(index)
      && r.formattedDate == dateOf(toks[0] + " " + toks[1])
  {
    var line := Join(toks, ' ');
    TrimSplitJoin(toks);
    RecordOfTokens(line, index, dateOf, toks);
  }

  /** The record of a line whose tokens are known. */
  lemma RecordOfTokens(line: string, index: nat, dateOf: string -> int, toks: seq<string>)
    requires Tokens(line) == toks
    requires forall k :: 0 <= k < |toks| ==> toks[k] != ""
    ensures ParseLine(line, index, dateOf).None? <==> |toks| < MinTokens
    ensures ParseLine(line, index, dateOf).Some? ==>
      var r := ParseLine(line, index, dateOf).value;
      && r.timestamp == toks[0] + " " + toks[1]
      && r.clientIP == toks[|toks| - 1]
      && r.action == toks[3] + " " + toks[4] + (if toks[5] == "-" then "" else "?" + toks[5])
      && r.key == toks[0] + " " + toks[1] + "-" + toks[|toks| - 1] + "-" + Decimal(index)
      && r.formattedDate == dateOf(toks[0] + " " + toks[1])
  {
  }

  /** Two strings ending in '-' followed by dash-free texts end in the same text. */
  lemma DashSuffix(a: string, b: string, d1: string, d2: string)
    requires a + "-" + d1 == b + "-" + d2
    requires '-' !in d1 && '-' !in d2
    ensures d1 == d2
  {
    var x := a + "-" + d1;
    assert x == b + "-" + d2;
    assert x[|x| - |d1| - 1] == '-';
    assert x[|x| - |d2| - 1] == '-';
    assert forall m :: |x| - |d2| <= m < |x| ==> x[m] == d2[m - (|x| - |d2|)];
    assert forall m :: |x| - |d1| <= m < |x| ==> x[m] == d1[m - (|x| - |d1|)];
    assert |d1| <= |d2| by {
      assert forall m :: 0 <= m < |d2| ==> d2[m] != '-';
    }
    assert |d2| <= |d1| by {
      assert forall m :: 0 <= m < |d1| ==> d1[m] != '-';
    }
    assert d1 == x[|x| - |d1|..] == d2;
  }

  /** Records parsed from two different positions have different keys: the
      key ends in '-' and the decimal position, which holds no '-'. */
  lemma KeysDistinct(l1: string, i1: nat, l2: string, i2: nat, dateOf: string -> int)
    requires |Tokens(l1)| >= MinTokens && |Tokens(l2)| >= MinTokens
    requires i1 != i2
    ensures ParseLine(l1, i1, dateOf).Some? && ParseLine(l2, i2, dateOf).Some?
    ensures ParseLine(l1, i1, dateOf).value.key != ParseLine(l2, i2, dateOf).value.key
  {
    var r1 := ParseLine(l1, i1, dateOf).value;
    var r2 := ParseLine(l2, i2, dateOf).value;
    var d1, d2 := Decimal(i1), Decimal(i2);
    assert '-' !in d1 && '-' !in d2;
    if r1.key == r2.key {
      assert r1.key == (r1.timestamp + "-" + r1.clientIP) + "-" + d1;
      assert r2.key == (r2.timestamp + "-" + r2.clientIP) + "-" + d2;
      DashSuffix(r1.timestamp + "-" + r1.clientIP, r2.timestamp + "-" + r2.clientIP, d1, d2);
      DecimalInjective(i1, i2);
    }
  }

  // ---------------------------------------------------------------------
  // The batch pipeline

  /** The line filter: something other than whitespace on the line, and no
      '#' as its very first character (the test is on the untrimmed line). */
  predicate KeepLine(line: string)
  {
    Trim(line) != "" && !(|line| > 0 && line[0] == '#')
  }

  /** `content.split('\n').filter(KeepLine)`. */
  function KeptLines(content: string): seq<string>
  {
    Filter(SplitOn(content, '\n'), KeepLine)
  }

  /** `lines.map((line, index) => parseLine(line, index))`: the index is the
      position among the kept lines, not the line number in the file. */
  function ParseAll(lines: seq<string>, dateOf: string -> int): (r: seq<Option<LogRecord>>)
    ensures |r| == |lines|
  {
    seq(|lines|, j requires 0 <= j < |lines| => ParseLine(lines[j], j, dateOf))
  }

  /** The parsed logs of a file: the records of the kept lines, nulls dropped. */
  function ParseBatch(content: string, dateOf: string -> int): seq<LogRecord>
  {
    Somes(ParseAll(KeptLines(content), dateOf))
  }

  /** What the reader hands on to the viewer: nothing for empty content or
      when no line gave a record (both only raise a message), else the batch. */
  function Upload(content: string, dateOf: string -> int): (r: Option<seq<LogRecord>>)
    ensures r.Some? <==> content != "" && ParseBatch(content, dateOf) != []
    ensures r.Some? ==> r.value == ParseBatch(content, dateOf)
  {
    if content == "" then None
    else
      var batch := ParseBatch(content, dateOf);
      if batch == [] then None else Some(batch)
  }

  /** A line is kept exactly when it holds a non-whitespace character and
      does not begin with '#'. */
  lemma KeepLineIff(line: string)
    ensures KeepLine(line) <==>
      (exists m :: 0 <= m < |line| && !IsWs(line[m])) && (line == [] || line[0] != '#')
  {
  }

  /** The kept lines are exactly the lines of the file that pass the line
      filter, in file order; the lines are the text between newlines, and
      joining them with newlines gives the content back. */
  lemma KeptLinesSpec(content: string)
    ensures var lines := SplitOn(content, '\n');
      && Join(lines, '\n') == content
      && (forall k :: 0 <= k < |lines| ==> '\n' !in lines[k])
      && IsSubsequence(KeptLines(content), lines)
      && (forall l :: l in KeptLines(content) <==> l in lines && KeepLine(l))
      && (forall l :: multiset(KeptLines(content))[l] == if KeepLine(l) then multiset(lines)[l] else 0)
  {
    var lines := SplitOn(content, '\n');
    JoinSplitOn(content, '\n');
    FilterIsSubsequence(lines, KeepLine);
    FilterMultiset(lines, KeepLine);
  }

  /** The batch lists, in order, the record of every kept line that gives
      one, with its position among the kept lines; it is no longer than the
      list of kept lines. */
  lemma ParseBatchOrigins(content: string, dateOf: string -> int) returns (idx: seq<nat>)
    ensures var lines := KeptLines(content);
      var batch := ParseBatch(content, dateOf);
      && |batch| <= |lines|
      && |idx| == |batch|
      && (forall k :: 0 <= k < |idx| ==> idx[k] < |lines| && ParseLine(lines[idx[k]], idx[k], dateOf) == Some(batch[k]))
      && (forall k, l :: 0 <= k < l < |idx| ==> idx[k] < idx[l])
      && (forall j :: 0 <= j < |lines| && ParseLine(lines[j], j, dateOf).Some? ==> j in idx)
  {
    var lines := KeptLines(content);
    idx := SomesOrigins(ParseAll(lines, dateOf));
  }

  /** Within one batch no two records share a key. */
  lemma BatchKeysDistinct(content: string, dateOf: string -> int)
    ensures var batch := ParseBatch(content, dateOf);
      forall p, q :: 0 <= p < q < |batch| ==> batch[p].key != batch[q].key
  {
    var lines := KeptLines(content);
    var batch := ParseBatch(content, dateOf);
    var idx := ParseBatchOrigins(content, dateOf);
    forall p, q | 0 <= p < q < |batch|
      ensures batch[p].key != batch[q].key
    {
      ParseLineSpec(lines[idx[p]], idx[p], dateOf);
      ParseLineSpec(lines[idx[q]], idx[q], dateOf);
      KeysDistinct(lines[idx[p]], idx[p], lines[idx[q]], idx[q], dateOf);
    }
  }
}
