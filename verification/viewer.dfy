/** The viewer's state (the `useState` fields of the application component)
    and the handlers that change it: storing an uploaded batch, removing the
    entries of one file, re-running the filters, and clearing everything.
    Each handler is a pure transition on State, and class LogViewer holds
    the fields and is proved to follow those transitions. */
module Viewer {
  import opened Seqs
  import opened Text
  import opened LineParser
  import opened Ingest

  // ---------------------------------------------------------------------
  // The filters of `applyFilters`

  /** `t.startOf('second')` for a time in milliseconds. */
  function StartOfSecond(t: int): int
  {
    t - t % 1000
  }

  /** `t.endOf('second')`: the last millisecond of t's second. */
  function EndOfSecond(t: int): int
  {
    StartOfSecond(t) + 999
  }

  /** The second of t starts at the largest whole second not after t and
      ends 999 milliseconds later, at or after t. */
  lemma SecondBounds(t: int)
    ensures StartOfSecond(t) <= t <= EndOfSecond(t)
    ensures StartOfSecond(t) % 1000 == 0
    ensures forall m :: m % 1000 == 0 && m <= t ==> m <= StartOfSecond(t)
  {
  }

  /** The text filter: the lower-cased email or client IP contains the
      lower-cased term. */
  predicate MatchesTerm(e: Entry, term: string)
  {
    Contains(LowerAscii(e.email), LowerAscii(term)) ||
    Contains(LowerAscii(e.clientIP), LowerAscii(term))
  }

  /** The date filter: `formattedDate.isAfter(start.startOf('second')) &&
      formattedDate.isBefore(end.endOf('second'))`, both strict. */
  predicate InRange(e: Entry, start: int, end: int)
  {
    StartOfSecond(start) < e.formattedDate && e.formattedDate < EndOfSecond(end)
  }

  /** Whether an entry passes both filters; a filter is off when the term is
      empty or the range is not a pair. */
  predicate Keep(e: Entry, term: string, range: seq<int>)
  {
    (term == "" || MatchesTerm(e, term)) && (|range| != 2 || InRange(e, range[0], range[1]))
  }

  /** Keep as a filter function for a fixed term and range. */
  function Passes(term: string, range: seq<int>): Entry -> bool
  {
    (e: Entry) => Keep(e, term, range)
  }

  /** `applyFilters(term, range)` on the stored logs. */
  function Query(logs: seq<Entry>, term: string, range: seq<int>): seq<Entry>
  {
    var byTerm := if term != "" then Filter(logs, e => MatchesTerm(e, term)) else logs;
    if |range| == 2 then Filter(byTerm, e => InRange(e, range[0], range[1])) else byTerm
  }

  /** The filtered view is the stored logs restricted to the entries that
      pass both filters, in their stored order; with an empty term and no
      complete range it is all of the logs. */
  lemma QuerySpec(logs: seq<Entry>, term: string, range: seq<int>)
    ensures Query(logs, term, range) == Filter(logs, Passes(term, range))
    ensures IsSubsequence(Query(logs, term, range), logs)
    ensures forall e :: e in Query(logs, term, range) <==> e in logs && Keep(e, term, range)
    ensures term == "" && |range| != 2 ==> Query(logs, term, range) == logs
  {
    var keep := Passes(term, range);
    var byTerm := e => MatchesTerm(e, term);
    if term != "" && |range| == 2 {
      FilterFilter(logs, byTerm, e => InRange(e, range[0], range[1]), keep);
    } else if term != "" {
      FilterAgree(logs, byTerm, keep);
    } else if |range| == 2 {
      FilterAgree(logs, e => InRange(e, range[0], range[1]), keep);
    } else {
      FilterAll(logs, keep);
    }
    FilterIsSubsequence(logs, keep);
  }

  /** Filtering the filtered view again changes nothing. */
  lemma QueryIdempotent(logs: seq<Entry>, term: string, range: seq<int>)
    ensures Query(Query(logs, term, range), term, range) == Query(logs, term, range)
  {
    var keep := Passes(term, range);
    var once := Query(logs, term, range);
    QuerySpec(logs, term, range);
    QuerySpec(once, term, range);
    FilterFilter(logs, keep, keep, keep);
  }

  /** The text filter is a case-blind substring test on the email or the
      client IP. */
  lemma MatchesTermIff(e: Entry, term: string)
    ensures MatchesTerm(e, term) <==>
      (exists i :: OccursAt(LowerAscii(e.email), LowerAscii(term), i)) ||
      (exists i :: OccursAt(LowerAscii(e.clientIP), LowerAscii(term), i))
  {
    ContainsIff(LowerAscii(e.email), LowerAscii(term));
    ContainsIff(LowerAscii(e.clientIP), LowerAscii(term));
  }

  /** An entry dated exactly at the start of the start second does not pass
      the date filter, although it lies in that second. */
  lemma StartSecondExcluded(e: Entry, start: int, end: int)
    requires e.formattedDate == StartOfSecond(start)
    ensures !InRange(e, start, end)
  {
  }

  // ---------------------------------------------------------------------
  // The viewer state and its transitions

  /** The component's state: all stored entries, the entries on display,
      the entries stored per file name, the search term and the date range
      (an empty range stands for a cleared picker). */
  datatype State = State(
    logs: seq<Entry>,
    filteredLogs: seq<Entry>,
    fileLogMap: map<string, seq<Entry>>,
    searchTerm: string,
    dateRange: seq<int>)

  /** The state before any upload. */
  const Initial := State([], [], map[], "", [])

  /** The entries on display are some of the stored entries, in stored order. */
  ghost predicate Consistent(st: State)
  {
    IsSubsequence(st.filteredLogs, st.logs)
  }

  /** The set of keys of some entries. */
  function KeysOf(es: seq<Entry>): (ks: set<string>)
    ensures forall k :: 0 <= k < |es| ==> es[k].key in ks
    ensures forall key :: key in ks ==> exists k :: 0 <= k < |es| && es[k].key == key
  {
    set k | 0 <= k < |es| :: es[k].key
  }

  /** `handleFileRead(newLogs, file)`: the prepared batch is appended to both
      lists (whatever the filters are) and stored under the file name. */
  function AfterFileRead(st: State, batch: seq<LogRecord>, name: string, dateOf: string -> int): State
  {
    var sorted := Prepare(batch, dateOf);
    st.(logs := st.logs + sorted,
        filteredLogs := st.filteredLogs + sorted,
        fileLogMap := st.fileLogMap[name := sorted])
  }

  /** The entries stored for a file name, none for an unknown name. */
  function EntriesOf(st: State, name: string): seq<Entry>
  {
    if name in st.fileLogMap then st.fileLogMap[name] else []
  }

  /** The removal filter: the entry's key is not among ids. */
  function Survives(ids: set<string>): Entry -> bool
  {
    (e: Entry) => e.key !in ids
  }

  /** `removeFile(fileName)`: every entry whose key is the key of one of the
      file's entries leaves both lists, and the file's map entry goes. */
  function AfterRemoveFile(st: State, name: string): State
  {
    var ids := KeysOf(EntriesOf(st, name));
    st.(logs := Filter(st.logs, Survives(ids)),
        filteredLogs := Filter(st.filteredLogs, Survives(ids)),
        fileLogMap := st.fileLogMap - {name})
  }

  /** `applyFilters(term, range)`: the view is recomputed from all logs. */
  function AfterApplyFilters(st: State, term: string, range: seq<int>): State
  {
    st.(filteredLogs := Query(st.logs, term, range))
  }

  /** `handleSearchChange`: store the term, filter with the stored range. */
  function AfterSearchChange(st: State, value: string): State
  {
    AfterApplyFilters(st.(searchTerm := value), value, st.dateRange)
  }

  /** `handleDateRangeChange`: store the range, filter with the stored term. */
  function AfterDateRangeChange(st: State, dates: seq<int>): State
  {
    AfterApplyFilters(st.(dateRange := dates), st.searchTerm, dates)
  }

  /** `clearAllData`. */
  function AfterClearAll(st: State): State
  {
    Initial
  }

  /** After a read, both lists end with the prepared batch, the file name
      maps to it, and every other file keeps its entries. */
  lemma FileReadSpec(st: State, batch: seq<LogRecord>, name: string, dateOf: string -> int)
    ensures var st' := AfterFileRead(st, batch, name, dateOf);
      var sorted := Prepare(batch, dateOf);
      && |st'.logs| == |st.logs| + |batch|
      && st'.logs[..|st.logs|] == st.logs && st'.logs[|st.logs|..] == sorted
      && st'.filteredLogs[..|st.filteredLogs|] == st.filteredLogs
      && st'.filteredLogs[|st.filteredLogs|..] == sorted
      && EntriesOf(st', name) == sorted
      && (forall n :: n != name ==> EntriesOf(st', n) == EntriesOf(st, n))
      && st'.searchTerm == st.searchTerm && st'.dateRange == st.dateRange
  {
  }

  /** An entry survives removal exactly when its key is not the key of one
      of the file's entries, so entries of other files sharing such a key go
      too; the file's map entry is gone and the others stay. */
  lemma RemoveFileSpec(st: State, name: string)
    ensures var st' := AfterRemoveFile(st, name);
      var gone := EntriesOf(st, name);
      && (forall e :: e in st'.logs <==>
            e in st.logs && !exists k :: 0 <= k < |gone| && gone[k].key == e.key)
      && (forall e :: e in st'.filteredLogs <==>
            e in st.filteredLogs && !exists k :: 0 <= k < |gone| && gone[k].key == e.key)
      && IsSubsequence(st'.logs, st.logs)
      && IsSubsequence(st'.filteredLogs, st.filteredLogs)
      && (forall e :: multiset(st'.logs)[e] ==
            if e.key in KeysOf(gone) then 0 else multiset(st.logs)[e])
      && (forall e :: multiset(st'.filteredLogs)[e] ==
            if e.key in KeysOf(gone) then 0 else multiset(st.filteredLogs)[e])
      && name !in st'.fileLogMap
      && (forall n :: n != name ==> EntriesOf(st', n) == EntriesOf(st, n))
      && st'.searchTerm == st.searchTerm && st'.dateRange == st.dateRange
  {
    var gone := EntriesOf(st, name);
    RemovedEntries(st.logs, gone);
    RemovedEntries(st.filteredLogs, gone);
    RemoveFileMap(st, name);
  }

  /** Removal drops the file's map entry and leaves the other files' entries. */
  lemma RemoveFileMap(st: State, name: string)
    ensures var st' := AfterRemoveFile(st, name);
      && name !in st'.fileLogMap
      && (forall n :: n != name ==> EntriesOf(st', n) == EntriesOf(st, n))
      && st'.searchTerm == st.searchTerm && st'.dateRange == st.dateRange
  {
    var st' := AfterRemoveFile(st, name);
    forall n | n != name
      ensures EntriesOf(st', n) == EntriesOf(st, n)
    {
      assert st'.fileLogMap == st.fileLogMap - {name};
      assert n in st'.fileLogMap <==> n in st.fileLogMap;
    }
  }

  /** Removing the keys of gone from a list keeps, in order and with their
      multiplicity, the entries whose key is not the key of an entry of
      gone, and no others. */
  lemma RemovedEntries(s: seq<Entry>, gone: seq<Entry>)
    ensures var r := Filter(s, Survives(KeysOf(gone)));
      && IsSubsequence(r, s)
      && (forall e :: e in r <==> e in s && !exists k :: 0 <= k < |gone| && gone[k].key == e.key)
      && (forall e :: multiset(r)[e] == if e.key in KeysOf(gone) then 0 else multiset(s)[e])
  {
    var ids := KeysOf(gone);
    FilterIsSubsequence(s, Survives(ids));
    FilterMultiset(s, Survives(ids));
  }

  /** Removing a file that was never stored changes nothing. */
  lemma RemoveUnknownFile(st: State, name: string)
    requires name !in st.fileLogMap
    ensures AfterRemoveFile(st, name) == st
  {
    assert KeysOf(EntriesOf(st, name)) == {};
    FilterAll(st.logs, Survives({}));
    FilterAll(st.filteredLogs, Survives({}));
    assert st.fileLogMap - {name} == st.fileLogMap;
  }

  /** Removing the same file twice is removing it once. */
  lemma RemoveFileTwice(st: State, name: string)
    ensures AfterRemoveFile(AfterRemoveFile(st, name), name) == AfterRemoveFile(st, name)
  {
    RemoveUnknownFile(AfterRemoveFile(st, name), name);
  }

  /** Reading a batch under a new file name and removing that file again
      restores the state, provided no stored entry shares a key with the
      batch (keys repeat across files whose lines agree in timestamp, client
      IP and position). */
  lemma ReadThenRemove(st: State, batch: seq<LogRecord>, name: string, dateOf: string -> int)
    requires Consistent(st)
    requires name !in st.fileLogMap
    requires forall e :: e in st.logs ==> e.key !in KeysOf(Prepare(batch, dateOf))
    ensures AfterRemoveFile(AfterFileRead(st, batch, name, dateOf), name) == st
  {
    AppendThenRemove(st, Prepare(batch, dateOf), name);
  }

  /** Removing a batch's keys from a list extended by that batch gives back
      the list, when no entry of the list has one of those keys. */
  lemma RemoveAppended(held: seq<Entry>, added: seq<Entry>)
    requires forall e :: e in held ==> e.key !in KeysOf(added)
    ensures Filter(held + added, Survives(KeysOf(added))) == held
  {
    var keep := Survives(KeysOf(added));
    FilterConcat(held, added, keep);
    FilterAll(held, keep);
    FilterNone(added, keep);
    assert held + [] == held;
  }

  /** ReadThenRemove for an arbitrary appended sequence of entries. */
  lemma AppendThenRemove(st: State, added: seq<Entry>, name: string)
    requires Consistent(st)
    requires name !in st.fileLogMap
    requires forall e :: e in st.logs ==> e.key !in KeysOf(added)
    ensures AfterRemoveFile(st.(logs := st.logs + added,
                                filteredLogs := st.filteredLogs + added,
                                fileLogMap := st.fileLogMap[name := added]), name) == st
  {
    var mid := st.(logs := st.logs + added,
                   filteredLogs := st.filteredLogs + added,
                   fileLogMap := st.fileLogMap[name := added]);
    var ids := KeysOf(added);
    assert EntriesOf(mid, name) == added;
    assert Filter(mid.logs, Survives(ids)) == st.logs by {
      RemoveAppended(st.logs, added);
    }
    assert Filter(mid.filteredLogs, Survives(ids)) == st.filteredLogs by {
      SubsequenceMembers(st.filteredLogs, st.logs);
      RemoveAppended(st.filteredLogs, added);
    }
    assert mid.fileLogMap - {name} == st.fileLogMap;
  }

  /** Two files read into an empty viewer, then the first removed: what is
      left is exactly the second file's prepared batch, provided the two
      batches share no key. */
  lemma RemoveFirstOfTwo(b1: seq<LogRecord>, n1: string, b2: seq<LogRecord>, n2: string, dateOf: string -> int)
    requires n1 != n2
    requires forall e :: e in Prepare(b2, dateOf) ==> e.key !in KeysOf(Prepare(b1, dateOf))
    ensures var st := AfterRemoveFile(AfterFileRead(AfterFileRead(Initial, b1, n1, dateOf), b2, n2, dateOf), n1);
      && st.logs == Prepare(b2, dateOf)
      && st.filteredLogs == Prepare(b2, dateOf)
      && st.fileLogMap == map[n2 := Prepare(b2, dateOf)]
  {
    var p1, p2 := Prepare(b1, dateOf), Prepare(b2, dateOf);
    var two := AfterFileRead(AfterFileRead(Initial, b1, n1, dateOf), b2, n2, dateOf);
    assert two == State(p1 + p2, p1 + p2, map[n1 := p1][n2 := p2], "", []);
    RemoveFirstOfTwoBatches(p1, n1, p2, n2);
  }

  /** RemoveFirstOfTwo for arbitrary batches of entries. */
  lemma RemoveFirstOfTwoBatches(p1: seq<Entry>, n1: string, p2: seq<Entry>, n2: string)
    requires n1 != n2
    requires forall e :: e in p2 ==> e.key !in KeysOf(p1)
    ensures AfterRemoveFile(State(p1 + p2, p1 + p2, map[n1 := p1][n2 := p2], "", []), n1)
      == State(p2, p2, map[n2 := p2], "", [])
  {
    var two := State(p1 + p2, p1 + p2, map[n1 := p1][n2 := p2], "", []);
    var keep := Survives(KeysOf(p1));
    assert EntriesOf(two, n1) == p1;
    FilterConcat(p1, p2, keep);
    FilterNone(p1, keep);
    FilterAll(p2, keep);
    assert [] + p2 == p2;
    assert two.fileLogMap - {n1} == map[n2 := p2];
  }

  /** Every transition keeps the displayed entries a subsequence of the
      stored ones. */
  lemma TransitionsConsistent(st: State, batch: seq<LogRecord>, name: string, dateOf: string -> int,
                              term: string, range: seq<int>)
    requires Consistent(st)
    ensures Consistent(AfterFileRead(st, batch, name, dateOf))
    ensures Consistent(AfterRemoveFile(st, name))
    ensures Consistent(AfterApplyFilters(st, term, range))
    ensures Consistent(AfterSearchChange(st, term))
    ensures Consistent(AfterDateRangeChange(st, range))
    ensures Consistent(AfterClearAll(st))
  {
    SubsequenceAppend(st.filteredLogs, st.logs, Prepare(batch, dateOf));
    var ids := KeysOf(EntriesOf(st, name));
    SubsequenceFilter(st.filteredLogs, st.logs, Survives(ids));
    QuerySpec(st.logs, term, range);
    QuerySpec(st.logs, term, st.dateRange);
    QuerySpec(st.logs, st.searchTerm, range);
  }

  /** The view after a search holds exactly the stored entries that pass the
      new term and the stored range, whatever was on display before; an
      emptied search with no complete range shows every stored entry. */
  lemma SearchChangeSpec(st: State, value: string)
    ensures var st' := AfterSearchChange(st, value);
      && st'.logs == st.logs && st'.fileLogMap == st.fileLogMap
      && st'.searchTerm == value && st'.dateRange == st.dateRange
      && (forall e :: e in st'.filteredLogs <==> e in st.logs && Keep(e, value, st.dateRange))
      && (value == "" && |st.dateRange| != 2 ==> st'.filteredLogs == st.logs)
      && st'.filteredLogs == Filter(st.logs, Passes(value, st.dateRange))
  {
    QuerySpec(st.logs, value, st.dateRange);
  }

  /** The view after a range change holds exactly the stored entries that
      pass the stored term and the new range. */
  lemma DateRangeChangeSpec(st: State, dates: seq<int>)
    ensures var st' := AfterDateRangeChange(st, dates);
      && st'.logs == st.logs && st'.fileLogMap == st.fileLogMap
      && st'.searchTerm == st.searchTerm && st'.dateRange == dates
      && (forall e :: e in st'.filteredLogs <==> e in st.logs && Keep(e, st.searchTerm, dates))
      && (st.searchTerm == "" && |dates| != 2 ==> st'.filteredLogs == st.logs)
      && st'.filteredLogs == Filter(st.logs, Passes(st.searchTerm, dates))
  {
    QuerySpec(st.logs, st.searchTerm, dates);
  }

  // ---------------------------------------------------------------------
  // The component

  /** The application component's state, field by field. */
  class LogViewer {
    var logs: seq<Entry>
    var filteredLogs: seq<Entry>
    var fileLogMap: map<string, seq<Entry>>
    var searchTerm: string
    var dateRange: seq<int>

    /** The fields as a State value. */
    function Snapshot(): State
      reads this
    {
      State(logs, filteredLogs, fileLogMap, searchTerm, dateRange)
    }

    ghost predicate Valid()
      reads this
    {
      Consistent(Snapshot())
    }

    /** The initial `useState` values. */
    constructor()
      ensures Snapshot() == Initial
      ensures Valid()
    {
      logs := [];
      filteredLogs := [];
      fileLogMap := map[];
      searchTerm := "";
      dateRange := [];
    }

    /** `handleFileRead(newLogs, file)`. */
    method HandleFileRead(newLogs: seq<LogRecord>, fileName: string, dateOf: string -> int)
      requires Valid()
      modifies this
      ensures Valid()
      ensures Snapshot() == AfterFileRead(old(Snapshot()), newLogs, fileName, dateOf)
      ensures logs == old(logs) + Prepare(newLogs, dateOf)
      ensures filteredLogs == old(filteredLogs) + Prepare(newLogs, dateOf)
      ensures fileLogMap == old(fileLogMap)[fileName := Prepare(newLogs, dateOf)]
    {
      TransitionsConsistent(Snapshot(), newLogs, fileName, dateOf, searchTerm, dateRange);
      var sortedLogs := Prepare(newLogs, dateOf);
      logs := logs + sortedLogs;
      filteredLogs := filteredLogs + sortedLogs;
      fileLogMap := fileLogMap[fileName := sortedLogs];
    }

    /** The reader's load handler followed by `onFileRead`: a file whose
        content is empty or gives no record changes nothing. */
    method LoadFile(content: string, fileName: string, dateOf: string -> int)
      requires Valid()
      modifies this
      ensures Valid()
      ensures Upload(content, dateOf).None? ==> Snapshot() == old(Snapshot())
      ensures Upload(content, dateOf).Some? ==>
        Snapshot() == AfterFileRead(old(Snapshot()), Upload(content, dateOf).value, fileName, dateOf)
    {
      var parsed := Upload(content, dateOf);
      if parsed.Some? {
        HandleFileRead(parsed.value, fileName, dateOf);
      }
    }

    /** `removeFile(fileName)`. */
    method RemoveFile(fileName: string)
      requires Valid()
      modifies this
      ensures Valid()
      ensures Snapshot() == AfterRemoveFile(old(Snapshot()), fileName)
    {
      var logsToRemove := if fileName in fileLogMap then fileLogMap[fileName] else [];
      var logIdsToRemove := KeysOf(logsToRemove);
      SubsequenceFilter(filteredLogs, logs, Survives(logIdsToRemove));
      logs := Filter(logs, Survives(logIdsToRemove));
      filteredLogs := Filter(filteredLogs, Survives(logIdsToRemove));
      fileLogMap := fileLogMap - {fileName};
    }

    /** `applyFilters(term, range)`. */
    method ApplyFilters(term: string, range: seq<int>)
      requires Valid()
      modifies this
      ensures Valid()
      ensures Snapshot() == AfterApplyFilters(old(Snapshot()), term, range)
    {
      QuerySpec(logs, term, range);
      filteredLogs := Query(logs, term, range);
    }

    /** `handleSearchChange`. */
    method HandleSearchChange(value: string)
      requires Valid()
      modifies this
      ensures Valid()
      ensures Snapshot() == AfterSearchChange(old(Snapshot()), value)
    {
      searchTerm := value;
      ApplyFilters(value, dateRange);
    }

    /** `handleDateRangeChange`. */
    method HandleDateRangeChange(dates: seq<int>)
      requires Valid()
      modifies this
      ensures Valid()
      ensures Snapshot() == AfterDateRangeChange(old(Snapshot()), dates)
    {
      dateRange := dates;
      ApplyFilters(searchTerm, dates);
    }

    /** `clearAllData`. */
    method ClearAllData()
      modifies this
      ensures Valid()
      ensures Snapshot() == Initial
    {
      logs := [];
      filteredLogs := [];
      fileLogMap := map[];
      searchTerm := "";
      dateRange := [];
    }
  }
}
