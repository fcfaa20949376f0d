# LogFinder log viewer, modelled in Dafny

LogFinder is a browser application for reading server access logs. You upload
one or more text files. Each line is parsed into a record holding a
timestamp, an email found anywhere on the line, the client IP (the last
token), a synthesized action (method, URI and query), a referrer URL and a
date. The records are kept in one list. A text search and a date range
filter the list on display, and the records of an uploaded file can be
removed again by file name.

This project models the two parts of the program that hold logic:

- **The upload component's parser** (`src/components/FileUpload.jsx`).
  - The two regex extractors, modelled as character-class scanners. They
    are proved equal to a leftmost, longest-from-there match of the
    pattern.
  - The positional line parser.
  - The split / filter / map / filter pipeline that turns a file's text
    into a batch of records.
  - Pure functions in modules `Text`, `Seqs`, `Extractors` and
    `LineParser`.
- **The application component's state** (`src/App.jsx`).
  - Pure functions (module `Ingest`): the landing-page flag, the sort
    comparator and the stable sort it drives.
  - Pure functions (module `Viewer`): the two filters of `applyFilters`.
  - The handlers as transitions on a `State` value (module `Viewer`).
  - Class `Viewer.LogViewer`. It holds the five state fields (`logs`,
    `filteredLogs`, `fileLogMap`, `searchTerm`, `dateRange`), and each
    handler is a method proved to perform its transition. The invariant
    it keeps: the entries on display are a subsequence of the stored
    ones.

JavaScript built-ins are modelled as follows:

- `\s` and `trim` use the ECMAScript whitespace set.
- `split(/\s+/)` gives `[""]` for the empty string, and `trim` followed by `split(/\s+/)` gives `[""]` for a blank line.
- `includes` is substring search; an empty needle is always found.
- `` `${index}` `` is the decimal numeral.
- `localeCompare` is code-point lexicographic order.
- `toLowerCase` folds ASCII letters only.

Dates are integers (milliseconds). The date library is a parameter
`dateOf: string -> int` from timestamp text to time.

Behaviour of the code that the model follows and proves:

- `action` is built from the 4th, 5th and 6th tokens (`parts[3]`, `parts[4]`,
  `parts[5]`). It is not built from the 3rd token onward (`ParseLineSpec`).
- The `|| 'unknown'` fall-back for the client IP is never taken. A line with
  ten or more tokens has no empty token (`ParseLineSpec`).
- `isLandingPage` looks for the action's second space-separated word (URI
  plus query) in the referrer. A `"-"` referrer does not make it false
  (`DashReferrerLanding`).
- A freshly read batch is appended to `filteredLogs` without being filtered.
- Removal works by key, and keys are `timestamp-clientIP-index`. Two files
  whose lines agree in timestamp, IP and position share keys. Removing one
  file then also drops the matching entries of the other (`RemoveFileSpec`).
  `ReadThenRemove` and `RemoveFirstOfTwo` therefore require distinct keys.
- Both ends of the date filter are strict. An entry dated exactly at the
  first millisecond of the start second is excluded (`StartSecondExcluded`).

Where the written design of the system and the code disagree, the model
follows the code:

- **Degraded tier.** The design describes a fall-back tier for short lines,
  with `"N/A"` sentinels. The code has none: a line with fewer than ten
  tokens gives no record.
- **Action layout.** The design describes a `"Home Page"` rendering of `/`.
  The code has no such rendering. It also takes the method from the 4th
  token, not the 3rd.
- **Landing test.** The design describes a same-origin test and a `"-"`
  referrer excluding a landing page. The code has neither.
- **Start second.** The design describes the start second as included. The
  code compares strictly against its first millisecond.

## Model

The defining functions are `Extractors.ExtractEmail`, `Extractors.ExtractReferrer`, `LineParser.ParseLine`, `Ingest.IsLanding`, `Ingest.Compare`, `Ingest.SortEntries`, `Viewer.Query`, `Viewer.AfterFileRead` and `Viewer.AfterRemoveFile`. None of them has a row of its own; each is covered by the row of the lemma that specifies it: `ExtractEmailSpec`, `ExtractReferrerSpec`, `ParseLineSpec`, `LandingOfParsed`, `CompareSpec`, `SortEntriesCorrect`, `QuerySpec`, `FileReadSpec` and `RemoveFileSpec`.

| member | source | states |
|---|---|---|
| Text.TrimSpec | src/components/FileUpload.jsx:19 | `trim` returns a slice of the line with only whitespace before and after it; the slice is "" exactly for an all-whitespace line, and otherwise starts and ends with a non-whitespace character |
| Text.JoinSplitWs | src/components/FileUpload.jsx:19 | the pieces of `split(/\s+/)` joined with single spaces equal the string with every whitespace run collapsed to one space (`Collapse`, defined character by character): splitting loses, reorders or adds nothing but whitespace |
| Text.CollapseNoWs | src/components/FileUpload.jsx:19 | a whitespace-free string collapses to itself |
| Text.CollapseRun | src/components/FileUpload.jsx:19 | a non-empty whitespace run collapses to one space |
| Text.CollapseAppend | src/components/FileUpload.jsx:19 | collapsing distributes over a concatenation that does not cut a whitespace run in two |
| Text.SplitWsNonEmpty | src/components/FileUpload.jsx:19 | splitting a trimmed, non-blank line on whitespace runs gives only non-empty tokens |
| Text.SplitWsJoin | src/components/FileUpload.jsx:19 | splitting on whitespace undoes joining non-empty, whitespace-free tokens with single spaces |
| Text.TrimSplitJoin | src/components/FileUpload.jsx:19 | trimming then splitting such a joined line gives the tokens back |
| Text.JoinStartsWithFirst | src/components/FileUpload.jsx:19 | a joined line begins with its first token |
| Text.JoinEndsWithLast | src/components/FileUpload.jsx:23 | a joined line ends with its last token |
| Text.JoinSplitOn | src/components/FileUpload.jsx:60 | the pieces of `split('\n')` joined with newlines give the content back |
| Text.SplitOnJoin | src/App.jsx:28 | `split(' ')` of pieces joined by spaces, none containing a space, gives the pieces back |
| Text.ContainsIff | src/App.jsx:28 | `includes` holds exactly when the needle occurs at some index |
| Text.DecimalRoundTrip | src/components/FileUpload.jsx:30 | the decimal numeral of the index reads back as the index |
| Text.DecimalInjective | src/components/FileUpload.jsx:30 | distinct indices give distinct numerals |
| Text.LexLeReflexive | src/App.jsx:33 | the timestamp order is reflexive |
| Text.LexLeTotal | src/App.jsx:33 | the timestamp order is total |
| Text.LexLeTransitive | src/App.jsx:33 | the timestamp order is transitive |
| Text.LexLeAntisymmetric | src/App.jsx:33 | the timestamp order is antisymmetric |
| Seqs.Filter | src/App.jsx:49-50 | `filter` keeps only elements satisfying the predicate, keeps every such element, and never grows the list |
| Seqs.FilterMultiset | src/App.jsx:49-50 | `filter` keeps every copy of an element that passes and no copy of one that fails |
| Seqs.FilterIsSubsequence | src/components/FileUpload.jsx:61 | `filter` keeps the order of what it keeps |
| Seqs.FilterConcat | src/App.jsx:49 | filtering an appended list filters each part |
| Seqs.FilterAll | src/App.jsx:49 | a predicate true of every element keeps the whole list |
| Seqs.FilterNone | src/App.jsx:49 | a predicate false of every element keeps nothing |
| Seqs.FilterAgree | src/App.jsx:62-79 | predicates that agree on the list filter it alike |
| Seqs.FilterFilter | src/App.jsx:62-79 | two filters in a row are one filter by the conjunction |
| Seqs.SubsequenceReflexive | src/App.jsx:37 | a list is a subsequence of itself |
| Seqs.SubsequenceMembers | src/App.jsx:81 | the elements of a subsequence are elements of the whole |
| Seqs.SubsequenceAppend | src/App.jsx:36-37 | appending the same batch to both lists keeps the displayed list a subsequence |
| Seqs.SubsequenceFilter | src/App.jsx:49-50 | filtering both lists by the same predicate keeps the displayed list a subsequence |
| Seqs.SomesOrigins | src/components/FileUpload.jsx:63 | dropping nulls lists, in order, the value at every non-null position, with those positions |
| Extractors.EmailMatchEndCorrect | src/components/FileUpload.jsx:8 | the attempt at a position succeeds exactly when an email-shaped match starts there, and gives the longest one |
| Extractors.FirstEmailCorrect | src/components/FileUpload.jsx:8 | the scan finds the leftmost position where a match starts, and its longest match |
| Extractors.EmailMatchOneAt | src/components/FileUpload.jsx:8 | an email-shaped match holds exactly one '@' |
| Extractors.ExtractEmailSpec | src/components/FileUpload.jsx:7-10 | "anonymous" exactly when the line holds no email-shaped substring; otherwise the leftmost-starting, longest such substring, with exactly one '@' |
| Extractors.SchemeLength | src/components/FileUpload.jsx:13 | the length of `http://` or `https://` (any case) at a position, 0 when neither is there |
| Extractors.UrlMatchEndIff | src/components/FileUpload.jsx:13 | the attempt at a position succeeds exactly when a scheme followed by a non-whitespace character starts there, and then runs over non-whitespace to the next whitespace or the end |
| Extractors.FirstUrlCorrect | src/components/FileUpload.jsx:13 | the scan finds the first scheme followed by a non-whitespace character, and the match runs to the next whitespace or the end |
| Extractors.ExtractReferrerSpec | src/components/FileUpload.jsx:12-15 | "-" exactly when no URL start occurs; otherwise the text from the first one to the next whitespace; never empty, never holding whitespace |
| LineParser.TokensSpec | src/components/FileUpload.jsx:19 | tokens are whitespace-free; a blank line gives [""], any other line only non-empty tokens; joined with single spaces they are the trimmed line with each whitespace run collapsed to one space |
| LineParser.ParseLineSpec | src/components/FileUpload.jsx:19-35 | no record exactly when fewer than 10 tokens; otherwise the timestamp is tokens 0 and 1, the client IP is the last token (never "unknown"), the action is tokens 3 and 4 plus the query of token 5, email and referrer come from the extractors, the key is timestamp, client IP and index numeral joined by '-', and the date is the date of the timestamp |
| LineParser.ParseJoinedLine | src/components/FileUpload.jsx:17-39 | a line made of given tokens parses back to them: no record below 10 tokens, else timestamp, client IP, action, key and date built from those tokens |
| LineParser.DashSuffix | src/components/FileUpload.jsx:30 | two keys of the form prefix-numeral that are equal have equal numerals |
| LineParser.KeysDistinct | src/components/FileUpload.jsx:30 | lines of ten or more tokens parsed at different indices give records with different keys |
| LineParser.Upload | src/components/FileUpload.jsx:54-68 | a batch is handed on exactly when the content is non-empty and gives at least one record, and it is then the parsed batch |
| LineParser.KeepLineIff | src/components/FileUpload.jsx:61 | a line is kept exactly when it holds a non-whitespace character and its untrimmed first character is not '#' |
| LineParser.KeptLinesSpec | src/components/FileUpload.jsx:60-61 | the lines join back to the content; the kept lines are, in order and with their multiplicity, exactly the lines passing the filter |
| LineParser.ParseBatchOrigins | src/components/FileUpload.jsx:63 | the batch is, in order, the record of every kept line that gives one, parsed with its position among the kept lines; it is no longer than the kept lines |
| LineParser.BatchKeysDistinct | src/components/FileUpload.jsx:30 | no two records of a batch share a key |
| Ingest.CompareSpec | src/App.jsx:31-34 | the comparator puts landing entries first and orders by timestamp otherwise; it is zero exactly on ties and antisymmetric |
| Ingest.CompareTotal | src/App.jsx:31-34 | any two entries compare one way or the other |
| Ingest.CompareTransitive | src/App.jsx:31-34 | the comparator's order is transitive |
| Ingest.InsertMultiset | src/App.jsx:31 | one insertion step adds exactly the inserted entry |
| Ingest.ConsSorted | src/App.jsx:31 | an entry at most equal to every entry of a sorted list can go in front |
| Ingest.InsertSorted | src/App.jsx:31 | one insertion step keeps the list sorted |
| Ingest.TieEquivalence | src/App.jsx:31-34 | entries that compare equal form classes |
| Ingest.InsertTies | src/App.jsx:31 | an inserted entry goes in front of every entry it ties with |
| Ingest.SortEntriesCorrect | src/App.jsx:31-34 | the sorted batch is sorted by the comparator, a permutation of the input, and keeps the input order of entries that tie (stable) |
| Ingest.SortedShape | src/App.jsx:31-34 | in a sorted batch every landing entry precedes every other, and timestamps never decrease within either group |
| Ingest.PrepareSpec | src/App.jsx:23-34 | the stored batch is the annotated batch, sorted, permuted and stable; each entry is the annotation of one parsed record |
| Ingest.LandingOfParsed | src/App.jsx:28 | for a parsed record the word looked for is the URI plus query, and the flag is set exactly when the referrer does not contain it |
| Ingest.LandingOfRequest | src/App.jsx:28 | for an action of two whitespace-free words the word looked for is the second, and the flag is set exactly when a referrer is present and does not contain it |
| Ingest.DashReferrerLanding | src/App.jsx:28 | with referrer "-" the flag is set unless the second word is "" or "-" |
| Viewer.SecondBounds | src/App.jsx:73-74 | `startOf('second')` is the largest whole second not after the time; `endOf('second')` is 999 ms later, not before it |
| Viewer.QuerySpec | src/App.jsx:59-81 | the filtered view is the stored logs restricted, in order, to entries passing both filters; membership holds exactly for stored entries passing them; an empty term and no two-element range give all logs |
| Viewer.QueryIdempotent | src/App.jsx:59-81 | filtering the filtered view again changes nothing |
| Viewer.MatchesTermIff | src/App.jsx:62-66 | the text filter holds exactly when the lower-cased term occurs in the lower-cased email or client IP |
| Viewer.StartSecondExcluded | src/App.jsx:73 | an entry dated at the first millisecond of the start second fails the date filter |
| Viewer.KeysOf | src/App.jsx:47 | the key set holds exactly the keys of the file's entries |
| Viewer.FileReadSpec | src/App.jsx:36-41 | both lists gain the prepared batch at the end; the file name maps to it, replacing any earlier batch; other files keep theirs; term and range unchanged |
| Viewer.RemoveFileSpec | src/App.jsx:45-54 | in both lists an entry survives exactly when its key is not a key of the file's entries, with its order and multiplicity kept, and every copy of a removed key goes; the name leaves the map, other names keep their entries |
| Viewer.RemovedEntries | src/App.jsx:46-50 | dropping the keys of the file's entries from a list keeps, in order and with their multiplicity, exactly the entries with other keys |
| Viewer.RemoveFileMap | src/App.jsx:52-54 | removal deletes the file's map entry and leaves every other file's entries and the filters |
| Viewer.RemoveUnknownFile | src/App.jsx:46 | removing a name that is not in the map changes nothing |
| Viewer.RemoveFileTwice | src/App.jsx:45-54 | removing a file twice is removing it once |
| Viewer.RemoveAppended | src/App.jsx:36-49 | removing a batch's keys from a list extended by that batch gives the list back when no held entry shares a key |
| Viewer.AppendThenRemove | src/App.jsx:36-54 | appending a batch under a fresh name and removing that name restores the state |
| Viewer.ReadThenRemove | src/App.jsx:22-54 | reading a batch under a fresh name and removing it restores the state, given no shared key |
| Viewer.RemoveFirstOfTwoBatches | src/App.jsx:36-54 | from two appended batches, removing the first leaves exactly the second |
| Viewer.RemoveFirstOfTwo | src/App.jsx:22-54 | two files read into an empty viewer, the first removed, leave exactly the second file's batch and map entry |
| Viewer.TransitionsConsistent | src/App.jsx:22-104 | every handler keeps the displayed entries a subsequence of the stored ones |
| Viewer.SearchChangeSpec | src/App.jsx:84-88 | after a search the view is the stored logs filtered, in order, by the new term and stored range, whatever was shown before |
| Viewer.DateRangeChangeSpec | src/App.jsx:90-93 | after a range change the view is the stored logs filtered, in order, by the stored term and new range |
| Viewer.LogViewer.constructor | src/App.jsx:15-20 | the fields start empty |
| Viewer.LogViewer.HandleFileRead | src/App.jsx:22-43 | the fields become the read transition of the old fields: both lists extended by the prepared batch, the map entry replaced |
| Viewer.LogViewer.LoadFile | src/components/FileUpload.jsx:51-70 | empty content or a batch with no record changes nothing; otherwise the batch is read |
| Viewer.LogViewer.RemoveFile | src/App.jsx:45-57 | the fields become the removal transition of the old fields |
| Viewer.LogViewer.ApplyFilters | src/App.jsx:59-82 | the view becomes the query over all stored logs |
| Viewer.LogViewer.HandleSearchChange | src/App.jsx:84-88 | the term is stored and the view re-filtered with it and the stored range |
| Viewer.LogViewer.HandleDateRangeChange | src/App.jsx:90-93 | the range is stored and the view re-filtered with the stored term and it |
| Viewer.LogViewer.ClearAllData | src/App.jsx:99-106 | all five fields are back to their initial values |

## Left out

- The date library (`dayjs` parsing and the fall-back to the current time) is the parameter `dateOf`. It is a foreign library and depends on the clock.
- `disabledDate` is left out: it is a picker guard that depends on the current time.
- `localeCompare` is code-point order, not locale collation.
- `toLowerCase` folds ASCII letters only. Unicode case mapping is not modelled.
- String positions count Unicode scalar values, not UTF-16 code units. This matters only for the regex scans on non-BMP text.
- The `try`/`catch` branches are not modelled. The modelled operations are total, so no exception path exists.
- `FileReader`, the `message` toasts, `setLoading` and `console.error` are left out as I/O. `LoadFile` stands for the reader's load handler.
- A cleared date picker (`null`) is the empty range. Both fail the `range && range.length === 2` test.
- JSX rendering and `src/components/LogTable.jsx` are not part of this model. They hold no logic.
- React's asynchronous state batching is not modelled. Each handler is one sequential update of the fields.
- `fileLogMap` lookup is a Dafny map. JavaScript object keys such as `"constructor"` would find inherited prototype members; that is not modelled.
- Viewer.LogViewer.RemoveFile: it reads the current `fileLogMap` field, not a possibly stale closure copy.
