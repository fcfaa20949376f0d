/** What the viewer does to a freshly parsed batch before storing it: each
    record gets its date and its landing-page flag, and the batch is sorted
    landing pages first, then by timestamp, keeping the file order of ties. */
module Ingest {
  import opened Seqs
  import opened Text
  import opened Extractors
  import opened LineParser

  /** A stored log entry: a parsed record plus its landing-page flag. */
  datatype Entry = Entry(
    key: string,
    timestamp: string,
    email: string,
    clientIP: string,
    action: string,
    referrer: string,
    formattedDate: int,
    isLandingPage: bool)

  /** `action.split(' ')[1]`, which as an argument of `includes` reads as the
      text "undefined" when the action has no second word. */
  function SecondWord(action: string): string
  {
    var words := SplitOn(action, ' ');
    if |words| >= 2 then words[1] else "undefined"
  }

  /** `referrer && !referrer.includes(action.split(' ')[1])`. */
  predicate IsLanding(referrer: string, action: string)
  {
    referrer != "" && !Contains(referrer, SecondWord(action))
  }

  /** The entry `handleFileRead` builds from a record: the date is computed
      again from the timestamp, and the landing flag is added. */
  function Annotate(r: LogRecord, dateOf: string -> int): (e: Entry)
  {
    Entry(r.key, r.timestamp, r.email, r.clientIP, r.action, r.referrer,
          dateOf(r.timestamp), IsLanding(r.referrer, r.action))
  }

  function AnnotateAll(batch: seq<LogRecord>, dateOf: string -> int): (es: seq<Entry>)
    ensures |es| == |batch|
  {
    seq(|batch|, k requires 0 <= k < |batch| => Annotate(batch[k], dateOf))
  }

  /** The landing flag as a number, as the subtraction in the comparator reads it. */
  function Rank(e: Entry): int
  {
    if e.isLandingPage then 1 else 0
  }

  /** The sort comparator: `(b.isLandingPage - a.isLandingPage) ||
      a.timestamp.localeCompare(b.timestamp)`. */
  function Compare(a: Entry, b: Entry): int
  {
    var byLanding := Rank(b) - Rank(a);
    if byLanding != 0 then byLanding else LocaleCompare(a.timestamp, b.timestamp)
  }

  /** a and b compare equal: same landing flag, same timestamp. */
  predicate Tie(a: Entry, b: Entry)
  {
    a.isLandingPage == b.isLandingPage && a.timestamp == b.timestamp
  }

  /** The comparator orders landing entries first and otherwise by timestamp;
      it is zero exactly on ties and antisymmetric. */
  lemma CompareSpec(a: Entry, b: Entry)
    ensures Compare(a, b) <= 0 <==>
      (a.isLandingPage && !b.isLandingPage) ||
      (a.isLandingPage == b.isLandingPage && LexLe(a.timestamp, b.timestamp))
    ensures Compare(a, b) == 0 <==> Tie(a, b)
    ensures Compare(b, a) == -Compare(a, b)
  {
    if a.timestamp != b.timestamp && LexLe(a.timestamp, b.timestamp) && LexLe(b.timestamp, a.timestamp) {
      LexLeAntisymmetric(a.timestamp, b.timestamp);
    }
    if a.timestamp == b.timestamp {
      LexLeReflexive(a.timestamp);
    } else {
      LexLeTotal(a.timestamp, b.timestamp);
    }
  }

  /** Any two entries are ordered one way or the other. */
  lemma CompareTotal(a: Entry, b: Entry)
    ensures Compare(a, b) <= 0 || Compare(b, a) <= 0
  {
    CompareSpec(a, b);
  }

  /** The order is transitive. */
  lemma CompareTransitive(a: Entry, b: Entry, c: Entry)
    requires Compare(a, b) <= 0 && Compare(b, c) <= 0
    ensures Compare(a, c) <= 0
  {
    CompareSpec(a, b);
    CompareSpec(b, c);
    CompareSpec(a, c);
    if a.isLandingPage == b.isLandingPage == c.isLandingPage {
      LexLeTransitive(a.timestamp, b.timestamp, c.timestamp);
    }
  }

  /** Every earlier entry compares at most equal to every later one. */
  ghost predicate Sorted(s: seq<Entry>)
  {
    forall i, j :: 0 <= i < j < |s| ==> Compare(s[i], s[j]) <= 0
  }

  /** Insert x before the first entry it does not follow. */
  function Insert(x: Entry, s: seq<Entry>): (r: seq<Entry>)
    ensures |r| == |s| + 1
    decreases |s|
  {
    if s == [] then [x]
    else if Compare(x, s[0]) <= 0 then [x] + s
    else [s[0]] + Insert(x, s[1..])
  }

  /** The stable sort `Array.prototype.sort` performs with the comparator. */
  function SortEntries(s: seq<Entry>): (r: seq<Entry>)
    ensures |r| == |s|
    decreases |s|
  {
    if s == [] then [] else Insert(s[0], SortEntries(s[1..]))
  }

  /** The entries of s that tie with z, in their order in s. */
  function Ties(s: seq<Entry>, z: Entry): seq<Entry>
  {
    Filter(s, TiedWith(z))
  }

  /** Tie with z as a filter function. */
  function TiedWith(z: Entry): Entry -> bool
  {
    (e: Entry) => Tie(e, z)
  }

  /** Inserting adds x once and changes nothing else. */
  lemma {:induction false} InsertMultiset(x: Entry, s: seq<Entry>)
    ensures multiset(Insert(x, s)) == multiset(s) + multiset{x}
    decreases |s|
  {
    if s != [] && Compare(x, s[0]) > 0 {
      InsertMultiset(x, s[1..]);
      assert s == [s[0]] + s[1..];
    }
  }

  /** An entry at most equal to every entry of a sorted sequence can go in front. */
  lemma ConsSorted(h: Entry, s: seq<Entry>)
    requires Sorted(s)
    requires forall j :: 0 <= j < |s| ==> Compare(h, s[j]) <= 0
    ensures Sorted([h] + s)
  {
  }

  /** Inserting into a sorted sequence keeps it sorted. */
  lemma {:induction false} InsertSorted(x: Entry, s: seq<Entry>)
    requires Sorted(s)
    ensures Sorted(Insert(x, s))
    decreases |s|
  {
    if s == [] {
    } else if Compare(x, s[0]) <= 0 {
      forall j | 0 <= j < |s| ensures Compare(x, s[j]) <= 0 {
        if j > 0 {
          CompareTransitive(x, s[0], s[j]);
        }
      }
      ConsSorted(x, s);
    } else {
      var t := s[1..];
      assert Sorted(t);
      InsertSorted(x, t);
      InsertMultiset(x, t);
      var it := Insert(x, t);
      CompareTotal(x, s[0]);
      forall j | 0 <= j < |it| ensures Compare(s[0], it[j]) <= 0 {
        assert it[j] in multiset(it);
        if it[j] != x {
          assert it[j] in multiset(t);
          var m :| 0 <= m < |t| && t[m] == it[j];
          assert s[m + 1] == t[m];
        }
      }
      ConsSorted(s[0], it);
    }
  }

  /** Tie is an equivalence: entries tied with one z are tied with each other. */
  lemma TieEquivalence(a: Entry, b: Entry, z: Entry)
    requires Tie(a, z)
    ensures Tie(b, z) <==> Tie(a, b)
  {
  }

  /** Inserting x puts it in front of every entry it ties with. */
  lemma {:induction false} InsertTies(x: Entry, s: seq<Entry>, z: Entry)
    ensures Ties(Insert(x, s), z) == (if Tie(x, z) then [x] else []) + Ties(s, z)
    decreases |s|
  {
    if s == [] {
      assert Insert(x, s) == [x] + s;
      FilterCons(x, s, TiedWith(z));
    } else if Compare(x, s[0]) <= 0 {
      assert Insert(x, s) == [x] + s;
      FilterCons(x, s, TiedWith(z));
    } else {
      var t := s[1..];
      var it := Insert(x, t);
      assert Insert(x, s) == [s[0]] + it;
      assert s == [s[0]] + t;
      var mine: seq<Entry> := if Tie(x, z) then [x] else [];
      var first: seq<Entry> := if Tie(s[0], z) then [s[0]] else [];
      assert Ties(Insert(x, s), z) == first + Ties(it, z) by {
        FilterCons(s[0], it, TiedWith(z));
      }
      assert Ties(s, z) == first + Ties(t, z) by {
        FilterCons(s[0], t, TiedWith(z));
      }
      assert Ties(it, z) == mine + Ties(t, z) by {
        InsertTies(x, t, z);
      }
      assert mine == [] || first == [] by {
        CompareSpec(x, s[0]);
        if Tie(x, z) {
          TieEquivalence(x, s[0], z);
        }
      }
      SwapFront(mine, first, Ties(t, z));
    }
  }

  /** The sort returns the same entries, sorted, and keeps the relative
      order of entries that compare equal (it is stable). */
  lemma {:induction false} SortEntriesCorrect(s: seq<Entry>)
    ensures Sorted(SortEntries(s))
    ensures multiset(SortEntries(s)) == multiset(s)
    ensures forall z :: Ties(SortEntries(s), z) == Ties(s, z)
    decreases |s|
  {
    if s != [] {
      var t := s[1..];
      SortEntriesCorrect(t);
      InsertSorted(s[0], SortEntries(t));
      InsertMultiset(s[0], SortEntries(t));
      assert s == [s[0]] + t;
      forall z ensures Ties(SortEntries(s), z) == Ties(s, z) {
        InsertTies(s[0], SortEntries(t), z);
        FilterCons(s[0], t, TiedWith(z));
      }
    }
  }

  /** In a sorted batch the landing entries come first, and within each
      group the timestamps never decrease. */
  lemma SortedShape(s: seq<Entry>)
    requires Sorted(s)
    ensures forall i, j :: 0 <= i < j < |s| && s[j].isLandingPage ==> s[i].isLandingPage
    ensures forall i, j :: 0 <= i < j < |s| && s[i].isLandingPage == s[j].isLandingPage ==>
      LexLe(s[i].timestamp, s[j].timestamp)
  {
    forall i, j | 0 <= i < j < |s| {
      CompareSpec(s[i], s[j]);
    }
  }

  /** The entries `handleFileRead` stores for a parsed batch. */
  function Prepare(batch: seq<LogRecord>, dateOf: string -> int): seq<Entry>
  {
    SortEntries(AnnotateAll(batch, dateOf))
  }

  /** The prepared batch is the annotated batch, sorted and stable; its keys
      are those of the parsed records. */
  lemma PrepareSpec(batch: seq<LogRecord>, dateOf: string -> int)
    ensures var out := Prepare(batch, dateOf);
      && Sorted(out)
      && multiset(out) == multiset(AnnotateAll(batch, dateOf))
      && (forall z :: Ties(out, z) == Ties(AnnotateAll(batch, dateOf), z))
      && (forall k :: 0 <= k < |out| ==> exists j :: 0 <= j < |batch| && out[k] == Annotate(batch[j], dateOf))
  {
    var es := AnnotateAll(batch, dateOf);
    var out := Prepare(batch, dateOf);
    SortEntriesCorrect(es);
    forall k | 0 <= k < |out|
      ensures exists j :: 0 <= j < |batch| && out[k] == Annotate(batch[j], dateOf)
    {
      assert out[k] in multiset(es);
      var j :| 0 <= j < |es| && es[j] == out[k];
    }
  }

  /** For a parsed record the word that the landing test looks for is the
      request URI with its query, so the record is a landing page exactly
      when its referrer does not contain that text. */
  lemma LandingOfParsed(line: string, index: nat, dateOf: string -> int)
    requires ParseLine(line, index, dateOf).Some?
    ensures var r := ParseLine(line, index, dateOf).value;
      var t := Tokens(line);
      && SecondWord(r.action) == t[4] + QuerySuffix(t[5])
      && (IsLanding(r.referrer, r.action) <==>
            !exists i :: OccursAt(r.referrer, t[4] + QuerySuffix(t[5]), i))
  {
    var r := ParseLine(line, index, dateOf).value;
    var t := Tokens(line);
    var uq := t[4] + QuerySuffix(t[5]);
    assert r.referrer != "" && NoWs(t[3]) && NoWs(uq) && r.action == t[3] + " " + uq by {
      ParseLineSpec(line, index, dateOf);
      ExtractReferrerSpec(line);
    }
    LandingOfRequest(r.referrer, t[3], uq);
  }

  /** For an action made of two whitespace-free words, the landing test looks
      for the second word, and the entry is a landing page exactly when a
      referrer is present and does not contain that word. */
  lemma LandingOfRequest(referrer: string, verb: string, uri: string)
    requires NoWs(verb) && NoWs(uri)
    ensures SecondWord(verb + " " + uri) == uri
    ensures IsLanding(referrer, verb + " " + uri) <==>
      referrer != "" && !exists i :: OccursAt(referrer, uri, i)
  {
    assert ' ' !in verb by {
      assert forall m :: 0 <= m < |verb| ==> !IsWs(verb[m]);
    }
    assert ' ' !in uri by {
      assert forall m :: 0 <= m < |uri| ==> !IsWs(uri[m]);
    }
    var words := [verb, uri];
    assert Join(words, ' ') == verb + " " + uri by {
      assert words[1..] == [uri];
    }
    SplitOnJoin(words, ' ');
    ContainsIff(referrer, uri);
  }

  /** A "-" referrer (no URL on the line) does not rule out a landing page:
      the flag is set unless the request text occurs in "-". */
  lemma DashReferrerLanding(action: string)
    ensures IsLanding("-", action) <==> SecondWord(action) != "" && SecondWord(action) != "-"
  {
  }
}
