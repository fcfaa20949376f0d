/** Sequence operations shared by the parser and the viewer: the optional
    value a parser returns, `Array.prototype.filter`, dropping the `null`
    results of a map, and what it means to be an order-preserving
    subsequence. */
module Seqs {

  datatype Option<T> = None | Some(value: T)

  /** `s.filter(p)`: the elements of s that satisfy p, in their order in s. */
  function Filter<T>(s: seq<T>, p: T -> bool): (r: seq<T>)
    ensures |r| <= |s|
    ensures forall k :: 0 <= k < |r| ==> r[k] in s && p(r[k])
    ensures forall k :: 0 <= k < |s| && p(s[k]) ==> s[k] in r
    decreases |s|
  {
    if s == [] then []
    else
      assert s == [s[0]] + s[1..];
      (if p(s[0]) then [s[0]] else []) + Filter(s[1..], p)
  }

  /** a is b with some elements deleted: each element of b is either kept,
      in order, or dropped. */
  ghost predicate IsSubsequence<T>(a: seq<T>, b: seq<T>)
    decreases |b|
  {
    if b == [] then a == []
    else (a != [] && a[0] == b[0] && IsSubsequence(a[1..], b[1..])) || IsSubsequence(a, b[1..])
  }

  /** Filtering keeps the order of what it keeps. */
  lemma {:induction false} FilterIsSubsequence<T>(s: seq<T>, p: T -> bool)
    ensures IsSubsequence(Filter(s, p), s)
    decreases |s|
  {
    if s != [] {
      var rest := Filter(s[1..], p);
      FilterIsSubsequence(s[1..], p);
      if p(s[0]) {
        var r := [s[0]] + rest;
        assert Filter(s, p) == r;
        assert r[0] == s[0] && r[1..] == rest;
        assert IsSubsequence(r, s);
      } else {
        assert Filter(s, p) == rest;
        assert IsSubsequence(rest, s);
      }
    }
  }

  /** One step of filtering. */
  lemma FilterCons<T>(x: T, s: seq<T>, p: T -> bool)
    ensures Filter([x] + s, p) == (if p(x) then [x] else []) + Filter(s, p)
  {
    assert ([x] + s)[0] == x;
    assert ([x] + s)[1..] == s;
  }

  /** Two pieces of which at least one is empty can trade places. */
  lemma SwapFront<T>(a: seq<T>, b: seq<T>, rest: seq<T>)
    requires a == [] || b == []
    ensures b + (a + rest) == a + (b + rest)
  {
    if a == [] {
      assert a + rest == rest;
      assert a + (b + rest) == b + rest;
    } else {
      assert b + (a + rest) == a + rest;
      assert b + rest == rest;
    }
  }

  /** Filtering keeps every copy of an element that passes and no copy of
      one that fails. */
  lemma {:induction false} FilterMultiset<T>(s: seq<T>, p: T -> bool)
    ensures forall x :: multiset(Filter(s, p))[x] == if p(x) then multiset(s)[x] else 0
    decreases |s|
  {
    if s != [] {
      FilterMultiset(s[1..], p);
      assert s == [s[0]] + s[1..];
      assert Filter(s, p) == (if p(s[0]) then [s[0]] else []) + Filter(s[1..], p);
    }
  }

  /** Filtering distributes over concatenation. */
  lemma {:induction false} FilterConcat<T>(a: seq<T>, b: seq<T>, p: T -> bool)
    ensures Filter(a + b, p) == Filter(a, p) + Filter(b, p)
    decreases |a|
  {
    if a != [] {
      assert (a + b)[1..] == a[1..] + b;
      FilterConcat(a[1..], b, p);
    } else {
      assert a + b == b;
    }
  }

  /** A predicate that holds of every element keeps the whole sequence. */
  lemma {:induction false} FilterAll<T>(s: seq<T>, p: T -> bool)
    requires forall x :: x in s ==> p(x)
    ensures Filter(s, p) == s
    decreases |s|
  {
    if s != [] {
      assert forall x :: x in s[1..] ==> x in s;
      FilterAll(s[1..], p);
      assert s == [s[0]] + s[1..];
    }
  }

  /** Filters that agree on the elements of s give the same result. */
  lemma {:induction false} FilterAgree<T>(s: seq<T>, p: T -> bool, q: T -> bool)
    requires forall x :: x in s ==> p(x) == q(x)
    ensures Filter(s, p) == Filter(s, q)
    decreases |s|
  {
    if s != [] {
      assert forall x :: x in s[1..] ==> x in s;
      FilterAgree(s[1..], p, q);
    }
  }

  /** Filtering twice is filtering once by the conjunction. */
  lemma {:induction false} FilterFilter<T>(s: seq<T>, p: T -> bool, q: T -> bool, both: T -> bool)
    requires forall x :: both(x) == (p(x) && q(x))
    ensures Filter(Filter(s, p), q) == Filter(s, both)
    decreases |s|
  {
    if s != [] {
      var x := s[0];
      FilterFilter(s[1..], p, q, both);
      assert Filter(s, both) == (if both(x) then [x] else []) + Filter(s[1..], both);
      if p(x) {
        assert Filter(s, p) == [x] + Filter(s[1..], p);
        FilterConcat([x], Filter(s[1..], p), q);
        assert [x][1..] == [];
        assert Filter([x], q) == (if q(x) then [x] else []) + Filter([x][1..], q);
      } else {
        assert Filter(s, p) == Filter(s[1..], p);
      }
    }
  }

  /** A predicate that holds of no element keeps nothing. */
  lemma {:induction false} FilterNone<T>(s: seq<T>, p: T -> bool)
    requires forall x :: x in s ==> !p(x)
    ensures Filter(s, p) == []
    decreases |s|
  {
    if s != [] {
      assert forall x :: x in s[1..] ==> x in s;
      FilterNone(s[1..], p);
    }
  }

  /** Every sequence is a subsequence of itself. */
  lemma {:induction false} SubsequenceReflexive<T>(s: seq<T>)
    ensures IsSubsequence(s, s)
    decreases |s|
  {
    if s != [] {
      SubsequenceReflexive(s[1..]);
    }
  }

  /** The elements of a subsequence are elements of the whole. */
  lemma {:induction false} SubsequenceMembers<T>(a: seq<T>, b: seq<T>)
    requires IsSubsequence(a, b)
    ensures forall x :: x in a ==> x in b
    decreases |b|
  {
    if b != [] {
      if a != [] && a[0] == b[0] && IsSubsequence(a[1..], b[1..]) {
        SubsequenceMembers(a[1..], b[1..]);
        assert a == [a[0]] + a[1..];
        assert forall x :: x in b[1..] ==> x in b;
      } else {
        SubsequenceMembers(a, b[1..]);
        assert forall x :: x in b[1..] ==> x in b;
      }
    }
  }

  /** Appending the same tail to both sides keeps a subsequence. */
  lemma {:induction false} SubsequenceAppend<T>(a: seq<T>, b: seq<T>, c: seq<T>)
    requires IsSubsequence(a, b)
    ensures IsSubsequence(a + c, b + c)
    decreases |b|
  {
    if b == [] {
      assert a + c == c && b + c == c;
      SubsequenceReflexive(c);
    } else {
      assert (b + c)[0] == b[0] && (b + c)[1..] == b[1..] + c;
      if a != [] && a[0] == b[0] && IsSubsequence(a[1..], b[1..]) {
        SubsequenceAppend(a[1..], b[1..], c);
        assert (a + c)[0] == a[0] && (a + c)[1..] == a[1..] + c;
      } else {
        SubsequenceAppend(a, b[1..], c);
      }
    }
  }

  /** Filtering both sides by the same predicate keeps a subsequence. */
  lemma {:induction false} SubsequenceFilter<T>(a: seq<T>, b: seq<T>, p: T -> bool)
    requires IsSubsequence(a, b)
    ensures IsSubsequence(Filter(a, p), Filter(b, p))
    decreases |b|
  {
    if b != [] {
      var fb := Filter(b[1..], p);
      assert Filter(b, p) == (if p(b[0]) then [b[0]] else []) + fb;
      if a != [] && a[0] == b[0] && IsSubsequence(a[1..], b[1..]) {
        SubsequenceFilter(a[1..], b[1..], p);
        var fa := Filter(a[1..], p);
        assert Filter(a, p) == (if p(a[0]) then [a[0]] else []) + fa;
        if p(b[0]) {
          var fA, fB := Filter(a, p), Filter(b, p);
          assert fA == [b[0]] + fa && fB == [b[0]] + fb;
          assert fA != [] && fA[0] == fB[0] && fA[1..] == fa && fB[1..] == fb;
        } else {
          assert Filter(a, p) == fa && Filter(b, p) == fb;
        }
      } else {
        SubsequenceFilter(a, b[1..], p);
        if p(b[0]) {
          assert ([b[0]] + fb)[1..] == fb;
        } else {
          assert Filter(b, p) == fb;
        }
      }
    }
  }

  /** `s.filter(x => x !== null)` on parse results: the values of the Some
      elements of s, in order. */
  function Somes<T>(s: seq<Option<T>>): (r: seq<T>)
    ensures |r| <= |s|
    decreases |s|
  {
    if s == [] then []
    else (if s[0].Some? then [s[0].value] else []) + Somes(s[1..])
  }

  /** idx lists, in increasing order, every position of s holding a Some, and
      r is the sequence of the values found there. */
  ghost predicate SomesAt<T>(s: seq<Option<T>>, r: seq<T>, idx: seq<nat>)
  {
    && |idx| == |r|
    && (forall k :: 0 <= k < |idx| ==> idx[k] < |s| && s[idx[k]] == Some(r[k]))
    && (forall k, l :: 0 <= k < l < |idx| ==> idx[k] < idx[l])
    && (forall j :: 0 <= j < |s| && s[j].Some? ==> j in idx)
  }

  /** Positions found in s[1..], moved one place right, are positions in s. */
  lemma ShiftOrigins<T>(s: seq<Option<T>>, tail: seq<nat>) returns (shifted: seq<nat>)
    requires s != [] && SomesAt(s[1..], Somes(s[1..]), tail)
    ensures |shifted| == |Somes(s[1..])|
    ensures forall k :: 0 <= k < |shifted| ==> 1 <= shifted[k] < |s| && s[shifted[k]] == Some(Somes(s[1..])[k])
    ensures forall k, l :: 0 <= k < l < |shifted| ==> shifted[k] < shifted[l]
    ensures forall j :: 1 <= j < |s| && s[j].Some? ==> j in shifted
  {
    var rt := Somes(s[1..]);
    shifted := seq(|tail|, k requires 0 <= k < |tail| => tail[k] + 1);
    assert |shifted| == |rt|;
    forall k | 0 <= k < |tail|
      ensures shifted[k] < |s| && s[shifted[k]] == Some(rt[k])
    {
      assert s[1..][tail[k]] == s[tail[k] + 1];
    }
    forall k, l | 0 <= k < l < |shifted|
      ensures shifted[k] < shifted[l]
    {
      assert tail[k] < tail[l];
    }
    forall j | 1 <= j < |s| && s[j].Some?
      ensures j in shifted
    {
      assert s[1..][j - 1] == s[j];
      assert j - 1 in tail;
      var k :| 0 <= k < |tail| && tail[k] == j - 1;
      assert shifted[k] == j;
    }
  }

  /** Adding a Some in front of positions 1.. adds position 0. */
  lemma PrependOrigin<T>(s: seq<Option<T>>, shifted: seq<nat>) returns (idx: seq<nat>)
    requires s != [] && s[0].Some?
    requires |shifted| == |Somes(s[1..])|
    requires forall k :: 0 <= k < |shifted| ==> 1 <= shifted[k] < |s| && s[shifted[k]] == Some(Somes(s[1..])[k])
    requires forall k, l :: 0 <= k < l < |shifted| ==> shifted[k] < shifted[l]
    requires forall j :: 1 <= j < |s| && s[j].Some? ==> j in shifted
    ensures SomesAt(s, Somes(s), idx)
  {
    var rt := Somes(s[1..]);
    idx := [0] + shifted;
    var r := [s[0].value] + rt;
    assert Somes(s) == r;
    forall k | 0 <= k < |idx|
      ensures idx[k] < |s| && s[idx[k]] == Some(r[k])
    {
      if k > 0 {
        assert idx[k] == shifted[k - 1] && r[k] == rt[k - 1];
      }
    }
    forall k, l | 0 <= k < l < |idx|
      ensures idx[k] < idx[l]
    {
      assert idx[l] == shifted[l - 1];
      if k > 0 {
        assert idx[k] == shifted[k - 1];
      }
    }
    forall j | 0 <= j < |s| && s[j].Some?
      ensures j in idx
    {
      if j > 0 {
        assert j in shifted;
      }
    }
  }

  /** Somes keeps exactly the Some elements, in their original order. */
  lemma {:induction false} SomesOrigins<T>(s: seq<Option<T>>) returns (idx: seq<nat>)
    ensures SomesAt(s, Somes(s), idx)
    decreases |s|
  {
    if s == [] {
      idx := [];
    } else {
      var tail := SomesOrigins(s[1..]);
      var shifted := ShiftOrigins(s, tail);
      if s[0].Some? {
        idx := PrependOrigin(s, shifted);
      } else {
        idx := shifted;
        assert Somes(s) == Somes(s[1..]);
      }
    }
  }
}
