/** Generic facts about sequences: duplicate-freedom, first occurrences and
    first-occurrence de-duplication (pandas' `drop_duplicates` and `unique`). */
module Sequences {

  /** No value occurs twice in `s`. */
  predicate NoDuplicates<T(==)>(s: seq<T>) {
    forall i, j :: 0 <= i < j < |s| ==> s[i] != s[j]
  }

  /** The position of the first occurrence of `x` in `s`. */
  function FirstIndex<T(==)>(s: seq<T>, x: T): (i: nat)
    requires x in s
    ensures i < |s| && s[i] == x
    ensures x !in s[..i]
  {
    if s[0] == x then 0
    else
      var i' := FirstIndex(s[1..], x);
      assert s[..i' + 1] == [s[0]] + s[1..][..i'];
      i' + 1
  }

  /** The first occurrence is the only position holding `x` with no `x` before it. */
  lemma FirstIndexUnique<T>(s: seq<T>, x: T, i: nat)
    requires i < |s| && s[i] == x && x !in s[..i]
    ensures FirstIndex(s, x) == i
  {
  }

  /** Appending a value does not move the first occurrence of anything already present,
      and a new value is first seen at the end. */
  lemma {:induction false} FirstIndexAppend<T>(s: seq<T>, x: T)
    ensures forall y :: y in s ==> FirstIndex(s + [x], y) == FirstIndex(s, y)
    ensures x !in s ==> FirstIndex(s + [x], x) == |s|
  {
    var t := s + [x];
    forall y | y in s
      ensures FirstIndex(t, y) == FirstIndex(s, y)
    {
      var f := FirstIndex(s, y);
      assert t[..f] == s[..f];
      FirstIndexUnique(t, y, f);
    }
    if x !in s {
      assert t[..|s|] == s;
      FirstIndexUnique(t, x, |s|);
    }
  }

  /** A value present before the last position is first seen at the same place in `s` and in
      `s` without its last value. */
  lemma {:induction false} FirstIndexOfPrefix<T>(s: seq<T>, y: T)
    requires |s| > 0 && y in s[..|s| - 1]
    ensures y in s && FirstIndex(s, y) == FirstIndex(s[..|s| - 1], y)
  {
    var prefix := s[..|s| - 1];
    var f := FirstIndex(prefix, y);
    assert s[..f] == prefix[..f];
    FirstIndexUnique(s, y, f);
  }

  /** `r` lists the values of `s` once each, in the order of their first occurrence in `s`:
      no repeats, nothing that is not in `s`, everything that is, and first occurrences in order. */
  predicate FirstOccurrences<T(==)>(s: seq<T>, r: seq<T>) {
    && NoDuplicates(r)
    && (forall i :: 0 <= i < |r| ==> r[i] in s)
    && (forall i :: 0 <= i < |s| ==> s[i] in r)
    && (forall i, j :: 0 <= i < j < |r| ==> FirstIndex(s, r[i]) < FirstIndex(s, r[j]))
  }

  /** A repeated value appended to `s` changes nothing about its first occurrences. */
  lemma AppendRepeat<T>(s: seq<T>, x: T, r: seq<T>)
    requires FirstOccurrences(s, r) && x in s
    ensures FirstOccurrences(s + [x], r)
  {
    FirstIndexAppend(s, x);
    forall i | 0 <= i < |s + [x]|
      ensures (s + [x])[i] in r
    {
      if i < |s| {
        assert (s + [x])[i] == s[i];
      } else {
        var q :| 0 <= q < |s| && s[q] == x;
      }
    }
  }

  /** A new value appended to `s` is a new first occurrence, after all the others. */
  lemma {:induction false} AppendNew<T>(s: seq<T>, x: T, r: seq<T>)
    requires FirstOccurrences(s, r) && x !in s
    ensures FirstOccurrences(s + [x], r + [x])
  {
    FirstIndexAppend(s, x);
    var t, r' := s + [x], r + [x];
    assert forall i :: 0 <= i < |r| ==> r'[i] == r[i];
    assert forall i :: 0 <= i < |r| ==> FirstIndex(t, r[i]) < |s|;
    forall i | 0 <= i < |t|
      ensures t[i] in r'
    {
      if i < |s| {
        assert t[i] == s[i];
      }
    }
  }

  /** Keeps the first occurrence of every value and drops later repeats, preserving order.
      The result is duplicate-free, holds exactly the values of `s`, and lists them in the
      order in which they first appear in `s`. */
  function Dedup<T(==)>(s: seq<T>): (r: seq<T>)
    ensures NoDuplicates(r)
    ensures forall i :: 0 <= i < |r| ==> r[i] in s
    ensures forall i :: 0 <= i < |s| ==> s[i] in r
    ensures forall i, j :: 0 <= i < j < |r| ==> FirstIndex(s, r[i]) < FirstIndex(s, r[j])
  {
    if |s| == 0 then []
    else
      var prefix := s[..|s| - 1];
      var last := s[|s| - 1];
      var kept := Dedup(prefix);
      assert s == prefix + [last];
      if last in prefix then
        AppendRepeat(prefix, last, kept);
        kept
      else
        AppendNew(prefix, last, kept);
        kept + [last]
  }

  /** A duplicate-free sequence is its own de-duplication. */
  lemma {:induction false} DedupOfDistinct<T>(s: seq<T>)
    requires NoDuplicates(s)
    ensures Dedup(s) == s
  {
    if |s| > 0 {
      var prefix := s[..|s| - 1];
      assert NoDuplicates(prefix);
      DedupOfDistinct(prefix);
      assert s[|s| - 1] !in prefix;
    }
  }

  /** When the last value of `s` repeats an earlier one, a candidate for `s` is also one for
      the prefix without it. */
  lemma FirstOccurrencesDropRepeat<T>(s: seq<T>, r: seq<T>)
    requires |s| > 0 && s[|s| - 1] in s[..|s| - 1]
    requires FirstOccurrences(s, r)
    ensures FirstOccurrences(s[..|s| - 1], r)
  {
    var prefix := s[..|s| - 1];
    assert s == prefix + [s[|s| - 1]];
    FirstIndexAppend(prefix, s[|s| - 1]);
    forall i | 0 <= i < |r|
      ensures r[i] in prefix
    {
      assert r[i] in s;
    }
  }

  /** When the last value of `s` is new, it is first seen last, so a candidate for `s` ends
      with it. */
  lemma NewValueClosesCandidate<T>(s: seq<T>, r: seq<T>)
    requires |s| > 0 && s[|s| - 1] !in s[..|s| - 1]
    requires FirstOccurrences(s, r)
    ensures |r| > 0 && r[|r| - 1] == s[|s| - 1]
  {
    var prefix, last := s[..|s| - 1], s[|s| - 1];
    assert s == prefix + [last];
    FirstIndexAppend(prefix, last);
    assert last in r;
    var p :| 0 <= p < |r| && r[p] == last;
    assert r[|r| - 1] in s;
  }

  /** Dropping the last value of `s` keeps the order of first occurrences among the values
      before it. */
  lemma {:induction false} FirstOrderOfPrefix<T>(s: seq<T>, r: seq<T>)
    requires |s| > 0 && |r| > 0
    requires forall i :: 0 <= i < |r| ==> r[i] in s
    requires forall i :: 0 <= i < |r| - 1 ==> r[i] in s[..|s| - 1]
    requires forall i, j :: 0 <= i < j < |r| ==> FirstIndex(s, r[i]) < FirstIndex(s, r[j])
    ensures forall i, j :: 0 <= i < j < |r| - 1 ==>
              FirstIndex(s[..|s| - 1], r[i]) < FirstIndex(s[..|s| - 1], r[j])
  {
    var prefix := s[..|s| - 1];
    forall i, j | 0 <= i < j < |r| - 1
      ensures FirstIndex(prefix, r[i]) < FirstIndex(prefix, r[j])
    {
      FirstIndexOfPrefix(s, r[i]);
      FirstIndexOfPrefix(s, r[j]);
    }
  }

  /** When the last value of `s` is new, a candidate for `s` ends with it and the rest of
      the candidate is one for the prefix. */
  lemma FirstOccurrencesDropNew<T>(s: seq<T>, r: seq<T>)
    requires |s| > 0 && s[|s| - 1] !in s[..|s| - 1]
    requires FirstOccurrences(s, r)
    ensures |r| > 0 && r[|r| - 1] == s[|s| - 1]
    ensures FirstOccurrences(s[..|s| - 1], r[..|r| - 1])
  {
    NewValueClosesCandidate(s, r);
    var prefix, last := s[..|s| - 1], s[|s| - 1];
    var r' := r[..|r| - 1];
    forall i | 0 <= i < |r'|
      ensures r'[i] in prefix
    {
      assert r'[i] == r[i] && r[i] != r[|r| - 1];
      assert r[i] in s;
      var q :| 0 <= q < |s| && s[q] == r[i];
      assert q != |s| - 1;
      assert prefix[q] == r[i];
    }
    forall i | 0 <= i < |prefix|
      ensures prefix[i] in r'
    {
      assert prefix[i] == s[i] && prefix[i] != last;
      assert s[i] in r;
      var q :| 0 <= q < |r| && r[q] == s[i];
      assert r'[q] == s[i];
    }
    assert NoDuplicates(r');
    FirstOrderOfPrefix(s, r);
  }

  /** `Dedup` is the only duplicate-free sequence with the same values as `s` listed in
      first-occurrence order: the properties of its contract characterise it. */
  lemma {:induction false} DedupUnique<T>(s: seq<T>, r: seq<T>)
    requires FirstOccurrences(s, r)
    ensures r == Dedup(s)
    decreases |s|
  {
    if |s| > 0 {
      var prefix := s[..|s| - 1];
      var last := s[|s| - 1];
      if last in prefix {
        FirstOccurrencesDropRepeat(s, r);
        DedupUnique(prefix, r);
        assert Dedup(s) == Dedup(prefix);
      } else {
        FirstOccurrencesDropNew(s, r);
        var r' := r[..|r| - 1];
        DedupUnique(prefix, r');
        assert Dedup(s) == Dedup(prefix) + [last];
        assert r == r' + [last];
      }
    }
  }

  /** A duplicate-free sequence holds each value at most once. */
  lemma {:induction false} DistinctMultiplicity<T>(s: seq<T>, x: T)
    requires NoDuplicates(s)
    ensures multiset(s)[x] <= 1
  {
    if |s| > 0 {
      var rest := s[1..];
      assert s == [s[0]] + rest;
      assert NoDuplicates(rest);
      DistinctMultiplicity(rest, x);
      if x == s[0] {
        assert x !in rest;
      }
    }
  }

  /** A rearrangement of a duplicate-free sequence is duplicate-free. */
  lemma PermutationKeepsDistinct<T>(a: seq<T>, b: seq<T>)
    requires NoDuplicates(a)
    requires multiset(a) == multiset(b)
    ensures NoDuplicates(b)
  {
    forall i, j | 0 <= i < j < |b|
      ensures b[i] != b[j]
    {
      if b[i] == b[j] {
        var x := b[i];
        assert b == b[..j] + [b[j]] + b[j + 1..];
        assert x in b[..j];
        assert multiset(b[..j])[x] >= 1;
        assert multiset(b)[x] >= 2;
        DistinctMultiplicity(a, x);
      }
    }
  }
}
