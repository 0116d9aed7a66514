/** The ordering Python's `sorted` uses on `str` values, and insertion sort under it. */
module StringOrder {
  import opened Sequences

  /** Python's `a < b` on strings: compare code points left to right; at the first difference
      the smaller code point wins, and a proper prefix is smaller than the longer string. */
  predicate Less(a: string, b: string)
  {
    if |a| == 0 then |b| > 0
    else if |b| == 0 then false
    else if a[0] != b[0] then a[0] < b[0]
    else Less(a[1..], b[1..])
  }

  predicate LessEq(a: string, b: string)
  {
    a == b || Less(a, b)
  }

  lemma {:induction false} LessIrreflexive(a: string)
    ensures !Less(a, a)
  {
    if |a| > 0 {
      LessIrreflexive(a[1..]);
    }
  }

  /** Any two distinct strings are ordered one way or the other. */
  lemma {:induction false} LessTotal(a: string, b: string)
    ensures a == b || Less(a, b) || Less(b, a)
  {
    if |a| > 0 && |b| > 0 && a[0] == b[0] {
      LessTotal(a[1..], b[1..]);
      if a[1..] == b[1..] {
        assert a == [a[0]] + a[1..] && b == [b[0]] + b[1..];
      }
    }
  }

  lemma {:induction false} LessAsymmetric(a: string, b: string)
    ensures !(Less(a, b) && Less(b, a))
  {
    if |a| > 0 && |b| > 0 && a[0] == b[0] {
      LessAsymmetric(a[1..], b[1..]);
    }
  }

  lemma {:induction false} LessTransitive(a: string, b: string, c: string)
    requires Less(a, b) && Less(b, c)
    ensures Less(a, c)
  {
    if |a| > 0 && a[0] == b[0] && b[0] == c[0] {
      LessTransitive(a[1..], b[1..], c[1..]);
    }
  }

  lemma LessEqTransitive(a: string, b: string, c: string)
    requires LessEq(a, b) && LessEq(b, c)
    ensures LessEq(a, c)
  {
    if a != b && b != c {
      LessTransitive(a, b, c);
    }
  }

  /** Non-decreasing under `LessEq`, as `sorted` leaves a list. */
  predicate Ascending(s: seq<string>)
  {
    forall i, j :: 0 <= i < j < |s| ==> LessEq(s[i], s[j])
  }

  /** Strictly increasing under `Less`: sorted and duplicate-free. */
  predicate StrictlyAscending(s: seq<string>)
  {
    forall i, j :: 0 <= i < j < |s| ==> Less(s[i], s[j])
  }

  /** A name at or below every name of an ascending list can go in front of it. */
  lemma PrependName(x: string, s: seq<string>)
    requires Ascending(s)
    requires forall j :: 0 <= j < |s| ==> LessEq(x, s[j])
    ensures Ascending([x] + s)
  {
    assert forall j :: 0 < j < |[x] + s| ==> ([x] + s)[j] == s[j - 1];
  }

  /** The front of an ascending list bounds every rearrangement of its tail plus a name
      above the front. */
  lemma FrontBoundsInsertName(x: string, s: seq<string>, rest: seq<string>)
    requires Ascending(s) && |s| > 0 && !LessEq(x, s[0])
    requires multiset(rest) == multiset(s[1..]) + multiset{x}
    ensures forall j :: 0 <= j < |rest| ==> LessEq(s[0], rest[j])
  {
    LessTotal(x, s[0]);
    forall j | 0 <= j < |rest|
      ensures LessEq(s[0], rest[j])
    {
      assert rest[j] in multiset(rest);
      if rest[j] != x {
        assert rest[j] in multiset(s[1..]);
        var q :| 0 <= q < |s[1..]| && s[1..][q] == rest[j];
        assert s[q + 1] == rest[j];
      }
    }
  }

  /** Inserts `x` into an ascending list before the first element not below it. */
  function InsertName(x: string, s: seq<string>): (r: seq<string>)
    requires Ascending(s)
    ensures Ascending(r)
    ensures multiset(r) == multiset(s) + multiset{x}
  {
    if |s| == 0 || LessEq(x, s[0]) then
      forall j | 0 <= j < |s|
        ensures LessEq(x, s[j])
      {
        LessEqTransitive(x, s[0], s[j]);
      }
      PrependName(x, s);
      [x] + s
    else
      var rest := InsertName(x, s[1..]);
      FrontBoundsInsertName(x, s, rest);
      PrependName(s[0], rest);
      assert multiset([s[0]] + rest) == multiset(s) + multiset{x} by {
        assert s == [s[0]] + s[1..];
      }
      [s[0]] + rest
  }

  /** Python's `sorted` on a list of strings: an ascending rearrangement of the input. */
  function SortNames(s: seq<string>): (r: seq<string>)
    ensures Ascending(r)
    ensures multiset(r) == multiset(s)
  {
    if |s| == 0 then []
    else
      assert s == [s[0]] + s[1..];
      InsertName(s[0], SortNames(s[1..]))
  }

  /** Sorting a duplicate-free list yields a strictly ascending list with the same values. */
  lemma {:induction false} SortDistinct(s: seq<string>)
    requires NoDuplicates(s)
    ensures StrictlyAscending(SortNames(s))
    ensures forall x :: x in SortNames(s) <==> x in s
  {
    var r := SortNames(s);
    PermutationKeepsDistinct(s, r);
    forall x
      ensures x in r <==> x in s
    {
      assert x in r <==> x in multiset(r);
      assert x in s <==> x in multiset(s);
    }
  }
}
