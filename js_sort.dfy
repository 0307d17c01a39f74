/**
 * The default `Array.prototype.sort()` applied to an array of strings:
 * the result is a permutation of the input, ascending in `JsStrings.Less`,
 * the character order that stands for JavaScript's UTF-16 code-unit
 * order. The engine's own algorithm is not visible, so
 * the sort is modelled as an insertion sort; for the duplicate-free arrays
 * the route sorts, any correct sort returns the same sequence
 * (`SortedUnique`).
 */
module JsSort {
  import opened JsStrings
  import opened Sequences

  predicate Sorted(s: seq<string>) {
    forall i, j :: 0 <= i < j < |s| ==> LessEq(s[i], s[j])
  }

  predicate StrictlySorted(s: seq<string>) {
    forall i, j :: 0 <= i < j < |s| ==> Less(s[i], s[j])
  }

  /** Puts `x` in front of the first element it is not greater than. */
  function Insert(x: string, s: seq<string>): (r: seq<string>)
    requires Sorted(s)
    ensures Sorted(r)
    ensures multiset(r) == multiset(s) + multiset{x}
    decreases |s|
  {
    if |s| == 0 then [x]
    else if LessEq(x, s[0]) then
      InsertFrontSorted(x, s); [x] + s
    else
      LessTotal(x, s[0]);
      var rest := Insert(x, s[1..]);
      assert s == [s[0]] + s[1..];
      InsertBehindSorted(s[0], x, s[1..], rest);
      [s[0]] + rest
  }

  lemma InsertFrontSorted(x: string, s: seq<string>)
    requires Sorted(s) && |s| > 0 && LessEq(x, s[0])
    ensures Sorted([x] + s)
  {
    forall j | 1 <= j < |s| + 1
      ensures LessEq(x, ([x] + s)[j])
    {
      if x != s[0] && s[0] != s[j - 1] {
        LessTransitive(x, s[0], s[j - 1]);
      }
    }
  }

  lemma InsertBehindSorted(y: string, x: string, t: seq<string>, rest: seq<string>)
    requires Sorted([y] + t) && Less(y, x)
    requires Sorted(rest) && multiset(rest) == multiset(t) + multiset{x}
    ensures Sorted([y] + rest)
  {
    forall j | 0 <= j < |rest|
      ensures LessEq(y, rest[j])
    {
      assert rest[j] in multiset(rest);
      if rest[j] != x {
        assert rest[j] in multiset(t);
        assert ([y] + t)[0] == y;
        var k :| 0 <= k < |t| && t[k] == rest[j];
        assert ([y] + t)[k + 1] == rest[j];
      }
    }
  }

  /** `Array.from(values).sort()` on strings. */
  function Sort(s: seq<string>): (r: seq<string>)
    ensures Sorted(r)
    ensures multiset(r) == multiset(s)
    decreases |s|
  {
    if |s| == 0 then []
    else
      assert s == [s[0]] + s[1..];
      Insert(s[0], Sort(s[1..]))
  }

  /** A sorted sequence without duplicates is strictly ascending. */
  lemma SortedDistinctIsStrict(s: seq<string>)
    requires Sorted(s) && NoDuplicates(s)
    ensures StrictlySorted(s)
  {
  }

  lemma HeadIsLeast(s: seq<string>, v: string)
    requires StrictlySorted(s) && v in s
    ensures LessEq(s[0], v)
  {
    var k :| 0 <= k < |s| && s[k] == v;
  }

  /** A strictly ascending sequence is fixed by the set of its elements. */
  lemma {:induction false} SortedUnique(a: seq<string>, b: seq<string>)
    requires StrictlySorted(a) && StrictlySorted(b)
    requires forall v :: v in a <==> v in b
    ensures a == b
    decreases |a| + |b|
  {
    assert |a| > 0 ==> a[0] in b;
    assert |b| > 0 ==> b[0] in a;
    if |a| > 0 && |b| > 0 {
      HeadIsLeast(a, b[0]);
      HeadIsLeast(b, a[0]);
      LessAsymmetric(a[0], b[0]);
      forall v
        ensures v in a[1..] <==> v in b[1..]
      {
        if v in a[1..] {
          var k :| 1 <= k < |a| && a[k] == v;
          LessIrreflexive(a[0]);
          assert a[k] in a && v in b;
          var m :| 0 <= m < |b| && b[m] == v;
          assert m != 0;
          assert b[1..][m - 1] == v;
        }
        if v in b[1..] {
          var k :| 1 <= k < |b| && b[k] == v;
          LessIrreflexive(b[0]);
          assert b[k] in b && v in a;
          var m :| 0 <= m < |a| && a[m] == v;
          assert m != 0;
          assert a[1..][m - 1] == v;
        }
      }
      SortedUnique(a[1..], b[1..]);
      assert a == [a[0]] + a[1..] && b == [b[0]] + b[1..];
    }
  }
}
