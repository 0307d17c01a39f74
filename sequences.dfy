/**
 * `Array.prototype.filter` and the vocabulary for saying what it returns:
 * a subsequence of its input (nothing invented, duplicated or reordered)
 * that keeps every copy of every element satisfying the predicate and no
 * copy of any other.
 */
module Sequences {

  /** `r` is `s` with some elements deleted. */
  ghost predicate IsSubsequence<T(!new)>(r: seq<T>, s: seq<T>)
    decreases |s|
  {
    |r| == 0 || (|s| > 0 && ((r[0] == s[0] && IsSubsequence(r[1..], s[1..])) || IsSubsequence(r, s[1..])))
  }

  /** `r` is exactly the elements of `s` that satisfy `keep`, in their order in `s`. */
  ghost predicate KeepsExactly<T(!new)>(r: seq<T>, s: seq<T>, keep: T -> bool) {
    && IsSubsequence(r, s)
    && forall x :: multiset(r)[x] == if keep(x) then multiset(s)[x] else 0
  }

  /** `s.filter(keep)`. */
  function Filter<T(!new)>(s: seq<T>, keep: T -> bool): (r: seq<T>)
    ensures KeepsExactly(r, s, keep)
    decreases |s|
  {
    if |s| == 0 then []
    else
      assert s == [s[0]] + s[1..];
      if keep(s[0]) then [s[0]] + Filter(s[1..], keep) else Filter(s[1..], keep)
  }

  predicate NoDuplicates<T(==)>(s: seq<T>) {
    forall i, j :: 0 <= i < j < |s| ==> s[i] != s[j]
  }

  lemma {:induction false} SubsequenceReflexive<T(!new)>(s: seq<T>)
    ensures IsSubsequence(s, s)
    decreases |s|
  {
    if |s| > 0 {
      SubsequenceReflexive(s[1..]);
    }
  }

  lemma {:induction false} SubsequenceTransitive<T(!new)>(a: seq<T>, b: seq<T>, c: seq<T>)
    requires IsSubsequence(a, b) && IsSubsequence(b, c)
    ensures IsSubsequence(a, c)
    decreases |c|
  {
    if |a| > 0 {
      if IsSubsequence(b, c[1..]) {
        SubsequenceTransitive(a, b, c[1..]);
      } else if a[0] == b[0] && IsSubsequence(a[1..], b[1..]) {
        SubsequenceTransitive(a[1..], b[1..], c[1..]);
      } else {
        SubsequenceTransitive(a, b[1..], c[1..]);
      }
    }
  }

  /** A subsequence holds no element more often than the sequence it comes from. */
  lemma {:induction false} SubsequenceMultiset<T(!new)>(r: seq<T>, s: seq<T>)
    requires IsSubsequence(r, s)
    ensures multiset(r) <= multiset(s)
    decreases |s|
  {
    if |r| > 0 {
      assert s == [s[0]] + s[1..];
      if r[0] == s[0] && IsSubsequence(r[1..], s[1..]) {
        SubsequenceMultiset(r[1..], s[1..]);
        assert r == [r[0]] + r[1..];
      } else {
        SubsequenceMultiset(r, s[1..]);
      }
    }
  }

  /** `KeepsExactly` determines its sequence: the only such `r` is `s.filter(keep)`. */
  lemma {:induction false} FilterUnique<T(!new)>(r: seq<T>, s: seq<T>, keep: T -> bool)
    requires KeepsExactly(r, s, keep)
    ensures r == Filter(s, keep)
    decreases |s|
  {
    if |s| == 0 {
      assert |r| == 0;
    } else {
      var x, t := s[0], s[1..];
      assert s == [x] + t;
      assert multiset(s) == multiset{x} + multiset(t);
      if keep(x) {
        assert multiset(r)[x] == multiset(t)[x] + 1;
        assert |r| > 0;
        if !(r[0] == x && IsSubsequence(r[1..], t)) {
          SubsequenceMultiset(r, t);
          assert false;
        }
        assert r == [x] + r[1..];
        assert multiset(r) == multiset{x} + multiset(r[1..]);
        FilterUnique(r[1..], t, keep);
      } else {
        assert x !in multiset(r);
        assert |r| > 0 ==> r[0] in multiset(r);
        assert IsSubsequence(r, t);
        FilterUnique(r, t, keep);
      }
    }
  }

  /** `r` is empty exactly when no element of `s` satisfies `keep`. */
  lemma KeepsNothing<T(!new)>(r: seq<T>, s: seq<T>, keep: T -> bool)
    requires KeepsExactly(r, s, keep)
    ensures |r| == 0 <==> forall i :: 0 <= i < |s| ==> !keep(s[i])
  {
    forall i | 0 <= i < |s| && keep(s[i])
      ensures |r| > 0
    {
      assert s[i] in multiset(s);
      assert s[i] in multiset(r);
    }
    if forall i :: 0 <= i < |s| ==> !keep(s[i]) {
      assert forall x :: x in s ==> !keep(x);
      assert multiset(r) == multiset{};
    }
  }

  /** Of two elements, keeping the first and not the second leaves just the first. */
  lemma KeepsFirstOfTwo<T(!new)>(r: seq<T>, x: T, y: T, keep: T -> bool)
    requires KeepsExactly(r, [x, y], keep)
    requires keep(x) && !keep(y)
    ensures r == [x]
  {
    assert multiset([x, y]) == multiset{x, y};
    assert multiset(r) == multiset{x};
    assert r[0] in multiset(r);
  }

  /** A sequence repeats no element exactly when its multiset counts every element at most once. */
  lemma {:induction false} NoDuplicatesCounts<T(!new)>(s: seq<T>)
    ensures NoDuplicates(s) <==> forall x :: multiset(s)[x] <= 1
    decreases |s|
  {
    if |s| > 0 {
      var x, t := s[0], s[1..];
      assert s == [x] + t;
      NoDuplicatesCounts(t);
      if NoDuplicates(s) {
        assert x !in t;
      } else {
        var i, j :| 0 <= i < j < |s| && s[i] == s[j];
        assert s[..j] + s[j..] == s;
        assert s[i] in multiset(s[..j]);
        assert s[j] in multiset(s[j..]);
        assert multiset(s)[s[i]] == multiset(s[..j])[s[i]] + multiset(s[j..])[s[i]];
      }
    }
  }

  lemma PermutationKeepsNoDuplicates<T(!new)>(a: seq<T>, b: seq<T>)
    requires multiset(a) == multiset(b) && NoDuplicates(a)
    ensures NoDuplicates(b)
  {
    NoDuplicatesCounts(a);
    NoDuplicatesCounts(b);
  }
}
