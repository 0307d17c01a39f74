/**
 * The three JavaScript string operations the places route relies on:
 * `String.prototype.toLowerCase` (restricted to ASCII letters),
 * `String.prototype.includes`, and the character order that stands for
 * JavaScript's UTF-16 code-unit order, which the default
 * `Array.prototype.sort` uses to compare strings.
 */
module JsStrings {

  predicate IsAsciiUpper(c: char) {
    'A' <= c <= 'Z'
  }

  /** Lower-cases one character: ASCII capitals become the small letter of the same position. */
  function LowerChar(c: char): (r: char)
    ensures !IsAsciiUpper(r)
    ensures !IsAsciiUpper(c) ==> r == c
    ensures IsAsciiUpper(c) ==> 'a' <= r <= 'z' && r as int - 'a' as int == c as int - 'A' as int
  {
    if IsAsciiUpper(c) then (c as int - 'A' as int + 'a' as int) as char else c
  }

  /** `s.toLowerCase()` on the ASCII range. */
  function ToLower(s: string): (r: string)
    ensures |r| == |s|
    ensures forall i :: 0 <= i < |s| ==> r[i] == LowerChar(s[i])
    ensures forall i :: 0 <= i < |r| ==> !IsAsciiUpper(r[i])
  {
    seq(|s|, i requires 0 <= i < |s| => LowerChar(s[i]))
  }

  /** Lower-casing an already lower-cased string changes nothing. */
  lemma ToLowerIdempotent(s: string)
    ensures ToLower(ToLower(s)) == ToLower(s)
  {
    var once := ToLower(s);
    assert forall i :: 0 <= i < |once| ==> ToLower(once)[i] == once[i];
  }

  /** The strings differ only in the case of ASCII letters: at each position they agree, or one holds a capital and the other its small letter. */
  predicate EqualIgnoringCase(a: string, b: string) {
    && |a| == |b|
    && forall i :: 0 <= i < |a| ==>
         || a[i] == b[i]
         || (IsAsciiUpper(a[i]) && b[i] == LowerChar(a[i]))
         || (IsAsciiUpper(b[i]) && a[i] == LowerChar(b[i]))
  }

  /** Two strings lower-case to the same string exactly when they differ only in the case of ASCII letters. */
  lemma EqualIgnoringCaseLowers(a: string, b: string)
    ensures EqualIgnoringCase(a, b) <==> ToLower(a) == ToLower(b)
  {
    if ToLower(a) == ToLower(b) {
      assert forall i :: 0 <= i < |a| ==> LowerChar(a[i]) == ToLower(b)[i];
    }
  }

  /** `needle` occurs in `hay` starting at index `i`. */
  predicate OccursAt(hay: string, needle: string, i: int) {
    0 <= i && i + |needle| <= |hay| && hay[i..i + |needle|] == needle
  }

  /** `hay.includes(needle)`: some position of `hay` starts a copy of `needle`. */
  function Includes(hay: string, needle: string): (r: bool)
    ensures r <==> exists i :: OccursAt(hay, needle, i)
    decreases |hay|
  {
    if |needle| > |hay| then false
    else if hay[..|needle|] == needle then assert OccursAt(hay, needle, 0); true
    else IncludesShift(hay, needle); Includes(hay[1..], needle)
  }

  /** An occurrence that does not start at 0 is an occurrence in the tail, and conversely. */
  lemma IncludesShift(hay: string, needle: string)
    requires |needle| <= |hay| && hay[..|needle|] != needle
    ensures (exists i :: OccursAt(hay, needle, i)) <==> (exists i :: OccursAt(hay[1..], needle, i))
  {
    if exists i :: OccursAt(hay, needle, i) {
      var i :| OccursAt(hay, needle, i);
      assert i != 0;
      assert hay[1..][i - 1..i - 1 + |needle|] == hay[i..i + |needle|];
      assert OccursAt(hay[1..], needle, i - 1);
    }
    if exists i :: OccursAt(hay[1..], needle, i) {
      var i :| OccursAt(hay[1..], needle, i);
      assert hay[1..][i..i + |needle|] == hay[i + 1..i + 1 + |needle|];
      assert OccursAt(hay, needle, i + 1);
    }
  }

  /** A string that includes a non-empty `needle` contains its first character. */
  lemma IncludesFirstChar(hay: string, needle: string)
    requires |needle| > 0
    ensures Includes(hay, needle) ==> needle[0] in hay
  {
    if Includes(hay, needle) {
      var i :| OccursAt(hay, needle, i);
      assert hay[i..i + |needle|][0] == hay[i];
    }
  }

  /**
   * `a` and `b` agree on their first `k` characters, and there `a` either
   * ends while `b` goes on, or holds the smaller character.
   */
  predicate FirstDifferenceLess(a: string, b: string, k: int) {
    && 0 <= k <= |a|
    && k < |b|
    && a[..k] == b[..k]
    && (k == |a| || a[k] < b[k])
  }

  /**
   * The order the default `Array.prototype.sort` uses for strings: compare
   * element by element, and a proper prefix comes first.
   */
  function Less(a: string, b: string): (r: bool)
    ensures r <==> exists k :: FirstDifferenceLess(a, b, k)
    decreases |a|
  {
    if |b| == 0 then false
    else if |a| == 0 then assert FirstDifferenceLess(a, b, 0); true
    else
      FirstDifferenceShift(a, b);
      if a[0] != b[0] then a[0] < b[0] else Less(a[1..], b[1..])
  }

  /** A first difference is at the head, or the heads agree and it is a first difference of the tails. */
  lemma FirstDifferenceShift(a: string, b: string)
    requires |a| > 0 && |b| > 0
    ensures (exists k :: FirstDifferenceLess(a, b, k)) <==>
      a[0] < b[0] || (a[0] == b[0] && exists k :: FirstDifferenceLess(a[1..], b[1..], k))
  {
    if a[0] < b[0] {
      assert FirstDifferenceLess(a, b, 0);
    }
    if exists k :: FirstDifferenceLess(a, b, k) {
      var k :| FirstDifferenceLess(a, b, k);
      if k > 0 {
        assert a[..k][0] == b[..k][0];
        assert a[1..][..k - 1] == a[..k][1..];
        assert b[1..][..k - 1] == b[..k][1..];
        assert FirstDifferenceLess(a[1..], b[1..], k - 1);
      }
    }
    if a[0] == b[0] && exists k :: FirstDifferenceLess(a[1..], b[1..], k) {
      var k :| FirstDifferenceLess(a[1..], b[1..], k);
      assert a[..k + 1] == [a[0]] + a[1..][..k];
      assert b[..k + 1] == [b[0]] + b[1..][..k];
      assert FirstDifferenceLess(a, b, k + 1);
    }
  }

  predicate LessEq(a: string, b: string) {
    a == b || Less(a, b)
  }

  lemma {:induction false} LessIrreflexive(a: string)
    ensures !Less(a, a)
    decreases |a|
  {
    if |a| > 0 {
      LessIrreflexive(a[1..]);
    }
  }

  lemma {:induction false} LessTransitive(a: string, b: string, c: string)
    requires Less(a, b) && Less(b, c)
    ensures Less(a, c)
    decreases |a|
  {
    if |a| > 0 && a[0] == b[0] && b[0] == c[0] {
      LessTransitive(a[1..], b[1..], c[1..]);
    }
  }

  lemma {:induction false} LessTotal(a: string, b: string)
    ensures a == b || Less(a, b) || Less(b, a)
    decreases |a|
  {
    if |a| > 0 && |b| > 0 && a[0] == b[0] {
      LessTotal(a[1..], b[1..]);
      if a[1..] == b[1..] {
        assert a == [a[0]] + a[1..] && b == [b[0]] + b[1..];
      }
    }
  }

  lemma {:induction false} LessAsymmetric(a: string, b: string)
    ensures !(Less(a, b) && Less(b, a))
  {
    if Less(a, b) && Less(b, a) {
      LessTransitive(a, b, a);
      LessIrreflexive(a);
    }
  }
}
