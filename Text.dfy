/**
 * The JavaScript string operations the portal relies on: `trim`, `toLowerCase`,
 * `includes`, the default ordering of `Array.prototype.sort` on strings and the
 * de-duplication done by `Array.from(new Set(...))`.
 */
module Text {
  import opened Sequences

  /** The characters ECMAScript's `trim` removes: WhiteSpace and LineTerminator. */
  predicate IsWhitespace(c: char) {
    || c == ' ' || c == '\t' || c == '\n' || c == '\r'
    || c == '\U{B}' || c == '\U{C}' || c == '\U{A0}' || c == '\U{1680}'
    || ('\U{2000}' <= c <= '\U{200A}')
    || c == '\U{2028}' || c == '\U{2029}' || c == '\U{202F}' || c == '\U{205F}'
    || c == '\U{3000}' || c == '\U{FEFF}'
  }

  /** Drops leading whitespace: the result is the suffix of `s` that starts at
      its first non-whitespace character. */
  function TrimStart(s: string): (r: string)
    ensures |r| <= |s| && r == s[|s| - |r|..]
    ensures forall k :: 0 <= k < |s| - |r| ==> IsWhitespace(s[k])
    ensures r == [] || !IsWhitespace(r[0])
  {
    if |s| > 0 && IsWhitespace(s[0]) then TrimStart(s[1..]) else s
  }

  /** Drops trailing whitespace: the result is the prefix of `s` that ends at
      its last non-whitespace character. */
  function TrimEnd(s: string): (r: string)
    ensures |r| <= |s| && r == s[..|r|]
    ensures forall k :: |r| <= k < |s| ==> IsWhitespace(s[k])
    ensures r == [] || !IsWhitespace(r[|r| - 1])
  {
    if |s| > 0 && IsWhitespace(s[|s| - 1]) then TrimEnd(s[..|s| - 1]) else s
  }

  /** `String.prototype.trim`: the result is the slice of `s` left once the
      whitespace before and after it is removed; it has no whitespace at either
      end, and it is empty exactly when `s` is all whitespace. */
  function Trim(s: string): (r: string)
    ensures exists i: nat :: OccursAt(s, r, i) && WhitespaceAround(s, i, |r|)
    ensures r == [] || (!IsWhitespace(r[0]) && !IsWhitespace(r[|r| - 1]))
    ensures r == [] <==> forall k :: 0 <= k < |s| ==> IsWhitespace(s[k])
  {
    TrimIsSlice(s);
    TrimEmpty(s);
    TrimEnd(TrimStart(s))
  }

  /** Everything in `s` before index `i` and from `i + n` on is whitespace. */
  ghost predicate WhitespaceAround(s: string, i: nat, n: nat) {
    && (forall k :: 0 <= k < i && k < |s| ==> IsWhitespace(s[k]))
    && (forall k :: i + n <= k < |s| ==> IsWhitespace(s[k]))
  }

  lemma TrimIsSlice(s: string)
    ensures OccursAt(s, TrimEnd(TrimStart(s)), |s| - |TrimStart(s)|)
    ensures WhitespaceAround(s, |s| - |TrimStart(s)|, |TrimEnd(TrimStart(s))|)
  {
    var t := TrimStart(s);
    var r := TrimEnd(t);
    PrefixOfSuffix(s, t, r);
    SuffixTail(s, t, |r|);
  }

  /** What follows the first `n` characters of a suffix `t` of `s` is, in `s`,
      what follows index `|s| - |t| + n`. */
  lemma SuffixTail(s: string, t: string, n: nat)
    requires |t| <= |s| && t == s[|s| - |t|..] && n <= |t|
    requires forall k :: n <= k < |t| ==> IsWhitespace(t[k])
    ensures forall k :: |s| - |t| + n <= k < |s| ==> IsWhitespace(s[k])
  {
    var o := |s| - |t|;
    forall k | o + n <= k < |s| ensures IsWhitespace(s[k]) {
      assert s[k] == t[k - o];
    }
  }

  /** A prefix of a suffix of `s` occurs in `s` where the suffix starts. */
  lemma PrefixOfSuffix(s: string, t: string, r: string)
    requires |t| <= |s| && t == s[|s| - |t|..]
    requires |r| <= |t| && r == t[..|r|]
    ensures OccursAt(s, r, |s| - |t|)
  {
    var o := |s| - |t|;
    assert s[o..][..|r|] == s[o..o + |r|];
  }

  lemma TrimEmpty(s: string)
    ensures TrimEnd(TrimStart(s)) == [] <==> forall k :: 0 <= k < |s| ==> IsWhitespace(s[k])
  {
    var t := TrimStart(s);
    var r := TrimEnd(t);
    var o := |s| - |t|;
    if r == [] {
      assert |t| == 0;
    } else {
      assert r[0] == t[0] == s[o];
    }
  }

  /** The ASCII part of `String.prototype.toLowerCase`. */
  function LowerChar(c: char): (d: char)
    ensures 'A' <= c <= 'Z' ==> d as int == c as int + 32
    ensures !('A' <= c <= 'Z') ==> d == c
    ensures !('A' <= d <= 'Z')
  {
    if 'A' <= c <= 'Z' then (c as int + 32) as char else c
  }

  function ToLower(s: string): (r: string)
    ensures |r| == |s|
    ensures forall k :: 0 <= k < |s| ==> r[k] == LowerChar(s[k])
  {
    seq(|s|, k requires 0 <= k < |s| => LowerChar(s[k]))
  }

  /** `needle` occurs in `hay` starting at index `i`. */
  ghost predicate OccursAt(hay: string, needle: string, i: nat) {
    i + |needle| <= |hay| && hay[i..i + |needle|] == needle
  }

  /** `String.prototype.includes`: true exactly when `needle` occurs somewhere in `hay`. */
  function Includes(hay: string, needle: string): (r: bool)
    ensures r <==> exists i: nat :: OccursAt(hay, needle, i)
    decreases |hay|
  {
    if needle <= hay then
      assert OccursAt(hay, needle, 0);
      true
    else if hay == [] then
      false
    else
      OccursInTail(hay, needle);
      Includes(hay[1..], needle)
  }

  /** When `needle` is not a prefix, it occurs in `hay` exactly when it occurs in its tail. */
  lemma OccursInTail(hay: string, needle: string)
    requires hay != [] && !(needle <= hay)
    ensures (exists i: nat :: OccursAt(hay, needle, i)) <==> (exists i: nat :: OccursAt(hay[1..], needle, i))
  {
    if i: nat :| OccursAt(hay[1..], needle, i) {
      assert hay[1..][i..i + |needle|] == hay[i + 1..i + 1 + |needle|];
      assert OccursAt(hay, needle, i + 1);
    }
    if i: nat :| OccursAt(hay, needle, i) {
      assert hay[1..][i - 1..i - 1 + |needle|] == hay[i..i + |needle|];
      assert OccursAt(hay[1..], needle, i - 1);
    }
  }

  /** The empty string occurs in every string. */
  lemma IncludesEmpty(hay: string)
    ensures Includes(hay, "")
  {
    assert OccursAt(hay, "", 0);
  }

  /** The order in which `Array.prototype.sort` places strings when given no
      comparator: lexicographic by character code, a prefix first. */
  predicate CodeLessEq(a: string, b: string)
    decreases |a|
  {
    if a == [] then true
    else if b == [] then false
    else if a[0] != b[0] then a[0] < b[0]
    else CodeLessEq(a[1..], b[1..])
  }

  lemma {:induction false} CodeLessEqTotal(a: string, b: string)
    ensures CodeLessEq(a, b) || CodeLessEq(b, a)
    decreases |a|
  {
    if a != [] && b != [] && a[0] == b[0] {
      CodeLessEqTotal(a[1..], b[1..]);
    }
  }

  lemma {:induction false} CodeLessEqAntisymmetric(a: string, b: string)
    requires CodeLessEq(a, b) && CodeLessEq(b, a)
    ensures a == b
    decreases |a|
  {
    if a != [] && b != [] {
      CodeLessEqAntisymmetric(a[1..], b[1..]);
      assert a == [a[0]] + a[1..] && b == [b[0]] + b[1..];
    }
  }

  lemma {:induction false} CodeLessEqTransitive(a: string, b: string, c: string)
    requires CodeLessEq(a, b) && CodeLessEq(b, c)
    ensures CodeLessEq(a, c)
    decreases |a|
  {
    if a != [] && b != [] && c != [] && a[0] == b[0] && b[0] == c[0] {
      CodeLessEqTransitive(a[1..], b[1..], c[1..]);
    }
  }

  predicate SortedByCode(s: seq<string>) {
    forall i, j :: 0 <= i < j < |s| ==> CodeLessEq(s[i], s[j])
  }

  /** Places `x` in front of the first element of `s` it does not follow. */
  function InsertByCode(x: string, s: seq<string>): (r: seq<string>)
    requires SortedByCode(s)
    ensures SortedByCode(r)
    ensures multiset(r) == multiset(s) + multiset{x}
    decreases |s|
  {
    if s == [] then [x]
    else if CodeLessEq(x, s[0]) then
      InsertFrontSorted(x, s);
      [x] + s
    else
      var t := InsertByCode(x, s[1..]);
      InsertBehindFirst(x, s, t);
      [s[0]] + t
  }

  lemma InsertFrontSorted(x: string, s: seq<string>)
    requires SortedByCode(s) && s != [] && CodeLessEq(x, s[0])
    ensures SortedByCode([x] + s)
  {
    forall j | 0 < j < |s| ensures CodeLessEq(x, s[j]) {
      CodeLessEqTransitive(x, s[0], s[j]);
    }
  }

  lemma InsertBehindFirst(x: string, s: seq<string>, t: seq<string>)
    requires SortedByCode(s) && s != [] && !CodeLessEq(x, s[0])
    requires SortedByCode(t) && multiset(t) == multiset(s[1..]) + multiset{x}
    ensures SortedByCode([s[0]] + t)
    ensures multiset([s[0]] + t) == multiset(s) + multiset{x}
  {
    assert s == [s[0]] + s[1..];
    CodeLessEqTotal(x, s[0]);
    forall j | 0 <= j < |t| ensures CodeLessEq(s[0], t[j]) {
      assert t[j] in multiset(t);
      if t[j] != x {
        assert t[j] in s[1..];
      }
    }
  }

  /** `Array.prototype.sort` on strings: sorted by character code, same elements. */
  function SortByCode(s: seq<string>): (r: seq<string>)
    ensures SortedByCode(r)
    ensures multiset(r) == multiset(s)
    decreases |s|
  {
    if s == [] then []
    else
      assert s == [s[0]] + s[1..];
      InsertByCode(s[0], SortByCode(s[1..]))
  }

  /** `Array.from(new Set(s))`: the first occurrence of each value, in order. */
  function Distinct(s: seq<string>): (r: seq<string>)
    ensures NoDuplicates(r)
    ensures forall x :: x in r <==> x in s
    ensures Subsequence(r, s)
    decreases |s|
  {
    if s == [] then []
    else
      var d := Distinct(s[..|s| - 1]);
      var last := s[|s| - 1];
      assert s == s[..|s| - 1] + [last];
      SubsequenceAppend(d, s[..|s| - 1], last);
      if last in d then d else d + [last]
  }

  /** The index of the first occurrence of `x` in `s`. */
  function FirstIndex(s: seq<string>, x: string): (k: nat)
    requires x in s
    ensures k < |s| && s[k] == x && x !in s[..k]
    decreases |s|
  {
    if s[0] == x then 0
    else
      var k := FirstIndex(s[1..], x);
      assert s[..k + 1] == [s[0]] + s[1..][..k];
      k + 1
  }

  /** A value occurring in a prefix of `s` first occurs where it first occurs in the prefix. */
  lemma FirstIndexPrefix(s: seq<string>, m: nat, x: string)
    requires m <= |s| && x in s[..m]
    ensures FirstIndex(s, x) == FirstIndex(s[..m], x)
  {
    var k := FirstIndex(s[..m], x);
    assert s[..m][..k] == s[..k];
  }

  /** `Distinct` lists the values in the order of their first occurrences in `s`,
      as the iteration order of a `Set` does. */
  lemma {:induction false} DistinctFirstOccurrenceOrder(s: seq<string>)
    ensures forall i, j :: 0 <= i < j < |Distinct(s)| ==>
      FirstIndex(s, Distinct(s)[i]) < FirstIndex(s, Distinct(s)[j])
    decreases |s|
  {
    if s != [] {
      var init := s[..|s| - 1];
      var last := s[|s| - 1];
      var d := Distinct(init);
      DistinctFirstOccurrenceOrder(init);
      assert s[..|s| - 1] == init;
      forall x | x in d ensures FirstIndex(s, x) == FirstIndex(init, x) {
        FirstIndexPrefix(s, |s| - 1, x);
      }
      if last !in d {
        AppendLastOccurrence(s, d, d + [last]);
      }
    }
  }

  /** A value absent from the first `|s| - 1` elements first occurs at the
      end, after everything in `d`, which is drawn from those elements. */
  lemma AppendLastOccurrence(s: seq<string>, d: seq<string>, r: seq<string>)
    requires s != [] && s[|s| - 1] !in s[..|s| - 1]
    requires forall x :: x in d ==> x in s && x in s[..|s| - 1]
    requires forall i, j :: 0 <= i < j < |d| ==> FirstIndex(s, d[i]) < FirstIndex(s, d[j])
    requires r == d + [s[|s| - 1]]
    ensures forall i, j :: 0 <= i < j < |r| ==> FirstIndex(s, r[i]) < FirstIndex(s, r[j])
  {
    var n := |s| - 1;
    assert FirstIndex(s, s[n]) == n;
    forall x | x in d ensures FirstIndex(s, x) < n {
      FirstIndexPrefix(s, n, x);
    }
    forall i, j | 0 <= i < j < |r| ensures FirstIndex(s, r[i]) < FirstIndex(s, r[j]) {
      assert r[i] == d[i];
      if j < |d| {
        assert r[j] == d[j];
      }
    }
  }

  /** Appending to the longer side, or to both sides, keeps a subsequence. */
  lemma {:induction false} SubsequenceAppend<T>(a: seq<T>, b: seq<T>, x: T)
    requires Subsequence(a, b)
    ensures Subsequence(a, b + [x]) && Subsequence(a + [x], b + [x])
    decreases |b|
  {
    if b == [] {
      assert a == [];
      assert ([x] + [])[1..] == [];
    } else if a == [] {
      assert a + [x] == [x];
      SubsequenceAppendSingle(b, x);
    } else {
      assert (b + [x])[1..] == b[1..] + [x];
      assert (a + [x])[1..] == a[1..] + [x];
      if a[0] == b[0] && Subsequence(a[1..], b[1..]) {
        SubsequenceAppend(a[1..], b[1..], x);
      } else {
        SubsequenceAppend(a, b[1..], x);
      }
    }
  }

  lemma {:induction false} SubsequenceAppendSingle<T>(b: seq<T>, x: T)
    ensures Subsequence([x], b + [x])
    decreases |b|
  {
    if b != [] {
      assert (b + [x])[1..] == b[1..] + [x];
      SubsequenceAppendSingle(b[1..], x);
    } else {
      assert [x][1..] == [];
    }
  }
}
