/**
 * Searching and splitting strings the way the harness's Python 2 string
 * methods do: `s.index(p)` finds the first occurrence, `s.split(p, 1)`
 * splits once at it, and `s.split(p)` splits at every occurrence, left to
 * right.  Python 2 `str` values are byte strings; they are modelled as
 * `string`.
 */
module Text {
  import opened Wrappers

  const CRLF: string := "\r\n"
  /** The blank line that ends a message head. */
  const HeadEnd: string := "\r\n\r\n"

  /** `p` occurs in `s` starting at index `i`. */
  predicate OccursAt(s: string, p: string, i: nat) {
    i + |p| <= |s| && s[i..i + |p|] == p
  }

  /** `p` occurs nowhere in `s`. */
  ghost predicate Absent(s: string, p: string) {
    forall i: nat :: !OccursAt(s, p, i)
  }

  predicate StartsWith(s: string, p: string) {
    |p| <= |s| && s[..|p|] == p
  }

  predicate EndsWith(s: string, p: string) {
    |p| <= |s| && s[|s| - |p|..] == p
  }

  /** An occurrence in `s[1..]` is an occurrence in `s` one place later. */
  lemma OccursShift(s: string, p: string, i: nat)
    requires |s| > 0
    ensures OccursAt(s[1..], p, i) <==> OccursAt(s, p, i + 1)
  {
    if i + 1 + |p| <= |s| {
      assert s[1..][i..i + |p|] == s[i + 1..i + 1 + |p|];
    }
  }

  /** No occurrence at 0 and none in `s[1..]` before n: none in `s` before n + 1. */
  lemma NoneBeforeShift(s: string, p: string, n: nat)
    requires |s| > 0 && !OccursAt(s, p, 0)
    requires forall j: nat :: j < n ==> !OccursAt(s[1..], p, j)
    ensures forall j: nat :: j < n + 1 ==> !OccursAt(s, p, j)
  {
    forall j: nat | j < n + 1 ensures !OccursAt(s, p, j) {
      if j > 0 { OccursShift(s, p, j - 1); }
    }
  }

  /** No occurrence at 0 and none in `s[1..]`: none in `s`. */
  lemma AbsentShift(s: string, p: string)
    requires |s| > 0 && !OccursAt(s, p, 0)
    requires Absent(s[1..], p)
    ensures Absent(s, p)
  {
    forall j: nat ensures !OccursAt(s, p, j) {
      if j > 0 { OccursShift(s, p, j - 1); }
    }
  }

  /** `s.index(p)`: the first index at which `p` occurs, or None (Python raises ValueError). */
  function FindFirst(s: string, p: string): (r: Option<nat>)
    ensures r.Some? ==> OccursAt(s, p, r.value)
    ensures r.Some? ==> forall j: nat :: j < r.value ==> !OccursAt(s, p, j)
    ensures r.None? ==> Absent(s, p)
    decreases |s|
  {
    if |s| < |p| then None
    else if s[..|p|] == p then Some(0)
    else
      var rest := FindFirst(s[1..], p);
      assert !OccursAt(s, p, 0) by { assert s[0..|p|] == s[..|p|]; }
      match rest
      case None =>
        AbsentShift(s, p);
        None
      case Some(i) =>
        OccursShift(s, p, i);
        NoneBeforeShift(s, p, i);
        Some(i + 1)
  }

  /** `s.split(p, 1)` unpacked into two names: None when `p` is absent (Python raises ValueError). */
  function SplitOnce(s: string, p: string): (r: Option<(string, string)>)
    requires |p| > 0
    ensures r.None? <==> Absent(s, p)
    ensures r.Some? ==> s == r.value.0 + p + r.value.1 && Absent(r.value.0, p)
    ensures r.Some? ==> forall j: nat :: j < |r.value.0| ==> !OccursAt(s, p, j)
  {
    var found := FindFirst(s, p);
    match found
    case None => None
    case Some(i) =>
      assert s == s[..i] + p + s[i + |p|..] by {
        assert s[i..i + |p|] == p;
        assert s == s[..i] + s[i..i + |p|] + s[i + |p|..];
      }
      assert Absent(s[..i], p) by {
        forall j: nat ensures !OccursAt(s[..i], p, j) {
          if j + |p| <= i {
            assert s[..i][j..j + |p|] == s[j..j + |p|];
            assert !OccursAt(s, p, j);
          }
        }
      }
      Some((s[..i], s[i + |p|..]))
  }

  /** `s.split(p)` for a non-empty separator: the parts between successive occurrences. */
  function SplitAll(s: string, p: string): (r: seq<string>)
    requires |p| > 0
    ensures |r| > 0
    ensures forall k :: 0 <= k < |r| ==> Absent(r[k], p)
    ensures Join(r, p) == s
    decreases |s|
  {
    match SplitOnce(s, p)
    case None => [s]
    case Some((a, b)) =>
      var rest := SplitAll(b, p);
      assert ([a] + rest)[1..] == rest;
      [a] + rest
  }

  /** `p.join(parts)`. */
  function Join(parts: seq<string>, p: string): string {
    if |parts| == 0 then ""
    else if |parts| == 1 then parts[0]
    else parts[0] + p + Join(parts[1..], p)
  }

  /** A two-character occurrence, character by character. */
  lemma OccursAt2(s: string, p: string, i: nat)
    requires |p| == 2 && i + 2 <= |s|
    ensures OccursAt(s, p, i) <==> s[i] == p[0] && s[i + 1] == p[1]
  {
    assert s[i..i + 2] == [s[i], s[i + 1]];
    assert p == [p[0], p[1]];
  }

  /** A blank-line occurrence, character by character. */
  lemma HeadEndAt(s: string, i: nat)
    requires i + 4 <= |s|
    ensures OccursAt(s, HeadEnd, i) <==>
      s[i] == '\r' && s[i + 1] == '\n' && s[i + 2] == '\r' && s[i + 3] == '\n'
  {
    assert s[i..i + 4] == [s[i], s[i + 1], s[i + 2], s[i + 3]];
  }

  /** A match before |a| in a + p + b would lie inside a + p minus its last character. */
  lemma FindAfterPrefix(a: string, p: string, b: string)
    requires |p| > 0
    requires Absent(a + p[..|p| - 1], p)
    ensures FindFirst(a + p + b, p) == Some(|a|)
  {
    var s := a + p + b;
    var w := a + p[..|p| - 1];
    assert s[|a|..|a| + |p|] == p;
    assert OccursAt(s, p, |a|);
    forall j: nat | j < |a| ensures !OccursAt(s, p, j) {
      assert !OccursAt(w, p, j);
      if j + |p| <= |w| {
        assert s[j..j + |p|] == w[j..j + |p|];
      }
    }
  }

  /**
   * Joining two strings free of a two-character pattern creates no occurrence
   * unless the seam spells it.
   */
  lemma AbsentConcat2(a: string, b: string, p: string)
    requires |p| == 2
    requires Absent(a, p) && Absent(b, p)
    requires |a| > 0 && |b| > 0 ==> !(a[|a| - 1] == p[0] && b[0] == p[1])
    ensures Absent(a + b, p)
  {
    var s := a + b;
    forall j: nat ensures !OccursAt(s, p, j) {
      if j + 2 <= |a| {
        assert s[j..j + 2] == a[j..j + 2];
        assert !OccursAt(a, p, j);
      } else if j >= |a| && j + 2 <= |s| {
        assert s[j..j + 2] == b[j - |a|..j - |a| + 2];
        assert !OccursAt(b, p, j - |a|);
      } else if j + 2 <= |s| {
        assert j == |a| - 1;
        OccursAt2(s, p, j);
      }
    }
  }

  /** For a two-character pattern with distinct characters, a + p + b splits exactly at |a|. */
  lemma FindAfterAbsent2(a: string, p: string, b: string)
    requires |p| == 2 && p[0] != p[1]
    requires Absent(a, p)
    ensures FindFirst(a + p + b, p) == Some(|a|)
    ensures SplitOnce(a + p + b, p) == Some((a, b))
  {
    assert p[..1] == [p[0]];
    assert Absent([p[0]], p) by {
      forall j: nat ensures !OccursAt([p[0]], p, j) { }
    }
    AbsentConcat2(a, [p[0]], p);
    FindAfterPrefix(a, p, b);
    var s := a + p + b;
    assert s[..|a|] == a && s[|a| + 2..] == b;
  }

  /** A single-character pattern absent from a splits a + p + b exactly at |a|. */
  lemma FindAfterAbsent1(a: string, p: string, b: string)
    requires |p| == 1
    requires Absent(a, p)
    ensures FindFirst(a + p + b, p) == Some(|a|)
    ensures SplitOnce(a + p + b, p) == Some((a, b))
  {
    assert a + p[..0] == a;
    FindAfterPrefix(a, p, b);
    var s := a + p + b;
    assert s[..|a|] == a && s[|a| + 1..] == b;
  }

  /** Splitting text free of `p` gives the text alone. */
  lemma SplitAllAbsent(a: string, p: string)
    requires |p| > 0 && Absent(a, p)
    ensures SplitAll(a, p) == [a]
  {
    assert SplitOnce(a, p) == None;
  }

  /** Splitting `a + p + rest` with `p` absent from `a` cuts off `a` first. */
  lemma SplitAllStep(a: string, p: string, rest: string)
    requires |p| == 2 && p[0] != p[1]
    requires Absent(a, p)
    ensures SplitAll(a + p + rest, p) == [a] + SplitAll(rest, p)
  {
    FindAfterAbsent2(a, p, rest);
  }

  /** `p.join` then `split(p)` gives back the parts when none contains `p`. */
  lemma {:induction false} SplitAllJoin(parts: seq<string>, p: string)
    requires |p| == 2 && p[0] != p[1]
    requires |parts| > 0
    requires forall k :: 0 <= k < |parts| ==> Absent(parts[k], p)
    ensures SplitAll(Join(parts, p), p) == parts
    decreases |parts|
  {
    if |parts| == 1 {
      SplitAllAbsent(parts[0], p);
    } else {
      var tail := parts[1..];
      forall k | 0 <= k < |tail| ensures Absent(tail[k], p) {
        assert tail[k] == parts[k + 1];
      }
      SplitAllJoin(tail, p);
      SplitAllStep(parts[0], p, Join(tail, p));
      assert parts == [parts[0]] + tail;
    }
  }

  /** CRLF-free text holds no blank line and neither starts nor ends with a line break. */
  lemma NoCRLFFacts(s: string)
    requires Absent(s, CRLF)
    ensures Absent(s, HeadEnd)
    ensures !StartsWith(s, CRLF) && !EndsWith(s, CRLF)
  {
    forall j: nat ensures !OccursAt(s, HeadEnd, j) {
      if j + 4 <= |s| {
        assert !OccursAt(s, CRLF, j);
        OccursAt2(s, CRLF, j);
        HeadEndAt(s, j);
      }
    }
    if |s| >= 2 {
      assert !OccursAt(s, CRLF, 0);
      assert s[0..2] == s[..2];
      assert !OccursAt(s, CRLF, |s| - 2);
      assert s[|s| - 2..] == s[|s| - 2..|s|];
    }
  }

  /** An occurrence wholly inside the left part is an occurrence in it. */
  lemma OccursInLeft(a: string, b: string, p: string, j: nat)
    requires j + |p| <= |a|
    ensures OccursAt(a + b, p, j) <==> OccursAt(a, p, j)
  {
    assert (a + b)[j..j + |p|] == a[j..j + |p|];
  }

  /** An occurrence wholly inside the right part is an occurrence in it. */
  lemma OccursInRight(a: string, b: string, p: string, j: nat)
    requires |a| <= j && j + |p| <= |a| + |b|
    ensures OccursAt(a + b, p, j) <==> OccursAt(b, p, j - |a|)
  {
    assert (a + b)[j..j + |p|] == b[j - |a|..j - |a| + |p|];
  }

  /** No blank line straddles the inserted line break. */
  lemma NoBlankLineAtSeam(a: string, b: string, j: nat)
    requires !EndsWith(a, CRLF) && !StartsWith(b, CRLF)
    requires j + 4 <= |a| + 2 + |b| && |a| < j + 4 && j < |a| + 2
    ensures !OccursAt(a + CRLF + b, HeadEnd, j)
  {
    var s := a + CRLF + b;
    var n := |a|;
    assert s[n] == '\r' && s[n + 1] == '\n';
    HeadEndAt(s, j);
    if j == n {
      assert b[..2] == [s[n + 2], s[n + 3]];
    } else if j == n - 2 {
      assert a[n - 2..] == [s[n - 2], s[n - 1]];
    }
  }

  /**
   * Two blank-line-free texts joined by one line break contain no blank
   * line unless a line break touches the seam.
   */
  lemma NoBlankLineAcrossBreak(a: string, b: string)
    requires Absent(a, HeadEnd) && Absent(b, HeadEnd)
    requires !EndsWith(a, CRLF) && !StartsWith(b, CRLF)
    ensures Absent(a + CRLF + b, HeadEnd)
  {
    var s := a + CRLF + b;
    var n := |a|;
    assert s == a + (CRLF + b);
    forall j: nat ensures !OccursAt(s, HeadEnd, j) {
      if j + 4 <= n {
        OccursInLeft(a, CRLF + b, HeadEnd, j);
      } else if j >= n + 2 && j + 4 <= |s| {
        OccursInRight(a + CRLF, b, HeadEnd, j);
      } else if j + 4 <= |s| {
        NoBlankLineAtSeam(a, b, j);
      }
    }
  }
}
