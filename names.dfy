/**
 * How the harness names its generated test methods: `nerf` replaces every
 * character outside `[a-zA-Z0-9]` by `_`, and `makeCase` joins `test`, the
 * nerfed case name, the nerfed `HTTP<version>` (version `0.9` when none is
 * sent) and `LF` or `CRLF` with underscores.  `makeCases` makes one test per
 * version in [None, 1.0, 1.1] and line ending in [LF, CRLF].
 */
module TestNames {
  import opened Wrappers
  import opened Text

  predicate IsAsciiAlnum(c: char) {
    'a' <= c <= 'z' || 'A' <= c <= 'Z' || '0' <= c <= '9'
  }

  /** A character allowed in a Python identifier made by `nerf`. */
  predicate IsWordChar(c: char) {
    IsAsciiAlnum(c) || c == '_'
  }

  /** `re.sub("[^a-zA-Z0-9]", "_", s)`. */
  function Nerf(s: string): (r: string)
    ensures |r| == |s|
    ensures forall i :: 0 <= i < |s| ==> IsWordChar(r[i])
    ensures forall i :: 0 <= i < |s| && IsAsciiAlnum(s[i]) ==> r[i] == s[i]
    ensures forall i :: 0 <= i < |s| && !IsAsciiAlnum(s[i]) ==> r[i] == '_'
    decreases |s|
  {
    if s == [] then []
    else [if IsAsciiAlnum(s[0]) then s[0] else '_'] + Nerf(s[1..])
  }

  /** Nerfing twice is nerfing once. */
  lemma NerfIdempotent(s: string)
    ensures Nerf(Nerf(s)) == Nerf(s)
  {
    var r := Nerf(s);
    assert forall i :: 0 <= i < |r| ==> Nerf(r)[i] == r[i];
  }

  /** `nerf` leaves a string unchanged exactly when it is made of `[a-zA-Z0-9_]`. */
  lemma NerfFixes(s: string)
    ensures Nerf(s) == s <==> forall i :: 0 <= i < |s| ==> IsWordChar(s[i])
  {
    if forall i :: 0 <= i < |s| ==> IsWordChar(s[i]) {
      assert forall i :: 0 <= i < |s| ==> Nerf(s)[i] == s[i];
    }
  }

  /** `{"\n":"LF", "\r\n":"CRLF"}[endl]`; any other line ending raises KeyError. */
  function EndlTag(endl: string): Option<string> {
    if endl == "\n" then Some("LF")
    else if endl == "\r\n" then Some("CRLF")
    else None
  }

  /** The version written into a test name: `0.9` stands for a request without one. */
  function NameVersion(httpVer: Option<string>): string {
    if httpVer.None? then "0.9" else httpVer.value
  }

  /** The `test_name` that `makeCase` registers, or None when `endl` has no tag. */
  function TestName(name: string, httpVer: Option<string> := None, endl: string := "\n"): (r: Option<string>)
    ensures r.None? <==> endl != "\n" && endl != "\r\n"
  {
    var tag := EndlTag(endl);
    if tag.None? then None
    else Some(Join(["test", Nerf(name), Nerf("HTTP" + NameVersion(httpVer)), tag.value], "_"))
  }

  /** The versions and line endings `makeCases` iterates over, in its order. */
  const Versions: seq<Option<string>> := [None, Some("1.0"), Some("1.1")]
  const Endls: seq<string> := ["\n", "\r\n"]

  /** The part of a test name after the case name. */
  function Tail(httpVer: Option<string>, endl: string): string
    requires EndlTag(endl).Some?
  {
    "_" + Nerf("HTTP" + NameVersion(httpVer)) + "_" + EndlTag(endl).value
  }

  /** `p.join` of three parts. */
  lemma Join3(b: string, c: string, d: string, p: string)
    ensures Join([b, c, d], p) == b + p + (c + p + d)
  {
    assert [b, c, d][1..] == [c, d] && [c, d][1..] == [d];
    assert Join([d], p) == d;
    assert Join([c, d], p) == c + p + d;
  }

  /** `p.join` of four parts. */
  lemma Join4(a: string, b: string, c: string, d: string, p: string)
    ensures Join([a, b, c, d], p) == a + p + (b + p + (c + p + d))
  {
    assert [a, b, c, d][1..] == [b, c, d];
    Join3(b, c, d, p);
  }

  lemma TestNameSplits(name: string, httpVer: Option<string>, endl: string)
    requires EndlTag(endl).Some?
    ensures TestName(name, httpVer, endl) == Some("test_" + Nerf(name) + Tail(httpVer, endl))
  {
    var n, w, tag := Nerf(name), Nerf("HTTP" + NameVersion(httpVer)), EndlTag(endl).value;
    Join4("test", n, w, tag, "_");
    NameAssoc(n, w, tag);
  }

  lemma NameAssoc(n: string, w: string, tag: string)
    ensures "test" + "_" + (n + "_" + (w + "_" + tag)) == "test_" + n + ("_" + w + "_" + tag)
  {
    assert "test" + "_" == "test_";
  }

  /** Every character of s is in `[a-zA-Z0-9_]`. */
  predicate AllWordChars(s: string) {
    forall i :: 0 <= i < |s| ==> IsWordChar(s[i])
  }

  lemma AllWordCharsConcat(a: string, b: string)
    requires AllWordChars(a) && AllWordChars(b)
    ensures AllWordChars(a + b)
  {
    forall i | 0 <= i < |a + b| ensures IsWordChar((a + b)[i]) {
      if i >= |a| { assert (a + b)[i] == b[i - |a|]; }
    }
  }

  /** A test name starts with `test_` and is made of `[a-zA-Z0-9_]`, so unittest finds it. */
  lemma TestNameIsIdentifier(name: string, httpVer: Option<string>, endl: string)
    requires EndlTag(endl).Some?
    ensures TestName(name, httpVer, endl).Some?
    ensures StartsWith(TestName(name, httpVer, endl).value, "test_")
    ensures AllWordChars(TestName(name, httpVer, endl).value)
  {
    TestNameSplits(name, httpVer, endl);
    var n := Nerf(name);
    var w := Nerf("HTTP" + NameVersion(httpVer));
    var tag := EndlTag(endl).value;
    var t := "test_" + n + Tail(httpVer, endl);
    assert t[..5] == "test_";
    assert AllWordChars("test_") && AllWordChars("_") && AllWordChars(tag);
    AllWordCharsConcat("test_", n);
    AllWordCharsConcat("_", w);
    AllWordCharsConcat("_" + w, "_");
    AllWordCharsConcat("_" + w + "_", tag);
    AllWordCharsConcat("test_" + n, Tail(httpVer, endl));
  }

  /** Two concatenations with tails of the same length are equal only part by part. */
  lemma ConcatCancel(a: string, b: string, c: string, d: string)
    requires a + b == c + d && |b| == |d|
    ensures a == c && b == d
  {
    assert a == (a + b)[..|a|];
    assert c == (c + d)[..|c|];
    assert b == (a + b)[|a|..];
    assert d == (c + d)[|c|..];
  }

  /** Where the tails `makeCases` produces differ: the version digits and the line-ending tag. */
  lemma TailValues(v: Option<string>, e: string)
    requires v in Versions && e in Endls
    ensures |Tail(v, e)| == 9 + |EndlTag(e).value|
    ensures Tail(v, e)[5] == NameVersion(v)[0] && Tail(v, e)[7] == NameVersion(v)[2]
    ensures Tail(v, e)[|Tail(v, e)| - 3] == (if e == "\n" then '_' else 'R')
  {
    var ver, tag := NameVersion(v), EndlTag(e).value;
    var x := "HTTP" + ver;
    var w := Nerf(x);
    var t := Tail(v, e);
    assert |ver| == 3 && IsAsciiAlnum(ver[0]) && IsAsciiAlnum(ver[2]);
    assert x[4] == ver[0] && x[6] == ver[2];
    assert t == "_" + w + "_" + tag;
    assert t[5] == w[4] && t[7] == w[6];
    assert t[|t| - 3] == ("_" + tag)[|tag| - 2];
  }

  /** Names that end in tails of the grid end in the same line-ending tag only for the same line ending. */
  lemma SameEndl(p1: string, v1: Option<string>, e1: string, p2: string, v2: Option<string>, e2: string)
    requires v1 in Versions && v2 in Versions && e1 in Endls && e2 in Endls
    requires p1 + Tail(v1, e1) == p2 + Tail(v2, e2)
    ensures e1 == e2
  {
    TailValues(v1, e1);
    TailValues(v2, e2);
    var t1, t2 := Tail(v1, e1), Tail(v2, e2);
    var s := p1 + t1;
    assert s[|s| - 3] == t1[|t1| - 3];
    assert s[|s| - 3] == t2[|t2| - 3];
  }

  /** Equal tails of the grid come from the same version. */
  lemma SameVersion(v1: Option<string>, e1: string, v2: Option<string>, e2: string)
    requires v1 in Versions && v2 in Versions && e1 in Endls && e2 in Endls
    requires Tail(v1, e1) == Tail(v2, e2)
    ensures v1 == v2
  {
    TailValues(v1, e1);
    TailValues(v2, e2);
    assert NameVersion(v1)[0] == NameVersion(v2)[0] && NameVersion(v1)[2] == NameVersion(v2)[2];
  }

  /**
   * On the grid `makeCases` covers, two test names coincide exactly when the
   * nerfed case names, the versions and the line endings all coincide.
   */
  lemma TestNameInjective(n1: string, v1: Option<string>, e1: string, n2: string, v2: Option<string>, e2: string)
    requires v1 in Versions && v2 in Versions && e1 in Endls && e2 in Endls
    ensures TestName(n1, v1, e1) == TestName(n2, v2, e2) <==> Nerf(n1) == Nerf(n2) && v1 == v2 && e1 == e2
  {
    TestNameSplits(n1, v1, e1);
    TestNameSplits(n2, v2, e2);
    var t1, t2 := Tail(v1, e1), Tail(v2, e2);
    var p1, p2 := "test_" + Nerf(n1), "test_" + Nerf(n2);
    if p1 + t1 == p2 + t2 {
      SameEndl(p1, v1, e1, p2, v2, e2);
      TailValues(v1, e1);
      TailValues(v2, e2);
      ConcatCancel(p1, t1, p2, t2);
      assert Nerf(n1) == p1[5..] && Nerf(n2) == p2[5..];
      SameVersion(v1, e1, v2, e2);
    }
  }

  /** `makeCases`: the names of the six tests it registers for one case, in registration order. */
  method MakeCases(name: string) returns (names: seq<string>)
    ensures |names| == |Versions| * |Endls|
    ensures forall k :: 0 <= k < |names| ==>
      TestName(name, Versions[k / |Endls|], Endls[k % |Endls|]) == Some(names[k])
    ensures forall i, j :: 0 <= i < j < |names| ==> names[i] != names[j]
  {
    names := [];
    for a := 0 to |Versions|
      invariant |names| == a * |Endls|
      invariant forall k :: 0 <= k < |names| ==>
        TestName(name, Versions[k / |Endls|], Endls[k % |Endls|]) == Some(names[k])
    {
      for b := 0 to |Endls|
        invariant |names| == a * |Endls| + b
        invariant forall k :: 0 <= k < |names| ==>
          TestName(name, Versions[k / |Endls|], Endls[k % |Endls|]) == Some(names[k])
      {
        var t := TestName(name, Versions[a], Endls[b]);
        TestNameIsIdentifier(name, Versions[a], Endls[b]);
        names := names + [t.value];
      }
    }
    forall i, j | 0 <= i < j < |names| ensures names[i] != names[j] {
      TestNameInjective(name, Versions[i / 2], Endls[i % 2], name, Versions[j / 2], Endls[j % 2]);
      assert i / 2 != j / 2 || i % 2 != j % 2;
    }
  }

  /** The cases `setUpModule` registers: name, URL and the body assertion used. */
  const Cases: seq<(string, string, string)> := [
    ("index", "/", "assertIsIndex"),
    ("up dir", "/dir/../", "assertIsIndex"),
    ("extra slashes", "//dir///..////", "assertIsIndex"),
    ("no trailing slash", "/dir/..", "assertIsIndex"),
    ("no leading slash", "dir/../", "assertIsInvalid"),
    ("invalid up dir", "/../", "assertIsInvalid"),
    ("fancy invalid up dir", "/./dir/./../../", "assertIsInvalid")
  ]

  /** The case names have pairwise different lengths. */
  lemma CaseNameLengths(a: nat, b: nat)
    requires a < |Cases| && b < |Cases|
    requires |Cases[a].0| == |Cases[b].0|
    ensures a == b
  {
    var lens := [5, 6, 13, 17, 16, 14, 20];
    assert forall i :: 0 <= i < |Cases| ==> |Cases[i].0| == lens[i];
  }

  /** No two of the 42 tests `setUpModule` registers share a name, so none replaces another. */
  lemma SetUpModuleNamesDistinct(a: nat, v1: Option<string>, e1: string, b: nat, v2: Option<string>, e2: string)
    requires a < |Cases| && b < |Cases|
    requires v1 in Versions && v2 in Versions && e1 in Endls && e2 in Endls
    requires TestName(Cases[a].0, v1, e1) == TestName(Cases[b].0, v2, e2)
    ensures a == b && v1 == v2 && e1 == e2
  {
    var x, y := Cases[a].0, Cases[b].0;
    TestNameInjective(x, v1, e1, y, v2, e2);
    assert |Nerf(x)| == |x| && |Nerf(y)| == |y|;
    CaseNameLengths(a, b);
  }
}
