/**
 * The byte ranges the harness asks for and the answers it expects.  A
 * request carries `Range: bytes=<range_in>`; a 206 answer is checked for
 * `Content-Range: bytes <range_out>`, a `Content-Length` and a body.  The
 * range syntax is that of RFC 7233 section 2.1 (byte-range-spec,
 * suffix-byte-range-spec), the answer that of RFC 7233 section 4.2
 * (Content-Range).
 * `Evaluate` is a reference reading of RFC 7233 section 2.1 for a single
 * range against a representation of length L;
 * it is not darkhttpd's code, which is not part of this model.
 */
module RangeTable {
  import opened Wrappers
  import opened Text
  import opened DecimalText

  /** One byte-range-spec or suffix-byte-range-spec of RFC 7233 section 2.1. */
  datatype RangeSpec =
    | FromTo(first: nat, last: nat)   // `first-last`
    | From(first: nat)                // `first-`
    | Suffix(length: nat)             // `-length`

  function RangeText(r: RangeSpec): string {
    match r
    case FromTo(f, l) => Decimal(f) + "-" + Decimal(l)
    case From(f) => Decimal(f) + "-"
    case Suffix(n) => "-" + Decimal(n)
  }

  /** Reads one range of RFC 7233 section 2.1; None for text of another shape. */
  function ParseRange(t: string): Option<RangeSpec> {
    var split := SplitOnce(t, "-");
    if split.None? then None
    else
      var a, b := ParseNat(split.value.0), ParseNat(split.value.1);
      if split.value.0 == "" then (if b.Some? then Some(Suffix(b.value)) else None)
      else if split.value.1 == "" then (if a.Some? then Some(From(a.value)) else None)
      else if a.Some? && b.Some? then Some(FromTo(a.value, b.value))
      else None
  }

  const BytesEq: string := "bytes="

  /** The value of a `Range` header: `bytes=` and one range. */
  function ParseRangeHeader(v: string): Option<RangeSpec> {
    if StartsWith(v, BytesEq) then ParseRange(v[|BytesEq|..]) else None
  }

  /** A digit string holds no pattern that starts with a non-digit. */
  lemma DigitsAbsent(s: string, p: string)
    requires AllDigits(s) && |p| > 0 && !IsDigit(p[0])
    ensures Absent(s, p)
  {
    forall j: nat ensures !OccursAt(s, p, j) {
      if j + |p| <= |s| {
        assert s[j..j + |p|][0] == s[j];
      }
    }
  }

  /** Text split at its first `-` into the given parts is read by those parts. */
  lemma ParseRangeSplit(t: string, a: string, b: string)
    requires SplitOnce(t, "-") == Some((a, b))
    ensures a == "" ==> ParseRange(t) == (if ParseNat(b).Some? then Some(Suffix(ParseNat(b).value)) else None)
    ensures a != "" && b == "" ==> ParseRange(t) == (if ParseNat(a).Some? then Some(From(ParseNat(a).value)) else None)
    ensures a != "" && b != "" && ParseNat(a).Some? && ParseNat(b).Some? ==>
      ParseRange(t) == Some(FromTo(ParseNat(a).value, ParseNat(b).value))
  {
  }

  lemma ParseFromToRoundTrip(f: nat, l: nat)
    ensures ParseRange(RangeText(FromTo(f, l))) == Some(FromTo(f, l))
  {
    var a, b := Decimal(f), Decimal(l);
    DigitsAbsent(a, "-");
    FindAfterAbsent1(a, "-", b);
    DecimalRoundTrip(f);
    DecimalRoundTrip(l);
    ParseRangeSplit(a + "-" + b, a, b);
  }

  lemma ParseFromRoundTrip(f: nat)
    ensures ParseRange(RangeText(From(f))) == Some(From(f))
  {
    var a := Decimal(f);
    DigitsAbsent(a, "-");
    assert RangeText(From(f)) == a + "-" + "";
    FindAfterAbsent1(a, "-", "");
    DecimalRoundTrip(f);
    ParseRangeSplit(a + "-" + "", a, "");
  }

  lemma ParseSuffixRoundTrip(n: nat)
    ensures ParseRange(RangeText(Suffix(n))) == Some(Suffix(n))
  {
    var b := Decimal(n);
    assert Absent("", "-");
    assert RangeText(Suffix(n)) == "" + "-" + b;
    FindAfterAbsent1("", "-", b);
    DecimalRoundTrip(n);
    ParseRangeSplit("" + "-" + b, "", b);
  }

  /** Reading back the text of a range gives the range. */
  lemma ParseRangeRoundTrip(r: RangeSpec)
    ensures ParseRange(RangeText(r)) == Some(r)
  {
    match r
    case FromTo(f, l) => ParseFromToRoundTrip(f, l);
    case From(f) => ParseFromRoundTrip(f);
    case Suffix(n) => ParseSuffixRoundTrip(n);
  }

  /** The `Range` header the harness sends is read back as the range it wrote. */
  lemma RangeHeaderRoundTrip(r: RangeSpec)
    ensures ParseRangeHeader(BytesEq + RangeText(r)) == Some(r)
  {
    var v := BytesEq + RangeText(r);
    assert v[..|BytesEq|] == BytesEq && v[|BytesEq|..] == RangeText(r);
    ParseRangeRoundTrip(r);
  }

  /** The answer RFC 7233 section 2.1 gives for one range over L bytes. */
  datatype Outcome =
    | Satisfiable(first: nat, last: nat)  // 206 with bytes first..last
    | Unsatisfiable                       // 416
    | Invalid                             // last-byte-pos before first-byte-pos

  function Evaluate(r: RangeSpec, len: nat): (o: Outcome)
    ensures o.Satisfiable? ==> o.first <= o.last < len
    ensures o.Invalid? <==> r.FromTo? && r.last < r.first
    ensures o.Unsatisfiable? <==>
      || (r.FromTo? && r.first <= r.last && len <= r.first)
      || (r.From? && len <= r.first)
      || (r.Suffix? && (r.length == 0 || len == 0))
  {
    match r
    case FromTo(f, l) =>
      if l < f then Invalid
      else if f >= len then Unsatisfiable
      else Satisfiable(f, if l < len then l else len - 1)
    case From(f) =>
      if f >= len then Unsatisfiable else Satisfiable(f, len - 1)
    case Suffix(n) =>
      if n == 0 || len == 0 then Unsatisfiable
      else if n >= len then Satisfiable(0, len - 1)
      else Satisfiable(len - n, len - 1)
  }

  /** A range inside the representation is served exactly as asked. */
  lemma EvaluateInside(f: nat, l: nat, len: nat)
    requires f <= l < len
    ensures Evaluate(FromTo(f, l), len) == Satisfiable(f, l)
  {
  }

  /** A last-byte-pos past the end selects the same bytes as the matching suffix range. */
  lemma EvaluateBeyondEnd(n: nat, l: nat, len: nat)
    requires 0 < n <= len && len - 1 <= l
    ensures Evaluate(FromTo(len - n, l), len) == Evaluate(Suffix(n), len)
    ensures Evaluate(Suffix(n), len) == Satisfiable(len - n, len - 1)
  {
  }

  /** A suffix at least as long as the representation selects all of it. */
  lemma EvaluateOversizeSuffix(n: nat, len: nat)
    requires 0 < len <= n
    ensures Evaluate(Suffix(n), len) == Satisfiable(0, len - 1)
  {
  }

  /** The byte-range-resp of RFC 7233 section 4.2: `first-last/complete-length`. */
  function ByteRangeResp(first: nat, last: nat, len: nat): string {
    RangeText(FromTo(first, last)) + "/" + Decimal(len)
  }

  /** `s[i]` for `-|s| <= i < |s|`, a one-character string. */
  function PyItem(s: string, i: int): (r: string)
    requires -|s| <= i < |s|
    ensures |r| == 1
  {
    if i < 0 then [s[|s| + i]] else [s[i]]
  }

  /** A slice bound as Python adjusts it: negative counts from the end, then clamped to the string. */
  function PyBound(i: int, n: nat): (b: nat)
    ensures b <= n
  {
    if i < 0 then (if i + n < 0 then 0 else i + n)
    else if i > n then n
    else i
  }

  /** `s[lo:hi]`, with None for an omitted bound. */
  function PySlice(s: string, lo: Option<int>, hi: Option<int>): string {
    var a := if lo.None? then 0 else PyBound(lo.value, |s|);
    var b := if hi.None? then |s| else PyBound(hi.value, |s|);
    if a < b then s[a..b] else ""
  }

  /** What a `drive_range` call expects, or a 416 for the cases that check only the status. */
  datatype Expect =
    | Partial(rangeOut: string, lenOut: int, dataOut: string)
    | NotSatisfiable

  datatype RangeCase = RangeCase(rangeIn: string, expected: Expect)

  /** `"%d/%d"`-style joins used by the table. */
  function Dash(a: int, b: int): string {
    FormatInt(a) + "-" + FormatInt(b)
  }

  function Over(s: string, len: int): string {
    s + "/" + FormatInt(len)
  }

  // The rows of TestFileGet, with L the file's length, built as the harness builds them.

  function RangeSingle(data: string): RangeCase
    requires |data| > 5
  {
    RangeCase("5-5", Partial(Over("5-5", |data|), 1, PyItem(data, 5)))
  }

  function RangeSingleFirst(data: string): RangeCase
    requires |data| > 0
  {
    RangeCase("0-0", Partial(Over("0-0", |data|), 1, PyItem(data, 0)))
  }

  function RangeSingleLast(data: string): RangeCase
    requires |data| > 0
  {
    var l := |data|;
    RangeCase(Dash(l - 1, l - 1), Partial(Over(Dash(l - 1, l - 1), l), 1, PyItem(data, -1)))
  }

  function RangeSingleBad(data: string): RangeCase {
    RangeCase(Dash(|data|, |data|), NotSatisfiable)
  }

  function RangeReasonable(data: string): RangeCase {
    RangeCase("10-20", Partial(Over("10-20", |data|), 20 - 10 + 1, PySlice(data, Some(10), Some(20 + 1))))
  }

  function RangeStartGiven(data: string): RangeCase {
    var l := |data|;
    RangeCase("10-", Partial(Over("10-" + FormatInt(l - 1), l), l - 10, PySlice(data, Some(10), None)))
  }

  function RangeEndGiven(data: string): RangeCase {
    var l := |data|;
    RangeCase("-25", Partial(Over(Dash(l - 25, l - 1), l), 25, PySlice(data, Some(-25), None)))
  }

  function RangeBeyondEnd(data: string): RangeCase {
    var l := |data|;
    RangeCase(Dash(l - 25, l * 2), Partial(Over(Dash(l - 25, l - 1), l), 25, PySlice(data, Some(-25), None)))
  }

  function RangeEndGivenOversize(data: string): RangeCase {
    var l := |data|;
    RangeCase("-" + FormatInt(l * 3), Partial(Over("0-" + FormatInt(l - 1), l), l, data))
  }

  function RangeBadStart(data: string): RangeCase {
    RangeCase(FormatInt(|data| * 2) + "-", NotSatisfiable)
  }

  function RangeBackwards(data: string): RangeCase {
    RangeCase("20-10", NotSatisfiable)
  }

  /**
   * A row agrees with section 2.1 and 4.2 of RFC 7233 when its range header
   * parses, a 206 row's Content-Range, Content-Length and body are exactly
   * those of the bytes the range selects, and a 416 row's range selects
   * nothing.
   */
  predicate RowAgrees(c: RangeCase, data: string) {
    var spec := ParseRangeHeader(BytesEq + c.rangeIn);
    spec.Some? && Answers(c.expected, Evaluate(spec.value, |data|), data)
  }

  /**
   * The expectation is exactly what the outcome serves from data.  The
   * harness compares `Content-Range` with `"bytes " + range_out`, so
   * `range_out` is the byte-range-resp of RFC 7233 section 4.2.
   */
  predicate Answers(e: Expect, out: Outcome, data: string) {
    if e.Partial? then
      out.Satisfiable? && out.first <= out.last < |data|
      && e.rangeOut == ByteRangeResp(out.first, out.last, |data|)
      && e.lenOut == out.last - out.first + 1
      && e.dataOut == data[out.first..out.last + 1]
    else
      !out.Satisfiable?
  }

  lemma FormatNat(n: int)
    requires n >= 0
    ensures FormatInt(n) == Decimal(n)
  {
  }

  /** `"%d-%d/%d"` of non-negative numbers is the range text followed by the length. */
  lemma OverDash(a: int, b: int, len: int)
    requires a >= 0 && b >= 0 && len >= 0
    ensures Over(Dash(a, b), len) == ByteRangeResp(a, b, len)
  {
  }

  lemma PySliceInside(s: string, a: int, b: int)
    requires 0 <= a <= b <= |s|
    ensures PySlice(s, Some(a), Some(b)) == s[a..b]
  {
  }

  lemma PySliceFrom(s: string, a: int)
    requires 0 <= a <= |s|
    ensures PySlice(s, Some(a), None) == s[a..|s|]
  {
  }

  lemma PySliceLast(s: string, n: int)
    requires 0 < n <= |s|
    ensures PySlice(s, Some(-n), None) == s[|s| - n..|s|]
  {
  }

  /** A row agrees once its range header parses to a range whose outcome it answers. */
  lemma AgreesBy(c: RangeCase, data: string, spec: RangeSpec)
    requires ParseRangeHeader(BytesEq + c.rangeIn) == Some(spec)
    requires Answers(c.expected, Evaluate(spec, |data|), data)
    ensures RowAgrees(c, data)
  {
  }

  /** The 206 expectation for bytes f..l answers that outcome. */
  lemma AnswersPartial(e: Expect, data: string, f: nat, l: nat)
    requires f <= l < |data|
    requires e == Partial(ByteRangeResp(f, l, |data|), l - f + 1, data[f..l + 1])
    ensures Answers(e, Satisfiable(f, l), data)
  {
  }

  /** A row whose range text is that of spec, and which expects exactly what spec selects, agrees. */
  lemma SatisfiedRow(c: RangeCase, data: string, spec: RangeSpec, s: nat, e: nat)
    requires c.rangeIn == RangeText(spec)
    requires Evaluate(spec, |data|) == Satisfiable(s, e)
    requires c.expected == Partial(ByteRangeResp(s, e, |data|), e - s + 1, data[s..e + 1])
    ensures RowAgrees(c, data)
  {
    RangeHeaderRoundTrip(spec);
    AnswersPartial(c.expected, data, s, e);
    AgreesBy(c, data, spec);
  }

  /** A row asking for bytes s..e of the representation, and expecting exactly them, agrees. */
  lemma InsideRow(c: RangeCase, data: string, s: nat, e: nat)
    requires s <= e < |data|
    requires c.rangeIn == RangeText(FromTo(s, e))
    requires c.expected == Partial(ByteRangeResp(s, e, |data|), e - s + 1, data[s..e + 1])
    ensures RowAgrees(c, data)
  {
    EvaluateInside(s, e, |data|);
    SatisfiedRow(c, data, FromTo(s, e), s, e);
  }

  /** A 416 row agrees when its range parses and selects nothing. */
  lemma UnsatisfiedRow(c: RangeCase, data: string, spec: RangeSpec)
    requires c.rangeIn == RangeText(spec)
    requires !Evaluate(spec, |data|).Satisfiable?
    requires c.expected.NotSatisfiable?
    ensures RowAgrees(c, data)
  {
    RangeHeaderRoundTrip(spec);
    AgreesBy(c, data, spec);
  }

  /** `test_range_single`: bytes 5-5. */
  lemma RangeSingleAgrees(data: string)
    requires |data| > 5
    ensures RowAgrees(RangeSingle(data), data)
  {
    FormatNat(|data|);
    assert RangeText(FromTo(5, 5)) == "5-5";
    assert data[5..6] == PyItem(data, 5);
    InsideRow(RangeSingle(data), data, 5, 5);
  }

  /** `test_range_single_first`: bytes 0-0. */
  lemma RangeSingleFirstAgrees(data: string)
    requires |data| > 0
    ensures RowAgrees(RangeSingleFirst(data), data)
  {
    FormatNat(|data|);
    assert RangeText(FromTo(0, 0)) == "0-0";
    assert data[0..1] == PyItem(data, 0);
    InsideRow(RangeSingleFirst(data), data, 0, 0);
  }

  /** `test_range_single_last`: the last byte, by its index. */
  lemma RangeSingleLastAgrees(data: string)
    requires |data| > 0
    ensures RowAgrees(RangeSingleLast(data), data)
  {
    var l := |data|;
    FormatNat(l - 1);
    OverDash(l - 1, l - 1, l);
    assert data[l - 1..l] == PyItem(data, -1);
    InsideRow(RangeSingleLast(data), data, l - 1, l - 1);
  }

  /** `test_range_single_bad`: bytes L-L lie past the end. */
  lemma RangeSingleBadAgrees(data: string)
    ensures RowAgrees(RangeSingleBad(data), data)
    ensures ParseRangeHeader(BytesEq + RangeSingleBad(data).rangeIn) == Some(FromTo(|data|, |data|))
    ensures Evaluate(FromTo(|data|, |data|), |data|) == Unsatisfiable
  {
    FormatNat(|data|);
    RangeHeaderRoundTrip(FromTo(|data|, |data|));
    UnsatisfiedRow(RangeSingleBad(data), data, FromTo(|data|, |data|));
  }

  /** `test_range_reasonable`: bytes 10-20, eleven of them. */
  lemma RangeReasonableAgrees(data: string)
    requires |data| > 20
    ensures RowAgrees(RangeReasonable(data), data)
  {
    FormatNat(|data|);
    assert RangeText(FromTo(10, 20)) == "10-20";
    PySliceInside(data, 10, 21);
    InsideRow(RangeReasonable(data), data, 10, 20);
  }

  /** `test_range_start_given`: `10-`, up to the last byte. */
  lemma RangeStartGivenAgrees(data: string)
    requires |data| > 10
    ensures RowAgrees(RangeStartGiven(data), data)
  {
    var l := |data|;
    var c := RangeStartGiven(data);
    var t := FormatInt(l - 1);
    FormatNat(l - 1);
    FormatNat(l);
    assert Decimal(10) == "10";
    assert c.rangeIn == RangeText(From(10));
    assert "10-" + t == RangeText(FromTo(10, l - 1));
    assert c.expected.rangeOut == ByteRangeResp(10, l - 1, l);
    PySliceFrom(data, 10);
    SatisfiedRow(c, data, From(10), 10, l - 1);
  }

  /** `test_range_end_given`: the suffix `-25`, the last 25 bytes. */
  lemma RangeEndGivenAgrees(data: string)
    requires |data| >= 25
    ensures RowAgrees(RangeEndGiven(data), data)
  {
    var l := |data|;
    assert RangeText(Suffix(25)) == "-25";
    OverDash(l - 25, l - 1, l);
    PySliceLast(data, 25);
    EvaluateBeyondEnd(25, l - 1, l);
    SatisfiedRow(RangeEndGiven(data), data, Suffix(25), l - 25, l - 1);
  }

  /** `test_range_beyond_end`: a last byte past the end is clamped, giving the `-25` answer. */
  lemma RangeBeyondEndAgrees(data: string)
    requires |data| >= 25
    ensures RowAgrees(RangeBeyondEnd(data), data)
  {
    var l := |data|;
    FormatNat(l - 25);
    FormatNat(l * 2);
    OverDash(l - 25, l - 1, l);
    PySliceLast(data, 25);
    EvaluateBeyondEnd(25, l * 2, l);
    SatisfiedRow(RangeBeyondEnd(data), data, FromTo(l - 25, l * 2), l - 25, l - 1);
  }

  /** A suffix range at least as long as the file, expecting the whole file, agrees. */
  lemma WholeFileRow(c: RangeCase, data: string, n: nat)
    requires 0 < |data| <= n
    requires c.rangeIn == RangeText(Suffix(n))
    requires c.expected == Partial(ByteRangeResp(0, |data| - 1, |data|), |data|, data)
    ensures RowAgrees(c, data)
  {
    EvaluateOversizeSuffix(n, |data|);
    assert data[0..|data|] == data;
    SatisfiedRow(c, data, Suffix(n), 0, |data| - 1);
  }

  /** The Content-Range `test_range_end_given_oversize` writes, `"0-%d" % (L-1)` over L, is that of the whole file. */
  lemma WholeFileRangeOut(l: nat)
    requires l > 0
    ensures Over("0-" + FormatInt(l - 1), l) == ByteRangeResp(0, l - 1, l)
  {
    FormatNat(l - 1);
    FormatNat(l);
    assert Decimal(0) == "0";
  }

  /** `test_range_end_given_oversize`: a suffix longer than the file gives all of it. */
  lemma RangeEndGivenOversizeAgrees(data: string)
    requires |data| > 0
    ensures RowAgrees(RangeEndGivenOversize(data), data)
  {
    var l := |data|;
    var c := RangeEndGivenOversize(data);
    FormatNat(l * 3);
    assert c.rangeIn == RangeText(Suffix(l * 3));
    WholeFileRangeOut(l);
    WholeFileRow(c, data, l * 3);
  }

  /** `test_range_bad_start`: `2L-` starts past the end. */
  lemma RangeBadStartAgrees(data: string)
    ensures RowAgrees(RangeBadStart(data), data)
    ensures ParseRangeHeader(BytesEq + RangeBadStart(data).rangeIn) == Some(From(|data| * 2))
    ensures Evaluate(From(|data| * 2), |data|) == Unsatisfiable
  {
    FormatNat(|data| * 2);
    RangeHeaderRoundTrip(From(|data| * 2));
    UnsatisfiedRow(RangeBadStart(data), data, From(|data| * 2));
  }

  /** `test_range_backwards`: the harness expects 416; RFC 7233 section 2.1 calls `20-10` invalid rather than unsatisfiable. */
  lemma RangeBackwardsAgrees(data: string)
    ensures RowAgrees(RangeBackwards(data), data)
    ensures ParseRangeHeader(BytesEq + RangeBackwards(data).rangeIn) == Some(FromTo(20, 10))
    ensures Evaluate(FromTo(20, 10), |data|) == Invalid
  {
    assert RangeText(FromTo(20, 10)) == "20-10";
    RangeHeaderRoundTrip(FromTo(20, 10));
    UnsatisfiedRow(RangeBackwards(data), data, FromTo(20, 10));
  }
}
