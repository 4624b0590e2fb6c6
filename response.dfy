/**
 * `parse` from devel/test.py: splits a raw HTTP response into its status
 * line, a dictionary of header fields and the body.  Everything before the
 * first blank line (`\r\n\r\n`) is the head, everything after it the body;
 * the head's first line is the status line and every further line must
 * split at its first `": "`.
 * This is the message framing of RFC 7230 section 3, read more strictly
 * than the RFC: a field separator is exactly `": "`, without the
 * optional whitespace of RFC 7230 section 3.2.
 */
module ResponseParser {
  import opened Wrappers
  import opened Text
  import opened Fields

  datatype Response = Response(status: string, headers: map<string, string>, body: string)

  /** The exceptions `parse` lets escape; Python raises each as a ValueError. */
  datatype ParseError =
    | NoHeadEnd                     // `resp.index("\r\n\r\n")` fails
    | NoHeaderLines                 // the head has no line break, so unpacking `split("\r\n", 1)` fails
    | MalformedHeader(line: string) // a header line without `": "`

  /** The `for line in ...` loop: assigns each line's field in order, failing at the first malformed line. */
  function HeaderMap(lines: seq<string>): (r: Result<map<string, string>, ParseError>)
    ensures r.Err? ==> r.error.MalformedHeader?
    decreases |lines|
  {
    if lines == [] then Ok(map[])
    else
      var init := HeaderMap(lines[..|lines| - 1]);
      var last := lines[|lines| - 1];
      var kv := SplitOnce(last, ColonSpace);
      if init.Err? then init
      else if kv.None? then Err(MalformedHeader(last))
      else Ok(init.value[kv.value.0 := kv.value.1])
  }

  /** What `parse` returns once the head is split into the status line and the rest. */
  function ParseHead(status: string, rest: string, body: string): Result<Response, ParseError> {
    var hdrs := HeaderMap(SplitAll(rest, CRLF));
    if hdrs.Err? then Err(hdrs.error)
    else Ok(Response(status, hdrs.value, body))
  }

  /** What `parse` returns once the blank line is found at pos. */
  function ParseAfter(resp: string, pos: nat): Result<Response, ParseError>
    requires pos + 4 <= |resp|
  {
    var split := SplitOnce(resp[..pos], CRLF);
    if split.None? then Err(NoHeaderLines)
    else ParseHead(split.value.0, split.value.1, resp[pos + 4..])
  }

  /** What `parse(resp)` returns or raises. */
  function ParseSpec(resp: string): Result<Response, ParseError> {
    var found := FindFirst(resp, HeadEnd);
    if found.None? then Err(NoHeadEnd)
    else ParseAfter(resp, found.value)
  }

  /** Once a prefix of the lines has failed, the whole loop fails the same way. */
  lemma {:induction false} HeaderMapErrorPersists(lines: seq<string>, n: nat)
    requires n <= |lines|
    requires HeaderMap(lines[..n]).Err?
    ensures HeaderMap(lines) == HeaderMap(lines[..n])
    decreases |lines| - n
  {
    if n == |lines| {
      assert lines[..n] == lines;
    } else {
      var init := lines[..|lines| - 1];
      assert init[..n] == lines[..n];
      HeaderMapErrorPersists(init, n);
    }
  }

  /** One more turn of the loop: the next line is split and assigned, or the loop fails on it. */
  lemma HeaderMapStep(lines: seq<string>, i: nat)
    requires i < |lines|
    ensures HeaderMap(lines[..i + 1]) ==
      var init := HeaderMap(lines[..i]);
      var kv := SplitOnce(lines[i], ColonSpace);
      if init.Err? then init
      else if kv.None? then Err(MalformedHeader(lines[i]))
      else Ok(init.value[kv.value.0 := kv.value.1])
  {
    assert lines[..i + 1][..i] == lines[..i];
  }

  /** `parse` once the blank line is found. */
  lemma ParseSpecFound(resp: string, pos: nat)
    requires FindFirst(resp, HeadEnd) == Some(pos)
    ensures pos + 4 <= |resp|
    ensures ParseSpec(resp) == ParseAfter(resp, pos)
  {
    assert OccursAt(resp, HeadEnd, pos);
  }

  /** `parse` once the status line's end is found as well. */
  lemma ParseAfterSplit(resp: string, pos: nat, status: string, rest: string)
    requires pos + 4 <= |resp|
    requires SplitOnce(resp[..pos], CRLF) == Some((status, rest))
    ensures ParseAfter(resp, pos) == ParseHead(status, rest, resp[pos + 4..])
  {
  }

  /** `parse`: the head is split off, then the header dictionary is filled line by line. */
  method Parse(resp: string) returns (r: Result<Response, ParseError>)
    ensures r == ParseSpec(resp)
  {
    var found := FindFirst(resp, HeadEnd);
    if found.None? {
      return Err(NoHeadEnd);
    }
    var pos := found.value;
    var head := resp[..pos];
    var split := SplitOnce(head, CRLF);
    if split.None? {
      return Err(NoHeaderLines);
    }
    var status, rest := split.value.0, split.value.1;
    ParseSpecFound(resp, pos);
    ParseAfterSplit(resp, pos, status, rest);
    var body := resp[pos + 4..];
    var lines := SplitAll(rest, CRLF);
    var hdrs: map<string, string> := map[];
    for i := 0 to |lines|
      invariant HeaderMap(lines[..i]) == Ok(hdrs)
    {
      HeaderMapStep(lines, i);
      var kv := SplitOnce(lines[i], ColonSpace);
      if kv.None? {
        HeaderMapErrorPersists(lines, i + 1);
        return Err(MalformedHeader(lines[i]));
      }
      hdrs := hdrs[kv.value.0 := kv.value.1];
    }
    assert lines[..|lines|] == lines;
    return Ok(Response(status, hdrs, body));
  }

  /** A response laid out as the harness expects: status line, header lines, blank line, body. */
  function Frame(status: string, lines: seq<string>, body: string): string {
    status + CRLF + Join(lines, CRLF) + HeadEnd + body
  }

  /** The header block's lines, joined by line breaks, hold no blank line and no break at either end. */
  lemma {:induction false} JoinedLinesFacts(lines: seq<string>)
    requires |lines| > 0
    requires forall i :: 0 <= i < |lines| ==> Absent(lines[i], CRLF) && |lines[i]| > 0
    ensures Absent(Join(lines, CRLF), HeadEnd)
    ensures !StartsWith(Join(lines, CRLF), CRLF) && !EndsWith(Join(lines, CRLF), CRLF)
    ensures |Join(lines, CRLF)| > 0
    decreases |lines|
  {
    var l := lines[0];
    NoCRLFFacts(l);
    if |lines| > 1 {
      var tail := lines[1..];
      forall i | 0 <= i < |tail| ensures Absent(tail[i], CRLF) && |tail[i]| > 0 {
        assert tail[i] == lines[i + 1];
      }
      JoinedLinesFacts(tail);
      var rest := Join(tail, CRLF);
      var j := Join(lines, CRLF);
      assert j == l + CRLF + rest;
      NoBlankLineAcrossBreak(l, rest);
      if |l| >= 2 {
        assert j[..2] == l[..2];
      } else {
        assert j[1] == '\r';
      }
      if |rest| >= 2 {
        assert j[|j| - 2..] == rest[|rest| - 2..];
      } else {
        assert j[|j| - 2] == '\n';
      }
    }
  }

  /**
   * Framing: for a status line and header lines free of line breaks, `parse`
   * recovers the status line and the body exactly (whatever the body holds,
   * blank lines included) and reads the headers with the line loop.
   */
  lemma FrameParses(status: string, lines: seq<string>, body: string)
    requires Absent(status, CRLF)
    requires |lines| > 0
    requires forall i :: 0 <= i < |lines| ==> Absent(lines[i], CRLF) && |lines[i]| > 0
    ensures ParseSpec(Frame(status, lines, body)) ==
      match HeaderMap(lines)
      case Ok(m) => Ok(Response(status, m, body))
      case Err(e) => Err(e)
  {
    var j := Join(lines, CRLF);
    var head := status + CRLF + j;
    var resp := Frame(status, lines, body);
    assert resp == head + HeadEnd + body;
    NoCRLFFacts(status);
    JoinedLinesFacts(lines);
    NoBlankLineAcrossBreak(status, j);
    if |j| >= 2 {
      assert head[|head| - 2..] == j[|j| - 2..];
    } else {
      assert head[|head| - 2] == '\n';
    }
    assert Absent("\r", HeadEnd);
    NoBlankLineAcrossBreak(head, "\r");
    assert HeadEnd[..3] == CRLF + "\r";
    assert head + HeadEnd[..3] == head + CRLF + "\r";
    FindAfterPrefix(head, HeadEnd, body);
    assert resp[..|head|] == head;
    assert resp[|head| + 4..] == body;
    FindAfterAbsent2(status, CRLF, j);
    SplitAllJoin(lines, CRLF);
  }

  /** Every line holds `": "`. */
  ghost predicate AllSeparated(lines: seq<string>) {
    forall i :: 0 <= i < |lines| ==> !Absent(lines[i], ColonSpace)
  }

  /** The loop succeeds on all lines exactly when it succeeds on all but the last and the last splits. */
  lemma HeaderMapOkStep(lines: seq<string>)
    requires |lines| > 0
    ensures HeaderMap(lines).Ok? <==>
      HeaderMap(lines[..|lines| - 1]).Ok? && !Absent(lines[|lines| - 1], ColonSpace)
  {
  }

  lemma AllSeparatedStep(lines: seq<string>)
    requires |lines| > 0
    ensures AllSeparated(lines) <==>
      AllSeparated(lines[..|lines| - 1]) && !Absent(lines[|lines| - 1], ColonSpace)
  {
    var init := lines[..|lines| - 1];
    if AllSeparated(lines) {
      forall i | 0 <= i < |init| ensures !Absent(init[i], ColonSpace) {
        assert init[i] == lines[i];
      }
    }
    if AllSeparated(init) && !Absent(lines[|lines| - 1], ColonSpace) {
      forall i | 0 <= i < |lines| ensures !Absent(lines[i], ColonSpace) {
        if i < |init| { assert init[i] == lines[i]; }
      }
    }
  }

  /** The loop succeeds exactly when every line holds `": "`. */
  lemma {:induction false} HeaderMapSucceeds(lines: seq<string>)
    ensures HeaderMap(lines).Ok? <==> AllSeparated(lines)
    decreases |lines|
  {
    if lines != [] {
      HeaderMapSucceeds(lines[..|lines| - 1]);
      HeaderMapOkStep(lines);
      AllSeparatedStep(lines);
    }
  }

  lemma HeaderMapPrefixOk(lines: seq<string>, i: nat)
    requires i <= |lines|
    requires forall j :: 0 <= j < i ==> !Absent(lines[j], ColonSpace)
    ensures HeaderMap(lines[..i]).Ok?
  {
    var pre := lines[..i];
    forall j | 0 <= j < |pre| ensures !Absent(pre[j], ColonSpace) {
      assert pre[j] == lines[j];
    }
    HeaderMapSucceeds(pre);
  }

  /** A line without `": "` after a good prefix is where the loop fails. */
  lemma HeaderMapStopsAt(lines: seq<string>, i: nat)
    requires i < |lines|
    requires HeaderMap(lines[..i]).Ok?
    requires Absent(lines[i], ColonSpace)
    ensures HeaderMap(lines[..i + 1]) == Err(MalformedHeader(lines[i]))
  {
    var upto := lines[..i + 1];
    assert upto[..|upto| - 1] == lines[..i] && upto[|upto| - 1] == lines[i];
  }

  /** The loop stops at, and reports, the first line without `": "`. */
  lemma HeaderMapFirstMalformed(lines: seq<string>, i: nat)
    requires i < |lines|
    requires Absent(lines[i], ColonSpace)
    requires forall j :: 0 <= j < i ==> !Absent(lines[j], ColonSpace)
    ensures HeaderMap(lines) == Err(MalformedHeader(lines[i]))
  {
    HeaderMapPrefixOk(lines, i);
    HeaderMapStopsAt(lines, i);
    HeaderMapErrorPersists(lines, i + 1);
  }

  /** The lines of a list of fields produce the later-wins dictionary of the fields. */
  lemma {:induction false} HeaderMapOfFields(fs: seq<Field>)
    requires forall i :: 0 <= i < |fs| ==> Absent(fs[i].0, ColonSpace)
    ensures HeaderMap(FieldLines(fs)) == Ok(FieldMap(fs))
    decreases |fs|
  {
    if fs != [] {
      var init := fs[..|fs| - 1];
      assert FieldLines(fs)[..|fs| - 1] == FieldLines(init);
      HeaderMapOfFields(init);
      FieldLineSplits(fs[|fs| - 1]);
    }
  }

  /** Serialising a response the way darkhttpd frames one. */
  function Serialize(status: string, fs: seq<Field>, body: string): string {
    Frame(status, FieldLines(fs), body)
  }

  /**
   * Round trip: `parse` returns exactly the status line, the dictionary of the
   * fields (later fields overriding earlier ones) and the body, even when the
   * body itself contains blank lines.
   */
  lemma ParseRoundTrip(status: string, fs: seq<Field>, body: string)
    requires Absent(status, CRLF)
    requires |fs| > 0
    requires forall i :: 0 <= i < |fs| ==> WellFormed(fs[i])
    ensures ParseSpec(Serialize(status, fs, body)) == Ok(Response(status, FieldMap(fs), body))
  {
    var lines := FieldLines(fs);
    forall i | 0 <= i < |lines| ensures Absent(lines[i], CRLF) && |lines[i]| > 0 {
      FieldLineNoBreak(fs[i]);
    }
    FrameParses(status, lines, body);
    HeaderMapOfFields(fs);
  }

  /** `parse` fails exactly when the response holds no blank line. */
  lemma ParseNeedsHeadEnd(resp: string)
    ensures ParseSpec(resp) == Err(NoHeadEnd) <==> Absent(resp, HeadEnd)
  {
  }

  /** A status line with no header lines at all is rejected, although HTTP allows it. */
  lemma ParseRejectsNoHeaders(status: string, body: string)
    requires Absent(status, CRLF)
    ensures ParseSpec(status + HeadEnd + body) == Err(NoHeaderLines)
  {
    NoCRLFFacts(status);
    assert Absent("\r", HeadEnd);
    NoBlankLineAcrossBreak(status, "\r");
    assert status + HeadEnd[..3] == status + CRLF + "\r";
    var resp := status + HeadEnd + body;
    FindAfterPrefix(status, HeadEnd, body);
    assert resp[..|status|] == status;
    assert SplitOnce(status, CRLF).None?;
  }

  /** A header line without `": "` makes `parse` fail, at the first such line. */
  lemma ParseRejectsMalformedLine(status: string, lines: seq<string>, body: string, i: nat)
    requires Absent(status, CRLF)
    requires forall j :: 0 <= j < |lines| ==> Absent(lines[j], CRLF) && |lines[j]| > 0
    requires i < |lines| && Absent(lines[i], ColonSpace)
    requires forall j :: 0 <= j < i ==> !Absent(lines[j], ColonSpace)
    ensures ParseSpec(Frame(status, lines, body)) == Err(MalformedHeader(lines[i]))
  {
    FrameParses(status, lines, body);
    HeaderMapFirstMalformed(lines, i);
  }
}
